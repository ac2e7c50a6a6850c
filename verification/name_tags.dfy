/** The record the parser produces, and the constants that fix the layout of
    the input rows and of the printed pages. */
module NameTags {
  import opened JsText

  /** One person's name tag. */
  datatype NameTagData = NameTagData(
    name: string,
    grade: string,
    classRoom: string,
    homeroom: string,
    activity: string,
    activityRoom: string)

  /** Name tags on one printed sheet (two columns by three rows). */
  const NameTagsPerPage: nat := 6

  /** Zero-based positions of the fields in a tab-separated row: the
      spreadsheet columns C to I. Columns A and B are never read. */
  const FirstNameColumn: nat := 2
  const LastNameColumn: nat := 3
  const GradeColumn: nat := 4
  const ClassRoomColumn: nat := 5
  const HomeroomColumn: nat := 6
  const ActivityColumn: nat := 7
  const ActivityRoomColumn: nat := 8

  /** Every column position the parser reads. */
  const ColumnPositions: seq<nat> := [
    FirstNameColumn, LastNameColumn, GradeColumn, ClassRoomColumn,
    HomeroomColumn, ActivityColumn, ActivityRoomColumn]

  /** What every record coming out of the parser satisfies: a name that is
      not empty, and no field with whitespace at either end. */
  predicate IsWellFormed(tag: NameTagData)
  {
    tag.name != []
    && IsTrimmed(tag.name) && IsTrimmed(tag.grade) && IsTrimmed(tag.classRoom)
    && IsTrimmed(tag.homeroom) && IsTrimmed(tag.activity) && IsTrimmed(tag.activityRoom)
  }
}
