/** The worked examples of the parser's and the paginator's documentation,
    and the behaviour on a short row, proved on the model. Each input is
    given as its columns joined by tabs and its lines joined by a newline,
    which is the text a spreadsheet copy produces. */
module TsvExamples {
  import opened JsText
  import opened NameTags
  import opened TsvParser
  import opened ParseLaws
  import opened Pagination

  /** A blank last name leaves the trimmed first name. */
  lemma {:induction false} FirstNameOnly(first: string, last: string)
    requires first == " John " && last == ""
    ensures ComposeName(first, last) == "John"
  {
    assert first == " " + "John" + " ";
    assert !IsWhitespace("John"[0]) && !IsWhitespace("John"[3]);
    TrimOfPadded(" ", "John", " ");
  }

  /** Two non-blank parts are joined by one space. */
  lemma {:induction false} FullName(first: string, last: string)
    requires first == "John" && last == "Doe"
    ensures ComposeName(first, last) == "John Doe"
  {
    assert !IsWhitespace(first[0]) && !IsWhitespace(first[3]);
    assert !IsWhitespace(last[0]) && !IsWhitespace(last[2]);
    TrimOfTrimmed(first);
    TrimOfTrimmed(last);
  }

  /** The documented example's data row. */
  lemma {:induction false} DocRow(cols: seq<string>)
    requires cols == ["1", "", "John", "Doe", "5", "21", "Ms. Smith", "Art", "3"]
    ensures ParseRow(Join(cols, '\t')) == Some(NameTagData("John Doe", "5", "21", "Ms. Smith", "Art", "3"))
  {
    assert !IsWhitespace(cols[2][0]);
    assert !IsWhitespace(cols[6][0]) && !IsWhitespace(cols[6][8]);
    CleanRow(cols);
    FullName(cols[2], cols[3]);
  }

  /** The documented example: a header and one full row give one record,
      columns A and B unread. */
  lemma {:induction false} DocExample(header: string, cols: seq<string>)
    requires header == "A\tB\tC\tD\tE\tF\tG\tH\tI"
    requires cols == ["1", "", "John", "Doe", "5", "21", "Ms. Smith", "Art", "3"]
    ensures ParseTsv(Join([header, Join(cols, '\t')], '\n'))
      == [NameTagData("John Doe", "5", "21", "Ms. Smith", "Art", "3")]
    ensures var tags := ParseTsv(Join([header, Join(cols, '\t')], '\n'));
      Chunks(tags, NameTagsPerPage) == [tags]
  {
    var row := Join(cols, '\t');
    JoinAvoids(cols, '\t', '\n');
    assert row[0] == '1';
    assert !IsWhitespace(row[0]) && !IsWhitespace(header[0]);
    HeaderSkipped(header, [row]);
    ParseRowsSingle(row);
    DocRow(cols);
    var tags := ParseTsv(Join([header, row], '\n'));
    assert tags[..1] == tags && tags[1..] == [];
  }

  /** A row with only three columns is short, yet still gives a record:
      the missing columns read as empty fields. */
  lemma {:induction false} ShortRow(cols: seq<string>)
    requires cols == ["1", "", "John"]
    ensures IsShortRow(Split(Join(cols, '\t'), '\t'))
    ensures ParseRow(Join(cols, '\t')) == Some(NameTagData("John", "", "", "", "", ""))
  {
    SplitJoin(cols, '\t');
    assert !IsWhitespace(cols[2][0]) && !IsWhitespace(cols[2][3]);
    TrimOfTrimmed(cols[2]);
  }

  /** Ten records on pages of six: a full page, then the four left over. */
  lemma {:induction false} TenRecords<T>(data: seq<T>)
    requires |data| == 10
    ensures Chunks(data, NameTagsPerPage) == [data[..6], data[6..]]
  {
    var pages := Chunks(data, NameTagsPerPage);
    PageCount(data, NameTagsPerPage);
    assert |pages| == 15 / 6 == 2;
    ChunkAt(data, NameTagsPerPage, 0);
    ChunkAt(data, NameTagsPerPage, 1);
    assert pages[0] == data[0..6] == data[..6];
    assert pages[1] == data[6..10] == data[6..];
    assert pages == [pages[0], pages[1]];
  }

  /** Thirteen records: two full pages and one with a single record. */
  lemma {:induction false} ThirteenRecords<T>(data: seq<T>)
    requires |data| == 13
    ensures Chunks(data, NameTagsPerPage) == [data[..6], data[6..12], data[12..]]
  {
    var pages := Chunks(data, NameTagsPerPage);
    PageCount(data, NameTagsPerPage);
    assert |pages| == 18 / 6 == 3;
    ChunkAt(data, NameTagsPerPage, 0);
    ChunkAt(data, NameTagsPerPage, 1);
    ChunkAt(data, NameTagsPerPage, 2);
    assert pages[0] == data[0..6] == data[..6];
    assert pages[1] == data[6..12];
    assert pages[2] == data[12..13] == data[12..];
    assert pages == [pages[0], pages[1], pages[2]];
  }
}
