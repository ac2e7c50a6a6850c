/** The parser: pasted spreadsheet text (tab-separated columns, one row per
    line, a header row first) to name tag records. It never fails; every
    malformed input yields fewer records, or none. */
module TsvParser {
  import opened JsText
  import opened NameTags

  /** A row that yields a record, or one that is skipped. */
  datatype Option<T> = None | Some(value: T)

  /** `Math.max` over a non-empty list. */
  function Max(xs: seq<nat>): (m: nat)
    requires |xs| > 0
    ensures m in xs
    ensures forall k :: 0 <= k < |xs| ==> xs[k] <= m
  {
    if |xs| == 1 then xs[0]
    else
      var m := Max(xs[1..]);
      assert forall k :: 1 <= k < |xs| ==> xs[k] == xs[1..][k - 1];
      if xs[0] >= m then xs[0] else m
  }

  /** The column count below which a row is reported as short: one more than
      the largest position read, which is nine (one past column I). Being
      short is only ever reported, never a reason to skip the row
      (TsvExamples.ShortRow). */
  function IsShortRow(cols: seq<string>): (short: bool)
    ensures short <==> |cols| < ActivityRoomColumn + 1
    ensures short <==> |cols| < 9
  {
    assert ColumnPositions[6] == ActivityRoomColumn;
    |cols| < Max(ColumnPositions) + 1
  }

  /** `cols[index] || ''`: a column the row does not have reads as empty. */
  function Column(cols: seq<string>, index: nat): string
  {
    if index < |cols| then cols[index] else []
  }

  /** A field of the record: the column, trimmed. */
  function Cell(cols: seq<string>, index: nat): (cell: string)
    ensures IsTrimmed(cell)
    ensures index >= |cols| ==> cell == []
  {
    Trim(Column(cols, index))
  }

  /** The name printed on a tag: first and last name, each trimmed, joined by
      one space, and the whole trimmed again. It is empty exactly when both
      parts are blank; a blank part leaves the other part alone. */
  function ComposeName(first: string, last: string): (name: string)
    ensures IsTrimmed(name)
    ensures name == [] <==> AllWhitespace(first) && AllWhitespace(last)
    ensures AllWhitespace(last) ==> name == Trim(first)
    ensures AllWhitespace(first) ==> name == Trim(last)
    ensures !AllWhitespace(first) && !AllWhitespace(last) ==> name == Trim(first) + " " + Trim(last)
  {
    var f, l := Trim(first), Trim(last);
    TrimEmptyIff(first);
    TrimEmptyIff(last);
    ComposedParts(f, l);
    Trim(f + " " + l)
  }

  /** The facts behind ComposeName's contract, for already trimmed parts. */
  lemma {:induction false} ComposedParts(f: string, l: string)
    requires IsTrimmed(f) && IsTrimmed(l)
    ensures Trim(f + " " + l) == [] <==> f == [] && l == []
    ensures l == [] ==> Trim(f + " " + l) == f
    ensures f == [] ==> Trim(f + " " + l) == l
    ensures f != [] && l != [] ==> Trim(f + " " + l) == f + " " + l
  {
    if l == [] {
      TrimIgnoresTrailing(f, " ");
      TrimOfTrimmed(f);
      assert f + " " + l == f + " ";
    } else if f == [] {
      TrimIgnoresLeading(" ", l);
      TrimOfTrimmed(l);
      assert f + " " + l == " " + l;
    } else {
      var s := f + " " + l;
      assert s[0] == f[0] && s[|s| - 1] == l[|l| - 1];
      TrimOfTrimmed(s);
    }
  }

  /** One data line: its columns are the tab-separated pieces. The row is
      skipped exactly when both name columns are blank or missing; otherwise
      its record holds the composed name and the trimmed columns 4 to 8, a
      missing column giving an empty field. */
  function ParseRow(line: string): (row: Option<NameTagData>)
    ensures var cols := Split(line, '\t');
      row.None? <==> AllWhitespace(Column(cols, FirstNameColumn)) && AllWhitespace(Column(cols, LastNameColumn))
    ensures row.Some? ==> IsWellFormed(row.value)
    ensures var cols := Split(line, '\t');
      row.Some? ==> row.value == NameTagData(
        ComposeName(Column(cols, FirstNameColumn), Column(cols, LastNameColumn)),
        Cell(cols, GradeColumn), Cell(cols, ClassRoomColumn), Cell(cols, HomeroomColumn),
        Cell(cols, ActivityColumn), Cell(cols, ActivityRoomColumn))
  {
    var cols := Split(line, '\t');
    var name := ComposeName(Column(cols, FirstNameColumn), Column(cols, LastNameColumn));
    if name == [] then None
    else Some(NameTagData(
      name,
      Cell(cols, GradeColumn),
      Cell(cols, ClassRoomColumn),
      Cell(cols, HomeroomColumn),
      Cell(cols, ActivityColumn),
      Cell(cols, ActivityRoomColumn)))
  }

  /** `.filter((item) => item !== null)`: the values that are present, in
      their order. */
  function Somes<T(==)>(opts: seq<Option<T>>): (vals: seq<T>)
    ensures |vals| <= |opts|
    ensures forall k :: 0 <= k < |vals| ==> Some(vals[k]) in opts
    ensures forall j :: 0 <= j < |opts| && opts[j].Some? ==> opts[j].value in vals
  {
    if opts == [] then []
    else
      var rest := Somes(opts[1..]);
      assert forall j :: 1 <= j < |opts| ==> opts[j] == opts[1..][j - 1];
      if opts[0].Some? then [opts[0].value] + rest else rest
  }

  /** `xs.map(f)`: f applied to the first element, then to the rest. */
  function Map<A, B>(xs: seq<A>, f: A -> B): (ys: seq<B>)
    ensures |ys| == |xs|
    ensures forall j :: 0 <= j < |xs| ==> ys[j] == f(xs[j])
  {
    if xs == [] then []
    else
      var rest := Map(xs[1..], f);
      assert forall j :: 1 <= j < |xs| ==> xs[j] == xs[1..][j - 1];
      [f(xs[0])] + rest
  }

  lemma {:induction false} MapAppend<A, B>(a: seq<A>, b: seq<A>, f: A -> B)
    ensures Map(a + b, f) == Map(a, f) + Map(b, f)
  {
    assert forall j :: 0 <= j < |a| ==> (a + b)[j] == a[j];
    assert forall j :: |a| <= j < |a| + |b| ==> (a + b)[j] == b[j - |a|];
  }

  /** The data lines, each parsed on its own, the skipped ones left out. */
  function ParseRows(lines: seq<string>): (tags: seq<NameTagData>)
    ensures |tags| <= |lines|
    ensures forall k :: 0 <= k < |tags| ==> IsWellFormed(tags[k])
  {
    var rows := Map(lines, ParseRow);
    var tags := Somes(rows);
    assert forall k :: 0 <= k < |tags| ==> Some(tags[k]) in rows;
    tags
  }

  /** The lines that are not blank (all whitespace, tabs included), in order. */
  function KeepNonBlank(lines: seq<string>): (kept: seq<string>)
    ensures |kept| <= |lines|
    ensures forall k :: 0 <= k < |kept| ==> !AllWhitespace(kept[k]) && kept[k] in lines
    ensures forall l :: l in lines && !AllWhitespace(l) ==> l in kept
  {
    if lines == [] then []
    else
      var rest := KeepNonBlank(lines[1..]);
      TrimEmptyIff(lines[0]);
      assert forall l :: l in lines[1..] ==> l in lines;
      if Trim(lines[0]) != [] then [lines[0]] + rest else rest
  }

  /** The input, trimmed, cut into lines, the blank lines dropped. */
  function NonBlankLines(input: string): (lines: seq<string>)
    ensures forall k :: 0 <= k < |lines| ==> !AllWhitespace(lines[k]) && '\n' !in lines[k]
  {
    KeepNonBlank(Split(Trim(input), '\n'))
  }

  /** `parseTSV`: the first non-blank line is a header and is dropped
      unread; each further non-blank line that has a name gives one record.
      Blank input, and input with fewer than two non-blank lines, give no
      records. */
  function ParseTsv(input: string): (tags: seq<NameTagData>)
    ensures AllWhitespace(input) ==> tags == []
    ensures |NonBlankLines(input)| < 2 ==> tags == []
    ensures tags == [] || |tags| < |NonBlankLines(input)|
    ensures forall k :: 0 <= k < |tags| ==> IsWellFormed(tags[k])
  {
    TrimEmptyIff(input);
    if Trim(input) == [] then []
    else
      var lines := NonBlankLines(input);
      if |lines| < 2 then [] else ParseRows(lines[1..])
  }

  lemma {:induction false} SomesAppend<T>(a: seq<Option<T>>, b: seq<Option<T>>)
    ensures Somes(a + b) == Somes(a) + Somes(b)
  {
    if a == [] {
      assert a + b == b;
    } else {
      assert (a + b)[1..] == a[1..] + b;
      SomesAppend(a[1..], b);
    }
  }

  lemma {:induction false} SomesAllPresent<T>(opts: seq<Option<T>>)
    requires forall j :: 0 <= j < |opts| ==> opts[j].Some?
    ensures |Somes(opts)| == |opts|
    ensures forall k :: 0 <= k < |opts| ==> Somes(opts)[k] == opts[k].value
  {
    if opts != [] {
      SomesAllPresent(opts[1..]);
    }
  }

  /** Parsing distributes over joining two blocks of lines. */
  lemma {:induction false} ParseRowsAppend(a: seq<string>, b: seq<string>)
    ensures ParseRows(a + b) == ParseRows(a) + ParseRows(b)
  {
    MapAppend(a, b, ParseRow);
    SomesAppend(Map(a, ParseRow), Map(b, ParseRow));
  }

  /** A line without a name changes nothing around it: the records of the
      other lines, their order and their count, are those without it. */
  lemma {:induction false} SkippedRowInvisible(before: seq<string>, line: string, after: seq<string>)
    requires ParseRow(line).None?
    ensures ParseRows(before + [line] + after) == ParseRows(before + after)
  {
    ParseRowsAppend(before + [line], after);
    ParseRowsAppend(before, [line]);
    ParseRowsAppend(before, after);
    ParseRowsSingle(line);
  }

  /** One line gives its record, or nothing when it has no name. */
  lemma {:induction false} ParseRowsSingle(line: string)
    ensures ParseRows([line]) == if ParseRow(line).Some? then [ParseRow(line).value] else []
  {
    var rows := Map([line], ParseRow);
    assert rows == [ParseRow(line)];
    assert rows[1..] == [];
  }

  /** When every line has a name, there is one record per line, in order. */
  lemma {:induction false} ParseRowsAllNamed(lines: seq<string>)
    requires forall j :: 0 <= j < |lines| ==> ParseRow(lines[j]).Some?
    ensures |ParseRows(lines)| == |lines|
    ensures forall k :: 0 <= k < |lines| ==> ParseRows(lines)[k] == ParseRow(lines[k]).value
  {
    SomesAllPresent(Map(lines, ParseRow));
  }

  /** The value of a present entry sits right after the values of the
      entries before it. */
  lemma {:induction false} SomesPosition<T>(opts: seq<Option<T>>, j: nat)
    requires j < |opts| && opts[j].Some?
    ensures var pos := |Somes(opts[..j])|;
      pos < |Somes(opts)| && Somes(opts)[pos] == opts[j].value
  {
    var before, after := opts[..j], opts[j + 1..];
    assert opts == before + [opts[j]] + after;
    SomesAppend(before + [opts[j]], after);
    SomesAppend(before, [opts[j]]);
    assert [opts[j]][1..] == [];
  }

  lemma {:induction false} SomesOrder<T>(opts: seq<Option<T>>, j: nat, i: nat)
    requires j < i <= |opts| && opts[j].Some?
    ensures |Somes(opts[..j])| < |Somes(opts[..i])|
  {
    var before, after := opts[..j], opts[j + 1..i];
    assert opts[..i] == before + [opts[j]] + after;
    SomesAppend(before + [opts[j]], after);
    SomesAppend(before, [opts[j]]);
    assert [opts[j]][1..] == [];
  }

  /** The record of a line with a name sits right after the records of the
      lines before it. */
  lemma {:induction false} ParseRowsPosition(lines: seq<string>, j: nat)
    requires j < |lines| && ParseRow(lines[j]).Some?
    ensures var pos := |ParseRows(lines[..j])|;
      pos < |ParseRows(lines)| && ParseRows(lines)[pos] == ParseRow(lines[j]).value
  {
    var rows := Map(lines, ParseRow);
    assert Map(lines[..j], ParseRow) == rows[..j];
    SomesPosition(rows, j);
  }

  /** So the records keep the order of their lines: a line with a name has
      its record before the records of all later lines. */
  lemma {:induction false} ParseRowsOrder(lines: seq<string>, j: nat, i: nat)
    requires j < i <= |lines| && ParseRow(lines[j]).Some?
    ensures |ParseRows(lines[..j])| < |ParseRows(lines[..i])|
  {
    var rows := Map(lines, ParseRow);
    assert Map(lines[..j], ParseRow) == rows[..j];
    assert Map(lines[..i], ParseRow) == rows[..i];
    SomesOrder(rows, j, i);
  }
}
