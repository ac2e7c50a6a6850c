/** What `parseTSV` does to whole inputs, stated line by line: the trim of
    the whole input changes nothing, blank lines are invisible, the first
    non-blank line is dropped, and whitespace at the end of a row does not
    change its record. */
module ParseLaws {
  import opened JsText
  import opened NameTags
  import opened TsvParser

  /** The parse of an input already cut into lines: blank lines dropped,
      then the first remaining line taken as the header and every other
      line parsed. */
  function ParseLines(lines: seq<string>): seq<NameTagData>
  {
    var kept := KeepNonBlank(lines);
    if |kept| < 2 then [] else ParseRows(kept[1..])
  }

  /** Reading a column of a line built from tab-free columns gives that
      column back, and a column past the last reads as the empty string. */
  lemma {:induction false} ColumnOfJoin(cols: seq<string>, index: nat)
    requires forall i :: 0 <= i < |cols| ==> '\t' !in cols[i]
    ensures Column(Split(Join(cols, '\t'), '\t'), index) == if index < |cols| then cols[index] else []
  {
    if cols == [] {
      assert Split(Join(cols, '\t'), '\t') == [[]];
    } else {
      SplitJoin(cols, '\t');
    }
  }

  /** Two column lists whose columns trim to the same strings. */
  ghost predicate SameCells(a: seq<string>, b: seq<string>)
  {
    forall k: nat :: Trim(Column(a, k)) == Trim(Column(b, k))
  }

  /** A row's record depends on its columns only through their trimmed
      values. */
  lemma {:induction false} ParseRowByCells(l1: string, l2: string)
    requires SameCells(Split(l1, '\t'), Split(l2, '\t'))
    ensures ParseRow(l1) == ParseRow(l2)
  {
    var c1, c2 := Split(l1, '\t'), Split(l2, '\t');
    assert Trim(Column(c1, FirstNameColumn)) == Trim(Column(c2, FirstNameColumn));
    assert Trim(Column(c1, LastNameColumn)) == Trim(Column(c2, LastNameColumn));
    assert Trim(Column(c1, GradeColumn)) == Trim(Column(c2, GradeColumn));
    assert Trim(Column(c1, ClassRoomColumn)) == Trim(Column(c2, ClassRoomColumn));
    assert Trim(Column(c1, HomeroomColumn)) == Trim(Column(c2, HomeroomColumn));
    assert Trim(Column(c1, ActivityColumn)) == Trim(Column(c2, ActivityColumn));
    assert Trim(Column(c1, ActivityRoomColumn)) == Trim(Column(c2, ActivityRoomColumn));
  }

  /** A row of tab-free columns whose fields are already trimmed, and
      whose name columns are not both blank, gives a record holding those
      fields unchanged; columns past the ninth are ignored. */
  lemma {:induction false} CleanRow(cols: seq<string>)
    requires |cols| >= 9
    requires forall i :: 0 <= i < |cols| ==> '\t' !in cols[i]
    requires !(AllWhitespace(cols[FirstNameColumn]) && AllWhitespace(cols[LastNameColumn]))
    requires IsTrimmed(cols[GradeColumn]) && IsTrimmed(cols[ClassRoomColumn])
    requires IsTrimmed(cols[HomeroomColumn]) && IsTrimmed(cols[ActivityColumn])
    requires IsTrimmed(cols[ActivityRoomColumn])
    ensures ParseRow(Join(cols, '\t')) == Some(NameTagData(
      ComposeName(cols[FirstNameColumn], cols[LastNameColumn]),
      cols[GradeColumn], cols[ClassRoomColumn], cols[HomeroomColumn],
      cols[ActivityColumn], cols[ActivityRoomColumn]))
  {
    SplitJoin(cols, '\t');
    TrimOfTrimmed(cols[GradeColumn]);
    TrimOfTrimmed(cols[ClassRoomColumn]);
    TrimOfTrimmed(cols[HomeroomColumn]);
    TrimOfTrimmed(cols[ActivityColumn]);
    TrimOfTrimmed(cols[ActivityRoomColumn]);
  }

  /** Whitespace at the end of a row, a tab included, does not change its
      record: a tab only adds an empty column, anything else only pads the
      last column. */
  lemma {:induction false} ParseRowSnoc(line: string, c: char)
    requires IsWhitespace(c)
    ensures ParseRow(line + [c]) == ParseRow(line)
  {
    var cols, cols' := Split(line, '\t'), Split(line + [c], '\t');
    SplitSnoc(line, c, '\t');
    var n := |cols|;
    forall k: nat
      ensures Trim(Column(cols', k)) == Trim(Column(cols, k))
    {
      if k < n - 1 || (c == '\t' && k < n) {
        assert cols'[k] == cols[k];
      } else if k == n - 1 {
        assert cols'[k] == cols[k] + [c];
        TrimIgnoresTrailing(cols[k], [c]);
      }
    }
    ParseRowByCells(line + [c], line);
  }

  lemma {:induction false} KeepNonBlankAppend(a: seq<string>, b: seq<string>)
    ensures KeepNonBlank(a + b) == KeepNonBlank(a) + KeepNonBlank(b)
    decreases |a|
  {
    if a == [] {
      assert a + b == b;
    } else {
      assert (a + b)[1..] == a[1..] + b;
      KeepNonBlankAppend(a[1..], b);
    }
  }

  /** Lines that are all non-blank are all kept. */
  lemma {:induction false} KeepNonBlankAll(lines: seq<string>)
    requires forall k :: 0 <= k < |lines| ==> !AllWhitespace(lines[k])
    ensures KeepNonBlank(lines) == lines
    decreases |lines|
  {
    if lines != [] {
      KeepNonBlankAll(lines[1..]);
      TrimEmptyIff(lines[0]);
    }
  }

  lemma {:induction false} KeepOne(line: string)
    ensures KeepNonBlank([line]) == if AllWhitespace(line) then [] else [line]
  {
    TrimEmptyIff(line);
    assert [line][1..] == [];
  }

  /** A blank line anywhere in the input changes nothing. */
  lemma {:induction false} BlankLineInvisible(before: seq<string>, blank: string, after: seq<string>)
    requires AllWhitespace(blank)
    ensures ParseLines(before + [blank] + after) == ParseLines(before + after)
  {
    KeepNonBlankAppend(before + [blank], after);
    KeepNonBlankAppend(before, [blank]);
    KeepNonBlankAppend(before, after);
    KeepOne(blank);
    assert KeepNonBlank(before) + [] == KeepNonBlank(before);
  }

  /** Whitespace at the start of the input changes nothing: a newline adds
      a blank line, anything else pads the first line, which is dropped as
      the header or stays blank. */
  lemma {:induction false} ParseCons(c: char, s: string)
    requires IsWhitespace(c)
    ensures ParseLines(Split([c] + s, '\n')) == ParseLines(Split(s, '\n'))
  {
    var lines := Split(s, '\n');
    assert ([c] + s)[1..] == s;
    var lines' := Split([c] + s, '\n');
    if c == '\n' {
      assert lines' == [[]] + lines;
      KeepNonBlankAppend([[]], lines);
      KeepOne([]);
    } else {
      var first := [c] + lines[0];
      assert lines' == [first] + lines[1..];
      assert lines == [lines[0]] + lines[1..];
      WhitespaceConcat([c], lines[0]);
      KeepNonBlankAppend([first], lines[1..]);
      KeepNonBlankAppend([lines[0]], lines[1..]);
      KeepOne(first);
      KeepOne(lines[0]);
    }
  }

  /** Whitespace at the end of the input changes nothing: a newline adds a
      blank line, anything else pads the last line, which stays blank, is
      the header, or keeps its record (ParseRowSnoc). */
  lemma {:induction false} ParseSnoc(s: string, c: char)
    requires IsWhitespace(c)
    ensures ParseLines(Split(s + [c], '\n')) == ParseLines(Split(s, '\n'))
  {
    var lines := Split(s, '\n');
    if c == '\n' {
      SplitSnocSep(s, '\n');
      BlankLineInvisible(lines, [], []);
      assert lines + [[]] + [] == lines + [[]];
      assert lines + [] == lines;
    } else {
      SplitSnocOther(s, c, '\n');
      var n := |lines|;
      assert lines == lines[..n - 1] + [lines[n - 1]];
      LastLinePadded(lines[..n - 1], lines[n - 1], c);
    }
  }

  /** The last line padded with whitespace other than a newline. */
  lemma {:induction false} LastLinePadded(init: seq<string>, last: string, c: char)
    requires IsWhitespace(c)
    ensures ParseLines(init + [last + [c]]) == ParseLines(init + [last])
  {
    WhitespaceConcat(last, [c]);
    if AllWhitespace(last) {
      BlankLineInvisible(init, last, []);
      BlankLineInvisible(init, last + [c], []);
      assert init + [last] + [] == init + [last];
      assert init + [last + [c]] + [] == init + [last + [c]];
    } else {
      LastLine(init, last);
      LastLine(init, last + [c]);
      ParseRowsSingle(last);
      ParseRowsSingle(last + [c]);
      ParseRowSnoc(last, c);
    }
  }

  /** A non-blank last line is a data row unless it is the only non-blank
      line. */
  lemma {:induction false} LastLine(init: seq<string>, last: string)
    requires !AllWhitespace(last)
    ensures var kept := KeepNonBlank(init);
      ParseLines(init + [last]) == if kept == [] then [] else ParseRows(kept[1..]) + ParseRows([last])
  {
    KeepNonBlankAppend(init, [last]);
    KeepOne(last);
    var kept := KeepNonBlank(init);
    assert KeepNonBlank(init + [last]) == kept + [last];
    if kept != [] {
      assert (kept + [last])[1..] == kept[1..] + [last];
      ParseRowsAppend(kept[1..], [last]);
    }
  }

  lemma {:induction false} LeadingWhitespaceIgnored(p: string, s: string)
    requires AllWhitespace(p)
    ensures ParseLines(Split(p + s, '\n')) == ParseLines(Split(s, '\n'))
    decreases |p|
  {
    if p == [] {
      assert p + s == s;
    } else {
      assert p + s == [p[0]] + (p[1..] + s);
      assert AllWhitespace(p[1..]);
      ParseCons(p[0], p[1..] + s);
      LeadingWhitespaceIgnored(p[1..], s);
    }
  }

  lemma {:induction false} TrailingWhitespaceIgnored(s: string, q: string)
    requires AllWhitespace(q)
    ensures ParseLines(Split(s + q, '\n')) == ParseLines(Split(s, '\n'))
    decreases |q|
  {
    if q == [] {
      assert s + q == s;
    } else {
      var q' := q[..|q| - 1];
      assert AllWhitespace(q');
      assert s + q == (s + q') + [q[|q| - 1]];
      ParseSnoc(s + q', q[|q| - 1]);
      TrailingWhitespaceIgnored(s, q');
    }
  }

  /** Trimming the whole input first is immaterial: `parseTSV` is the line
      parse of the raw input cut at every newline. */
  lemma {:induction false} ParseTsvIsParseLines(input: string)
    ensures ParseTsv(input) == ParseLines(Split(input, '\n'))
  {
    var p, q := TrimPadding(input);
    var t := Trim(input);
    if t == [] {
      KeepOne([]);
    }
    assert input == p + (t + q);
    LeadingWhitespaceIgnored(p, t + q);
    TrailingWhitespaceIgnored(t, q);
  }

  /** An input given as its lines joined by newlines is parsed line by line. */
  lemma {:induction false} ParseTsvOfLines(lines: seq<string>)
    requires |lines| >= 1
    requires forall k :: 0 <= k < |lines| ==> '\n' !in lines[k]
    ensures ParseTsv(Join(lines, '\n')) == ParseLines(lines)
  {
    ParseTsvIsParseLines(Join(lines, '\n'));
    SplitJoin(lines, '\n');
  }

  /** A header and data rows, none of them blank: the header gives no
      record, and the rows give exactly what they give on their own. */
  lemma {:induction false} HeaderSkipped(header: string, rows: seq<string>)
    requires !AllWhitespace(header) && '\n' !in header
    requires forall k :: 0 <= k < |rows| ==> !AllWhitespace(rows[k]) && '\n' !in rows[k]
    ensures ParseTsv(Join([header] + rows, '\n')) == ParseRows(rows)
  {
    var lines := [header] + rows;
    assert forall k :: 0 <= k < |lines| ==> !AllWhitespace(lines[k]) && '\n' !in lines[k] by {
      forall k | 0 <= k < |lines|
        ensures !AllWhitespace(lines[k]) && '\n' !in lines[k]
      {
        if k > 0 {
          assert lines[k] == rows[k - 1];
        }
      }
    }
    ParseTsvOfLines(lines);
    HeaderLineSkipped(lines);
  }

  lemma {:induction false} HeaderLineSkipped(lines: seq<string>)
    requires |lines| >= 1
    requires forall k :: 0 <= k < |lines| ==> !AllWhitespace(lines[k])
    ensures ParseLines(lines) == ParseRows(lines[1..])
  {
    KeepNonBlankAll(lines);
  }

  /** A header and N data rows that all have a name give exactly N
      records, the k-th from the k-th row. */
  lemma {:induction false} NamedRowsAllKept(header: string, rows: seq<string>)
    requires !AllWhitespace(header) && '\n' !in header
    requires forall k :: 0 <= k < |rows| ==> !AllWhitespace(rows[k]) && '\n' !in rows[k]
    requires forall k :: 0 <= k < |rows| ==> ParseRow(rows[k]).Some?
    ensures |ParseTsv(Join([header] + rows, '\n'))| == |rows|
    ensures forall k :: 0 <= k < |rows| ==> ParseTsv(Join([header] + rows, '\n'))[k] == ParseRow(rows[k]).value
  {
    HeaderSkipped(header, rows);
    ParseRowsAllNamed(rows);
  }
}
