/** The two JavaScript string primitives the TSV parser is built from:
    `String.prototype.trim` and `String.prototype.split` with a one-character
    separator, together with the facts about them that the parser's proofs use. */
module JsText {

  /** The code points ECMAScript calls WhiteSpace or LineTerminator: exactly the
      characters `trim` removes from both ends of a string. */
  predicate IsWhitespace(c: char)
  {
    c == '\t' || c == '\n' || c == '\U{B}' || c == '\U{C}' || c == '\r' || c == ' '
    || c == '\U{A0}' || c == '\U{1680}' || ('\U{2000}' <= c <= '\U{200A}')
    || c == '\U{2028}' || c == '\U{2029}' || c == '\U{202F}' || c == '\U{205F}'
    || c == '\U{3000}' || c == '\U{FEFF}'
  }

  predicate AllWhitespace(s: string)
  {
    forall i :: 0 <= i < |s| ==> IsWhitespace(s[i])
  }

  /** Neither starts nor ends with whitespace. */
  predicate IsTrimmed(s: string)
  {
    s == [] || (!IsWhitespace(s[0]) && !IsWhitespace(s[|s| - 1]))
  }

  /** Drops the leading whitespace. */
  function TrimStart(s: string): (r: string)
    ensures |r| <= |s|
    ensures r == [] || !IsWhitespace(r[0])
    decreases |s|
  {
    if s != [] && IsWhitespace(s[0]) then TrimStart(s[1..]) else s
  }

  /** Drops the trailing whitespace. */
  function TrimEnd(s: string): (r: string)
    ensures |r| <= |s|
    ensures r == [] || !IsWhitespace(r[|r| - 1])
    ensures r != [] ==> r[0] == s[0]
    decreases |s|
  {
    if s != [] && IsWhitespace(s[|s| - 1]) then TrimEnd(s[..|s| - 1]) else s
  }

  /** `String.prototype.trim`: the result has no whitespace at either end
      (TrimPadding shows it is what is left of `s` once the whitespace at
      both ends is gone, and TrimOfPadded that this determines it). */
  function Trim(s: string): (r: string)
    ensures IsTrimmed(r)
    ensures |r| <= |s|
  {
    TrimEnd(TrimStart(s))
  }

  /** What TrimStart drops is whitespace, and it drops nothing else. */
  lemma {:induction false} LeadingPadding(s: string) returns (p: string)
    ensures s == p + TrimStart(s) && AllWhitespace(p)
    decreases |s|
  {
    if s != [] && IsWhitespace(s[0]) {
      var p' := LeadingPadding(s[1..]);
      p := [s[0]] + p';
      assert s == [s[0]] + s[1..];
      assert TrimStart(s) == TrimStart(s[1..]);
      WhitespaceConcat([s[0]], p');
    } else {
      p := [];
    }
  }

  /** What TrimEnd drops is whitespace, and it drops nothing else. */
  lemma {:induction false} TrailingPadding(s: string) returns (q: string)
    ensures s == TrimEnd(s) + q && AllWhitespace(q)
    decreases |s|
  {
    if s != [] && IsWhitespace(s[|s| - 1]) {
      var q' := TrailingPadding(s[..|s| - 1]);
      q := q' + [s[|s| - 1]];
      assert s == s[..|s| - 1] + [s[|s| - 1]];
      assert TrimEnd(s) == TrimEnd(s[..|s| - 1]);
      WhitespaceConcat(q', [s[|s| - 1]]);
    } else {
      q := [];
    }
  }

  /** `s` is its trimmed form with whitespace before and after it. */
  lemma {:induction false} TrimPadding(s: string) returns (p: string, q: string)
    ensures s == p + Trim(s) + q
    ensures AllWhitespace(p) && AllWhitespace(q)
  {
    p := LeadingPadding(s);
    q := TrailingPadding(TrimStart(s));
  }

  lemma {:induction false} TrimStartOfPadded(p: string, t: string)
    requires AllWhitespace(p)
    requires t == [] || !IsWhitespace(t[0])
    ensures TrimStart(p + t) == t
    decreases |p|
  {
    if p == [] {
      assert p + t == t;
    } else {
      assert (p + t)[1..] == p[1..] + t;
      TrimStartOfPadded(p[1..], t);
    }
  }

  lemma {:induction false} TrimEndOfPadded(t: string, q: string)
    requires AllWhitespace(q)
    requires t == [] || !IsWhitespace(t[|t| - 1])
    ensures TrimEnd(t + q) == t
    decreases |q|
  {
    if q == [] {
      assert t + q == t;
    } else {
      assert (t + q)[..|t + q| - 1] == t + q[..|q| - 1];
      TrimEndOfPadded(t, q[..|q| - 1]);
    }
  }

  /** Together with TrimPadding this determines Trim: a trimmed string with
      whitespace around it trims to itself. */
  lemma {:induction false} TrimOfPadded(p: string, r: string, q: string)
    requires AllWhitespace(p) && AllWhitespace(q) && IsTrimmed(r)
    ensures Trim(p + r + q) == r
  {
    if r == [] {
      assert p + r + q == p + q;
      WhitespaceConcat(p, q);
      TrimStartOfPadded(p + q, []);
      assert p + q + [] == p + q;
    } else {
      assert p + r + q == p + (r + q);
      TrimStartOfPadded(p, r + q);
      TrimEndOfPadded(r, q);
    }
  }

  /** Trimming twice is trimming once. */
  lemma {:induction false} TrimIdempotent(s: string)
    ensures Trim(Trim(s)) == Trim(s)
  {
    TrimOfTrimmed(Trim(s));
  }

  lemma {:induction false} TrimOfTrimmed(s: string)
    requires IsTrimmed(s)
    ensures Trim(s) == s
  {
    TrimOfPadded([], s, []);
    assert [] + s + [] == s;
  }

  /** Trim yields the empty string exactly for the all-whitespace strings. */
  lemma {:induction false} TrimEmptyIff(s: string)
    ensures Trim(s) == [] <==> AllWhitespace(s)
  {
    if AllWhitespace(s) {
      TrimOfPadded(s, [], []);
      assert s + [] + [] == s;
    } else {
      var p, q := TrimPadding(s);
      WhitespaceConcat(p, q);
      assert p + [] + q == p + q;
    }
  }

  /** Whitespace appended to a string does not change what Trim gives. */
  lemma {:induction false} TrimIgnoresTrailing(s: string, q: string)
    requires AllWhitespace(q)
    ensures Trim(s + q) == Trim(s)
  {
    var p0, q0 := TrimPadding(s);
    assert s + q == p0 + Trim(s) + (q0 + q);
    WhitespaceConcat(q0, q);
    TrimOfPadded(p0, Trim(s), q0 + q);
  }

  /** Whitespace put in front of a string does not change what Trim gives. */
  lemma {:induction false} TrimIgnoresLeading(p: string, s: string)
    requires AllWhitespace(p)
    ensures Trim(p + s) == Trim(s)
  {
    var p0, q0 := TrimPadding(s);
    assert p + s == (p + p0) + Trim(s) + q0;
    WhitespaceConcat(p, p0);
    TrimOfPadded(p + p0, Trim(s), q0);
  }

  lemma {:induction false} WhitespaceConcat(a: string, b: string)
    ensures AllWhitespace(a + b) <==> AllWhitespace(a) && AllWhitespace(b)
  {
    if AllWhitespace(a + b) {
      forall i | 0 <= i < |a| ensures IsWhitespace(a[i]) {
        assert (a + b)[i] == a[i];
      }
      forall i | 0 <= i < |b| ensures IsWhitespace(b[i]) {
        assert (a + b)[|a| + i] == b[i];
      }
    }
  }

  /** The pieces joined back together with `sep` between them. */
  function Join(parts: seq<string>, sep: char): string
  {
    if |parts| == 0 then []
    else if |parts| == 1 then parts[0]
    else parts[0] + [sep] + Join(parts[1..], sep)
  }

  /** `String.prototype.split` with a one-character separator: the maximal
      separator-free pieces of `s`, in order. There is always at least one
      piece, the empty string splits into one empty piece, and joining the
      pieces with `sep` gives back `s`. */
  function Split(s: string, sep: char): (parts: seq<string>)
    ensures |parts| >= 1
    ensures forall i :: 0 <= i < |parts| ==> sep !in parts[i]
    ensures Join(parts, sep) == s
    decreases |s|
  {
    if s == [] then [[]]
    else
      var rest := Split(s[1..], sep);
      if s[0] == sep then
        assert Join([[]] + rest, sep) == [sep] + Join(rest, sep);
        [[]] + rest
      else
        var parts := [[s[0]] + rest[0]] + rest[1..];
        assert parts[1..] == rest[1..];
        assert Join(parts, sep) == [s[0]] + Join(rest, sep);
        parts
  }

  /** Split undoes Join: separator-free pieces come back unchanged. */
  lemma {:induction false} SplitJoin(parts: seq<string>, sep: char)
    requires |parts| >= 1
    requires forall i :: 0 <= i < |parts| ==> sep !in parts[i]
    ensures Split(Join(parts, sep), sep) == parts
    decreases |parts|
  {
    if |parts| == 1 {
      SplitOfPiece(parts[0], sep, []);
    } else {
      SplitJoin(parts[1..], sep);
      SplitOfPiece(parts[0], sep, [Join(parts[1..], sep)]);
      assert [parts[0]] + parts[1..] == parts;
    }
  }

  /** A separator-free word followed by nothing, or by a separator and a rest. */
  lemma {:induction false} SplitOfPiece(w: string, sep: char, tail: seq<string>)
    requires sep !in w
    requires |tail| <= 1
    ensures tail == [] ==> Split(w, sep) == [w]
    ensures |tail| == 1 ==> Split(w + [sep] + tail[0], sep) == [w] + Split(tail[0], sep)
    decreases |w|
  {
    if w == [] {
      if |tail| == 1 {
        assert w + [sep] + tail[0] == [sep] + tail[0];
        assert ([sep] + tail[0])[1..] == tail[0];
      }
    } else {
      SplitOfPiece(w[1..], sep, tail);
      if |tail| == 1 {
        assert (w + [sep] + tail[0])[1..] == w[1..] + [sep] + tail[0];
      }
      assert [w[0]] + w[1..] == w;
    }
  }

  /** One more character at the end: a separator opens a new, empty piece;
      anything else extends the last piece. */
  lemma {:induction false} SplitSnoc(s: string, c: char, sep: char)
    ensures var parts := Split(s, sep);
      Split(s + [c], sep)
        == if c == sep then parts + [[]] else parts[..|parts| - 1] + [parts[|parts| - 1] + [c]]
  {
    if c == sep {
      SplitSnocSep(s, sep);
    } else {
      SplitSnocOther(s, c, sep);
    }
  }

  lemma {:induction false} SplitSnocSep(s: string, sep: char)
    ensures Split(s + [sep], sep) == Split(s, sep) + [[]]
    decreases |s|
  {
    if s == [] {
      assert s + [sep] == [sep];
      assert [sep][1..] == [];
    } else {
      assert (s + [sep])[1..] == s[1..] + [sep];
      SplitSnocSep(s[1..], sep);
      if s[0] != sep {
        var rest := Split(s[1..], sep);
        assert (rest + [[]])[1..] == rest[1..] + [[]];
      }
    }
  }

  lemma {:induction false} SplitSnocOther(s: string, c: char, sep: char)
    requires c != sep
    ensures var parts := Split(s, sep);
      Split(s + [c], sep) == parts[..|parts| - 1] + [parts[|parts| - 1] + [c]]
    decreases |s|
  {
    if s == [] {
      assert s + [c] == [c];
      assert [c][1..] == [];
    } else {
      assert (s + [c])[1..] == s[1..] + [c];
      SplitSnocOther(s[1..], c, sep);
      var rest := Split(s[1..], sep);
      var rest' := Split(s[1..] + [c], sep);
      if s[0] != sep && |rest| > 1 {
        assert rest'[0] == rest[0];
        assert rest'[1..] == rest[1..|rest| - 1] + [rest[|rest| - 1] + [c]];
      }
    }
  }

  /** A character that is neither the separator nor in any piece is not in
      the joined string. */
  lemma {:induction false} JoinAvoids(parts: seq<string>, sep: char, c: char)
    requires c != sep
    requires forall i :: 0 <= i < |parts| ==> c !in parts[i]
    ensures c !in Join(parts, sep)
    decreases |parts|
  {
    if |parts| > 1 {
      JoinAvoids(parts[1..], sep, c);
    }
  }
}
