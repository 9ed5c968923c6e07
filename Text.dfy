/**
 * The three string operations the record store relies on, with Java's
 * semantics: `String.trim`, `String.split(";")` (limit 0, so trailing
 * empty strings are dropped) and `String.join(";", ...)`.
 */
module Text {

  /** The field separator of the record file. */
  const Delimiter: char := ';'

  /** `String.trim` treats every character at or below U+0020 as blank. */
  predicate IsBlank(c: char) {
    c <= ' '
  }

  /** The last element of a non-empty sequence. */
  function Last<T>(s: seq<T>): T
    requires |s| > 0
  {
    s[|s| - 1]
  }

  /** Drops the blank characters at the front of `s`. */
  function TrimStart(s: string): (r: string)
    ensures |r| <= |s| && r == s[|s| - |r|..]
    ensures r == [] || !IsBlank(r[0])
    ensures forall i :: 0 <= i < |s| - |r| ==> IsBlank(s[i])
  {
    if s != [] && IsBlank(s[0]) then TrimStart(s[1..]) else s
  }

  /** Drops the blank characters at the end of `s`. */
  function TrimEnd(s: string): (r: string)
    ensures |r| <= |s| && r == s[..|r|]
    ensures r == [] || !IsBlank(r[|r| - 1])
    ensures forall i :: |r| <= i < |s| ==> IsBlank(s[i])
  {
    if s != [] && IsBlank(s[|s| - 1]) then TrimEnd(s[..|s| - 1]) else s
  }

  /** `r` is the slice of `s` starting at `lo`, and all of `s` around it is blank. */
  ghost predicate TrimmedAt(s: string, r: string, lo: int) {
    && 0 <= lo <= lo + |r| <= |s|
    && r == s[lo..lo + |r|]
    && (forall i :: 0 <= i < lo ==> IsBlank(s[i]))
    && (forall i :: lo + |r| <= i < |s| ==> IsBlank(s[i]))
  }

  /**
   * A slice `t` at the end of `s` with blanks before it, cut to a slice `r`
   * at its start with blanks after it, is a slice of `s` with only blanks
   * around it.
   */
  lemma TrimmedInside(s: string, t: string, r: string)
    requires |t| <= |s| && t == s[|s| - |t|..]
    requires forall i :: 0 <= i < |s| - |t| ==> IsBlank(s[i])
    requires |r| <= |t| && r == t[..|r|]
    requires forall i :: |r| <= i < |t| ==> IsBlank(t[i])
    ensures TrimmedAt(s, r, |s| - |t|)
  {
    var lo := |s| - |t|;
    forall i | lo + |r| <= i < |s|
      ensures IsBlank(s[i])
    {
      assert s[i] == t[i - lo];
    }
  }

  /** Java's `String.trim`. */
  function Trim(s: string): (r: string)
    ensures r == [] || (!IsBlank(r[0]) && !IsBlank(r[|r| - 1]))
    ensures exists lo :: TrimmedAt(s, r, lo)
  {
    var t := TrimStart(s);
    var r := TrimEnd(t);
    TrimmedInside(s, t, r);
    r
  }

  /** Trimming an already trimmed string changes nothing. */
  lemma TrimIdempotent(s: string)
    ensures Trim(Trim(s)) == Trim(s)
  {
    var r := Trim(s);
    assert TrimStart(r) == r;
    assert TrimEnd(r) == r;
  }

  /** A trimmed string holds no delimiter the original did not. */
  lemma TrimKeepsNoDelimiter(s: string)
    requires Delimiter !in s
    ensures Delimiter !in Trim(s)
  {
  }

  /**
   * All the substrings between delimiters, the empty ones included: the
   * result of splitting before any trailing empty string is dropped.
   */
  function Pieces(s: string): (r: seq<string>)
    ensures |r| >= 1
    ensures Delimiter !in s ==> r == [s]
  {
    if s == [] then [[]]
    else if s[0] == Delimiter then [[]] + Pieces(s[1..])
    else
      var p := Pieces(s[1..]);
      assert s == [s[0]] + s[1..];
      [[s[0]] + p[0]] + p[1..]
  }

  /** No piece holds the delimiter. */
  lemma {:induction false} PiecesHaveNoDelimiter(s: string)
    ensures forall i :: 0 <= i < |Pieces(s)| ==> Delimiter !in Pieces(s)[i]
  {
    if s != [] {
      PiecesHaveNoDelimiter(s[1..]);
    }
  }

  /** Removes the empty strings at the end of `ps`. */
  function DropTrailingEmpty(ps: seq<string>): (r: seq<string>)
    ensures r <= ps
    ensures r == [] || r[|r| - 1] != []
    ensures forall i :: |r| <= i < |ps| ==> ps[i] == []
  {
    if ps != [] && ps[|ps| - 1] == [] then DropTrailingEmpty(ps[..|ps| - 1]) else ps
  }

  /**
   * Java's `s.split(";")`: a string without the delimiter comes back whole
   * (so the empty string gives one empty part); otherwise the parts between
   * delimiters, with the trailing empty parts dropped.
   */
  function Split(s: string): (r: seq<string>)
    ensures r <= Pieces(s)
    ensures forall i :: |r| <= i < |Pieces(s)| ==> Pieces(s)[i] == []
    ensures s == [] || r == [] || r[|r| - 1] != []
    ensures Delimiter !in s ==> r == [s]
  {
    if Delimiter !in s then [s] else DropTrailingEmpty(Pieces(s))
  }

  /**
   * Java's `String.join(";", fields)`: the line starts with the first field.
   */
  function Join(fields: seq<string>): (r: string)
    ensures |fields| >= 1 ==> fields[0] <= r
  {
    if fields == [] then []
    else if |fields| == 1 then fields[0]
    else fields[0] + [Delimiter] + Join(fields[1..])
  }

  /** Prefixing a character to the first piece commutes with appending more pieces. */
  lemma PrefixFirstPiece(c: char, p: seq<string>, q: seq<string>)
    requires |p| >= 1
    ensures [[c] + (p + q)[0]] + (p + q)[1..] == ([[c] + p[0]] + p[1..]) + q
  {
    assert (p + q)[0] == p[0];
    assert (p + q)[1..] == p[1..] + q;
  }

  /** Splitting at one delimiter: the pieces of both sides, concatenated. */
  lemma {:induction false} PiecesAround(a: string, t: string)
    ensures Pieces(a + [Delimiter] + t) == Pieces(a) + Pieces(t)
  {
    var s := a + [Delimiter] + t;
    if a == [] {
      assert s == [Delimiter] + t;
      assert s[1..] == t;
    } else {
      assert s[0] == a[0];
      assert s[1..] == a[1..] + [Delimiter] + t;
      PiecesAround(a[1..], t);
      if a[0] != Delimiter {
        PrefixFirstPiece(a[0], Pieces(a[1..]), Pieces(t));
      }
    }
  }

  /** Prefixing a character to the first piece prefixes it to the joined string. */
  lemma JoinPrefixFirstPiece(c: char, p: seq<string>)
    requires |p| >= 1
    ensures Join([[c] + p[0]] + p[1..]) == [c] + Join(p)
  {
    var q := [[c] + p[0]] + p[1..];
    assert |q| == |p| && q[0] == [c] + p[0];
    if |p| > 1 {
      var tail := Join(p[1..]);
      assert q[1..] == p[1..];
      assert Join(q) == ([c] + p[0]) + [Delimiter] + tail;
      PrefixAssociates(c, p[0], tail);
    }
  }

  /** Prefixing a character to the first of two joined strings prefixes it to the whole. */
  lemma PrefixAssociates(c: char, x: string, y: string)
    ensures ([c] + x) + [Delimiter] + y == [c] + (x + [Delimiter] + y)
  {
  }

  /** Joining the pieces of a string gives the string back. */
  lemma {:induction false} JoinPieces(s: string)
    ensures Join(Pieces(s)) == s
  {
    if s != [] {
      var p := Pieces(s[1..]);
      JoinPieces(s[1..]);
      if s[0] == Delimiter {
        var q := [[]] + p;
        assert q[0] == [] && q[1..] == p;
      } else {
        JoinPrefixFirstPiece(s[0], p);
      }
      assert s == [s[0]] + s[1..];
    }
  }

  /** Splitting what was joined gives the fields back, when no field holds the delimiter. */
  lemma {:induction false} PiecesJoin(fields: seq<string>)
    requires |fields| >= 1
    requires forall i :: 0 <= i < |fields| ==> Delimiter !in fields[i]
    ensures Pieces(Join(fields)) == fields
  {
    if |fields| > 1 {
      var rest := fields[1..];
      assert Join(fields) == fields[0] + [Delimiter] + Join(rest);
      assert forall i :: 0 <= i < |rest| ==> rest[i] == fields[i + 1];
      PiecesJoin(rest);
      PiecesAround(fields[0], Join(rest));
      assert Pieces(fields[0]) == [fields[0]];
      assert fields == [fields[0]] + rest;
    }
  }

  /**
   * The pieces of a joined string are at least as many as the fields, and
   * the last piece is the last piece of the last field.
   */
  lemma {:induction false} PiecesOfJoin(fields: seq<string>)
    requires |fields| >= 1
    ensures |Pieces(Join(fields))| >= |fields|
    ensures Last(Pieces(Join(fields))) == Last(Pieces(Last(fields)))
  {
    if |fields| > 1 {
      var rest := fields[1..];
      assert Join(fields) == fields[0] + [Delimiter] + Join(rest);
      PiecesOfJoin(rest);
      PiecesAround(fields[0], Join(rest));
      LastOfAppend(Pieces(fields[0]), Pieces(Join(rest)));
      assert Last(rest) == Last(fields);
    }
  }

  lemma LastOfAppend<T>(a: seq<T>, b: seq<T>)
    requires |b| > 0
    ensures |a + b| > 0 && Last(a + b) == Last(b)
  {
  }

  /**
   * Round trip through `split`: fields none of which holds the delimiter,
   * the last one non-empty, come back exactly.
   */
  lemma SplitJoin(fields: seq<string>)
    requires |fields| >= 1
    requires forall i :: 0 <= i < |fields| ==> Delimiter !in fields[i]
    requires fields[|fields| - 1] != []
    ensures Split(Join(fields)) == fields
  {
    PiecesJoin(fields);
  }

  /**
   * However the fields before it look, a joined line whose last field is
   * non-empty and free of the delimiter splits into at least as many parts
   * as there were fields.
   */
  lemma SplitJoinLength(fields: seq<string>)
    requires |fields| >= 2
    requires fields[|fields| - 1] != [] && Delimiter !in fields[|fields| - 1]
    ensures |Split(Join(fields))| >= |fields|
  {
    PiecesOfJoin(fields);
  }

  /** A string holding the delimiter has at least two pieces. */
  lemma {:induction false} DelimiterMakesTwoPieces(s: string)
    requires Delimiter in s
    ensures |Pieces(s)| >= 2
  {
    if s[0] != Delimiter {
      assert Delimiter in s[1..] by {
        var i :| 0 <= i < |s| && s[i] == Delimiter;
        assert s[1..][i - 1] == Delimiter;
      }
      DelimiterMakesTwoPieces(s[1..]);
    }
  }

  /** A field holding the delimiter adds a piece: the joined string has more pieces than fields. */
  lemma {:induction false} PiecesOfJoinSplitField(fields: seq<string>, i: int)
    requires 0 <= i < |fields| && Delimiter in fields[i]
    ensures |Pieces(Join(fields))| > |fields|
  {
    if |fields| == 1 {
      DelimiterMakesTwoPieces(fields[0]);
    } else {
      PiecesAround(fields[0], Join(fields[1..]));
      if i == 0 {
        DelimiterMakesTwoPieces(fields[0]);
        PiecesOfJoin(fields[1..]);
      } else {
        PiecesOfJoinSplitField(fields[1..], i - 1);
      }
    }
  }

  /**
   * A joined line whose last field is non-empty and free of the delimiter,
   * but where some field holds the delimiter, splits into more parts than
   * there were fields.
   */
  lemma SplitJoinTooLong(fields: seq<string>, i: int)
    requires |fields| >= 2
    requires fields[|fields| - 1] != [] && Delimiter !in fields[|fields| - 1]
    requires 0 <= i < |fields| && Delimiter in fields[i]
    ensures |Split(Join(fields))| > |fields|
  {
    PiecesOfJoin(fields);
    PiecesOfJoinSplitField(fields, i);
  }
}
