/**
 * An index-wise reading of a list that splitList (envconf.go:178-211)
 * accepts, independent of its loop: a character is escaped when an
 * unescaped backslash stands right before it, the separators are the
 * unescaped commas, and the raw segments are the texts between them.
 */
module Segments {
  import opened Text
  import opened ListSplit

  /** The character at position `p` follows a backslash that is not itself escaped. */
  predicate Escaped(s: string, p: nat)
    requires p <= |s|
    decreases p
  {
    p > 0 && s[p - 1] == '\\' && !Escaped(s, p - 1)
  }

  /** Position `p` holds a comma that separates two segments. */
  predicate IsSeparator(s: string, p: nat)
    requires p <= |s|
  {
    p < |s| && s[p] == ',' && !Escaped(s, p)
  }

  /** The first separator at or after `i`, or `|s|` when there is none. */
  function NextSeparator(s: string, i: nat): (e: nat)
    requires i <= |s|
    ensures i <= e <= |s|
    ensures e < |s| ==> IsSeparator(s, e)
    ensures forall q :: i <= q < e ==> !IsSeparator(s, q)
    decreases |s| - i
  {
    if i == |s| || IsSeparator(s, i) then i else NextSeparator(s, i + 1)
  }

  /** The raw segments of `s` from position `i` on, backslashes included. */
  function SegmentsFrom(s: string, i: nat): (r: seq<string>)
    requires i <= |s|
    ensures r != []
    decreases |s| - i
  {
    var e := NextSeparator(s, i);
    if e == |s| then [s[i..]] else [s[i..e]] + SegmentsFrom(s, e + 1)
  }

  function Segments(s: string): seq<string> {
    SegmentsFrom(s, 0)
  }

  /** The number of separators from position `i` on. */
  function SeparatorCount(s: string, i: nat): nat
    requires i <= |s|
    decreases |s| - i
  {
    if i == |s| then 0 else (if IsSeparator(s, i) then 1 else 0) + SeparatorCount(s, i + 1)
  }

  /** Each segment with its backslashes removed. */
  function Unescape(xs: seq<string>): seq<string> {
    seq(|xs|, j requires 0 <= j < |xs| => RemoveEscapes(xs[j]))
  }

  /** The pieces when the piece that started at `last` ends at `e`, a separator or the end of the text. */
  function PiecesEndingAt(s: string, last: nat, e: nat): seq<string>
    requires last <= e <= |s|
  {
    if e == |s| then (if last < |s| then [RemoveEscapes(s[last..])] else [])
    else [RemoveEscapes(s[last..e])] + Pieces(s, e + 1, e + 1)
  }

  /**
   * Reading from an unescaped position `i` of the piece that started at
   * `last` ends that piece at the next separator, or at the end of the text.
   */
  lemma {:induction false} PiecesSegment(s: string, last: nat, i: nat)
    requires last <= i <= |s|
    requires i < |s| ==> !Escaped(s, i)
    ensures Pieces(s, last, i) == PiecesEndingAt(s, last, NextSeparator(s, i))
    decreases |s| - i
  {
    if i < |s| {
      if s[i] == '\\' {
        var j := if i + 1 == |s| then i + 1 else i + 2;
        assert Pieces(s, last, i) == Pieces(s, last, j);
        assert NextSeparator(s, i) == NextSeparator(s, i + 1);
        if i + 1 < |s| {
          assert Escaped(s, i + 1);
          assert NextSeparator(s, i + 1) == NextSeparator(s, i + 2);
          assert !Escaped(s, i + 2);
        }
        PiecesSegment(s, last, j);
      } else if s[i] == ',' {
        assert IsSeparator(s, i);
        assert Pieces(s, last, i) == [RemoveEscapes(s[last..i])] + Pieces(s, i + 1, i + 1);
      } else {
        assert Pieces(s, last, i) == Pieces(s, last, i + 1);
        assert NextSeparator(s, i) == NextSeparator(s, i + 1);
        assert !Escaped(s, i + 1);
        PiecesSegment(s, last, i + 1);
      }
    }
  }

  lemma {:induction false} PiecesSegments(s: string, last: nat)
    requires last <= |s|
    requires last < |s| ==> !Escaped(s, last)
    ensures Pieces(s, last, last) == Unescape(DropEmptyLast(SegmentsFrom(s, last)))
    decreases |s| - last
  {
    PiecesSegment(s, last, last);
    var e := NextSeparator(s, last);
    if e == |s| {
      assert SegmentsFrom(s, last) == [s[last..]];
      if last == |s| {
        assert DropEmptyLast([s[last..]]) == [];
      } else {
        assert DropEmptyLast([s[last..]]) == [s[last..]];
        assert Unescape([s[last..]]) == [RemoveEscapes(s[last..])];
      }
    } else {
      var x, rest := s[last..e], SegmentsFrom(s, e + 1);
      assert SegmentsFrom(s, last) == [x] + rest;
      assert Pieces(s, last, last) == [RemoveEscapes(x)] + Pieces(s, e + 1, e + 1);
      assert s[e] == ',';
      PiecesSegments(s, e + 1);
      DropEmptyLastCons(x, rest);
      UnescapeCons(x, DropEmptyLast(rest));
    }
  }

  lemma DropEmptyLastCons(x: string, rest: seq<string>)
    requires rest != []
    ensures DropEmptyLast([x] + rest) == [x] + DropEmptyLast(rest)
  {
    var xs := [x] + rest;
    assert xs[|xs| - 1] == rest[|rest| - 1];
    if rest[|rest| - 1] == [] {
      assert xs[..|xs| - 1] == [x] + rest[..|rest| - 1];
    }
  }

  lemma UnescapeCons(x: string, d: seq<string>)
    ensures Unescape([x] + d) == [RemoveEscapes(x)] + Unescape(d)
  {
    assert Unescape([x] + d)[0] == RemoveEscapes(x);
  }

  /**
   * splitList, for every input: the raw segments between unescaped commas,
   * each with its backslashes removed, except that an empty final segment
   * gives no piece.
   */
  lemma SplitSegments(s: string)
    ensures Split(s) == Unescape(DropEmptyLast(Segments(s)))
  {
    PiecesSegments(s, 0);
  }

  /** No separator between `i` and `e` leaves the count unchanged. */
  lemma {:induction false} SeparatorCountSkip(s: string, i: nat, e: nat)
    requires i <= e <= |s|
    requires forall q :: i <= q < e ==> !IsSeparator(s, q)
    ensures SeparatorCount(s, i) == SeparatorCount(s, e)
    decreases e - i
  {
    if i < e {
      assert !IsSeparator(s, i);
      SeparatorCountSkip(s, i + 1, e);
    }
  }

  /** There is one segment more than there are separators. */
  lemma {:induction false} SegmentsFromCount(s: string, i: nat)
    requires i <= |s|
    ensures |SegmentsFrom(s, i)| == SeparatorCount(s, i) + 1
    decreases |s| - i
  {
    var e := NextSeparator(s, i);
    SeparatorCountSkip(s, i, e);
    if e < |s| {
      SegmentsFromCount(s, e + 1);
    }
  }

  /**
   * The list has one piece per unescaped comma, plus one when text follows
   * the last unescaped comma.
   */
  lemma SplitCount(s: string)
    ensures |Split(s)| == SeparatorCount(s, 0) + (if Segments(s)[|Segments(s)| - 1] == [] then 0 else 1)
  {
    SplitSegments(s);
    SegmentsFromCount(s, 0);
  }
}
