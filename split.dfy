/**
 * `splitList` (envconf.go:178-211): splits a comma-separated list, where a
 * backslash makes the next character literal, then removes every backslash
 * from each piece that contained one. Text after the last unescaped comma
 * becomes a piece only when it is non-empty.
 */
module ListSplit {
  import opened Text

  /**
   * Reference definition over positions of `s`: the pieces from position
   * `i` on, where the piece being read started at `last`. A backslash takes
   * the next character with it.
   */
  function Pieces(s: string, last: nat, i: nat): seq<string>
    requires last <= i <= |s|
    decreases |s| - i
  {
    if i == |s| then (if last < i then [RemoveEscapes(s[last..])] else [])
    else if s[i] == '\\' then Pieces(s, last, if i + 1 == |s| then i + 1 else i + 2)
    else if s[i] == ',' then [RemoveEscapes(s[last..i])] + Pieces(s, i + 1, i + 1)
    else Pieces(s, last, i + 1)
  }

  /** The pieces of a list. */
  function Split(s: string): seq<string> {
    Pieces(s, 0, 0)
  }

  /** A stretch without backslashes is its own unescaped form. */
  lemma Unescaped(s: string, lo: nat, hi: nat)
    requires lo <= hi <= |s|
    requires forall k :: lo <= k < hi ==> s[k] != '\\'
    ensures RemoveEscapes(s[lo..hi]) == s[lo..hi]
  {
    assert '\\' !in s[lo..hi];
    RemoveEscapesPlain(s[lo..hi]);
  }

  /**
   * `splitList`, the loop of envconf.go with its escape and piece-start
   * state. The ghost `pos` is where the reference definition stands: at
   * `index`, or on the backslash just before it while `isEscaped`.
   */
  method SplitList(source: string) returns (results: seq<string>)
    ensures results == Split(source)
  {
    var isEscaped, hasEscape := false, false;
    var lastIndex, index := 0, 0;
    ghost var pos := 0;
    results := [];
    while index < |source|
      invariant 0 <= lastIndex <= pos <= index <= |source|
      invariant pos == if isEscaped then index - 1 else index
      invariant isEscaped ==> source[pos] == '\\'
      invariant !hasEscape ==> forall k :: lastIndex <= k < index ==> source[k] != '\\'
      invariant results + Pieces(source, lastIndex, pos) == Split(source)
    {
      if isEscaped {
        isEscaped := false;
        index := index + 1;
        pos := index;
        continue;
      }
      if source[index] == '\\' {
        isEscaped := true;
        hasEscape := true;
      } else if source[index] == ',' {
        var result := source[lastIndex..index];
        if hasEscape {
          result := RemoveEscapes(result);
          hasEscape := false;
        } else {
          Unescaped(source, lastIndex, index);
        }
        assert (results + [result]) + Pieces(source, index + 1, index + 1) == results + ([result] + Pieces(source, index + 1, index + 1));
        results := results + [result];
        lastIndex := index + 1;
      }
      index := index + 1;
      pos := if isEscaped then index - 1 else index;
    }
    assert Pieces(source, lastIndex, pos) == if lastIndex < index then [RemoveEscapes(source[lastIndex..])] else [];
    if lastIndex < index {
      var result := source[lastIndex..];
      if hasEscape {
        result := RemoveEscapes(result);
      } else {
        Unescaped(source, lastIndex, index);
        assert source[lastIndex..index] == source[lastIndex..];
      }
      results := results + [result];
    } else {
      assert results + [] == results;
    }
  }

  /** No piece ever contains a backslash. */
  lemma {:induction false} PiecesNoBackslash(s: string, last: nat, i: nat)
    requires last <= i <= |s|
    ensures forall p :: p in Pieces(s, last, i) ==> '\\' !in p
    decreases |s| - i
  {
    if i == |s| {
      RemoveEscapesNoBackslash(s[last..]);
    } else {
      if s[i] == '\\' {
        PiecesNoBackslash(s, last, if i + 1 == |s| then i + 1 else i + 2);
      } else if s[i] == ',' {
        RemoveEscapesNoBackslash(s[last..i]);
        PiecesNoBackslash(s, i + 1, i + 1);
      } else {
        PiecesNoBackslash(s, last, i + 1);
      }
    }
  }

  lemma SplitNoBackslash(s: string)
    ensures forall p :: p in Split(s) ==> '\\' !in p
  {
    PiecesNoBackslash(s, 0, 0);
  }

  /** The list encoding of one character: a comma is preceded by a backslash. */
  function EscapeChar(c: char): (e: string)
    ensures 1 <= |e| <= 2 && e[|e| - 1] == c
  {
    if c == ',' then "\\," else [c]
  }

  /** The list encoding of one piece. */
  function Escape(p: string): (e: string)
    ensures |e| >= |p|
    ensures e == [] <==> p == []
  {
    if p == [] then [] else EscapeChar(p[0]) + Escape(p[1..])
  }

  /** The list encoding of several pieces: each escaped, joined by commas. */
  function Join(xs: seq<string>): string {
    if |xs| == 0 then ""
    else if |xs| == 1 then Escape(xs[0])
    else Escape(xs[0]) + "," + Join(xs[1..])
  }

  /** A list minus its last piece when that piece is empty (such a piece leaves no text after the final comma). */
  function DropEmptyLast(xs: seq<string>): seq<string> {
    if xs != [] && xs[|xs| - 1] == [] then xs[..|xs| - 1] else xs
  }

  /** An escaped piece never ends the piece being read. */
  lemma {:induction false} PiecesEscape(s: string, last: nat, a: nat, p: string)
    requires '\\' !in p
    requires last <= a && a + |Escape(p)| <= |s| && s[a..a + |Escape(p)|] == Escape(p)
    ensures Pieces(s, last, a) == Pieces(s, last, a + |Escape(p)|)
    decreases |p|
  {
    if p != [] {
      var h, e := EscapeChar(p[0]), Escape(p[1..]);
      assert Escape(p) == h + e;
      assert s[a] == h[0];
      assert p == [p[0]] + p[1..];
      assert p[0] != '\\' && '\\' !in p[1..];
      assert s[a + |h|..a + |h| + |e|] == e by {
        assert s[a..a + |h| + |e|][|h|..] == e;
      }
      PiecesEscape(s, last, a + |h|, p[1..]);
    }
  }

  /** The pieces of `t` after a text `u` are read as if `u` were absent. */
  lemma {:induction false} PiecesShift(u: string, t: string, last: nat, i: nat)
    requires last <= i <= |t|
    ensures Pieces(u + t, |u| + last, |u| + i) == Pieces(t, last, i)
    decreases |t| - i
  {
    var s := u + t;
    if i == |t| {
      assert s[|u| + last..] == t[last..];
    } else {
      assert s[|u| + i] == t[i];
      if t[i] == '\\' {
        PiecesShift(u, t, last, if i + 1 == |t| then i + 1 else i + 2);
      } else if t[i] == ',' {
        assert s[|u| + last..|u| + i] == t[last..i];
        PiecesShift(u, t, i + 1, i + 1);
      } else {
        PiecesShift(u, t, last, i + 1);
      }
    }
  }

  /** Unescaping undoes escaping one character. */
  lemma RemoveEscapesEscapeChar(c: char)
    requires c != '\\'
    ensures RemoveEscapes(EscapeChar(c)) == [c]
  {
    if c == ',' {
      RemoveEscapesAppend(['\\'], [',']);
      assert EscapeChar(c) == ['\\'] + [','];
    }
  }

  /** Unescaping undoes escaping for pieces without backslashes. */
  lemma {:induction false} RemoveEscapesEscape(p: string)
    requires '\\' !in p
    ensures RemoveEscapes(Escape(p)) == p
  {
    if p != [] {
      assert p == [p[0]] + p[1..];
      assert p[0] != '\\' && '\\' !in p[1..];
      RemoveEscapesEscape(p[1..]);
      RemoveEscapesEscapeChar(p[0]);
      RemoveEscapesAppend(EscapeChar(p[0]), Escape(p[1..]));
    }
  }

  /** One piece, then a comma and the rest of the list. */
  lemma SplitJoinCons(x: string, rest: string)
    requires '\\' !in x
    ensures Split(Escape(x) + "," + rest) == [x] + Split(rest)
  {
    var e := Escape(x);
    var u := e + ",";
    var s := u + rest;
    assert s[0..|e|] == e;
    PiecesEscape(s, 0, 0, x);
    assert s[|e|] == ',';
    assert Pieces(s, 0, |e|) == [RemoveEscapes(e)] + Pieces(s, |u|, |u|);
    RemoveEscapesEscape(x);
    PiecesShift(u, rest, 0, 0);
  }

  /** The last piece. */
  lemma SplitJoinLast(x: string)
    requires '\\' !in x
    ensures Split(Escape(x)) == if x == [] then [] else [x]
  {
    var e := Escape(x);
    assert e[0..|e|] == e;
    PiecesEscape(e, 0, 0, x);
    assert Pieces(e, 0, |e|) == if 0 < |e| then [RemoveEscapes(e[0..])] else [];
    assert e[0..] == e;
    RemoveEscapesEscape(x);
  }

  /**
   * Split inverts Join for pieces without backslashes: every piece comes back,
   * escaped commas never split, interior empty pieces are kept, and only an
   * empty final piece is lost (`"a,"` gives `["a"]`, `""` gives `[]`).
   */
  lemma {:induction false} SplitJoin(xs: seq<string>)
    requires forall p :: p in xs ==> '\\' !in p
    ensures Split(Join(xs)) == DropEmptyLast(xs)
  {
    if |xs| == 1 {
      SplitJoinLast(xs[0]);
    } else if |xs| > 1 {
      var tail := xs[1..];
      assert xs[0] in xs;
      SplitJoinCons(xs[0], Join(tail));
      SplitJoin(tail);
      assert tail[|tail| - 1] == xs[|xs| - 1];
      if xs[|xs| - 1] == [] {
        assert xs[..|xs| - 1] == [xs[0]] + tail[..|tail| - 1];
      } else {
        assert xs == [xs[0]] + tail;
      }
    }
  }

  /** A piece without commas is its own encoding. */
  lemma {:induction false} EscapePlain(p: string)
    requires ',' !in p
    ensures Escape(p) == p
  {
    if p != [] {
      assert p == [p[0]] + p[1..];
      assert ',' !in p[1..];
      EscapePlain(p[1..]);
    }
  }

  /** An empty text has no pieces, and a trailing comma adds none. */
  lemma SplitTrailingComma()
    ensures Split("") == []
    ensures Split("a,") == ["a"]
  {
    EscapePlain("a");
    assert "a," == Escape("a") + "," + "";
    SplitJoinCons("a", "");
  }

  /** A leading comma adds an empty first piece. */
  lemma SplitLeadingComma()
    ensures Split(",a") == ["", "a"]
  {
    EscapePlain("a");
    SplitJoinLast("a");
    assert ",a" == Escape("") + "," + "a";
    SplitJoinCons("", "a");
  }

  /** Escaped commas stay inside their piece. */
  lemma SplitEscapedExample()
    ensures Split("a\\,b,c") == ["a,b", "c"]
  {
    var e := Escape("a,b");
    assert e == "a\\,b";
    assert "a\\,b,c" == e + "," + "c";
    EscapePlain("c");
    SplitJoinLast("c");
    SplitJoinCons("a,b", "c");
  }
}
