/**
 * String helpers that envconf takes from Go's `strings` package, and the
 * two small pure helpers of envconf.go itself: `hasPrefixFold` and
 * `removeEscape`.
 *
 * Go strings are UTF-8 bytes; here a string is a sequence of Unicode scalar
 * values. Case folding is ASCII-only (see README, "Left out").
 */
module Text {

  /** ASCII lower-casing: the folding used by `EqualFold` in this model. */
  function Lower(c: char): char {
    if 'A' <= c <= 'Z' then (c as int + 32) as char else c
  }

  /** The folded form of a string: every character lower-cased. */
  function Fold(s: string): string {
    seq(|s|, i requires 0 <= i < |s| => Lower(s[i]))
  }

  /** Case-insensitive equality (`strings.EqualFold`). */
  predicate EqualFold(a: string, b: string) {
    Fold(a) == Fold(b)
  }

  /** Folding works character by character, so it commutes with taking a prefix. */
  lemma FoldPrefix(s: string, n: nat)
    requires n <= |s|
    ensures Fold(s[..n]) == Fold(s)[..n]
  {
  }

  /**
   * Two strings are equal under folding exactly when they have the same
   * length and agree character by character after lower-casing.
   */
  lemma EqualFoldPointwise(a: string, b: string)
    ensures EqualFold(a, b) <==> |a| == |b| && forall i :: 0 <= i < |a| ==> Lower(a[i]) == Lower(b[i])
  {
    if |a| == |b| && forall i :: 0 <= i < |a| ==> Lower(a[i]) == Lower(b[i]) {
      assert forall i :: 0 <= i < |a| ==> Fold(a)[i] == Fold(b)[i];
    }
    if EqualFold(a, b) {
      assert |Fold(a)| == |a| && |Fold(b)| == |b|;
      forall i | 0 <= i < |a| ensures Lower(a[i]) == Lower(b[i]) {
        assert Fold(a)[i] == Fold(b)[i];
      }
    }
  }

  /** `unicode.IsSpace`: the Unicode White_Space characters. */
  predicate IsSpace(c: char) {
    || c == ' ' || '\t' <= c <= '\r'
    || c == '\U{0085}' || c == '\U{00A0}' || c == '\U{1680}'
    || '\U{2000}' <= c <= '\U{200A}'
    || c == '\U{2028}' || c == '\U{2029}' || c == '\U{202F}' || c == '\U{205F}' || c == '\U{3000}'
  }

  /** `s` without its leading white space. */
  function TrimLeft(s: string): (r: string)
    ensures |r| <= |s|
  {
    if s != [] && IsSpace(s[0]) then TrimLeft(s[1..]) else s
  }

  /** `s` without its trailing white space. */
  function TrimRight(s: string): (r: string)
    ensures |r| <= |s|
  {
    if s != [] && IsSpace(s[|s| - 1]) then TrimRight(s[..|s| - 1]) else s
  }

  /** `strings.TrimSpace`: drops leading and trailing white space. */
  function TrimSpace(s: string): (r: string)
    ensures |r| <= |s|
  {
    TrimRight(TrimLeft(s))
  }

  /** TrimLeft keeps a suffix of `s`, drops only white space, and stops at a non-space character. */
  lemma {:induction false} TrimLeftSpec(s: string)
    ensures var r := TrimLeft(s);
      && r == s[|s| - |r|..]
      && (r == [] || !IsSpace(r[0]))
      && forall k :: 0 <= k < |s| - |r| ==> IsSpace(s[k])
  {
    if s != [] && IsSpace(s[0]) {
      TrimLeftSpec(s[1..]);
    }
  }

  /** TrimRight keeps a prefix of `s`, drops only white space, and stops at a non-space character. */
  lemma {:induction false} TrimRightSpec(s: string)
    ensures var r := TrimRight(s);
      && r == s[..|r|]
      && (r == [] || !IsSpace(r[|r| - 1]))
      && forall k :: |r| <= k < |s| ==> IsSpace(s[k])
  {
    if s != [] && IsSpace(s[|s| - 1]) {
      TrimRightSpec(s[..|s| - 1]);
    }
  }

  /**
   * The trimmed text is a stretch of `s` that neither starts nor ends with
   * white space; it is empty exactly when `s` is all white space, and it is
   * `s` itself when `s` has no white space at either end.
   */
  lemma TrimSpaceSpec(s: string)
    ensures var r := TrimSpace(s);
      && (r == [] || (!IsSpace(r[0]) && !IsSpace(r[|r| - 1])))
      && (r == [] <==> forall k :: 0 <= k < |s| ==> IsSpace(s[k]))
      && (|s| > 0 && !IsSpace(s[0]) && !IsSpace(s[|s| - 1]) ==> r == s)
  {
    var t := TrimLeft(s);
    var r := TrimRight(t);
    TrimLeftSpec(s);
    TrimRightSpec(t);
    var d := |s| - |t|;
    if r != [] {
      assert r[0] == t[0];
    }
    assert t != [] ==> t[0] == s[d];
  }

  /** TrimSpace is idempotent. */
  lemma TrimSpaceIdempotent(s: string)
    ensures TrimSpace(TrimSpace(s)) == TrimSpace(s)
  {
    TrimSpaceSpec(s);
    var r := TrimSpace(s);
    if r != [] {
      TrimSpaceSpec(r);
    }
  }

  /**
   * `hasPrefixFold` (envconf.go:241-243), a case-insensitive
   * `strings.HasPrefix`.
   */
  predicate HasPrefixFold(s: string, prefix: string) {
    |s| >= |prefix| && EqualFold(s[..|prefix|], prefix)
  }

  /** The case-insensitive prefix test is the ordinary prefix test on folded strings. */
  lemma HasPrefixFoldIsFoldedPrefix(s: string, prefix: string)
    ensures HasPrefixFold(s, prefix) <==> Fold(prefix) <= Fold(s)
  {
    if |s| >= |prefix| {
      FoldPrefix(s, |prefix|);
    }
  }

  /**
   * `strings.Map(removeEscape, s)` (envconf.go:196, 246-251): `s` with every
   * backslash removed and every other character kept, in order.
   */
  function RemoveEscapes(s: string): (r: string)
    ensures |r| <= |s|
  {
    if s == [] then []
    else (if s[0] == '\\' then [] else [s[0]]) + RemoveEscapes(s[1..])
  }

  /** No backslash survives. */
  lemma {:induction false} RemoveEscapesNoBackslash(s: string)
    ensures '\\' !in RemoveEscapes(s)
  {
    if s != [] {
      RemoveEscapesNoBackslash(s[1..]);
    }
  }

  /** A text without backslashes is unchanged. */
  lemma {:induction false} RemoveEscapesPlain(s: string)
    requires '\\' !in s
    ensures RemoveEscapes(s) == s
  {
    if s != [] {
      assert s == [s[0]] + s[1..];
      assert '\\' !in s[1..];
      RemoveEscapesPlain(s[1..]);
    }
  }

  /** Removing escapes works piecewise. */
  lemma {:induction false} RemoveEscapesAppend(a: string, b: string)
    ensures RemoveEscapes(a + b) == RemoveEscapes(a) + RemoveEscapes(b)
  {
    if a != [] {
      assert (a + b)[1..] == a[1..] + b;
      RemoveEscapesAppend(a[1..], b);
    } else {
      assert a + b == b;
    }
  }
}
