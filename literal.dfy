/**
 * `decodeLiteral` (envconf.go:131-174, without the float branch) and
 * `decodeSlice` (envconf.go:215-226): convert one string into a value of
 * the target's kind. A failed conversion leaves the target as it was,
 * except a slice, which keeps the elements appended before the first
 * failing piece.
 */
module Literal {
  import opened Wrappers
  import opened Strconv
  import opened Kinds
  import opened ListSplit

  /** What `decodeLiteral(source, v)` leaves in `v`, a value of kind `k`, and whether it succeeded. */
  function Decoded(source: string, k: Kind, v: Value): (r: (Value, bool))
    requires NoPointerElems(k)
    ensures !r.1 && !k.Slice? ==> r.0 == v
    ensures k.Struct? || k.Ptr? || k.Other? ==> !r.1
    ensures k.Slice? ==> r.0.SliceV?
    decreases k, 0
  {
    match k
    case Int(w) =>
      (match ParseInt(source, w)
       case Some(n) => (IntV(n), true)
       case None => (v, false))
    case Uint(w) =>
      (match ParseUint(source, w)
       case Some(n) => (UintV(n), true)
       case None => (v, false))
    case Bool =>
      (match ParseBool(source)
       case Some(b) => (BoolV(b), true)
       case None => (v, false))
    case Str => (StrV(source), true)
    case Slice(e) =>
      var elems := DecodedPieces(Split(source), 0, e);
      (SliceV(elems.0), elems.1)
    case _ => (v, false)
  }

  /**
   * The elements `decodeSlice` appends for the pieces from index `i` on, each
   * decoded into a fresh zero element, and whether none failed.
   */
  function DecodedPieces(pieces: seq<string>, i: nat, e: Kind): (r: (seq<Value>, bool))
    requires NoPointerElems(e) && i <= |pieces|
    decreases e, 1, |pieces| - i
  {
    if i == |pieces| then ([], true)
    else
      var element := Decoded(pieces[i], e, Zero(e));
      if !element.1 then ([], false)
      else
        var rest := DecodedPieces(pieces, i + 1, e);
        ([element.0] + rest.0, rest.1)
  }

  /** At most one element per piece; all the pieces exactly when none failed. */
  lemma {:induction false} DecodedPiecesCount(pieces: seq<string>, i: nat, e: Kind)
    requires NoPointerElems(e) && i <= |pieces|
    ensures |DecodedPieces(pieces, i, e).0| <= |pieces| - i
    ensures DecodedPieces(pieces, i, e).1 <==> |DecodedPieces(pieces, i, e).0| == |pieces| - i
    decreases |pieces| - i
  {
    if i < |pieces| && Decoded(pieces[i], e, Zero(e)).1 {
      DecodedPiecesCount(pieces, i + 1, e);
    }
  }

  /** A conversion keeps the target a value of its kind. */
  lemma {:induction false} DecodedHasKind(source: string, k: Kind, v: Value)
    requires NoPointerElems(k) && HasKind(v, k)
    ensures HasKind(Decoded(source, k, v).0, k)
    decreases k, 0
  {
    if k.Slice? {
      DecodedPiecesHasKind(Split(source), 0, k.elem);
    }
  }

  lemma {:induction false} DecodedPiecesHasKind(pieces: seq<string>, i: nat, e: Kind)
    requires NoPointerElems(e) && i <= |pieces|
    ensures forall x :: x in DecodedPieces(pieces, i, e).0 ==> HasKind(x, e)
    decreases e, 1, |pieces| - i
  {
    if i < |pieces| {
      ZeroHasKind(e);
      DecodedHasKind(pieces[i], e, Zero(e));
      DecodedPiecesHasKind(pieces, i + 1, e);
    }
  }

  /** A slice that converts has one element per piece of its list. */
  lemma DecodedSliceLength(source: string, k: Kind, v: Value)
    requires NoPointerElems(k) && k.Slice?
    ensures Decoded(source, k, v).1 ==> |Decoded(source, k, v).0.elems| == |Split(source)|
  {
    DecodedPiecesCount(Split(source), 0, k.elem);
  }

  /** Element `j` of the decoded pieces from `i` on is piece `i + j`, decoded alone. */
  lemma {:induction false} DecodedPiecesElement(pieces: seq<string>, i: nat, e: Kind, j: nat)
    requires NoPointerElems(e) && i <= |pieces| && j < |DecodedPieces(pieces, i, e).0|
    ensures i + j < |pieces| && Decoded(pieces[i + j], e, Zero(e)) == (DecodedPieces(pieces, i, e).0[j], true)
    decreases j
  {
    if j > 0 {
      DecodedPiecesElement(pieces, i + 1, e, j - 1);
      assert (i + 1) + (j - 1) == i + j;
    }
  }

  /** When the decoded pieces are incomplete, the piece after the last element is the one that failed. */
  lemma {:induction false} DecodedPiecesFailure(pieces: seq<string>, i: nat, e: Kind)
    requires NoPointerElems(e) && i <= |pieces|
    ensures !DecodedPieces(pieces, i, e).1 ==>
      && i + |DecodedPieces(pieces, i, e).0| < |pieces|
      && !Decoded(pieces[i + |DecodedPieces(pieces, i, e).0|], e, Zero(e)).1
    decreases |pieces| - i
  {
    if i < |pieces| && Decoded(pieces[i], e, Zero(e)).1 {
      DecodedPiecesFailure(pieces, i + 1, e);
    }
  }

  /** `decodeLiteral`: dispatch on the kind of the target. */
  method DecodeLiteral(source: string, k: Kind, v: Value) returns (v': Value, ok: bool)
    requires NoPointerElems(k)
    ensures (v', ok) == Decoded(source, k, v)
    decreases k, 0
  {
    v', ok := v, false;
    match k {
      case Int(w) =>
        var result := ParseInt(source, w);
        if result.Some? {
          v', ok := IntV(result.value), true;
        }
      case Uint(w) =>
        var result := ParseUint(source, w);
        if result.Some? {
          v', ok := UintV(result.value), true;
        }
      case Bool =>
        var result := ParseBool(source);
        if result.Some? {
          v', ok := BoolV(result.value), true;
        }
      case Slice(e) =>
        var elems;
        elems, ok := DecodeSlice(source, e);
        v' := SliceV(elems);
      case Str =>
        v', ok := StrV(source), true;
      case _ =>
    }
  }

  /** `decodeSlice`: truncate the slice, then append each piece decoded as an element, stopping at the first failure. */
  method DecodeSlice(source: string, e: Kind) returns (elems: seq<Value>, ok: bool)
    requires NoPointerElems(e)
    ensures (elems, ok) == DecodedPieces(Split(source), 0, e)
    decreases e, 1
  {
    var sources := SplitList(source);
    ghost var all := DecodedPieces(sources, 0, e);
    elems := [];
    for i := 0 to |sources|
      invariant all.0 == elems + DecodedPieces(sources, i, e).0
      invariant all.1 == DecodedPieces(sources, i, e).1
    {
      var element, elementOk := DecodeLiteral(sources[i], e, Zero(e));
      if !elementOk {
        assert DecodedPieces(sources, i, e) == ([], false);
        assert elems + [] == elems;
        return elems, false;
      }
      ghost var rest := DecodedPieces(sources, i + 1, e);
      assert DecodedPieces(sources, i, e) == ([element] + rest.0, rest.1);
      assert elems + ([element] + rest.0) == (elems + [element]) + rest.0;
      elems := elems + [element];
    }
    assert elems + [] == elems;
    return elems, true;
  }

  /** A conversion that succeeds does not depend on what the target held before. */
  lemma DecodedSuccessIgnoresTarget(source: string, k: Kind, v: Value, w: Value)
    requires NoPointerElems(k)
    ensures Decoded(source, k, v).1 == Decoded(source, k, w).1
    ensures Decoded(source, k, v).1 || k.Slice? ==> Decoded(source, k, v) == Decoded(source, k, w)
  {
  }

  /** A signed field accepts exactly the formatted numbers that fit its width, and stores that number. */
  lemma DecodedInt(n: int, w: Width, v: Value)
    ensures Decoded(FormatInt(n), Int(w), v).1 <==> InIntRange(n, w)
    ensures InIntRange(n, w) ==> Decoded(FormatInt(n), Int(w), v).0 == IntV(n)
  {
    ParseFormatInt(n, w);
  }

  /** An unsigned field accepts exactly the formatted numbers that fit its width, and never a sign. */
  lemma DecodedUint(n: int, w: Width, v: Value)
    ensures n >= 0 ==> (Decoded(FormatInt(n), Uint(w), v).1 <==> n < UintLimit(w))
    ensures n >= 0 && n < UintLimit(w) ==> Decoded(FormatInt(n), Uint(w), v).0 == UintV(n)
    ensures n < 0 ==> Decoded(FormatInt(n), Uint(w), v) == (v, false)
  {
    if n >= 0 {
      ParseFormatUint(n, w);
    }
  }

  /** A bool field reads back FormatBool's spellings. */
  lemma DecodedBool(b: bool, v: Value)
    ensures Decoded(FormatBool(b), Bool, v) == (BoolV(b), true)
  {
    ParseFormatBool(b);
  }

  function StrVs(xs: seq<string>): (r: seq<Value>)
    ensures |r| == |xs| && forall i :: 0 <= i < |xs| ==> r[i] == StrV(xs[i])
  {
    if xs == [] then [] else [StrV(xs[0])] + StrVs(xs[1..])
  }

  lemma {:induction false} DecodedStrPieces(pieces: seq<string>, i: nat)
    requires i <= |pieces|
    ensures DecodedPieces(pieces, i, Str) == (StrVs(pieces[i..]), true)
    decreases |pieces| - i
  {
    if i < |pieces| {
      DecodedStrPieces(pieces, i + 1);
      assert pieces[i..][1..] == pieces[i + 1..];
    }
  }

  /**
   * A `[]string` field decodes an escaped, comma-joined list back into its
   * pieces (an empty final piece aside), for pieces without backslashes.
   */
  lemma DecodedStrings(xs: seq<string>, v: Value)
    requires forall p :: p in xs ==> '\\' !in p
    ensures Decoded(Join(xs), Slice(Str), v) == (SliceV(StrVs(DropEmptyLast(xs))), true)
  {
    SplitJoin(xs);
    DecodedStrPieces(DropEmptyLast(xs), 0);
    assert DropEmptyLast(xs)[0..] == DropEmptyLast(xs);
  }
}
