/**
 * Properties of the structural decoder: which keys it consumes, how each
 * struct member is decoded on its own, that keys absent from the
 * environment change nothing, and that decoding twice is decoding once.
 */
module DecodeLaws {
  import opened Wrappers
  import opened Kinds
  import opened Environment
  import opened Literal
  import opened Decoder

  /** A leaf is consumed when its key is found and the value converts to the leaf's kind. */
  predicate Consumes(env: Env, order: seq<string>, leaf: (string, Kind))
    requires IsIterationOrder(env, order) && NoPointerElems(leaf.1)
  {
    var found := Lookup(env, order, leaf.0);
    found.Some? && Decoded(found.value, leaf.1, Zero(leaf.1)).1
  }

  /** The keys of the consumed leaves among `leaves`, in order. */
  function Consumed(env: Env, order: seq<string>, leaves: seq<(string, Kind)>): (r: seq<string>)
    requires IsIterationOrder(env, order)
    requires forall j :: 0 <= j < |leaves| ==> NoPointerElems(leaves[j].1)
    ensures |r| <= |leaves|
  {
    if leaves == [] then []
    else
      var last := leaves[|leaves| - 1];
      Consumed(env, order, leaves[..|leaves| - 1]) + if Consumes(env, order, last) then [last.0] else []
  }

  lemma {:induction false} ConsumedAppend(env: Env, order: seq<string>, a: seq<(string, Kind)>, b: seq<(string, Kind)>)
    requires IsIterationOrder(env, order)
    requires forall j :: 0 <= j < |a| ==> NoPointerElems(a[j].1)
    requires forall j :: 0 <= j < |b| ==> NoPointerElems(b[j].1)
    ensures Consumed(env, order, a + b) == Consumed(env, order, a) + Consumed(env, order, b)
    decreases |b|
  {
    if b == [] {
      assert a + b == a;
    } else {
      var b' := b[..|b| - 1];
      assert (a + b)[..|a + b| - 1] == a + b';
      assert (a + b)[|a + b| - 1] == b[|b| - 1];
      ConsumedAppend(env, order, a, b');
      var here := if Consumes(env, order, b[|b| - 1]) then [b[|b| - 1].0] else [];
      assert Consumed(env, order, a) + Consumed(env, order, b') + here == Consumed(env, order, a) + (Consumed(env, order, b') + here);
    }
  }

  /** A key is consumed exactly when some leaf with that key is consumed. */
  lemma {:induction false} ConsumedMembers(env: Env, order: seq<string>, leaves: seq<(string, Kind)>, key: string)
    requires IsIterationOrder(env, order)
    requires forall j :: 0 <= j < |leaves| ==> NoPointerElems(leaves[j].1)
    ensures key in Consumed(env, order, leaves) <==>
      exists j :: 0 <= j < |leaves| && leaves[j].0 == key && Consumes(env, order, leaves[j])
    decreases |leaves|
  {
    if leaves != [] {
      var n := |leaves| - 1;
      var init, last := leaves[..n], leaves[n];
      ConsumedMembers(env, order, init, key);
      var here := if Consumes(env, order, last) then [last.0] else [];
      assert Consumed(env, order, leaves) == Consumed(env, order, init) + here;
      if key in Consumed(env, order, init) {
        var j :| 0 <= j < |init| && init[j].0 == key && Consumes(env, order, init[j]);
        assert leaves[j] == init[j];
      } else if key in here {
        assert leaves[n].0 == key && Consumes(env, order, leaves[n]);
      } else {
        forall j | 0 <= j < |leaves| && leaves[j].0 == key
          ensures !Consumes(env, order, leaves[j])
        {
          if j < n {
            assert leaves[j] == init[j];
          }
        }
      }
    }
  }

  /** The leaves under `name` are non-struct kinds, and under a struct they all start with `name + sep`. */
  lemma {:induction false} LeavesShape(name: string, sep: string, k: Kind)
    ensures forall j :: 0 <= j < |Leaves(name, sep, k)| ==> !Leaves(name, sep, k)[j].1.Struct?
    ensures k.Struct? ==> forall j :: 0 <= j < |Leaves(name, sep, k)| ==> name + sep <= Leaves(name, sep, k)[j].0
    decreases k, 1
  {
    if k.Struct? {
      FieldLeavesShape(name, sep, k, |k.fields|);
    }
  }

  lemma {:induction false} FieldLeavesShape(name: string, sep: string, k: Kind, i: nat)
    requires k.Struct? && i <= |k.fields|
    ensures forall j :: 0 <= j < |FieldLeaves(name, sep, k, i)| ==> !FieldLeaves(name, sep, k, i)[j].1.Struct?
    ensures forall j :: 0 <= j < |FieldLeaves(name, sep, k, i)| ==> name + sep <= FieldLeaves(name, sep, k, i)[j].0
    decreases k, 0, i
  {
    if i > 0 {
      var f := k.fields[i - 1];
      var init := FieldLeaves(name, sep, k, i - 1);
      var here := if Skipped(f) then [] else Leaves(name + sep + Segment(f), sep, f.kind);
      FieldLeavesShape(name, sep, k, i - 1);
      if !Skipped(f) {
        var child := name + sep + Segment(f);
        LeavesShape(child, sep, f.kind);
        assert name + sep <= child;
        forall j | 0 <= j < |here|
          ensures name + sep <= here[j].0
        {
          if f.kind.Struct? {
            assert child <= child + sep <= here[j].0;
          } else {
            assert here[j].0 == child;
          }
        }
      }
      assert FieldLeaves(name, sep, k, i) == init + here;
    }
  }

  /** The keys decodeField appends are exactly the consumed leaves, in visiting order. */
  lemma {:induction false} FieldKeys(env: Env, order: seq<string>, name: string, sep: string, k: Kind, v: Value)
    requires IsIterationOrder(env, order) && NoPointerElems(k) && HasKind(v, k)
    ensures FieldDecoded(env, order, name, sep, k, v).1 == Consumed(env, order, Leaves(name, sep, k))
    decreases k, 1
  {
    if !k.Struct? {
      var found := Lookup(env, order, name);
      if found.Some? {
        DecodedSuccessIgnoresTarget(found.value, k, v, Zero(k));
      }
      assert Leaves(name, sep, k)[..0] == [];
    } else {
      MembersKeys(env, order, name, sep, k, v.members, |k.fields|);
    }
  }

  lemma {:induction false} MembersKeys(env: Env, order: seq<string>, name: string, sep: string, k: Kind, vals: seq<Value>, i: nat)
    requires IsIterationOrder(env, order) && k.Struct? && NoPointerElems(k) && HasKind(StructV(vals), k)
    requires i <= |k.fields|
    ensures MembersDecoded(env, order, name, sep, k, vals, i).1 == Consumed(env, order, FieldLeaves(name, sep, k, i))
    decreases k, 0, i
  {
    if i > 0 {
      var f := k.fields[i - 1];
      var here := if Skipped(f) then [] else Leaves(name + sep + Segment(f), sep, f.kind);
      MembersDecodedStep(env, order, name, sep, k, vals, i);
      MembersKeys(env, order, name, sep, k, vals, i - 1);
      if !Skipped(f) {
        FieldKeys(env, order, name + sep + Segment(f), sep, f.kind, vals[i - 1]);
      }
      assert FieldLeaves(name, sep, k, i) == FieldLeaves(name, sep, k, i - 1) + here;
      ConsumedAppend(env, order, FieldLeaves(name, sep, k, i - 1), here);
    }
  }

  /**
   * A key is reported as consumed exactly when some leaf with that key is
   * found and converts; every such key is in the environment (up to case)
   * and, under a struct, starts with the struct's name and the separator.
   */
  lemma ConsumedKeysAreLeaves(env: Env, order: seq<string>, name: string, sep: string, k: Kind, v: Value, key: string)
    requires IsIterationOrder(env, order) && NoPointerElems(k) && HasKind(v, k)
    ensures key in FieldDecoded(env, order, name, sep, k, v).1 <==>
      exists j :: 0 <= j < |Leaves(name, sep, k)| && Leaves(name, sep, k)[j].0 == key && Consumes(env, order, Leaves(name, sep, k)[j])
    ensures key in FieldDecoded(env, order, name, sep, k, v).1 ==> Lookup(env, order, key).Some?
    ensures k.Struct? && key in FieldDecoded(env, order, name, sep, k, v).1 ==> name + sep <= key
  {
    FieldKeys(env, order, name, sep, k, v);
    ConsumedMembers(env, order, Leaves(name, sep, k), key);
    LeavesShape(name, sep, k);
  }

  /**
   * Decoding a struct decodes each member on its own, under the key
   * `name + sep + Segment(field)`; a skipped member keeps its value.
   */
  lemma StructMembersDecoded(env: Env, order: seq<string>, name: string, sep: string, k: Kind, v: Value, j: nat)
    requires IsIterationOrder(env, order) && k.Struct? && NoPointerElems(k) && HasKind(v, k)
    requires j < |k.fields|
    ensures Skipped(k.fields[j]) ==> FieldDecoded(env, order, name, sep, k, v).0.members[j] == v.members[j]
    ensures !Skipped(k.fields[j]) ==>
      FieldDecoded(env, order, name, sep, k, v).0.members[j] ==
        FieldDecoded(env, order, name + sep + Segment(k.fields[j]), sep, k.fields[j].kind, v.members[j]).0
  {
    MembersDecodedAt(env, order, name, sep, k, v.members, |k.fields|, j);
  }

  /** None of the keys of `leaves` is in the environment, in any letter case. */
  predicate Absent(env: Env, order: seq<string>, leaves: seq<(string, Kind)>)
    requires IsIterationOrder(env, order)
  {
    forall j :: 0 <= j < |leaves| ==> Lookup(env, order, leaves[j].0).None?
  }

  lemma AbsentSplit(env: Env, order: seq<string>, a: seq<(string, Kind)>, b: seq<(string, Kind)>)
    requires IsIterationOrder(env, order) && Absent(env, order, a + b)
    ensures Absent(env, order, a) && Absent(env, order, b)
  {
    forall j | 0 <= j < |a|
      ensures Lookup(env, order, a[j].0).None?
    {
      assert a[j] == (a + b)[j];
    }
    forall j | 0 <= j < |b|
      ensures Lookup(env, order, b[j].0).None?
    {
      assert b[j] == (a + b)[|a| + j];
    }
  }

  /** When none of the leaves is in the environment, decodeField changes nothing and consumes nothing. */
  lemma {:induction false} AbsentLeavesUnchanged(env: Env, order: seq<string>, name: string, sep: string, k: Kind, v: Value)
    requires IsIterationOrder(env, order) && NoPointerElems(k) && HasKind(v, k)
    requires Absent(env, order, Leaves(name, sep, k))
    ensures FieldDecoded(env, order, name, sep, k, v) == (v, [])
    decreases k, 1
  {
    if k.Struct? {
      assert Leaves(name, sep, k) == FieldLeaves(name, sep, k, |k.fields|);
      AbsentMembersUnchanged(env, order, name, sep, k, v.members, |k.fields|);
    } else {
      assert Leaves(name, sep, k)[0].0 == name;
    }
  }

  lemma {:induction false} AbsentMembersUnchanged(env: Env, order: seq<string>, name: string, sep: string, k: Kind, vals: seq<Value>, i: nat)
    requires IsIterationOrder(env, order) && k.Struct? && NoPointerElems(k) && HasKind(StructV(vals), k)
    requires i <= |k.fields|
    requires Absent(env, order, FieldLeaves(name, sep, k, i))
    ensures MembersDecoded(env, order, name, sep, k, vals, i) == (vals, [])
    decreases k, 0, i
  {
    if i > 0 {
      var f := k.fields[i - 1];
      var here := if Skipped(f) then [] else Leaves(name + sep + Segment(f), sep, f.kind);
      assert FieldLeaves(name, sep, k, i) == FieldLeaves(name, sep, k, i - 1) + here;
      AbsentSplit(env, order, FieldLeaves(name, sep, k, i - 1), here);
      AbsentMembersUnchanged(env, order, name, sep, k, vals, i - 1);
      if !Skipped(f) {
        AbsentLeavesUnchanged(env, order, name + sep + Segment(f), sep, f.kind, vals[i - 1]);
      }
      UnchangedStep(env, order, name, sep, k, vals, i);
    }
  }

  lemma UnchangedStep(env: Env, order: seq<string>, name: string, sep: string, k: Kind, vals: seq<Value>, i: nat)
    requires IsIterationOrder(env, order) && k.Struct? && NoPointerElems(k) && |vals| == |k.fields|
    requires 0 < i <= |k.fields|
    requires MembersDecoded(env, order, name, sep, k, vals, i - 1) == (vals, [])
    requires MemberDecoded(env, order, name, sep, k, i - 1, vals[i - 1]) == (vals[i - 1], [])
    ensures MembersDecoded(env, order, name, sep, k, vals, i) == (vals, [])
  {
    MembersDecodedStep(env, order, name, sep, k, vals, i);
    var prev := MembersDecoded(env, order, name, sep, k, vals, i - 1);
    var member := MemberDecoded(env, order, name, sep, k, i - 1, vals[i - 1]);
    assert prev.1 == [] && member.1 == [];
    assert prev.1 + member.1 == [];
    assert vals[i - 1 := vals[i - 1]] == vals;
    assert MembersDecoded(env, order, name, sep, k, vals, i).0 == vals;
  }

  /** Decoding the result of decodeField again gives the same value and the same keys. */
  lemma {:induction false} FieldDecodedIdempotent(env: Env, order: seq<string>, name: string, sep: string, k: Kind, v: Value)
    requires IsIterationOrder(env, order) && NoPointerElems(k) && HasKind(v, k)
    ensures FieldDecoded(env, order, name, sep, k, FieldDecoded(env, order, name, sep, k, v).0) == FieldDecoded(env, order, name, sep, k, v)
    decreases k, 1
  {
    var w := FieldDecoded(env, order, name, sep, k, v).0;
    if !k.Struct? {
      var found := Lookup(env, order, name);
      if found.Some? {
        DecodedSuccessIgnoresTarget(found.value, k, v, w);
      }
    } else {
      var vals := v.members;
      forall j | 0 <= j < |vals|
        ensures w.members[j] == MemberDecoded(env, order, name, sep, k, j, vals[j]).0
      {
        MembersDecodedAt(env, order, name, sep, k, vals, |k.fields|, j);
      }
      MembersIdempotent(env, order, name, sep, k, vals, w.members, |k.fields|);
    }
  }

  lemma {:induction false} MembersIdempotent(env: Env, order: seq<string>, name: string, sep: string, k: Kind, vals: seq<Value>, w: seq<Value>, i: nat)
    requires IsIterationOrder(env, order) && k.Struct? && NoPointerElems(k)
    requires HasKind(StructV(vals), k) && |w| == |vals|
    requires i <= |k.fields|
    requires forall j :: 0 <= j < |w| ==> w[j] == MemberDecoded(env, order, name, sep, k, j, vals[j]).0
    ensures MembersDecoded(env, order, name, sep, k, w, i) == (w, MembersDecoded(env, order, name, sep, k, vals, i).1)
    decreases k, 0, i
  {
    if i > 0 {
      var f := k.fields[i - 1];
      MembersIdempotent(env, order, name, sep, k, vals, w, i - 1);
      if !Skipped(f) {
        FieldDecodedIdempotent(env, order, name + sep + Segment(f), sep, f.kind, vals[i - 1]);
      }
      IdempotentStep(env, order, name, sep, k, vals, w, i);
    }
  }

  lemma IdempotentStep(env: Env, order: seq<string>, name: string, sep: string, k: Kind, vals: seq<Value>, w: seq<Value>, i: nat)
    requires IsIterationOrder(env, order) && k.Struct? && NoPointerElems(k) && |vals| == |k.fields| && |w| == |vals|
    requires 0 < i <= |k.fields|
    requires MembersDecoded(env, order, name, sep, k, w, i - 1) == (w, MembersDecoded(env, order, name, sep, k, vals, i - 1).1)
    requires MemberDecoded(env, order, name, sep, k, i - 1, w[i - 1]) == MemberDecoded(env, order, name, sep, k, i - 1, vals[i - 1])
    requires w[i - 1] == MemberDecoded(env, order, name, sep, k, i - 1, vals[i - 1]).0
    ensures MembersDecoded(env, order, name, sep, k, w, i) == (w, MembersDecoded(env, order, name, sep, k, vals, i).1)
  {
    MembersDecodedStep(env, order, name, sep, k, vals, i);
    MembersDecodedStep(env, order, name, sep, k, w, i);
    assert w[i - 1 := w[i - 1]] == w;
  }

  /** Replacing the base value twice is replacing it once with the second value. */
  lemma {:induction false} StoreTwice(k: Kind, v: Value, b: Value, c: Value)
    requires HasKind(v, k) && HasKind(b, Base(k)) && HasKind(c, Base(k))
    ensures Store(k, Store(k, v, b), c) == Store(k, v, c)
    decreases k
  {
    if k.Ptr? {
      ZeroHasKind(k.pointee);
      StoreTwice(k.pointee, if v.deref.Some? then v.deref.value else Zero(k.pointee), b, c);
    }
  }

  /** Decoding into the result of a successful decode gives the same result. */
  lemma DecodingIdempotent(env: Env, order: seq<string>, prefix: string, sep: string, k: Kind, v: Value)
    requires IsIterationOrder(env, order) && NoPointerElems(k) && HasKind(v, k)
    requires Decoding(env, order, prefix, sep, k, v).Done?
    ensures Decoding(env, order, prefix, sep, k, Decoding(env, order, prefix, sep, k, v).value) == Decoding(env, order, prefix, sep, k, v)
  {
    var b := Deref(k, v);
    var r := FieldDecoded(env, order, prefix, sep, Base(k), b);
    FieldDecodedHasKind(env, order, prefix, sep, Base(k), b);
    FieldDecodedIdempotent(env, order, prefix, sep, Base(k), b);
    StoreTwice(k, v, r.0, r.0);
  }

  /** A nil pointer below the target is allocated and decoded as if it pointed to a zero value. */
  lemma NilDecodedAsZero(env: Env, order: seq<string>, prefix: string, sep: string, t: Kind)
    requires IsIterationOrder(env, order) && NoPointerElems(t)
    ensures HasKind(PtrV(Some(PtrV(Some(Zero(t))))), Ptr(Ptr(t)))
    ensures Decoding(env, order, prefix, sep, Ptr(Ptr(t)), PtrV(Some(PtrV(None)))) ==
      Decoding(env, order, prefix, sep, Ptr(Ptr(t)), PtrV(Some(PtrV(Some(Zero(t))))))
  {
    ZeroHasKind(t);
    var nil, zero := PtrV(Some(PtrV(None))), PtrV(Some(PtrV(Some(Zero(t)))));
    assert Deref(Ptr(t), PtrV(None)) == Deref(t, Zero(t));
    assert Deref(Ptr(Ptr(t)), nil) == Deref(t, Zero(t));
    assert Deref(Ptr(Ptr(t)), zero) == Deref(t, Zero(t));
    var decoded := FieldDecoded(env, order, prefix, sep, Base(t), Deref(t, Zero(t)));
    FieldDecodedHasKind(env, order, prefix, sep, Base(t), Deref(t, Zero(t)));
    assert Store(Ptr(Ptr(t)), nil, decoded.0) == PtrV(Some(PtrV(Some(Store(t, Zero(t), decoded.0)))));
    assert Store(Ptr(Ptr(t)), zero, decoded.0) == PtrV(Some(PtrV(Some(Store(t, Zero(t), decoded.0)))));
  }

  /** The keys a successful decode reports are the consumed leaves under the prefix. */
  lemma DecodingKeys(env: Env, order: seq<string>, prefix: string, sep: string, k: Kind, v: Value)
    requires IsIterationOrder(env, order) && NoPointerElems(k) && HasKind(v, k)
    requires Decoding(env, order, prefix, sep, k, v).Done?
    ensures Decoding(env, order, prefix, sep, k, v).fields == Consumed(env, order, Leaves(prefix, sep, Base(k)))
  {
    FieldKeys(env, order, prefix, sep, Base(k), Deref(k, v));
  }
}
