/**
 * The structural decoder of envconf.go: `decode` (lines 88-94),
 * `decodeField` (lines 98-127), `indirect` (lines 230-238) and `Decode`
 * (lines 53-55).
 *
 * A struct field's key is `name + sep + segment`, where the segment is the
 * field's `env` tag or, without a tag, its name; `sep` is prepended even
 * when `name` is empty. Fields tagged `-` are skipped. Struct fields are
 * descended into and never looked up themselves; every other field,
 * pointers included, is a leaf. A leaf whose key is missing or whose
 * literal does not convert is left alone without an error; its key is
 * recorded as consumed exactly when it was found and converted.
 */
module Decoder {
  import opened Wrappers
  import opened Text
  import opened Kinds
  import opened Environment
  import opened Literal

  /** A field tagged `-` is invisible to the decoder. */
  predicate Skipped(f: Field) {
    f.tag == "-"
  }

  /** The name segment of a field: its tag, or its name when it has none. */
  function Segment(f: Field): string {
    if f.tag == "" then f.name else f.tag
  }

  /**
   * The leaves the decoder visits under `name`, in order: each key it looks
   * up, with the kind of the field it decodes into.
   */
  function Leaves(name: string, sep: string, k: Kind): (r: seq<(string, Kind)>)
    ensures NoPointerElems(k) ==> forall j :: 0 <= j < |r| ==> NoPointerElems(r[j].1)
    decreases k, 1
  {
    if !k.Struct? then [(name, k)] else FieldLeaves(name, sep, k, |k.fields|)
  }

  /** The leaves under the first `i` fields of struct kind `k`. */
  function FieldLeaves(name: string, sep: string, k: Kind, i: nat): (r: seq<(string, Kind)>)
    requires k.Struct? && i <= |k.fields|
    ensures NoPointerElems(k) ==> forall j :: 0 <= j < |r| ==> NoPointerElems(r[j].1)
    decreases k, 0, i
  {
    if i == 0 then []
    else
      var f := k.fields[i - 1];
      FieldLeaves(name, sep, k, i - 1) + (if Skipped(f) then [] else Leaves(name + sep + Segment(f), sep, f.kind))
  }

  /** The shape decodeField relies on: a struct kind holds a struct value with one member per field. */
  predicate Fits(k: Kind, v: Value) {
    k.Struct? ==> v.StructV? && |v.members| == |k.fields|
  }

  /**
   * What `decodeField(name, sep, v)` leaves in `v`, a value of kind `k`, and
   * the keys it appends to `fields`. (A struct kind with a value of another
   * shape, which Go's typing rules out, is left alone.)
   */
  function FieldDecoded(env: Env, order: seq<string>, name: string, sep: string, k: Kind, v: Value): (r: (Value, seq<string>))
    requires IsIterationOrder(env, order) && NoPointerElems(k)
    ensures Fits(k, v) ==> Fits(k, r.0)
    decreases k, 2
  {
    if !k.Struct? then
      match Lookup(env, order, name)
      case None => (v, [])
      case Some(source) =>
        var (v', ok) := Decoded(source, k, v);
        (v', if ok then [name] else [])
    else if !Fits(k, v) then (v, [])
    else
      var members := MembersDecoded(env, order, name, sep, k, v.members, |k.fields|);
      (StructV(members.0), members.1)
  }

  /**
   * One iteration of decodeField's loop: the field with index `i` of struct
   * kind `k`, currently holding `m`, and the keys it consumes.
   */
  function MemberDecoded(env: Env, order: seq<string>, name: string, sep: string, k: Kind, i: nat, m: Value): (r: (Value, seq<string>))
    requires IsIterationOrder(env, order) && k.Struct? && NoPointerElems(k) && i < |k.fields|
    ensures Skipped(k.fields[i]) ==> r == (m, [])
    decreases k, 0
  {
    var f := k.fields[i];
    if Skipped(f) then (m, [])
    else FieldDecoded(env, order, name + sep + Segment(f), sep, f.kind, m)
  }

  /** The members and the keys after the first `i` iterations of decodeField's loop over `vals`. */
  function MembersDecoded(env: Env, order: seq<string>, name: string, sep: string, k: Kind, vals: seq<Value>, i: nat): (r: (seq<Value>, seq<string>))
    requires IsIterationOrder(env, order) && k.Struct? && NoPointerElems(k) && |vals| == |k.fields|
    requires i <= |k.fields|
    ensures |r.0| == |vals|
    decreases k, 1, i
  {
    if i == 0 then (vals, [])
    else
      var prev := MembersDecoded(env, order, name, sep, k, vals, i - 1);
      var member := MemberDecoded(env, order, name, sep, k, i - 1, prev.0[i - 1]);
      (prev.0[i - 1 := member.0], prev.1 + member.1)
  }

  /** Member `j` after `i` iterations: decoded on its own when `j < i`, as it was otherwise. */
  lemma {:induction false} MembersDecodedAt(env: Env, order: seq<string>, name: string, sep: string, k: Kind, vals: seq<Value>, i: nat, j: nat)
    requires IsIterationOrder(env, order) && k.Struct? && NoPointerElems(k) && |vals| == |k.fields|
    requires i <= |k.fields| && j < |k.fields|
    ensures MembersDecoded(env, order, name, sep, k, vals, i).0[j] ==
      if j < i then MemberDecoded(env, order, name, sep, k, j, vals[j]).0 else vals[j]
    decreases i
  {
    if i > 0 {
      MembersDecodedAt(env, order, name, sep, k, vals, i - 1, j);
    }
  }

  /** One more iteration of the loop decodes member `i - 1`, which the earlier ones left untouched. */
  lemma MembersDecodedStep(env: Env, order: seq<string>, name: string, sep: string, k: Kind, vals: seq<Value>, i: nat)
    requires IsIterationOrder(env, order) && k.Struct? && NoPointerElems(k) && |vals| == |k.fields|
    requires 0 < i <= |k.fields|
    ensures MembersDecoded(env, order, name, sep, k, vals, i) ==
      (MembersDecoded(env, order, name, sep, k, vals, i - 1).0[i - 1 := MemberDecoded(env, order, name, sep, k, i - 1, vals[i - 1]).0],
       MembersDecoded(env, order, name, sep, k, vals, i - 1).1 + MemberDecoded(env, order, name, sep, k, i - 1, vals[i - 1]).1)
  {
    MembersDecodedAt(env, order, name, sep, k, vals, i - 1, i - 1);
  }

  /** decodeField keeps the value a value of its kind. */
  lemma {:induction false} FieldDecodedHasKind(env: Env, order: seq<string>, name: string, sep: string, k: Kind, v: Value)
    requires IsIterationOrder(env, order) && NoPointerElems(k) && HasKind(v, k)
    ensures HasKind(FieldDecoded(env, order, name, sep, k, v).0, k)
    decreases k, 2
  {
    if k.Struct? {
      var vals := v.members;
      forall j | 0 <= j < |k.fields|
        ensures HasKind(FieldDecoded(env, order, name, sep, k, v).0.members[j], k.fields[j].kind)
      {
        MembersDecodedAt(env, order, name, sep, k, vals, |k.fields|, j);
        if !Skipped(k.fields[j]) {
          FieldDecodedHasKind(env, order, name + sep + Segment(k.fields[j]), sep, k.fields[j].kind, vals[j]);
        }
      }
    } else {
      var found := Lookup(env, order, name);
      if found.Some? {
        assert FieldDecoded(env, order, name, sep, k, v).0 == Decoded(found.value, k, v).0;
        DecodedHasKind(found.value, k, v);
      }
    }
  }

  /** `decodeField`: a leaf is looked up and converted; a struct is walked field by field, recursively. */
  method DecodeField(env: Env, order: seq<string>, name: string, sep: string, k: Kind, v: Value) returns (v': Value, fields: seq<string>)
    requires IsIterationOrder(env, order) && NoPointerElems(k) && HasKind(v, k)
    ensures (v', fields) == FieldDecoded(env, order, name, sep, k, v)
    decreases k, 1
  {
    if !k.Struct? {
      var source, ok := Get(env, order, name);
      if !ok {
        return v, [];
      }
      var converted;
      v', converted := DecodeLiteral(source, k, v);
      if !converted {
        return v', [];
      }
      return v', [name];
    }
    var members;
    members, fields := DecodeMembers(env, order, name, sep, k, v.members);
    v' := StructV(members);
  }

  /** The loop of `decodeField` over the fields of a struct of kind `k` whose members are `vals`. */
  method DecodeMembers(env: Env, order: seq<string>, name: string, sep: string, k: Kind, vals: seq<Value>)
    returns (members: seq<Value>, fields: seq<string>)
    requires IsIterationOrder(env, order) && k.Struct? && NoPointerElems(k) && HasKind(StructV(vals), k)
    ensures (members, fields) == MembersDecoded(env, order, name, sep, k, vals, |k.fields|)
    decreases k, 0
  {
    members, fields := vals, [];
    for i := 0 to |k.fields|
      invariant (members, fields) == MembersDecoded(env, order, name, sep, k, vals, i)
      invariant forall j :: i <= j < |vals| ==> members[j] == vals[j]
    {
      var field := k.fields[i];
      var tag := field.tag;
      if tag == "-" {
        assert members[i := members[i]] == members;
        assert fields + [] == fields;
        continue;
      }
      if |tag| == 0 {
        tag := field.name;
      }
      assert tag == Segment(field);
      var member, memberFields := DecodeField(env, order, name + sep + tag, sep, field.kind, members[i]);
      members := members[i := member];
      fields := fields + memberFields;
    }
  }

  /** The kind `indirect` ends at: `k` with every pointer stripped. */
  function Base(k: Kind): (b: Kind)
    ensures !b.Ptr?
    ensures NoPointerElems(k) ==> NoPointerElems(b)
    decreases k
  {
    if k.Ptr? then Base(k.pointee) else k
  }

  /** The value `indirect` ends at, a nil pointer on the way standing for a fresh zero value. */
  function Deref(k: Kind, v: Value): (b: Value)
    requires HasKind(v, k)
    ensures HasKind(b, Base(k))
    decreases k
  {
    if k.Ptr? then ZeroHasKind(k.pointee); Deref(k.pointee, if v.deref.Some? then v.deref.value else Zero(k.pointee)) else v
  }

  /** Every pointer on the chain from `v` down to the base value is non-nil. */
  ghost predicate Allocated(k: Kind, v: Value)
    requires HasKind(v, k)
    decreases k
  {
    k.Ptr? ==> v.deref.Some? && Allocated(k.pointee, v.deref.value)
  }

  /**
   * `v` after `indirect` has allocated the nil pointers on its chain and the
   * base value has been replaced by `b`.
   */
  function Store(k: Kind, v: Value, b: Value): (r: Value)
    requires HasKind(v, k) && HasKind(b, Base(k))
    ensures HasKind(r, k) && Allocated(k, r) && Deref(k, r) == b
    decreases k
  {
    if k.Ptr? then ZeroHasKind(k.pointee); PtrV(Some(Store(k.pointee, if v.deref.Some? then v.deref.value else Zero(k.pointee), b))) else b
  }

  /** `indirect`: follows pointers, allocating a zero value wherever one is nil. */
  method Indirect(k: Kind, v: Value) returns (bk: Kind, b: Value)
    requires HasKind(v, k)
    ensures bk == Base(k) && b == Deref(k, v)
  {
    bk, b := k, v;
    while bk.Ptr?
      invariant HasKind(b, bk) && Base(bk) == Base(k) && Deref(bk, b) == Deref(k, v)
      decreases bk
    {
      if b.deref.None? {
        ZeroHasKind(bk.pointee);
        b := PtrV(Some(Zero(bk.pointee)));
      }
      b := b.deref.value;
      bk := bk.pointee;
    }
  }

  datatype Error = NonPointer | Unrecognized(key: string)

  /** The outcome of `decode`: the new target and the consumed keys, or an error. */
  datatype Outcome = Done(value: Value, fields: seq<string>) | Failed(err: Error)

  /**
   * `decode(prefix, sep, v, &fields)`: fails exactly when `v` is not a non-nil
   * pointer; otherwise the nil pointers below it are allocated and the value
   * at the end of the chain is decoded under `prefix`.
   */
  function Decoding(env: Env, order: seq<string>, prefix: string, sep: string, k: Kind, v: Value): (r: Outcome)
    requires IsIterationOrder(env, order) && NoPointerElems(k) && HasKind(v, k)
    ensures r.Failed? <==> !(k.Ptr? && v.deref.Some?)
    ensures r.Failed? ==> r.err == NonPointer
    ensures r.Done? ==> HasKind(r.value, k) && Allocated(k, r.value)
  {
    if !(k.Ptr? && v.deref.Some?) then Failed(NonPointer)
    else
      var decoded := FieldDecoded(env, order, prefix, sep, Base(k), Deref(k, v));
      FieldDecodedHasKind(env, order, prefix, sep, Base(k), Deref(k, v));
      Done(Store(k, v, decoded.0), decoded.1)
  }

  /** `decode`, which collects the consumed keys. */
  method DecodeCollecting(env: Env, order: seq<string>, prefix: string, sep: string, k: Kind, v: Value)
    returns (v': Value, fields: seq<string>, err: Option<Error>)
    requires IsIterationOrder(env, order) && NoPointerElems(k) && HasKind(v, k)
    ensures Decoding(env, order, prefix, sep, k, v).Failed? ==>
      v' == v && fields == [] && err == Some(Decoding(env, order, prefix, sep, k, v).err)
    ensures Decoding(env, order, prefix, sep, k, v).Done? ==>
      v' == Decoding(env, order, prefix, sep, k, v).value && fields == Decoding(env, order, prefix, sep, k, v).fields && err == None
  {
    if !(k.Ptr? && v.deref.Some?) {
      return v, [], Some(NonPointer);
    }
    var bk, b := Indirect(k, v);
    var b';
    b', fields := DecodeField(env, order, prefix, sep, bk, b);
    FieldDecodedHasKind(env, order, prefix, sep, bk, b);
    v' := Store(k, v, b');
    err := None;
  }

  /** `Environment.Decode`: decode without collecting keys. */
  method Decode(env: Env, order: seq<string>, prefix: string, sep: string, k: Kind, v: Value) returns (v': Value, err: Option<Error>)
    requires IsIterationOrder(env, order) && NoPointerElems(k) && HasKind(v, k)
    ensures err.Some? <==> !(k.Ptr? && v.deref.Some?)
    ensures err.Some? ==> err.value == NonPointer && v' == v
    ensures err.None? ==> v' == Decoding(env, order, prefix, sep, k, v).value
  {
    var fields;
    v', fields, err := DecodeCollecting(env, order, prefix, sep, k, v);
  }
}
