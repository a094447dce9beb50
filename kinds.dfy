/**
 * The reflection that envconf.go uses, replaced by a type descriptor
 * (`Kind`) and a matching value (`Value`). A struct's fields carry their
 * declared name and their `env` tag (empty when the field has no tag).
 */
module Kinds {
  import opened Wrappers
  import opened Strconv

  /** The reflect kinds envconf distinguishes; `Other` stands for every kind it cannot decode into (interfaces, maps, ...). */
  datatype Kind =
    | Int(iw: Width)
    | Uint(uw: Width)
    | Bool
    | Str
    | Slice(elem: Kind)
    | Struct(fields: seq<Field>)
    | Ptr(pointee: Kind)
    | Other

  datatype Field = Field(name: string, tag: string, kind: Kind)

  /** A Go value; `PtrV(None)` is a nil pointer. */
  datatype Value =
    | IntV(i: int)
    | UintV(u: nat)
    | BoolV(b: bool)
    | StrV(s: string)
    | SliceV(elems: seq<Value>)
    | StructV(members: seq<Value>)
    | PtrV(deref: Option<Value>)
    | OtherV

  /** `v` is a value of kind `k` (integers within their width). */
  ghost predicate HasKind(v: Value, k: Kind)
    decreases k
  {
    match k
    case Int(w) => v.IntV? && InIntRange(v.i, w)
    case Uint(w) => v.UintV? && v.u < UintLimit(w)
    case Bool => v.BoolV?
    case Str => v.StrV?
    case Slice(e) => v.SliceV? && forall x :: x in v.elems ==> HasKind(x, e)
    case Struct(fs) =>
      && v.StructV? && |v.members| == |fs|
      && forall i :: 0 <= i < |fs| ==> HasKind(v.members[i], fs[i].kind)
    case Ptr(t) => v.PtrV? && (v.deref.Some? ==> HasKind(v.deref.value, t))
    case Other => v.OtherV?
  }

  /** The zero value of a kind (`reflect.New(t).Elem()`): nil pointers, empty slices, zeroed structs. */
  function Zero(k: Kind): (v: Value)
    ensures k.Struct? ==> v.StructV?
    decreases k, 1
  {
    match k
    case Int(_) => IntV(0)
    case Uint(_) => UintV(0)
    case Bool => BoolV(false)
    case Str => StrV("")
    case Slice(_) => SliceV([])
    case Struct(_) => StructV(ZeroMembers(k, 0))
    case Ptr(_) => PtrV(None)
    case Other => OtherV
  }

  /** The zero values of the fields of struct kind `k` from the field with index `i` on. */
  function ZeroMembers(k: Kind, i: nat): (vs: seq<Value>)
    requires k.Struct? && i <= |k.fields|
    ensures |vs| == |k.fields| - i
    decreases k, 0, |k.fields| - i
  {
    if i == |k.fields| then [] else [Zero(k.fields[i].kind)] + ZeroMembers(k, i + 1)
  }

  /** The zero value of a kind is a value of that kind. */
  lemma {:induction false} ZeroHasKind(k: Kind)
    ensures HasKind(Zero(k), k)
    decreases k, 1
  {
    if k.Struct? {
      ZeroMembersHasKind(k, 0);
    }
  }

  lemma {:induction false} ZeroMembersHasKind(k: Kind, i: nat)
    requires k.Struct? && i <= |k.fields|
    ensures forall j :: 0 <= j < |k.fields| - i ==> HasKind(ZeroMembers(k, i)[j], k.fields[i + j].kind)
    decreases k, 0, |k.fields| - i
  {
    if i < |k.fields| {
      ZeroHasKind(k.fields[i].kind);
      ZeroMembersHasKind(k, i + 1);
    }
  }

  /**
   * No slice anywhere in `k` has pointer elements. For `[]*T`, decodeSlice
   * builds each element as a `T` and `reflect.Append` panics on it.
   */
  ghost predicate NoPointerElems(k: Kind)
    decreases k
  {
    match k
    case Slice(e) => !e.Ptr? && NoPointerElems(e)
    case Struct(fs) => forall i :: 0 <= i < |fs| ==> NoPointerElems(fs[i].kind)
    case Ptr(t) => NoPointerElems(t)
    case _ => true
  }
}
