/**
 * Go chooses a fresh map order for every `range` over the environment, so
 * two calls of Get, decode or DecodeStrict may see different orders. The
 * order changes a decode only when two keys of the environment are case
 * variants of each other (envconf.go:42-46 returns whichever it meets
 * first). Without such keys every decode, and whether DecodeStrict fails, is
 * the same under any two orders; which unrecognized variable DecodeStrict
 * names may still differ (envconf.go:64-85 reports the first it meets).
 */
module OrderLaws {
  import opened Wrappers
  import opened Text
  import opened Strconv
  import opened Kinds
  import opened Environment
  import opened Literal
  import opened Decoder
  import opened DecodeLaws
  import opened Strict

  /** No two distinct keys of the environment are equal under case folding. */
  ghost predicate FoldUnique(env: Env) {
    forall a, b :: a in env && b in env && EqualFold(a, b) ==> a == b
  }

  /** Without case-variant keys, Get does not depend on the order. */
  lemma LookupOrderIndependent(env: Env, o1: seq<string>, o2: seq<string>, name: string)
    requires IsIterationOrder(env, o1) && IsIterationOrder(env, o2) && FoldUnique(env)
    ensures Lookup(env, o1, name) == Lookup(env, o2, name)
  {
    LookupSpec(env, o1, name);
    LookupSpec(env, o2, name);
    if Lookup(env, o1, name).Some? {
      var k1 :| k1 in env && EqualFold(k1, name) && Lookup(env, o1, name).value == TrimSpace(env[k1]);
      var k2 :| k2 in env && EqualFold(k2, name) && Lookup(env, o2, name).value == TrimSpace(env[k2]);
      assert EqualFold(k1, k2);
    }
  }

  /** Without case-variant keys, decodeField does not depend on the order. */
  lemma {:induction false} FieldDecodedOrderIndependent(env: Env, o1: seq<string>, o2: seq<string>, name: string, sep: string, k: Kind, v: Value)
    requires IsIterationOrder(env, o1) && IsIterationOrder(env, o2) && FoldUnique(env) && NoPointerElems(k)
    ensures FieldDecoded(env, o1, name, sep, k, v) == FieldDecoded(env, o2, name, sep, k, v)
    decreases k, 1
  {
    if !k.Struct? {
      LookupOrderIndependent(env, o1, o2, name);
    } else if Fits(k, v) {
      MembersOrderIndependent(env, o1, o2, name, sep, k, v.members, |k.fields|);
    }
  }

  lemma {:induction false} MembersOrderIndependent(env: Env, o1: seq<string>, o2: seq<string>, name: string, sep: string, k: Kind, vals: seq<Value>, i: nat)
    requires IsIterationOrder(env, o1) && IsIterationOrder(env, o2) && FoldUnique(env)
    requires k.Struct? && NoPointerElems(k) && |vals| == |k.fields| && i <= |k.fields|
    ensures MembersDecoded(env, o1, name, sep, k, vals, i) == MembersDecoded(env, o2, name, sep, k, vals, i)
    decreases k, 0, i
  {
    if i > 0 {
      var f := k.fields[i - 1];
      MembersOrderIndependent(env, o1, o2, name, sep, k, vals, i - 1);
      if !Skipped(f) {
        FieldDecodedOrderIndependent(env, o1, o2, name + sep + Segment(f), sep, f.kind, vals[i - 1]);
      }
      assert MemberDecoded(env, o1, name, sep, k, i - 1, vals[i - 1]) == MemberDecoded(env, o2, name, sep, k, i - 1, vals[i - 1]);
      MembersDecodedStep(env, o1, name, sep, k, vals, i);
      MembersDecodedStep(env, o2, name, sep, k, vals, i);
    }
  }

  /** Without case-variant keys, decode does not depend on the order. */
  lemma DecodingOrderIndependent(env: Env, o1: seq<string>, o2: seq<string>, prefix: string, sep: string, k: Kind, v: Value)
    requires IsIterationOrder(env, o1) && IsIterationOrder(env, o2) && FoldUnique(env)
    requires NoPointerElems(k) && HasKind(v, k)
    ensures Decoding(env, o1, prefix, sep, k, v) == Decoding(env, o2, prefix, sep, k, v)
  {
    if k.Ptr? && v.deref.Some? {
      FieldDecodedOrderIndependent(env, o1, o2, prefix, sep, Base(k), Deref(k, v));
    }
  }

  /**
   * Without case-variant keys, decoding the result of decodeField again, in
   * another order, gives the same value and the same keys.
   */
  lemma FieldDecodedIdempotentAcrossOrders(env: Env, o1: seq<string>, o2: seq<string>, name: string, sep: string, k: Kind, v: Value)
    requires IsIterationOrder(env, o1) && IsIterationOrder(env, o2) && FoldUnique(env)
    requires NoPointerElems(k) && HasKind(v, k)
    ensures FieldDecoded(env, o2, name, sep, k, FieldDecoded(env, o1, name, sep, k, v).0) == FieldDecoded(env, o1, name, sep, k, v)
  {
    FieldDecodedIdempotent(env, o1, name, sep, k, v);
    FieldDecodedOrderIndependent(env, o1, o2, name, sep, k, FieldDecoded(env, o1, name, sep, k, v).0);
  }

  /**
   * Without case-variant keys, decoding into the result of a successful
   * decode, in another order, gives the same outcome.
   */
  lemma DecodingIdempotentAcrossOrders(env: Env, o1: seq<string>, o2: seq<string>, prefix: string, sep: string, k: Kind, v: Value)
    requires IsIterationOrder(env, o1) && IsIterationOrder(env, o2) && FoldUnique(env)
    requires NoPointerElems(k) && HasKind(v, k)
    requires Decoding(env, o1, prefix, sep, k, v).Done?
    ensures Decoding(env, o2, prefix, sep, k, Decoding(env, o1, prefix, sep, k, v).value) == Decoding(env, o1, prefix, sep, k, v)
  {
    DecodingIdempotent(env, o1, prefix, sep, k, v);
    DecodingOrderIndependent(env, o1, o2, prefix, sep, k, Decoding(env, o1, prefix, sep, k, v).value);
  }

  /**
   * Without case-variant keys, whether DecodeStrict reports an error does not
   * depend on the order of its decode or of its scan; only which variable it
   * names may.
   */
  lemma StrictOrderIndependent(env: Env, o1: seq<string>, o2: seq<string>, prefix: string, sep: string, k: Kind, v: Value, ignore: set<string>)
    requires IsIterationOrder(env, o1) && IsIterationOrder(env, o2) && FoldUnique(env)
    requires NoPointerElems(k) && HasKind(v, k)
    requires Decoding(env, o1, prefix, sep, k, v).Done?
    ensures Decoding(env, o2, prefix, sep, k, v) == Decoding(env, o1, prefix, sep, k, v)
    ensures Verdict(o1, prefix, Decoding(env, o1, prefix, sep, k, v).fields, ignore).None? ==
      Verdict(o2, prefix, Decoding(env, o2, prefix, sep, k, v).fields, ignore).None?
  {
    DecodingOrderIndependent(env, o1, o2, prefix, sep, k, v);
    VerdictOrderIndependent(env, o1, o2, prefix, Decoding(env, o1, prefix, sep, k, v).fields, ignore);
  }

  /** Under the two orders of `Xa` and `xA`, Get of `XA` returns the value of the key it meets first. */
  lemma CaseVariantLookups()
    ensures var env := map["Xa" := "1", "xA" := "zz"];
      && IsIterationOrder(env, ["Xa", "xA"]) && IsIterationOrder(env, ["xA", "Xa"])
      && Lookup(env, ["Xa", "xA"], "XA") == Some("1")
      && Lookup(env, ["xA", "Xa"], "XA") == Some("zz")
  {
    assert Fold("XA") == "xa" && Fold("Xa") == "xa" && Fold("xA") == "xa";
    assert TrimSpace("1") == "1" && TrimSpace("zz") == "zz";
  }

  /**
   * With the case variants `Xa` and `xA`, a bool leaf keyed `XA` reads `1`
   * and consumes the key under one order, and reads `zz`, is left alone and
   * consumes nothing under the other.
   */
  lemma CaseVariantsOrderDependent(v: Value)
    ensures var env := map["Xa" := "1", "xA" := "zz"];
      && IsIterationOrder(env, ["Xa", "xA"]) && IsIterationOrder(env, ["xA", "Xa"])
      && FieldDecoded(env, ["Xa", "xA"], "XA", "_", Bool, v) == (BoolV(true), ["XA"])
      && FieldDecoded(env, ["xA", "Xa"], "XA", "_", Bool, v) == (v, [])
  {
    CaseVariantLookups();
    assert ParseBool("1") == Some(true);
    assert ParseBool("zz") == None;
  }

  /**
   * Without case variants, DecodeStrict may still name a different variable:
   * with `A_x` and `A_y` both unrecognized under prefix `A`, the scan
   * reports whichever the order reaches first.
   */
  lemma StrictNameOrderDependent()
    ensures var env := map["A_x" := "1", "A_y" := "2"];
      && FoldUnique(env)
      && IsIterationOrder(env, ["A_x", "A_y"]) && IsIterationOrder(env, ["A_y", "A_x"])
      && Verdict(["A_x", "A_y"], "A", [], {}) == Some(Error.Unrecognized("A_x"))
      && Verdict(["A_y", "A_x"], "A", [], {}) == Some(Error.Unrecognized("A_y"))
  {
    assert Fold("A_x") == "a_x" && Fold("A_y") == "a_y" && Fold("A") == "a";
    assert HasPrefixFold("A_x", "A") && HasPrefixFold("A_y", "A");
  }
}
