/**
 * `Environment.DecodeStrict` (envconf.go:59-85): decode, then reject the
 * first variable in map order that carries the prefix (in any letter case)
 * but matches neither a consumed key nor a key of the ignore set.
 */
module Strict {
  import opened Wrappers
  import opened Text
  import opened Kinds
  import opened Environment
  import opened Decoder
  import opened DecodeLaws

  /**
   * `key` starts with `prefix` up to case, is not literally in `ignore`, and
   * equals no consumed field and no ignored key up to case.
   */
  predicate Unrecognized(key: string, prefix: string, fields: seq<string>, ignore: set<string>) {
    && HasPrefixFold(key, prefix)
    && key !in ignore
    && (forall f :: f in fields ==> !EqualFold(key, f))
    && (forall g :: g in ignore ==> !EqualFold(key, g))
  }

  /** The first key of `order`, from index `i` on, that is unrecognized. */
  function FirstUnrecognized(order: seq<string>, i: nat, prefix: string, fields: seq<string>, ignore: set<string>): (r: Option<string>)
    requires i <= |order|
    ensures r.Some? ==> r.value in order && Unrecognized(r.value, prefix, fields, ignore)
    decreases |order| - i
  {
    if i == |order| then None
    else if Unrecognized(order[i], prefix, fields, ignore) then Some(order[i])
    else FirstUnrecognized(order, i + 1, prefix, fields, ignore)
  }

  /**
   * The scan reports a key exactly when some key from index `i` on is
   * unrecognized; the key it reports is such a key, and every key before it
   * is recognized.
   */
  lemma {:induction false} FirstUnrecognizedSpec(order: seq<string>, i: nat, prefix: string, fields: seq<string>, ignore: set<string>)
    requires i <= |order|
    ensures var r := FirstUnrecognized(order, i, prefix, fields, ignore);
      && (r.None? <==> forall j :: i <= j < |order| ==> !Unrecognized(order[j], prefix, fields, ignore))
      && (r.Some? ==> exists j :: i <= j < |order| && order[j] == r.value && Unrecognized(order[j], prefix, fields, ignore)
                        && forall t :: i <= t < j ==> !Unrecognized(order[t], prefix, fields, ignore))
    decreases |order| - i
  {
    if i == |order| {
    } else if Unrecognized(order[i], prefix, fields, ignore) {
    } else {
      var r := FirstUnrecognized(order, i + 1, prefix, fields, ignore);
      FirstUnrecognizedSpec(order, i + 1, prefix, fields, ignore);
      if r.Some? {
        var j :| i + 1 <= j < |order| && order[j] == r.value && Unrecognized(order[j], prefix, fields, ignore)
          && forall t :: i + 1 <= t < j ==> !Unrecognized(order[t], prefix, fields, ignore);
        assert forall t :: i <= t < j ==> !Unrecognized(order[t], prefix, fields, ignore);
      }
    }
  }

  /** What DecodeStrict returns once decoding succeeded with the keys `fields`. */
  function Verdict(order: seq<string>, prefix: string, fields: seq<string>, ignore: set<string>): (err: Option<Error>)
    ensures err.Some? ==> err.value.Unrecognized?
  {
    match FirstUnrecognized(order, 0, prefix, fields, ignore)
    case None => None
    case Some(key) => Some(Error.Unrecognized(key))
  }

  /**
   * DecodeStrict succeeds exactly when no variable of the environment is
   * unrecognized; the variable it rejects is one of the environment's and
   * is unrecognized.
   */
  lemma VerdictSpec(env: Env, order: seq<string>, prefix: string, fields: seq<string>, ignore: set<string>)
    requires IsIterationOrder(env, order)
    ensures Verdict(order, prefix, fields, ignore).None? <==>
      forall key :: key in env ==> !Unrecognized(key, prefix, fields, ignore)
    ensures Verdict(order, prefix, fields, ignore).Some? ==>
      var key := Verdict(order, prefix, fields, ignore).value.key;
      key in env && Unrecognized(key, prefix, fields, ignore)
  {
    FirstUnrecognizedSpec(order, 0, prefix, fields, ignore);
    if Verdict(order, prefix, fields, ignore).None? {
      forall key | key in env
        ensures !Unrecognized(key, prefix, fields, ignore)
      {
        assert key in order;
        var j :| 0 <= j < |order| && order[j] == key;
      }
    } else {
      var key := Verdict(order, prefix, fields, ignore).value.key;
      assert key in order;
    }
  }

  /** Map order decides which variable is reported, never whether one is. */
  lemma VerdictOrderIndependent(env: Env, order: seq<string>, order': seq<string>, prefix: string, fields: seq<string>, ignore: set<string>)
    requires IsIterationOrder(env, order) && IsIterationOrder(env, order')
    ensures Verdict(order, prefix, fields, ignore).None? == Verdict(order', prefix, fields, ignore).None?
  {
    VerdictSpec(env, order, prefix, fields, ignore);
    VerdictSpec(env, order', prefix, fields, ignore);
  }

  /**
   * The exact test against the ignore set is subsumed by the
   * case-insensitive one: a key is unrecognized exactly when it has the
   * prefix and folds to no consumed field and no ignored key.
   */
  lemma ExactIgnoreRedundant(key: string, prefix: string, fields: seq<string>, ignore: set<string>)
    ensures Unrecognized(key, prefix, fields, ignore) <==>
      && HasPrefixFold(key, prefix)
      && (forall f :: f in fields ==> !EqualFold(key, f))
      && (forall g :: g in ignore ==> !EqualFold(key, g))
  {
    assert EqualFold(key, key);
  }

  /** A key the decoder consumed, in any letter case, is never unrecognized. */
  lemma ConsumedRecognized(key: string, variant: string, prefix: string, fields: seq<string>, ignore: set<string>)
    requires key in fields && Fold(variant) == Fold(key)
    ensures !Unrecognized(variant, prefix, fields, ignore)
  {
    assert EqualFold(variant, key);
  }

  /** A variable without the prefix is never rejected, whatever the ignore set and the consumed fields. */
  lemma UnprefixedRecognized(key: string, prefix: string, fields: seq<string>, ignore: set<string>)
    requires !(Fold(prefix) <= Fold(key))
    ensures !Unrecognized(key, prefix, fields, ignore)
  {
    HasPrefixFoldIsFoldedPrefix(key, prefix);
  }

  /**
   * A variable with the prefix that is not ignored and folds to no leaf of
   * the target is always rejected, whatever was consumed: a key of a
   * skipped field, say, unless it is ignored.
   */
  lemma UnmatchedRejected(env: Env, order: seq<string>, prefix: string, sep: string, k: Kind, v: Value, ignore: set<string>, key: string)
    requires IsIterationOrder(env, order) && NoPointerElems(k) && HasKind(v, k)
    requires Decoding(env, order, prefix, sep, k, v).Done?
    requires key in env && HasPrefixFold(key, prefix) && key !in ignore
    requires forall g :: g in ignore ==> !EqualFold(key, g)
    requires forall j :: 0 <= j < |Leaves(prefix, sep, Base(k))| ==> !EqualFold(key, Leaves(prefix, sep, Base(k))[j].0)
    ensures Verdict(order, prefix, Decoding(env, order, prefix, sep, k, v).fields, ignore).Some?
  {
    var leaves := Leaves(prefix, sep, Base(k));
    var fields := Decoding(env, order, prefix, sep, k, v).fields;
    DecodingKeys(env, order, prefix, sep, k, v);
    forall f | f in fields
      ensures !EqualFold(key, f)
    {
      ConsumedMembers(env, order, leaves, f);
    }
    assert Unrecognized(key, prefix, fields, ignore);
    VerdictSpec(env, order, prefix, fields, ignore);
  }

  /**
   * `Environment.DecodeStrict`: a failed decode is returned as it is;
   * otherwise the target holds the decoded value and the error names the
   * first unrecognized variable in map order, if any.
   */
  method DecodeStrict(env: Env, order: seq<string>, prefix: string, sep: string, k: Kind, v: Value, ignore: set<string>)
    returns (v': Value, err: Option<Error>)
    requires IsIterationOrder(env, order) && NoPointerElems(k) && HasKind(v, k)
    ensures Decoding(env, order, prefix, sep, k, v).Failed? ==>
      v' == v && err == Some(Decoding(env, order, prefix, sep, k, v).err)
    ensures Decoding(env, order, prefix, sep, k, v).Done? ==>
      && v' == Decoding(env, order, prefix, sep, k, v).value
      && err == Verdict(order, prefix, Decoding(env, order, prefix, sep, k, v).fields, ignore)
  {
    var fields;
    v', fields, err := DecodeCollecting(env, order, prefix, sep, k, v);
    if err.Some? {
      return;
    }
    ghost var verdict := FirstUnrecognized(order, 0, prefix, fields, ignore);
    label getEnv:
    for i := 0 to |order|
      invariant FirstUnrecognized(order, i, prefix, fields, ignore) == verdict
    {
      var key := order[i];
      if !HasPrefixFold(key, prefix) {
        continue;
      }
      if key in ignore {
        continue;
      }
      for j := 0 to |fields|
        invariant forall t :: 0 <= t < j ==> !EqualFold(key, fields[t])
      {
        if EqualFold(key, fields[j]) {
          continue getEnv;
        }
      }
      var rest := ignore;
      while rest != {}
        invariant rest <= ignore
        invariant forall g :: g in ignore && g !in rest ==> !EqualFold(key, g)
        decreases rest
      {
        var g :| g in rest;
        if EqualFold(key, g) {
          continue getEnv;
        }
        rest := rest - {g};
      }
      return v', Some(Error.Unrecognized(key));
    }
    err := None;
  }
}
