/**
 * The environment store of envconf.go: `New` (lines 23-31) builds a map from
 * `KEY=VALUE` strings and `Environment.Get` (lines 38-48) looks a name up,
 * exactly first and then case-insensitively.
 *
 * Go randomises the iteration order of a map. Where envconf ranges over the
 * environment, the order is a parameter `order`: a listing of the map's
 * keys, each once (`IsIterationOrder`).
 */
module Environment {
  import opened Wrappers
  import opened Text

  type Env = map<string, string>

  /** `strings.SplitN(entry, "=", 2)` when it yields two parts: the text before and after the first `=`. */
  function SplitEntry(entry: string): (r: Option<(string, string)>)
    ensures r.Some? <==> '=' in entry
    ensures r.Some? ==> entry == r.value.0 + "=" + r.value.1 && '=' !in r.value.0
  {
    if entry == [] then None
    else if entry[0] == '=' then Some(([], entry[1..]))
    else
      match SplitEntry(entry[1..])
      case None => None
      case Some(kv) =>
        assert entry == [entry[0]] + entry[1..];
        Some(([entry[0]] + kv.0, kv.1))
  }

  /** The key an entry defines, if it has an `=`. */
  function KeyOf(entry: string): Option<string> {
    match SplitEntry(entry)
    case Some(kv) => Some(kv.0)
    case None => None
  }

  /** The environment that the first entries of `environ` define, in order (the fold New performs). */
  function EnvOf(environ: seq<string>): Env {
    if environ == [] then map[]
    else
      var env := EnvOf(environ[..|environ| - 1]);
      match SplitEntry(environ[|environ| - 1])
      case Some(kv) => env[kv.0 := kv.1]
      case None => env
  }

  /** `New`: fills the map entry by entry; a later entry for the same key overwrites an earlier one. */
  method New(environ: seq<string>) returns (env: Env)
    ensures env == EnvOf(environ)
  {
    env := map[];
    for i := 0 to |environ|
      invariant env == EnvOf(environ[..i])
    {
      assert environ[..i + 1][..i] == environ[..i];
      var v := SplitEntry(environ[i]);
      if v.Some? {
        env := env[v.value.0 := v.value.1];
      }
    }
    assert environ[..|environ|] == environ;
  }

  /** A key is in the environment exactly when some entry defines it; entries without `=` define nothing. */
  lemma {:induction false} EnvOfKeys(environ: seq<string>, key: string)
    ensures key in EnvOf(environ) <==> exists i :: 0 <= i < |environ| && KeyOf(environ[i]) == Some(key)
  {
    if environ != [] {
      var init := environ[..|environ| - 1];
      EnvOfKeys(init, key);
      if exists i :: 0 <= i < |environ| && KeyOf(environ[i]) == Some(key) {
        var i :| 0 <= i < |environ| && KeyOf(environ[i]) == Some(key);
        if i < |init| {
          assert KeyOf(init[i]) == Some(key);
        }
      }
      if key in EnvOf(init) {
        var i :| 0 <= i < |init| && KeyOf(init[i]) == Some(key);
        assert environ[i] == init[i];
      }
    }
  }

  /** Each key holds the value of the LAST entry that defines it: everything after that entry's first `=`. */
  lemma {:induction false} EnvOfLastWins(environ: seq<string>, i: nat)
    requires i < |environ| && SplitEntry(environ[i]).Some?
    requires forall j :: i < j < |environ| ==> KeyOf(environ[j]) != KeyOf(environ[i])
    ensures var kv := SplitEntry(environ[i]).value; kv.0 in EnvOf(environ) && EnvOf(environ)[kv.0] == kv.1
  {
    var init := environ[..|environ| - 1];
    if i < |environ| - 1 {
      assert init[i] == environ[i];
      forall j | i < j < |init| ensures KeyOf(init[j]) != KeyOf(init[i]) {
        assert init[j] == environ[j];
      }
      EnvOfLastWins(init, i);
      assert KeyOf(environ[|environ| - 1]) != KeyOf(environ[i]);
    }
  }

  /** One more entry updates the map its predecessors define, when it has an `=`. */
  lemma EnvOfSnoc(init: seq<string>, entry: string)
    ensures EnvOf(init + [entry]) ==
      match SplitEntry(entry)
      case Some(kv) => EnvOf(init)[kv.0 := kv.1]
      case None => EnvOf(init)
  {
    assert (init + [entry])[..|init|] == init;
  }

  /** How the entries of NewExample split. */
  lemma SplitEntryExamples()
    ensures SplitEntry("A=b=c") == Some(("A", "b=c"))
    ensures SplitEntry("USER") == None
    ensures SplitEntry("A=d") == Some(("A", "d"))
    ensures SplitEntry("B=") == Some(("B", ""))
  {
    assert "A=b=c"[1..] == "=b=c" && "=b=c"[1..] == "b=c";
    assert SplitEntry("=b=c") == Some(("", "b=c"));
    assert ['A'] + "" == "A" && "A=b=c"[0] == 'A';
    assert "B="[1..] == "=" && "="[1..] == "";
    assert SplitEntry("=") == Some(("", ""));
    assert ['B'] + "" == "B" && "B="[0] == 'B';
  }

  /**
   * Only entries with an `=` count, the value keeps any further `=`, an
   * empty value is kept, and a later entry for a key overwrites an earlier one.
   */
  lemma NewExample()
    ensures EnvOf(["A=b=c", "USER", "A=d", "B="]) == map["A" := "d", "B" := ""]
  {
    SplitEntryExamples();
    EnvOfSnoc([], "A=b=c");
    assert [] + ["A=b=c"] == ["A=b=c"];
    EnvOfSnoc(["A=b=c"], "USER");
    assert ["A=b=c"] + ["USER"] == ["A=b=c", "USER"];
    EnvOfSnoc(["A=b=c", "USER"], "A=d");
    assert ["A=b=c", "USER"] + ["A=d"] == ["A=b=c", "USER", "A=d"];
    EnvOfSnoc(["A=b=c", "USER", "A=d"], "B=");
    assert ["A=b=c", "USER", "A=d"] + ["B="] == ["A=b=c", "USER", "A=d", "B="];
  }

  /** Go's `range` over the map visits `order`: every key, once. */
  ghost predicate IsIterationOrder(env: Env, order: seq<string>) {
    && (forall k :: k in env <==> k in order)
    && (forall i, j :: 0 <= i < j < |order| ==> order[i] != order[j])
  }

  /** The fallback scan of Get: the first key in `order` equal to `name` under case folding. */
  function FoldScan(env: Env, order: seq<string>, name: string): (r: Option<string>)
    requires forall k :: k in order ==> k in env
    ensures r.Some? ==> order != []
  {
    if order == [] then None
    else if EqualFold(order[0], name) then Some(TrimSpace(env[order[0]]))
    else FoldScan(env, order[1..], name)
  }

  /** The scan finds a value exactly when some key in `order` folds to `name`, and the value is such a key's. */
  lemma {:induction false} FoldScanSpec(env: Env, order: seq<string>, name: string)
    requires forall k :: k in order ==> k in env
    ensures var r := FoldScan(env, order, name);
      && (r.Some? ==> exists k :: k in order && EqualFold(k, name) && r.value == TrimSpace(env[k]))
      && (r.None? <==> forall k :: k in order ==> !EqualFold(k, name))
  {
    if order != [] && !EqualFold(order[0], name) {
      FoldScanSpec(env, order[1..], name);
      assert order == [order[0]] + order[1..];
    }
  }

  /**
   * The result of `Get(name)` when the map is ranged over in `order`: the
   * trimmed value of `name` if it is a key, else the trimmed value of some
   * key equal to `name` under case folding (the first in `order`), else None.
   */
  function Lookup(env: Env, order: seq<string>, name: string): (r: Option<string>)
    requires IsIterationOrder(env, order)
    ensures name in env ==> r == Some(TrimSpace(env[name]))
  {
    if name in env then Some(TrimSpace(env[name])) else FoldScan(env, order, name)
  }

  /** Get finds a value exactly when some key folds to `name`, and the value is such a key's, trimmed. */
  lemma LookupSpec(env: Env, order: seq<string>, name: string)
    requires IsIterationOrder(env, order)
    ensures var r := Lookup(env, order, name);
      && (r.Some? <==> exists k :: k in env && EqualFold(k, name))
      && (r.Some? ==> exists k :: k in env && EqualFold(k, name) && r.value == TrimSpace(env[k]))
  {
    if name !in env {
      FoldScanSpec(env, order, name);
    } else {
      assert EqualFold(name, name);
    }
  }

  /** `Environment.Get`: an exact lookup, then a case-insensitive scan of every key. */
  method Get(env: Env, order: seq<string>, name: string) returns (value: string, ok: bool)
    requires IsIterationOrder(env, order)
    ensures ok == Lookup(env, order, name).Some?
    ensures value == if ok then Lookup(env, order, name).value else ""
  {
    if name in env {
      return TrimSpace(env[name]), true;
    }
    for i := 0 to |order|
      invariant FoldScan(env, order, name) == FoldScan(env, order[i..], name)
    {
      assert order[i..][1..] == order[i + 1..];
      var key := order[i];
      if EqualFold(key, name) {
        return TrimSpace(env[key]), true;
      }
    }
    return "", false;
  }

  /** Every case variant of a stored key finds a value; when no other key folds to the same name, it is that key's value. */
  lemma CaseVariantFound(env: Env, order: seq<string>, key: string, name: string)
    requires IsIterationOrder(env, order)
    requires key in env && EqualFold(key, name)
    ensures Lookup(env, order, name).Some?
    ensures (forall k :: k in env && EqualFold(k, name) ==> k == key) ==> Lookup(env, order, name) == Some(TrimSpace(env[key]))
  {
    LookupSpec(env, order, name);
  }

  /** `order` with `key` removed. */
  function Without(order: seq<string>, key: string): (r: seq<string>)
    ensures forall k :: k in r <==> k in order && k != key
    ensures (forall i, j :: 0 <= i < j < |order| ==> order[i] != order[j]) ==> forall i, j :: 0 <= i < j < |r| ==> r[i] != r[j]
  {
    if order == [] then []
    else
      var rest := Without(order[1..], key);
      assert (forall i, j :: 0 <= i < j < |order| ==> order[i] != order[j]) ==> order[0] !in rest;
      (if order[0] == key then [] else [order[0]]) + rest
  }

  /**
   * The fallback is genuinely nondeterministic: when `name` is not a key,
   * every key that folds to `name` is the one Get returns under some
   * iteration order.
   */
  lemma AnyFoldMatchPossible(env: Env, order: seq<string>, key: string, name: string)
    requires IsIterationOrder(env, order)
    requires name !in env && key in env && EqualFold(key, name)
    ensures var order' := [key] + Without(order, key);
      IsIterationOrder(env, order') && Lookup(env, order', name) == Some(TrimSpace(env[key]))
  {
    var order' := [key] + Without(order, key);
    forall i, j | 0 <= i < j < |order'| ensures order'[i] != order'[j] {
      if i == 0 {
        assert order'[j] in Without(order, key);
      } else {
        assert order'[i] == Without(order, key)[i - 1] && order'[j] == Without(order, key)[j - 1];
      }
    }
  }
}
