/**
 The cross-project memory listing of internal/app/app.go: a row budget spread over
 the projects, with third-party integration zones left out.
 */
module MemoryBudget {
  import opened Text
  import opened Sequences

  const INTEGRATION_PREFIX := "integration:"
  const DEFAULT_LIMIT: nat := 400
  const MIN_SHARE: nat := 20

  datatype Row = Row(id: string, scopeKey: string)

  /** The rows of each project, newest first; None when listing that project fails. */
  type Store = map<string, Option<seq<Row>>>

  ghost predicate WellKeyed(store: Store) {
    forall k | k in store && store[k].Some? :: forall r | r in store[k].value :: r.scopeKey == k
  }

  predicate IsIntegrationScopeKey(key: string) {
    HasPrefix(key, INTEGRATION_PREFIX)
  }

  function Take<T>(s: seq<T>, n: nat): seq<T> {
    if |s| <= n then s else s[..n]
  }

  function OwnZones(keys: seq<string>): seq<string> {
    if keys == [] then []
    else
      var k := |keys| - 1;
      OwnZones(keys[..k]) + if IsIntegrationScopeKey(keys[k]) then [] else [keys[k]]
  }

  method FilterOutIntegrationZones(keys: seq<string>) returns (out: seq<string>)
    ensures out == OwnZones(keys)
    ensures forall k :: k in out <==> k in keys && !IsIntegrationScopeKey(k)
  {
    out := [];
    for i := 0 to |keys|
      invariant out == OwnZones(keys[..i])
      invariant forall k :: k in out <==> k in keys[..i] && !IsIntegrationScopeKey(k)
    {
      assert keys[..i + 1][..i] == keys[..i];
      if IsIntegrationScopeKey(keys[i]) {
        continue;
      }
      out := out + [keys[i]];
    }
    assert keys[..|keys|] == keys;
  }

  /** One project's listing under a share of the budget. */
  function ListProject(store: Store, key: string, share: nat): Option<seq<Row>> {
    if key !in store || store[key].None? then None else Some(Take(store[key].value, share))
  }

  /** All listings that succeed, one after the other. */
  function Gather(store: Store, keys: seq<string>, share: nat): seq<Row> {
    if keys == [] then []
    else
      var k := |keys| - 1;
      var rows := ListProject(store, keys[k], share);
      Gather(store, keys[..k], share) + if rows.Some? then rows.value else []
  }

  function Budget(limit: int): nat {
    if limit <= 0 then DEFAULT_LIMIT else limit
  }

  function Share(limit: nat, projects: nat): nat {
    if projects == 0 then limit
    else if limit / projects < MIN_SHARE then MIN_SHARE
    else limit / projects
  }

  lemma TakeOfPrefix<T>(a: seq<T>, b: seq<T>, n: nat)
    requires a <= b && (|a| < n ==> a == b)
    ensures Take(a, n) == Take(b, n)
  {
    assert |b| > n ==> a[..n] == b[..n];
    assert |b| <= n ==> a == b;
  }

  /** The loop with its early break and final cut is "gather everything, keep the first `cap` rows". */
  method Collect(store: Store, keys: seq<string>, perKey: nat, cap: nat) returns (out: seq<Row>)
    ensures out == Take(Gather(store, keys, perKey), cap)
  {
    out := [];
    var i := 0;
    while i < |keys|
      invariant 0 <= i <= |keys|
      invariant out == Gather(store, keys[..i], perKey)
    {
      if |out| >= cap {
        break;
      }
      assert keys[..i + 1][..i] == keys[..i];
      var rows := ListProject(store, keys[i], perKey);
      if rows.Some? {
        out := out + rows.value;
      }
      i := i + 1;
    }
    GatherGrows(store, keys, perKey, i);
    assert i == |keys| ==> keys[..i] == keys;
    TakeOfPrefix(out, Gather(store, keys, perKey), cap);
    if |out| > cap {
      out := out[..cap];
    }
  }

  /**
   The first `limit` rows (400 when not given) of the projects' shares. A project alone gets
   its first rows up to the limit; projects that could fill the budget leave less than one
   row each unused.
   */
  method ListAllMemories(store: Store, scopeKeys: seq<string>, limit: int) returns (out: seq<Row>)
    ensures var keys := OwnZones(scopeKeys);
            out == Take(Gather(store, keys, Share(Budget(limit), |keys|)), Budget(limit))
    ensures var keys, cap := OwnZones(scopeKeys), if limit <= 0 then 400 else limit;
            && (|keys| == 1 && keys[0] in store && store[keys[0]].Some? ==> out == Take(store[keys[0]].value, cap))
            && (keys != [] && AllHold(store, keys, cap) ==> cap - |keys| < |out| <= cap)
  {
    var keys := FilterOutIntegrationZones(scopeKeys);
    var cap := Budget(limit);
    var perKey := cap;
    if |keys| > 0 {
      perKey := cap / |keys|;
      if perKey < MIN_SHARE {
        perKey := MIN_SHARE;
      }
    }
    out := Collect(store, keys, perKey, cap);
    if |keys| == 1 {
      AloneGetsAll(store, keys[0], cap);
      assert keys == [keys[0]];
    }
    if keys != [] && AllHold(store, keys, cap) {
      BudgetIsUsed(store, keys, cap);
    }
  }

  /** Every project can be listed and has at least n rows. */
  predicate AllHold(store: Store, keys: seq<string>, n: nat) {
    forall k | k in keys :: k in store && store[k].Some? && |store[k].value| >= n
  }

  lemma {:induction false} GatherGrows(store: Store, keys: seq<string>, share: nat, i: nat)
    requires i <= |keys|
    ensures Gather(store, keys[..i], share) <= Gather(store, keys, share)
    decreases |keys|
  {
    if i == |keys| {
      assert keys[..i] == keys;
    } else {
      var k := |keys| - 1;
      assert keys[..k][..i] == keys[..i];
      GatherGrows(store, keys[..k], share, i);
    }
  }

  // ---- what the listing guarantees --------------------------------------------------------------

  lemma OneMore(k: nat, share: nat)
    ensures (k + 1) * share == k * share + share
  {
  }

  lemma {:induction false} GatherRows(store: Store, keys: seq<string>, share: nat)
    requires WellKeyed(store)
    ensures |Gather(store, keys, share)| <= |keys| * share
    ensures forall r | r in Gather(store, keys, share) :: r.scopeKey in keys
  {
    if keys == [] {
    } else {
      var k := |keys| - 1;
      GatherRows(store, keys[..k], share);
      OneMore(k, share);
      assert keys == keys[..k] + [keys[k]];
    }
  }

  lemma {:induction false} OwnZonesAreOwn(keys: seq<string>)
    ensures forall k | k in OwnZones(keys) :: !IsIntegrationScopeKey(k)
  {
    if keys == [] {
    } else {
      OwnZonesAreOwn(keys[..|keys| - 1]);
    }
  }

  /** Filtering works key by key and keeps the order. */
  lemma {:induction false} OwnZonesConcat(a: seq<string>, b: seq<string>)
    ensures OwnZones(a + b) == OwnZones(a) + OwnZones(b)
    decreases |b|
  {
    if b == [] {
      assert a + b == a;
    } else {
      var k := |b| - 1;
      assert (a + b)[..|a + b| - 1] == a + b[..k];
      OwnZonesConcat(a, b[..k]);
    }
  }

  lemma OwnZonesOne(key: string)
    ensures OwnZones([key]) == if "integration:" <= key then [] else [key]
  {
    var one := [key];
    assert one[..0] == [] && OwnZones([]) == [];
    assert OwnZones(one) == [] + if IsIntegrationScopeKey(key) then [] else [key];
  }

  /** Never more rows than asked for, and never a row of an integration zone. */
  lemma ListingIsBoundedAndOwn(store: Store, scopeKeys: seq<string>, limit: int)
    requires WellKeyed(store)
    ensures var keys := OwnZones(scopeKeys);
            var out := Take(Gather(store, keys, Share(Budget(limit), |keys|)), Budget(limit));
            && |out| <= Budget(limit)
            && forall r | r in out :: !IsIntegrationScopeKey(r.scopeKey)
  {
    var keys := OwnZones(scopeKeys);
    OwnZonesAreOwn(scopeKeys);
    GatherRows(store, keys, Share(Budget(limit), |keys|));
  }

  lemma QuotientTimes(limit: nat, n: nat)
    requires n > 0
    ensures n * (limit / n) <= limit < n * (limit / n) + n
  {
  }

  lemma TimesMonotone(n: nat, a: nat, b: nat)
    requires a <= b
    ensures n * a <= n * b
  {
  }

  /** All full shares fit into the budget exactly when it allows twenty rows per project. */
  lemma SharesFitIff(limit: nat, n: nat)
    requires n > 0
    ensures n * Share(limit, n) <= limit <==> MIN_SHARE * n <= limit
  {
    QuotientTimes(limit, n);
    var q := limit / n;
    if q < MIN_SHARE {
      TimesMonotone(n, q + 1, MIN_SHARE);
      assert n * (q + 1) == n * q + n;
    } else {
      TimesMonotone(n, MIN_SHARE, q);
    }
  }

  /** The budget is spread: shares fill it up to less than a row per project, and are never below twenty. */
  lemma ShareSpreads(limit: nat, n: nat)
    requires n > 0
    ensures 20 * n <= limit ==> n * Share(limit, n) <= limit < n * (Share(limit, n) + 1)
    ensures limit < 20 * n ==> Share(limit, n) == 20
  {
    SharesFitIff(limit, n);
    QuotientTimes(limit, n);
    var q := limit / n;
    assert n * (q + 1) == n * q + n;
    if q < MIN_SHARE {
      TimesMonotone(n, q + 1, MIN_SHARE);
    } else {
      TimesMonotone(n, MIN_SHARE, q);
    }
  }

  lemma AloneGetsAll(store: Store, key: string, limit: nat)
    ensures key in store && store[key].Some? ==>
              Take(Gather(store, [key], Share(limit, 1)), limit) == Take(store[key].value, limit)
  {
    ShareSpreads(limit, 1);
    assert [key][..0] == [];
    assert Gather(store, [], Share(limit, 1)) == [];
    if key in store && store[key].Some? {
      var rows, share := store[key].value, Share(limit, 1);
      assert Gather(store, [key], share) == [] + Take(rows, share) == Take(rows, share);
      assert share >= limit;
    }
  }

  /** Projects that each hold at least `limit` rows use the budget up to less than a row each. */
  lemma BudgetIsUsed(store: Store, keys: seq<string>, limit: nat)
    requires keys != [] && AllHold(store, keys, limit)
    ensures limit - |keys| < |Take(Gather(store, keys, Share(limit, |keys|)), limit)|
  {
    var n, share := |keys|, Share(limit, |keys|);
    ShareSpreads(limit, n);
    if share <= limit {
      FullListings(store, keys, share);
      assert n * (share + 1) == n * share + n;
    } else {
      GatherGrows(store, keys, share, 1);
      assert keys[..1] == [keys[0]] && keys[0] in keys && [keys[0]][..0] == [];
      assert Gather(store, [keys[0]], share) == [] + Take(store[keys[0]].value, share);
    }
  }

  /**
   With at least twenty rows of budget per project nothing is cut: every project whose
   listing succeeds contributes all rows listed under its share.
   */
  lemma FairBudget(store: Store, keys: seq<string>, limit: nat)
    requires WellKeyed(store) && MIN_SHARE * |keys| <= limit
    ensures var all := Gather(store, keys, Share(limit, |keys|)); Take(all, limit) == all
    ensures keys != [] ==> |keys| * Share(limit, |keys|) <= limit < |keys| * (Share(limit, |keys|) + 1)
    ensures forall k | k in keys && ListProject(store, k, Share(limit, |keys|)).Some? ::
              forall r | r in ListProject(store, k, Share(limit, |keys|)).value ::
                r in Take(Gather(store, keys, Share(limit, |keys|)), limit)
  {
    var share := Share(limit, |keys|);
    GatherRows(store, keys, share);
    if |keys| > 0 {
      SharesFitIff(limit, |keys|);
      ShareSpreads(limit, |keys|);
    }
    GatherHasAll(store, keys, share);
  }

  lemma {:induction false} GatherHasAll(store: Store, keys: seq<string>, share: nat)
    ensures forall k | k in keys && ListProject(store, k, share).Some? ::
              forall r | r in ListProject(store, k, share).value :: r in Gather(store, keys, share)
  {
    if keys == [] {
    } else {
      var k := |keys| - 1;
      GatherHasAll(store, keys[..k], share);
      assert keys == keys[..k] + [keys[k]];
    }
  }

  lemma {:induction false} FullListings(store: Store, keys: seq<string>, share: nat)
    requires forall k | k in keys :: k in store && store[k].Some? && |store[k].value| >= share
    ensures |Gather(store, keys, share)| == |keys| * share
  {
    if keys == [] {
    } else {
      var k := |keys| - 1;
      assert keys[k] in keys && forall x | x in keys[..k] :: x in keys;
      FullListings(store, keys[..k], share);
      OneMore(k, share);
    }
  }

  /** A store in which every project has exactly its share of rows. */
  function FilledStore(keys: seq<string>, share: nat): Store {
    map k | k in keys :: Some(seq(share, _ => Row("", k)))
  }

  /**
   The guarantee over all stores: whatever the projects hold, the budget cuts nothing, if
   and only if it allows twenty rows per project.
   */
  lemma NothingCutIff(keys: seq<string>, limit: nat)
    ensures (forall store: Store | WellKeyed(store) ::
               |Gather(store, keys, Share(limit, |keys|))| <= limit)
            <==> MIN_SHARE * |keys| <= limit
  {
    var share := Share(limit, |keys|);
    if MIN_SHARE * |keys| <= limit {
      forall store: Store | WellKeyed(store) ensures |Gather(store, keys, share)| <= limit {
        FairBudget(store, keys, limit);
      }
    } else {
      var store := FilledStore(keys, share);
      assert WellKeyed(store);
      FullListings(store, keys, share);
      SharesFitIff(limit, |keys|);
    }
  }

  // ---- who is crowded out ------------------------------------------------------------------------

  function Listing(store: Store, key: string, share: nat): seq<Row> {
    var rows := ListProject(store, key, share);
    if rows.Some? then rows.value else []
  }

  /** The budget left for the i-th project: the limit less all rows listed before it. */
  function Left(store: Store, keys: seq<string>, share: nat, limit: nat, i: nat): nat
    requires i <= |keys|
  {
    var before := |Gather(store, keys[..i], share)|;
    if before >= limit then 0 else limit - before
  }

  /** What each project contributes to the result. */
  function Contributions(store: Store, keys: seq<string>, share: nat, limit: nat): seq<seq<Row>> {
    seq(|keys|, i requires 0 <= i < |keys| => Take(Listing(store, keys[i], share), Left(store, keys, share, limit, i)))
  }

  lemma TakeConcat<T>(a: seq<T>, b: seq<T>, n: nat)
    ensures Take(a + b, n) == Take(a, n) + Take(b, if |a| >= n then 0 else n - |a|)
  {
  }

  lemma ContributionsInit(store: Store, keys: seq<string>, share: nat, limit: nat)
    requires keys != []
    ensures var c := Contributions(store, keys, share, limit);
            c[..|keys| - 1] == Contributions(store, keys[..|keys| - 1], share, limit)
  {
    var init := keys[..|keys| - 1];
    forall i | 0 <= i < |init| ensures init[..i] == keys[..i] {
    }
  }

  lemma GatherNext(store: Store, keys: seq<string>, share: nat, i: nat)
    requires i < |keys|
    ensures Gather(store, keys[..i + 1], share) == Gather(store, keys[..i], share) + Listing(store, keys[i], share)
  {
    assert keys[..i + 1][..i] == keys[..i];
  }

  /**
   For every store and limit: the result is made of one block per project, in order, and
   the i-th block is what the listings before it leave of its own.
   */
  lemma {:induction false} EachProjectGetsWhatIsLeft(store: Store, keys: seq<string>, share: nat, limit: nat)
    ensures Flatten(Contributions(store, keys, share, limit)) == Take(Gather(store, keys, share), limit)
  {
    if keys == [] {
    } else {
      var k := |keys| - 1;
      EachProjectGetsWhatIsLeft(store, keys[..k], share, limit);
      ContributionsInit(store, keys, share, limit);
      assert keys[..k + 1] == keys;
      GatherNext(store, keys, share, k);
      TakeConcat(Gather(store, keys[..k], share), Listing(store, keys[k], share), limit);
    }
  }

  /**
   Who is crowded out: a project keeps its whole listing if and only if it has none or the
   listings up to and including its own fit the limit, and it gets nothing at all if and
   only if it has none or those before it already fill the limit.
   */
  lemma CrowdedOutIff(store: Store, keys: seq<string>, share: nat, limit: nat, i: nat)
    requires i < |keys|
    ensures var own := Listing(store, keys[i], share);
            var got := Contributions(store, keys, share, limit)[i];
            && got <= own
            && (got == own <==> own == [] || |Gather(store, keys[..i + 1], share)| <= limit)
            && (got == [] <==> own == [] || |Gather(store, keys[..i], share)| >= limit)
  {
    GatherNext(store, keys, share, i);
  }
}
