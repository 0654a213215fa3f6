/** Need resolution: the private `init_needs`, which walks a class's declarations in
    declaration order, sets one instance value per key and seeds the shared store. */
module Resolution {
  import opened Values
  import opened Needs

  /** The per-key priority, stated against the store as it was before resolution began:
      an existing store entry wins, then the passed value, then the `default:` option.
      `None` means the key is required but not provided. */
  function Pick(k: Key, o: NeedOpts, passed: map<Key, Value>, store: Store): Option<Value> {
    if k in store then Some(store[k])
    else if k in passed then Some(passed[k])
    else o.default
  }

  /** What `init_needs` leaves behind: the instance values it set, the store as it now is,
      and the key it raised "required but not provided" on, if any. */
  datatype Resolved = Resolved(values: map<Key, Value>, store: Store, missing: Option<Key>)

  /** One iteration of the loop of `init_needs`: declaration `i` takes the store entry if
      there is one, else the passed value (seeding the store when the need is store-backed
      and the store has no entry yet), else the default. `None` means the iteration raises. */
  function Step(needs: ClassNeeds, i: nat, passed: map<Key, Value>, store: Store,
                values: map<Key, Value>): (r: Option<(Store, map<Key, Value>)>)
    requires needs.Valid() && i < |needs.order|
    ensures r.Some? ==> r.value.1.Keys == values.Keys + {needs.order[i]}
    ensures r.Some? ==> forall k :: k in store ==> k in r.value.0 && r.value.0[k] == store[k]
    ensures r.Some? ==> forall k :: k in r.value.0 && k !in store ==>
              k == needs.order[i] && k in passed && r.value.0[k] == passed[k] && needs.Stores(k)
  {
    var k := needs.order[i];
    var o := needs.opts[k];
    if k in store then
      Some((store, values[k := store[k]]))
    else if k in passed then
      var store' := if o.store && k !in store then store[k := passed[k]] else store;
      Some((store', values[k := passed[k]]))
    else if o.default.Some? then
      Some((store, values[k := o.default.value]))
    else
      None
  }

  /** The loop of `init_needs` from declaration `i` on, with the store and the instance
      values as the first `i` declarations left them. */
  function ResolveFrom(needs: ClassNeeds, i: nat, passed: map<Key, Value>, store: Store,
                       values: map<Key, Value>): (r: Resolved)
    requires needs.Valid() && i <= |needs.order|
    ensures forall k :: k in store ==> k in r.store && r.store[k] == store[k]
    ensures forall k :: k in r.store && k !in store ==>
              k in passed && r.store[k] == passed[k] && needs.Stores(k)
    ensures values.Keys <= r.values.Keys <= values.Keys + needs.Keys()
    decreases |needs.order| - i
  {
    if i == |needs.order| then
      Resolved(values, store, None)
    else
      match Step(needs, i, passed, store, values)
      case None => Resolved(values, store, Some(needs.order[i]))
      case Some(next) => ResolveFrom(needs, i + 1, passed, next.0, next.1)
  }

  /** `init_needs(passed)` against `store`. Whatever the outcome, no existing store entry is
      changed or removed, and the only entries added are passed values of store-backed keys. */
  function Resolve(needs: ClassNeeds, passed: map<Key, Value>, store: Store): (r: Resolved)
    requires needs.Valid()
    ensures forall k :: k in store ==> k in r.store && r.store[k] == store[k]
    ensures forall k :: k in r.store && k !in store ==>
              k in passed && r.store[k] == passed[k] && needs.Stores(k)
    ensures r.values.Keys <= needs.Keys()
  {
    ResolveFrom(needs, 0, passed, store, map[])
  }

  /** Every one of the first `n` declarations resolves by `Pick` against `store`. */
  predicate ResolvableUpTo(needs: ClassNeeds, n: nat, passed: map<Key, Value>, store: Store)
    requires needs.Valid() && n <= |needs.order|
  {
    forall j :: 0 <= j < n ==> Pick(needs.order[j], needs.opts[needs.order[j]], passed, store).Some?
  }

  /** The store entries the first `n` declarations add: the passed value of each
      store-backed key among them that `store` does not hold yet. */
  function SeededUpTo(needs: ClassNeeds, n: nat, passed: map<Key, Value>, store: Store): Store
    requires needs.Valid() && n <= |needs.order|
  {
    map k | k in passed && k !in store && k in needs.order[..n] && needs.Stores(k) :: passed[k]
  }

  /** The state after the first `n` declarations, described against the original store `store0`. */
  ghost predicate DoneUpTo(needs: ClassNeeds, n: nat, passed: map<Key, Value>, store0: Store,
                           store: Store, values: map<Key, Value>)
    requires needs.Valid()
  {
    && n <= |needs.order|
    && ResolvableUpTo(needs, n, passed, store0)
    && store == store0 + SeededUpTo(needs, n, passed, store0)
    && (forall k :: k in values <==> k in needs.order[..n])
    && (forall j :: 0 <= j < n ==>
          Some(values[needs.order[j]]) == Pick(needs.order[j], needs.opts[needs.order[j]], passed, store0))
  }

  /** Resolution stopped after `n` declarations: either all of them, or at the first one
      that `Pick` cannot resolve, which is then the reported key. */
  ghost predicate StoppedAt(r: Resolved, needs: ClassNeeds, n: nat, passed: map<Key, Value>, store0: Store)
    requires needs.Valid()
  {
    && DoneUpTo(needs, n, passed, store0, r.store, r.values)
    && (r.missing.None? <==> n == |needs.order|)
    && (n < |needs.order| ==>
          r.missing == Some(needs.order[n]) && Pick(needs.order[n], needs.opts[needs.order[n]], passed, store0).None?)
  }

  /** The key of declaration `i` is not among the first `i` ones. */
  lemma FreshKey(needs: ClassNeeds, i: nat)
    requires needs.Valid() && i < |needs.order|
    ensures needs.order[i] !in needs.order[..i]
  {
    forall j | 0 <= j < i ensures needs.order[..i][j] != needs.order[i] { }
  }

  /** Handling declaration `i` adds its key's seed, if any, to the seeds of the first `i`. */
  lemma {:induction false} SeededStep(needs: ClassNeeds, i: nat, passed: map<Key, Value>, store0: Store)
    requires needs.Valid() && i < |needs.order|
    ensures var k := needs.order[i];
            SeededUpTo(needs, i + 1, passed, store0) ==
              if k !in store0 && k in passed && needs.Stores(k)
              then SeededUpTo(needs, i, passed, store0)[k := passed[k]]
              else SeededUpTo(needs, i, passed, store0)
  {
    var k := needs.order[i];
    assert needs.order[..i + 1] == needs.order[..i] + [k];
  }

  /** Adding a key the left map lacks to the right operand of `+`. */
  lemma UpdateRight(a: Store, b: Store, k: Key, v: Value)
    requires k !in a
    ensures (a + b)[k := v] == a + b[k := v]
  {
  }

  /** Declaration `i`'s key has not been seeded by the first `i` declarations, so the store
      agrees with the original one there. */
  lemma {:induction false} UnseededAt(needs: ClassNeeds, i: nat, passed: map<Key, Value>, store0: Store, store: Store)
    requires needs.Valid() && i < |needs.order|
    requires store == store0 + SeededUpTo(needs, i, passed, store0)
    ensures needs.order[i] in store <==> needs.order[i] in store0
    ensures needs.order[i] in store ==> store[needs.order[i]] == store0[needs.order[i]]
  {
    FreshKey(needs, i);
    assert needs.order[i] !in SeededUpTo(needs, i, passed, store0);
  }

  /** Where the store agrees with the original one, an iteration raises exactly when `Pick`
      finds nothing, and otherwise sets the `Pick` value. */
  lemma {:induction false} StepMatchesPick(needs: ClassNeeds, i: nat, passed: map<Key, Value>, store0: Store,
                                           store: Store, values: map<Key, Value>)
    requires needs.Valid() && i < |needs.order|
    requires needs.order[i] in store <==> needs.order[i] in store0
    requires needs.order[i] in store ==> store[needs.order[i]] == store0[needs.order[i]]
    ensures var k := needs.order[i];
            var p := Pick(k, needs.opts[k], passed, store0);
            var r := Step(needs, i, passed, store, values);
            && (r.None? <==> p.None?)
            && (r.Some? ==>
                  && r.value.1 == values[k := p.value]
                  && r.value.0 == if k !in store && k in passed && needs.Stores(k) then store[k := passed[k]] else store)
  {
  }

  /** Seeding declaration `i`'s key, when due, extends the seeds of the first `i` declarations. */
  lemma {:induction false} SeedKeepsStore(needs: ClassNeeds, i: nat, passed: map<Key, Value>, store0: Store, store: Store)
    requires needs.Valid() && i < |needs.order|
    requires store == store0 + SeededUpTo(needs, i, passed, store0)
    ensures var k := needs.order[i];
            var store' := if k !in store && k in passed && needs.Stores(k) then store[k := passed[k]] else store;
            store' == store0 + SeededUpTo(needs, i + 1, passed, store0)
  {
    var k := needs.order[i];
    var seeded := SeededUpTo(needs, i, passed, store0);
    FreshKey(needs, i);
    assert k !in seeded;
    SeededStep(needs, i, passed, store0);
    if k !in store && k in passed && needs.Stores(k) {
      UpdateRight(store0, seeded, k, passed[k]);
    }
  }

  /** Setting declaration `i`'s key to its `Pick` value extends the values of the first `i`. */
  lemma {:induction false} PickKeepsValues(needs: ClassNeeds, i: nat, passed: map<Key, Value>, store0: Store,
                                           values: map<Key, Value>, v: Value)
    requires needs.Valid() && i < |needs.order|
    requires forall k :: k in values <==> k in needs.order[..i]
    requires forall j :: 0 <= j < i ==>
               Some(values[needs.order[j]]) == Pick(needs.order[j], needs.opts[needs.order[j]], passed, store0)
    requires Pick(needs.order[i], needs.opts[needs.order[i]], passed, store0) == Some(v)
    ensures var values' := values[needs.order[i] := v];
            && (forall k :: k in values' <==> k in needs.order[..i + 1])
            && (forall j :: 0 <= j < i + 1 ==>
                  Some(values'[needs.order[j]]) == Pick(needs.order[j], needs.opts[needs.order[j]], passed, store0))
  {
    var k := needs.order[i];
    assert needs.order[..i + 1] == needs.order[..i] + [k];
    forall j | 0 <= j < i
      ensures needs.order[j] != k
    {
      assert needs.order[j] in needs.order[..i];
    }
  }

  /** One more iteration that does not raise keeps `DoneUpTo`. */
  lemma {:induction false} StepKeepsDone(needs: ClassNeeds, i: nat, passed: map<Key, Value>, store0: Store,
                                         store: Store, values: map<Key, Value>)
    requires needs.Valid() && i < |needs.order|
    requires DoneUpTo(needs, i, passed, store0, store, values)
    requires Step(needs, i, passed, store, values).Some?
    ensures var next := Step(needs, i, passed, store, values).value;
            DoneUpTo(needs, i + 1, passed, store0, next.0, next.1)
  {
    var k := needs.order[i];
    UnseededAt(needs, i, passed, store0, store);
    StepMatchesPick(needs, i, passed, store0, store, values);
    var p := Pick(k, needs.opts[k], passed, store0);
    SeedKeepsStore(needs, i, passed, store0, store);
    PickKeepsValues(needs, i, passed, store0, values, p.value);
    assert ResolvableUpTo(needs, i + 1, passed, store0);
  }

  /** From a state that `DoneUpTo` describes, the rest of the loop stops as `StoppedAt` says. */
  lemma {:induction false} ResolveFromStops(needs: ClassNeeds, i: nat, passed: map<Key, Value>, store0: Store,
                                            store: Store, values: map<Key, Value>) returns (n: nat)
    requires needs.Valid() && i <= |needs.order|
    requires DoneUpTo(needs, i, passed, store0, store, values)
    ensures i <= n <= |needs.order|
    ensures StoppedAt(ResolveFrom(needs, i, passed, store, values), needs, n, passed, store0)
    decreases |needs.order| - i
  {
    if i == |needs.order| {
      n := i;
    } else {
      UnseededAt(needs, i, passed, store0, store);
      StepMatchesPick(needs, i, passed, store0, store, values);
      match Step(needs, i, passed, store, values)
      case None =>
        n := i;
      case Some(next) =>
        StepKeepsDone(needs, i, passed, store0, store, values);
        n := ResolveFromStops(needs, i + 1, passed, store0, next.0, next.1);
    }
  }

  /** `init_needs` stops after some prefix of the declarations, as `StoppedAt` describes. */
  lemma ResolveStops(needs: ClassNeeds, passed: map<Key, Value>, store: Store) returns (n: nat)
    requires needs.Valid()
    ensures n <= |needs.order|
    ensures StoppedAt(Resolve(needs, passed, store), needs, n, passed, store)
  {
    assert store + SeededUpTo(needs, 0, passed, store) == store;
    n := ResolveFromStops(needs, 0, passed, store, store, map[]);
  }

  /** The whole of `init_needs`, described key by key against the store it started from:
      it succeeds exactly when every declared key resolves by `Pick`; on success each key holds
      its `Pick` value, no undeclared key is set, and the store gained exactly the passed
      values of store-backed keys it did not hold; on failure the reported key is the first
      unresolvable one in declaration order, and the store holds the seeds of the keys before it. */
  lemma ResolveCharacterized(needs: ClassNeeds, passed: map<Key, Value>, store: Store)
    requires needs.Valid()
    ensures var r := Resolve(needs, passed, store);
            && (r.missing.None? <==> forall k :: k in needs.opts ==> Pick(k, needs.opts[k], passed, store).Some?)
            && (r.missing.None? ==>
                  && r.values.Keys == needs.Keys()
                  && (forall k :: k in needs.opts ==> Some(r.values[k]) == Pick(k, needs.opts[k], passed, store))
                  && r.store == store + SeededUpTo(needs, |needs.order|, passed, store))
            && (r.missing.Some? ==>
                  exists n :: 0 <= n < |needs.order| && needs.order[n] == r.missing.value
                    && Pick(needs.order[n], needs.opts[needs.order[n]], passed, store).None?
                    && ResolvableUpTo(needs, n, passed, store)
                    && r.store == store + SeededUpTo(needs, n, passed, store))
  {
    var r := Resolve(needs, passed, store);
    var n := ResolveStops(needs, passed, store);
    assert needs.order[..|needs.order|] == needs.order;
    if n == |needs.order| {
      forall k | k in needs.opts
        ensures Some(r.values[k]) == Pick(k, needs.opts[k], passed, store)
      {
        var j :| 0 <= j < |needs.order| && needs.order[j] == k;
      }
    } else {
      var k := needs.order[n];
      assert k in needs.opts && Pick(k, needs.opts[k], passed, store).None?;
    }
  }
}
