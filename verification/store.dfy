/** `Component#store`: reading the shared store, and writing one store-backed need. */
module Storage {
  import opened Values
  import opened Needs
  import opened Components

  /** What `store` returns: the store itself when called without a key, otherwise
      the update request it issued. */
  datatype StoreReply = Contents(store: Store) | UpdateRequested

  /** The world with `v` set as component `id`'s value of `k` (`instance_variable_set`). */
  function SetValue(w: World, id: CompId, k: Key, v: Value): (r: World)
    requires WorldOk(w) && id in w.comps
    ensures WorldOk(r)
    ensures r.comps == w.comps[id := w.comps[id].(values := w.comps[id].values[k := v])]
    ensures r.next == w.next && r.updates == w.updates
  {
    var r := w.(comps := w.comps[id := w.comps[id].(values := w.comps[id].values[k := v])]);
    assert forall id :: id in w.comps ==> CompOk(w, id);
    assert forall id :: id in r.comps ==> CompOk(r, id);
    r
  }

  /** `store(key, value)` called on component `caller`. With a `nil` key it returns the
      store and changes nothing. Otherwise the key must be declared `store: true` on the
      caller's own class, or nothing changes. A successful write goes to the shared store,
      to the caller's own value, and to the root's value when the caller is not the root and
      the root's class stores the key too; then it requests exactly one update. */
  function StoreCall(reg: Registry, w: World, caller: CompId, key: Option<Key>, v: Value): (o: Effect<StoreReply>)
    requires WorldOk(w) && caller in w.comps
    ensures WorldOk(o.world)
    ensures key.None? ==> o == Effect(w, Ok(Contents(StoreOf(w, caller))))
    ensures key.Some? && !ClassNeedsOf(reg, w.comps[caller].cls).Stores(key.value) ==>
              o == Effect(w, Err(NotStored(key.value)))
    ensures o.result.Ok? && key.Some? ==>
              && ClassNeedsOf(reg, w.comps[caller].cls).Stores(key.value)
              && o.result.value == UpdateRequested
              && o.world.updates == w.updates + 1
    ensures key.Some? && ClassNeedsOf(reg, w.comps[caller].cls).Stores(key.value) ==>
              o == Effect(Written(reg, w, caller, key.value, v), Ok(UpdateRequested))
    ensures o.result.Err? || key.None? ==> o.world == w
    ensures o.world.comps.Keys == w.comps.Keys && o.world.next == w.next
  {
    match key
    case None => Effect(w, Ok(Contents(StoreOf(w, caller))))
    case Some(k) =>
      if !ClassNeedsOf(reg, w.comps[caller].cls).Stores(k) then
        Effect(w, Err(NotStored(k)))
      else
        Effect(Written(reg, w, caller, k, v), Ok(UpdateRequested))
  }

  /** Whether a write of `k` by `caller` also sets the root's value: only from a child,
      and only when the root's class stores `k`. */
  predicate Mirrors(reg: Registry, w: World, caller: CompId, k: Key)
    requires WorldOk(w) && caller in w.comps
    ensures IsRoot(w, caller) ==> !Mirrors(reg, w, caller, k)
    ensures Mirrors(reg, w, caller, k) ==> k in ClassNeedsOf(reg, w.comps[RootIdOf(w, caller)].cls).Keys()
  {
    !IsRoot(w, caller) && ClassNeedsOf(reg, w.comps[RootIdOf(w, caller)].cls).Stores(k)
  }

  /** The world after a permitted write of `k := v` by `caller`. */
  function Written(reg: Registry, w: World, caller: CompId, k: Key, v: Value): (r: World)
    requires WorldOk(w) && caller in w.comps
    ensures WorldOk(r)
    ensures r.comps.Keys == w.comps.Keys && r.next == w.next && r.updates == w.updates + 1
    ensures forall id :: id in w.comps ==>
              && r.comps[id].cls == w.comps[id].cls
              && r.comps[id].root.Root? == w.comps[id].root.Root?
              && (w.comps[id].root.Child? ==> r.comps[id].root == w.comps[id].root)
  {
    var rootId := RootIdOf(w, caller);
    var w1 := SetValue(w, caller, k, v);
    var w2 := if Mirrors(reg, w, caller, k) then SetValue(w1, rootId, k, v) else w1;
    var w3 := WithStore(w2, rootId, StoreOf(w, caller)[k := v]);
    w3.(updates := w.updates + 1)
  }

  /** After a successful write every component of the caller's tree sees the new value in
      its store, with every other entry unchanged, and the stores of other trees are untouched. */
  lemma StoreWriteIsShared(reg: Registry, w: World, caller: CompId, k: Key, v: Value)
    requires WorldOk(w) && caller in w.comps
    ensures var o := StoreCall(reg, w, caller, Some(k), v);
            o.result.Ok? ==>
              forall id :: id in w.comps ==>
                id in o.world.comps &&
                StoreOf(o.world, id) ==
                  (if RootIdOf(w, id) == RootIdOf(w, caller) then StoreOf(w, caller)[k := v] else StoreOf(w, id))
  {
    var o := StoreCall(reg, w, caller, Some(k), v);
    if o.result.Ok? {
      var w' := Written(reg, w, caller, k, v);
      assert o.world == w';
      forall id | id in w.comps
        ensures StoreOf(w', id) ==
                  (if RootIdOf(w, id) == RootIdOf(w, caller) then StoreOf(w, caller)[k := v] else StoreOf(w, id))
      {
        assert RootIdOf(w', id) == RootIdOf(w, id);
      }
    }
  }

  /** A successful write sets the key's value on the caller, and on the root when the
      caller is the root itself or `Mirrors` holds; every component other than these two
      is unchanged. */
  lemma StoreWriteMirrors(reg: Registry, w: World, caller: CompId, k: Key, v: Value)
    requires WorldOk(w) && caller in w.comps
    ensures var o := StoreCall(reg, w, caller, Some(k), v);
            var rootId := RootIdOf(w, caller);
            o.result.Ok? ==>
              && o.world.comps[caller].values == w.comps[caller].values[k := v]
              && o.world.comps[rootId].values ==
                   (if IsRoot(w, caller) || Mirrors(reg, w, caller, k) then w.comps[rootId].values[k := v]
                    else w.comps[rootId].values)
              && (forall id :: id in w.comps && id != caller && id != rootId ==> o.world.comps[id] == w.comps[id])
  {
  }

  /** Writing a store-backed need keeps every component's values keyed by exactly its class's
      declarations: the caller declares the key, and the root only receives it if it does too. */
  lemma StoreKeepsValuesOk(reg: Registry, w: World, caller: CompId, key: Option<Key>, v: Value)
    requires WorldOk(w) && caller in w.comps && ValuesOk(reg, w)
    ensures ValuesOk(reg, StoreCall(reg, w, caller, key, v).world)
  {
    var o := StoreCall(reg, w, caller, key, v);
    if o.result.Ok? && key.Some? {
      var k := key.value;
      var rootId := RootIdOf(w, caller);
      StoreWriteMirrors(reg, w, caller, k, v);
      assert o.world == Written(reg, w, caller, k, v);
      forall id | id in o.world.comps
        ensures o.world.comps[id].values.Keys == ClassNeedsOf(reg, o.world.comps[id].cls).Keys()
      {
        assert o.world.comps[id].cls == w.comps[id].cls;
        if id == caller {
          assert k in ClassNeedsOf(reg, w.comps[caller].cls).opts;
        } else if id == rootId {
          assert Mirrors(reg, w, caller, k) ==> k in ClassNeedsOf(reg, w.comps[rootId].cls).opts;
        }
      }
    }
  }

  /** One `store(key, value)` call made by component `caller`. */
  datatype Write = Write(caller: CompId, key: Key, value: Value)

  /** A handler's `store` calls, one after another; the first that raises stops the rest.
      There is no batching: every write that succeeds requests its own update, so `n`
      successful writes request exactly `n` updates (and as many animation frames). */
  function StoreEach(reg: Registry, w: World, writes: seq<Write>): (o: Effect<()>)
    requires WorldOk(w)
    requires forall i :: 0 <= i < |writes| ==> writes[i].caller in w.comps
    ensures WorldOk(o.world) && o.world.comps.Keys == w.comps.Keys
    ensures o.result.Ok? ==> o.world.updates == w.updates + |writes|
    ensures o.result.Err? ==>
              exists i :: 0 <= i < |writes| && o.world.updates == w.updates + i
                && o.result.error == NotStored(writes[i].key)
                && !ClassNeedsOf(reg, w.comps[writes[i].caller].cls).Stores(writes[i].key)
    decreases |writes|
  {
    if |writes| == 0 then
      Effect(w, Ok(()))
    else
      var first := StoreCall(reg, w, writes[0].caller, Some(writes[0].key), writes[0].value);
      if first.result.Err? then
        Effect(first.world, Err(first.result.error))
      else
        StoreEach(reg, first.world, writes[1..])
  }
}
