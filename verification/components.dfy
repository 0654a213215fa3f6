/** Component instances, their roots and their stores: `Component#initialize`, `root?`
    and the store every component of a tree shares with its root. */
module Components {
  import opened Values
  import opened Needs
  import opened Resolution

  /** The identity of a component instance. */
  type CompId = nat

  /** A component's root: the component itself, which then owns the tree's store, or the
      root component with the given id, whose store it uses. */
  datatype RootRef = Root(store: Store) | Child(rootId: CompId)

  /** A component instance: its class, its root and its need values (its instance variables). */
  datatype Component = Component(cls: ClassId, root: RootRef, values: map<Key, Value>)

  /** Every instance created so far, the next fresh id, and the number of update requests
      issued (each `update` asks for one animation frame). */
  datatype World = World(comps: map<CompId, Component>, next: CompId, updates: nat)

  /** The world after an operation, with the operation's return value or the error it raised. */
  datatype Effect<+T> = Effect(world: World, result: Result<T>)

  /** Ids are below `next`, and a child's root is a root of the same world. */
  predicate WorldOk(w: World) {
    forall id :: id in w.comps ==> CompOk(w, id)
  }

  /** One component's part of `WorldOk`. */
  predicate CompOk(w: World, id: CompId)
    requires id in w.comps
  {
    && id < w.next
    && (w.comps[id].root.Child? ==>
          w.comps[id].root.rootId in w.comps && w.comps[w.comps[id].root.rootId].root.Root?)
  }

  /** Every component holds a value for exactly the keys its class declares. */
  predicate ValuesOk(reg: Registry, w: World) {
    forall id :: id in w.comps ==> w.comps[id].values.Keys == ClassNeedsOf(reg, w.comps[id].cls).Keys()
  }

  /** The id of a component's root (`@root`). */
  function RootIdOf(w: World, id: CompId): (r: CompId)
    requires WorldOk(w) && id in w.comps
    ensures r in w.comps && w.comps[r].root.Root?
    ensures w.comps[id].root.Root? ==> r == id
    ensures w.comps[id].root.Child? ==> r == w.comps[id].root.rootId
  {
    match w.comps[id].root
    case Root(_) => id
    case Child(r) => r
  }

  /** `root?`, which the source decides by comparing the component with its root. */
  function IsRoot(w: World, id: CompId): (b: bool)
    requires WorldOk(w) && id in w.comps
    ensures b <==> RootIdOf(w, id) == id
  {
    w.comps[id].root.Root?
  }

  /** The store a component reads and writes (`@store`): the one its root owns. */
  function StoreOf(w: World, id: CompId): (s: Store)
    requires WorldOk(w) && id in w.comps
    ensures w.comps[id].root.Root? ==> s == w.comps[id].root.store
    ensures w.comps[id].root.Child? ==> s == w.comps[w.comps[id].root.rootId].root.store
  {
    w.comps[RootIdOf(w, id)].root.store
  }

  /** The `root` argument of `initialize`: `None` for `nil`, otherwise a root component. */
  predicate RootArgOk(w: World, root: Option<CompId>) {
    root.Some? ==> root.value in w.comps && w.comps[root.value].root.Root?
  }

  /** The store construction resolves against: a fresh empty one for a new root,
      otherwise the store of the given root. */
  function StoreFor(w: World, root: Option<CompId>): (s: Store)
    requires RootArgOk(w, root)
    ensures root.None? ==> s == map[]
    ensures root.Some? && WorldOk(w) ==> s == StoreOf(w, root.value)
  {
    if root.None? then map[] else w.comps[root.value].root.store
  }

  /** `Component.new(root, passed)`. The undeclared-key check runs before any need is
      resolved, so it wins over a missing need and changes nothing. A new root starts from a
      fresh empty store; a child resolves against its root's store, and whatever resolution
      seeded stays there even when a later need is missing. Only a successful construction
      adds a component, and it never requests an update. */
  function Initialize(reg: Registry, w: World, root: Option<CompId>, cls: ClassId,
                      passed: map<Key, Value>): (o: Effect<CompId>)
    requires RegistryOk(reg) && WorldOk(w) && RootArgOk(w, root)
    ensures WorldOk(o.world)
    ensures o.world.updates == w.updates
    ensures !(passed.Keys <= ClassNeedsOf(reg, cls).Keys()) ==>
              o == Effect(w, Err(Unused(passed.Keys - ClassNeedsOf(reg, cls).Keys())))
    ensures o.result.Err? ==> o.result.error.Unused? || o.result.error.Missing?
    ensures o.result.Err? ==> o.world.comps.Keys == w.comps.Keys && o.world.next == w.next
    ensures o.result.Err? && root.None? ==> o.world == w
    ensures forall id :: id in w.comps ==>
              && id in o.world.comps
              && o.world.comps[id].cls == w.comps[id].cls
              && o.world.comps[id].values == w.comps[id].values
              && o.world.comps[id].root.Root? == w.comps[id].root.Root?
              && (root != Some(id) ==> o.world.comps[id] == w.comps[id])
    ensures o.result.Ok? ==>
              var id := o.result.value;
              && id !in w.comps
              && o.world.comps.Keys == w.comps.Keys + {id}
              && o.world.comps[id].cls == cls
              && o.world.comps[id].values.Keys == ClassNeedsOf(reg, cls).Keys()
              && (root.None? ==> o.world.comps[id].root.Root?)
              && (root.Some? ==> o.world.comps[id].root == Child(root.value))
  {
    var needs := ClassNeedsOf(reg, cls);
    if !(passed.Keys <= needs.Keys()) then
      Effect(w, Err(Unused(passed.Keys - needs.Keys())))
    else
      var r := Resolve(needs, passed, StoreFor(w, root));
      ResolveCharacterized(needs, passed, StoreFor(w, root));
      Commit(w, root, cls, r)
  }

  /** The world after a resolution: a child's root takes the resolved store whatever the
      outcome; the component is added only when no need is missing. */
  function Commit(w: World, root: Option<CompId>, cls: ClassId, r: Resolved): (o: Effect<CompId>)
    requires WorldOk(w) && RootArgOk(w, root)
    ensures WorldOk(o.world)
    ensures o.world.updates == w.updates
    ensures r.missing.Some? ==>
              && o.result == Err(Missing(r.missing.value))
              && o.world.comps.Keys == w.comps.Keys && o.world.next == w.next
              && (root.None? ==> o.world == w)
    ensures r.missing.None? ==>
              && o.result == Ok(w.next) && w.next !in w.comps
              && o.world.comps.Keys == w.comps.Keys + {w.next}
              && o.world.comps[w.next] == Component(cls, if root.None? then Root(r.store) else Child(root.value), r.values)
    ensures root.Some? ==> o.world.comps[root.value].root == Root(r.store)
    ensures forall id :: id in w.comps ==>
              && id in o.world.comps
              && o.world.comps[id].cls == w.comps[id].cls
              && o.world.comps[id].values == w.comps[id].values
              && o.world.comps[id].root.Root? == w.comps[id].root.Root?
              && (root != Some(id) ==> o.world.comps[id] == w.comps[id])
  {
    match root
    case None =>
      if r.missing.Some? then
        Effect(w, Err(Missing(r.missing.value)))
      else
        Effect(AddComponent(w, Component(cls, Root(r.store), r.values)), Ok(w.next))
    case Some(rootId) =>
      var w1 := WithStore(w, rootId, r.store);
      if r.missing.Some? then
        Effect(w1, Err(Missing(r.missing.value)))
      else
        Effect(AddComponent(w1, Component(cls, Child(rootId), r.values)), Ok(w.next))
  }

  /** The world with root `rootId`'s store replaced. */
  function WithStore(w: World, rootId: CompId, s: Store): (r: World)
    requires WorldOk(w) && rootId in w.comps && w.comps[rootId].root.Root?
    ensures WorldOk(r)
    ensures r.comps == w.comps[rootId := w.comps[rootId].(root := Root(s))]
    ensures r.next == w.next && r.updates == w.updates
  {
    var r := w.(comps := w.comps[rootId := w.comps[rootId].(root := Root(s))]);
    assert forall id :: id in w.comps ==> CompOk(w, id);
    assert forall id :: id in r.comps ==> CompOk(r, id);
    r
  }

  /** The world with component `c` added under the fresh id `w.next`. */
  function AddComponent(w: World, c: Component): (r: World)
    requires WorldOk(w)
    requires c.root.Child? ==> c.root.rootId in w.comps && w.comps[c.root.rootId].root.Root?
    ensures WorldOk(r)
    ensures w.next !in w.comps
    ensures r.comps == w.comps[w.next := c] && r.next == w.next + 1 && r.updates == w.updates
  {
    var r := World(w.comps[w.next := c], w.next + 1, w.updates);
    assert forall id :: id in w.comps ==> CompOk(w, id);
    assert forall id :: id in r.comps ==> CompOk(r, id);
    r
  }

  /** Construction resolves each declared need by `Pick` against the store it starts from:
      it succeeds exactly when no undeclared key is passed and every declared key resolves;
      the built component then holds the `Pick` value of every declared key. A missing need
      is the first unresolvable one in declaration order, and the root's store keeps the
      seeds of the needs before it. */
  lemma InitializeResolves(reg: Registry, w: World, root: Option<CompId>, cls: ClassId, passed: map<Key, Value>)
    requires RegistryOk(reg) && WorldOk(w) && RootArgOk(w, root)
    ensures var o := Initialize(reg, w, root, cls, passed);
            var needs := ClassNeedsOf(reg, cls);
            var store := StoreFor(w, root);
            && (o.result.Ok? <==>
                  passed.Keys <= needs.Keys() && forall k :: k in needs.opts ==> Pick(k, needs.opts[k], passed, store).Some?)
            && (o.result.Ok? ==>
                  forall k :: k in needs.opts ==>
                    Some(o.world.comps[o.result.value].values[k]) == Pick(k, needs.opts[k], passed, store))
            && (o.result.Err? && o.result.error.Missing? ==>
                  exists n :: 0 <= n < |needs.order| && needs.order[n] == o.result.error.key
                    && Pick(needs.order[n], needs.opts[needs.order[n]], passed, store).None?
                    && ResolvableUpTo(needs, n, passed, store)
                    && (root.Some? ==> StoreFor(o.world, root) == store + SeededUpTo(needs, n, passed, store)))
  {
    ResolveCharacterized(ClassNeedsOf(reg, cls), passed, StoreFor(w, root));
  }

  /** Construction never overwrites or removes a store entry; the only entries it adds are
      passed values of keys the class declares `store: true`. Defaults and values of needs
      that are not store-backed never reach the store. On success the store holds exactly
      the old entries plus those seeds. */
  lemma InitializeOnlySeedsStore(reg: Registry, w: World, root: Option<CompId>, cls: ClassId, passed: map<Key, Value>)
    requires RegistryOk(reg) && WorldOk(w) && RootArgOk(w, root)
    ensures var o := Initialize(reg, w, root, cls, passed);
            var needs := ClassNeedsOf(reg, cls);
            var store := StoreFor(w, root);
            && (root.Some? ==>
                  var after := StoreFor(o.world, root);
                  && (forall k :: k in store ==> k in after && after[k] == store[k])
                  && (forall k :: k in after && k !in store ==> k in passed && needs.Stores(k) && after[k] == passed[k]))
            && (o.result.Ok? ==>
                  StoreOf(o.world, o.result.value) == store + SeededUpTo(needs, |needs.order|, passed, store))
  {
    ResolveCharacterized(ClassNeedsOf(reg, cls), passed, StoreFor(w, root));
  }

  /** A component built with a `nil` root is its own root and owns a new store, which holds
      nothing but the seeds of its own construction. */
  lemma NewRootOwnsFreshStore(reg: Registry, w: World, cls: ClassId, passed: map<Key, Value>)
    requires RegistryOk(reg) && WorldOk(w)
    ensures var o := Initialize(reg, w, None, cls, passed);
            var needs := ClassNeedsOf(reg, cls);
            o.result.Ok? ==>
              && IsRoot(o.world, o.result.value)
              && StoreOf(o.world, o.result.value) == SeededUpTo(needs, |needs.order|, passed, map[])
  {
    var needs := ClassNeedsOf(reg, cls);
    var o := Initialize(reg, w, None, cls, passed);
    InitializeOnlySeedsStore(reg, w, None, cls, passed);
    if o.result.Ok? {
      assert o.world.comps[o.result.value].root.Root?;
      assert map[] + SeededUpTo(needs, |needs.order|, passed, map[]) == SeededUpTo(needs, |needs.order|, passed, map[]);
    }
  }

  /** A component built with a root is a child bound to that root: it is not its own root,
      and it reads and writes that root's store. */
  lemma ChildSharesRootStore(reg: Registry, w: World, root: CompId, cls: ClassId, passed: map<Key, Value>)
    requires RegistryOk(reg) && WorldOk(w) && RootArgOk(w, Some(root))
    ensures var o := Initialize(reg, w, Some(root), cls, passed);
            o.result.Ok? ==>
              && !IsRoot(o.world, o.result.value)
              && RootIdOf(o.world, o.result.value) == root
              && StoreOf(o.world, o.result.value) == StoreOf(o.world, root)
  {
  }

  /** Construction keeps every component's values keyed by exactly its class's declarations. */
  lemma InitializeKeepsValuesOk(reg: Registry, w: World, root: Option<CompId>, cls: ClassId, passed: map<Key, Value>)
    requires RegistryOk(reg) && WorldOk(w) && RootArgOk(w, root) && ValuesOk(reg, w)
    ensures ValuesOk(reg, Initialize(reg, w, root, cls, passed).world)
  {
  }
}
