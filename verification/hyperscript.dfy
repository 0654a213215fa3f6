/** `Component#h`: building an element node, or constructing and rendering a child component. */
module Hyperscript {
  import opened Values
  import opened Needs
  import opened Components

  /** The first argument of `h`. */
  datatype Element =
    | ComponentClass(cls: ClassId)   // a class that is `Component` or one of its subclasses
    | OtherClass(name: string)       // any other class
    | Tag(selector: string)          // a tag symbol or selector string such as "div.card#id"

  /** The second or third argument of `h`: a Hash, `nil`, `false`, or any other object
      (text, an array of nodes, a number, `true`, ...), which Ruby treats as true. */
  datatype Arg = Hash(entries: map<Key, Value>) | Nil | False | Other(value: Value)

  /** Ruby truthiness: everything but `nil` and `false`. */
  predicate Truthy(a: Arg) {
    !a.Nil? && !a.False?
  }

  /** A virtual node, recorded as the selector, props and children the node constructor
      (snabbdom's `h`) was given. */
  datatype Node = VNode(selector: string, props: map<Key, Value>, children: Arg)

  /** `h(element, props = {}, children = nil)` called on component `caller`, with `render`
      standing for the `render` method of the component classes. An element is built at once:
      a Hash second argument is its props; otherwise props are empty, and the second argument
      becomes the children when the children argument is `nil` or `false`. A component class is constructed as a
      child of the caller's root with the props as its needs, and its render result is
      returned; children are ignored. A class that is not a component is rejected. */
  function H(reg: Registry, render: (Component, Store) -> Node, w: World, caller: CompId,
             element: Element, props: Arg, children: Arg): (o: Effect<Node>)
    requires RegistryOk(reg) && WorldOk(w) && caller in w.comps
    ensures WorldOk(o.world)
    ensures o.world.updates == w.updates
    ensures element.Tag? ==> o.world == w && o.result.Ok? && o.result.value.selector == element.selector
    ensures element.Tag? && props.Hash? ==> o.result == Ok(VNode(element.selector, props.entries, children))
    ensures element.OtherClass? ==> o == Effect(w, Err(NotComponent))
    ensures element.ComponentClass? && !props.Hash? ==> o == Effect(w, Err(NotHash))
    ensures element.ComponentClass? && props.Hash? ==>
              var built := Initialize(reg, w, Some(RootIdOf(w, caller)), element.cls, props.entries);
              && o.world == built.world
              && (built.result.Err? ==> o.result == Err(built.result.error))
              && (built.result.Ok? ==>
                    o.result == Ok(render(built.world.comps[built.result.value], StoreOf(built.world, built.result.value))))
  {
    match element
    case OtherClass(_) => Effect(w, Err(NotComponent))
    case ComponentClass(cls) =>
      if !props.Hash? then
        Effect(w, Err(NotHash))
      else
        var built := Initialize(reg, w, Some(RootIdOf(w, caller)), cls, props.entries);
        (match built.result
         case Err(e) => Effect(built.world, Err(e))
         case Ok(id) => Effect(built.world, Ok(render(built.world.comps[id], StoreOf(built.world, id)))))
    case Tag(selector) =>
      var children' := if !Truthy(children) && !props.Hash? then props else children;
      var props' := if props.Hash? then props.entries else map[];
      Effect(w, Ok(VNode(selector, props', children')))
  }

  /** `h(tag, x)`, or `h(tag, x, c)` with `c` `nil` or `false`, where `x` is not a Hash, is
      `h(tag, {}, x)`: the second argument becomes the children. */
  lemma ChildrenAsSecondArgument(reg: Registry, render: (Component, Store) -> Node, w: World, caller: CompId,
                                 selector: string, x: Arg, c: Arg)
    requires RegistryOk(reg) && WorldOk(w) && caller in w.comps
    requires !x.Hash? && !Truthy(c)
    ensures H(reg, render, w, caller, Tag(selector), x, c)
         == H(reg, render, w, caller, Tag(selector), Hash(map[]), x)
    ensures H(reg, render, w, caller, Tag(selector), x, c).result == Ok(VNode(selector, map[], x))
  {
  }

  /** `h(tag, x, c)` with `x` not a Hash and truthy children `c` drops `x`: it is `h(tag, {}, c)`. */
  lemma NonHashPropsDropped(reg: Registry, render: (Component, Store) -> Node, w: World, caller: CompId,
                            selector: string, x: Arg, c: Arg)
    requires RegistryOk(reg) && WorldOk(w) && caller in w.comps
    requires !x.Hash? && Truthy(c)
    ensures H(reg, render, w, caller, Tag(selector), x, c)
         == H(reg, render, w, caller, Tag(selector), Hash(map[]), c)
    ensures H(reg, render, w, caller, Tag(selector), x, c).result == Ok(VNode(selector, map[], c))
  {
  }

  /** For a component class the children argument makes no difference. */
  lemma ComponentIgnoresChildren(reg: Registry, render: (Component, Store) -> Node, w: World, caller: CompId,
                                 cls: ClassId, props: Arg, c1: Arg, c2: Arg)
    requires RegistryOk(reg) && WorldOk(w) && caller in w.comps
    ensures H(reg, render, w, caller, ComponentClass(cls), props, c1)
         == H(reg, render, w, caller, ComponentClass(cls), props, c2)
  {
  }

  /** A component rendered through `h` is a new child whose root is the caller's root, never
      the caller itself when the caller is a child; it shares the store of the caller, and
      `h` returns what `render` makes of it and of that store. */
  lemma ComponentBoundToCallersRoot(reg: Registry, render: (Component, Store) -> Node, w: World, caller: CompId,
                                    cls: ClassId, props: map<Key, Value>, children: Arg)
    requires RegistryOk(reg) && WorldOk(w) && caller in w.comps
    ensures var o := H(reg, render, w, caller, ComponentClass(cls), Hash(props), children);
            var built := Initialize(reg, w, Some(RootIdOf(w, caller)), cls, props);
            o.result.Ok? ==>
              var id := built.result.value;
              && built.result.Ok?
              && id !in w.comps && id in o.world.comps
              && o.world.comps[id].cls == cls
              && o.world.comps[id].root == Child(RootIdOf(w, caller))
              && RootIdOf(o.world, id) == RootIdOf(o.world, caller)
              && (!IsRoot(w, caller) ==> RootIdOf(o.world, id) != caller)
              && StoreOf(o.world, id) == StoreOf(o.world, caller)
              && o.result.value == render(o.world.comps[id], StoreOf(o.world, caller))
  {
    var rootId := RootIdOf(w, caller);
    var built := Initialize(reg, w, Some(rootId), cls, props);
    if built.result.Ok? {
      ChildSharesRootStore(reg, w, rootId, cls, props);
      if caller != rootId {
        assert built.world.comps[caller] == w.comps[caller];
      }
      assert RootIdOf(built.world, caller) == rootId;
    }
  }
}
