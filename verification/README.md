# Snabberb component state model

Snabberb is a Ruby (Opal) UI framework. An application subclasses
`Snabberb::Component`, declares its inputs with `needs`, and builds its view with
`h`. This project models the state core of `opal/snabberb/component.rb` as pure
functions over immutable data, and proves properties of that model in Dafny:

- **Need declarations** (`Needs`): each class keeps its own insertion-ordered
  table from key to options (`default:`, `store:`). Re-declaring a key replaces
  its options and keeps its position. Nothing is inherited from a superclass.
- **Need resolution** (`Resolution`): `init_needs` walks the declarations in
  order. Each key takes the existing store entry if there is one, else the
  passed value, else the `default:`, else construction raises. A passed value of
  a store-backed key seeds the store, but only when the store has no entry yet.
- **Construction, roots and stores** (`Components`): the world holds every
  component instance by id, the next fresh id, and an update-request counter.
  A component's root is a tag, `Root(store) | Child(rootId)`: a root owns its
  store, and a child reads and writes the store of the root it was bound to. A
  component built with a `nil` root is its own root and owns a new store. A
  component built through `h` is bound to the caller's root.
- **Store mutation** (`Storage`): `store(key, value)` checks that the key is
  `store: true` on the caller's class. It then writes the shared store, sets the
  caller's value, and sets the root's value when the caller is a child and the
  root's class stores the key too. Finally it requests one update. `store()`
  with no key returns the store.
- **`h` dispatch** (`Hyperscript`): a component class is constructed and
  rendered. Any other class is rejected. A tag becomes a node record
  `(selector, props, children)`, after the props/children argument shuffle.

Some behaviours of the code worth stating plainly:

- The store is consulted for every declared need, not only for store-backed
  ones (`@store.key?(key)` at component.rb:135).
- Declarations are per class and are not merged down a class hierarchy.
- Writes are not coalesced. Each successful `store` calls `update`, and
  `update` requests one animation frame. So two writes request two updates.
  `StoreEach` proves this count.
- A write is mirrored onto the caller and the root only, not onto other
  instances.
- An undeclared-needs error reports all undeclared keys at once.

Values are an opaque type, so Ruby's `nil` is just another value. A `nil`
default, a `nil` passed value or a `nil` store entry all count as present.
External effects are parameters or counters. `render` is a function parameter
from the built component and its store to a node. An update request only adds
one to `World.updates`.

## Model

| member | source | states |
|---|---|---|
| `Needs.Declare` | opal/snabberb/component.rb:18-21 | a declaration keeps keys distinct; the key now maps to the new options; other keys keep theirs; a re-declared key keeps its position and a new key goes last; the key is then store-backed exactly when the new options say `store: true` |
| `Needs.ClassNeeds.Stores` | opal/snabberb/component.rb:126-128 | `stores?` holds only for a declared key; an undeclared key is never stored, whatever is passed |
| `Needs.ClassNeedsOf` | opal/snabberb/component.rb:23-25 | a class that declared needs gets back its own table; a class that declared nothing has an empty table; every table is well formed |
| `Needs.DeclareNeed` | opal/snabberb/component.rb:18-21 | after `needs k, opts` on a class, `class_needs` of that class is its old table with the declaration applied; every other class, subclasses included, keeps exactly its table |
| `Resolution.Step` | opal/snabberb/component.rb:134-144 | one iteration gives the key a value; it never changes or removes a store entry; the only entry it can add is this key's passed value, and only when the key is store-backed |
| `Resolution.StepMatchesPick` | opal/snabberb/component.rb:134-144 | while the store agrees with the original one at the key, an iteration raises exactly when the store, passed, default priority finds nothing, and otherwise sets that priority's value; it seeds the store only for a passed, store-backed key the store lacks |
| `Resolution.ResolveFrom` | opal/snabberb/component.rb:133-145 | from any point of the loop: existing store entries are never changed or removed; new entries are passed values of store-backed keys; only declared keys get values |
| `Resolution.Resolve` | opal/snabberb/component.rb:132-146 | `init_needs` never overwrites or removes a store entry; it only adds passed values of keys declared `store: true`; it sets values only for declared keys |
| `Resolution.ResolveStops` | opal/snabberb/component.rb:133-145 | resolution stops after a prefix of the declarations: all of them, or the first unresolvable one, which is the key reported |
| `Resolution.ResolveCharacterized` | opal/snabberb/component.rb:132-146 | success iff every declared key resolves by the priority store, then passed, then default; each value is that priority's pick; the store gains exactly the seeds; a missing key is the first unresolvable one, with only earlier seeds written |
| `Components.RootIdOf` | opal/snabberb/component.rb:41-43 | a component's root is a root that owns a store; a root is its own root; a child's root is the one it was bound to |
| `Components.IsRoot` | opal/snabberb/component.rb:51-53 | `root?` holds iff the component is its own root, iff it owns a store |
| `Components.StoreOf` | opal/snabberb/component.rb:43 | a root reads and writes the store it owns; a child reads and writes the store of the root it was bound to |
| `Components.StoreFor` | opal/snabberb/component.rb:42-43 | construction with a `nil` root starts from an empty store; with a root it uses that root's store |
| `Components.Initialize` | opal/snabberb/component.rb:41-49 | undeclared passed keys raise before any resolution and change nothing; success adds one fresh component, with values for exactly its class's keys and the right root tag; existing components and other stores are untouched; no update is requested |
| `Components.InitializeResolves` | opal/snabberb/component.rb:41-49 | construction succeeds iff no undeclared key is passed and every declared key resolves; values follow the store, passed, default priority; a missing need is the first in declaration order, and the root's store keeps the earlier seeds |
| `Components.InitializeOnlySeedsStore` | opal/snabberb/component.rb:135-141 | construction never overwrites or removes a store entry; it adds only passed values of store-backed keys; defaults never reach the store |
| `Components.NewRootOwnsFreshStore` | opal/snabberb/component.rb:41-43 | a component built with a nil root is its own root and owns a new store holding only its own seeds |
| `Components.ChildSharesRootStore` | opal/snabberb/component.rb:41-43 | a component built with a root is not a root; its root is that root; it sees that root's store; no store is added |
| `Components.InitializeKeepsValuesOk` | opal/snabberb/component.rb:132-145 | after construction every component still holds values for exactly its class's declared keys |
| `Storage.StoreCall` | opal/snabberb/component.rb:109-120 | a nil key returns the caller's store and changes nothing; a key not `store: true` on the caller's class raises and changes nothing; a key that is `store: true` is written and requests exactly one update |
| `Storage.Written` | opal/snabberb/component.rb:113-119 | a write keeps the set of components, every class and every root-or-child tag, keeps each child bound to the same root, and adds one update request |
| `Storage.Mirrors` | opal/snabberb/component.rb:117 | a root never mirrors a write onto itself through this path; a mirrored key is one the root's class declares |
| `Storage.StoreWriteIsShared` | opal/snabberb/component.rb:113 | after a write every component of the caller's tree sees the new value with all other entries unchanged; other trees' stores are untouched |
| `Storage.StoreWriteMirrors` | opal/snabberb/component.rb:115-117 | a write sets the caller's value; it sets the root's value only when the caller is the root or the root's class stores the key; every other component is unchanged |
| `Storage.StoreKeepsValuesOk` | opal/snabberb/component.rb:113-117 | after a store call every component still holds values for exactly its class's declared keys |
| `Storage.StoreEach` | opal/snabberb/component.rb:89-120 | consecutive writes are not batched: n successful writes request exactly n updates; a failing write stops the sequence: it is a write whose key the caller's class does not store, it is the one reported, and only the writes before it requested updates |
| `Hyperscript.H` | opal/snabberb/component.rb:74-86 | a non-component class is rejected; a component class gets Hash props as its needs, is built as a child of the caller's root, and its render result is returned; a tag with Hash props yields a node with those props and children, and changes nothing |
| `Hyperscript.ChildrenAsSecondArgument` | opal/snabberb/component.rb:81-84 | `h(tag, x, c)` with a non-Hash `x` and `c` `nil` or `false` equals `h(tag, {}, x)`: `x` becomes the children |
| `Hyperscript.NonHashPropsDropped` | opal/snabberb/component.rb:81-84 | `h(tag, x, c)` with a non-Hash `x` and truthy `c` equals `h(tag, {}, c)`: `x` is dropped |
| `Hyperscript.ComponentIgnoresChildren` | opal/snabberb/component.rb:75-79 | for a component class the children argument does not change the outcome |
| `Hyperscript.ComponentBoundToCallersRoot` | opal/snabberb/component.rb:78-79 | a component rendered by `h` is a new child of the caller's root, not of a child caller; it shares the caller's store; `h` returns its render result |

## Left out

- `update`, `update!` and `attach` are not modelled. They are
  `requestAnimationFrame`, the snabbdom patcher and `document.getElementById`
  interop. An update request is only a count in `World.updates`.
- `html` and `self.html` are not modelled. They delegate to the snabbdom-to-html
  serializer. That serializer (selector parsing, class and style merging,
  escaping, void elements) is not part of this model.
- The node constructor (`snabbdom.h` after `Native.convert`) is foreign
  JavaScript. The model records its arguments in `VNode` and nothing more.
- `render` is user code. It is a function parameter of `H`. Any store seeding by
  components it builds, and the base class's `NotImplementedError`, are not
  modelled.
- `lib/snabberb.rb` (`prerender_script`), `opal/snabberb.rb`, `build.js` and the
  example applications are glue code and are not part of this model.
- Components.Initialize: requires that the `root` argument is a root. Both
  callers in the source guarantee this: `h` passes `@root`, and `attach`/`html`
  pass `nil`.
- Components.Initialize: the `Unused` error carries the set of undeclared keys.
  The source reports them as an array in passing order.
- Hyperscript.H: `nil`, `false` and other objects passed to `h` are told apart
  only by the `Arg` cases `Nil`, `False` and `Other`; `Other` stands for a
  truthy object and its contents are never inspected.
- Hyperscript.H: non-Hash props for a component class raise a `TypeError` in
  Ruby's `**props`. This is modelled as the error `NotHash`.
- Storage.StoreCall: a successful call returns `UpdateRequested`, not the frame
  id that `requestAnimationFrame` returns.
- Needs.Declare: `store:` is a boolean. The source accepts any truthy value.
  Option keys other than `default:` and `store:` are ignored, as in the source.
- Needs.Declare: need values are kept in a map from key to value, not as
  instance variables `@key`. So a need named `root`, `store` or `node`, which
  in the source would overwrite `@root`, `@store` or `@node` and break `root?`
  and the store lookups after it, is an ordinary key here; and a key that is
  not a valid instance-variable name, which raises `NameError` in the source,
  is accepted.
- Storage.StoreCall: `store()` with no key returns the live store Hash, which
  the caller can then change directly, bypassing the `stores?` check and the
  update request. The model returns the store's contents as a value, so such
  writes through the returned Hash are not modelled.
- Hyperscript.H: props are a map, so the key order of a props Hash, which the
  source passes on to the node constructor, is not kept.
