/** Need declarations: `Component.needs` and `Component.class_needs`.
    Each component class keeps its own insertion-ordered table from key to options;
    nothing is inherited from, or copied into, any other class. */
module Needs {
  import opened Values

  /** The options of one `needs` declaration. `default` is `None` when no `default:` was given
      (the need is then required); `store` is the `store:` flag. */
  datatype NeedOpts = NeedOpts(default: Option<Value>, store: bool)

  /** One class's declarations as a Ruby Hash: keys in first-declaration order and their options. */
  datatype ClassNeeds = ClassNeeds(order: seq<Key>, opts: map<Key, NeedOpts>) {

    /** Every key appears once in `order`, and `order` lists exactly the declared keys. */
    predicate Valid() {
      && (forall i, j :: 0 <= i < j < |order| ==> order[i] != order[j])
      && (forall k :: k in opts ==> k in order)
      && (forall i :: 0 <= i < |order| ==> order[i] in opts)
    }

    /** The declared keys. */
    function Keys(): set<Key> {
      opts.Keys
    }

    /** `stores?(key)`: the key is declared with `store: true`. An undeclared key is not stored. */
    predicate Stores(k: Key)
      ensures Stores(k) ==> k in Keys()
    {
      k in opts && opts[k].store
    }
  }

  /** The table of a class that has not declared anything. */
  const NoNeeds := ClassNeeds([], map[])

  /** `needs key, **opts` on one class: a new key goes to the end of the order,
      a re-declared key keeps its position and has its options replaced. */
  function Declare(needs: ClassNeeds, k: Key, o: NeedOpts): (r: ClassNeeds)
    requires needs.Valid()
    ensures r.Valid()
    ensures r.Keys() == needs.Keys() + {k}
    ensures k in r.opts && r.opts[k] == o
    ensures r.Stores(k) <==> o.store
    ensures forall k' :: k' != k && k' in needs.opts ==> r.opts[k'] == needs.opts[k']
    ensures k in needs.opts ==> r.order == needs.order
    ensures k !in needs.opts ==> |r.order| == |needs.order| + 1 && r.order[..|needs.order|] == needs.order && r.order[|needs.order|] == k
  {
    if k in needs.opts then
      ClassNeeds(needs.order, needs.opts[k := o])
    else
      var order := needs.order + [k];
      assert order[..|needs.order|] == needs.order;
      ClassNeeds(order, needs.opts[k := o])
  }

  /** A component class, identified by its name. */
  type ClassId = string

  /** Every class's own declarations (`@class_needs` of each class). */
  type Registry = map<ClassId, ClassNeeds>

  predicate RegistryOk(reg: Registry) {
    forall c :: c in reg ==> reg[c].Valid()
  }

  /** `class_needs`: the class's own table, or an empty one if it never declared a need. */
  function ClassNeedsOf(reg: Registry, cls: ClassId): (r: ClassNeeds)
    ensures RegistryOk(reg) ==> r.Valid()
    ensures cls in reg ==> r == reg[cls]
    ensures cls !in reg ==> r.Keys() == {}
  {
    if cls in reg then reg[cls] else NoNeeds
  }

  /** `self.needs(key, **opts)` called on class `cls`: only `cls`'s own table changes;
      every other class, its subclasses included, keeps exactly the table it had. */
  function DeclareNeed(reg: Registry, cls: ClassId, k: Key, o: NeedOpts): (r: Registry)
    requires RegistryOk(reg)
    ensures RegistryOk(r)
    ensures cls in r && ClassNeedsOf(r, cls) == Declare(ClassNeedsOf(reg, cls), k, o)
    ensures forall c :: c != cls ==> ClassNeedsOf(r, c) == ClassNeedsOf(reg, c)
  {
    var t := Declare(ClassNeedsOf(reg, cls), k, o);
    var r := reg[cls := t];
    assert RegistryOk(r) by {
      forall c | c in r ensures r[c].Valid() {
        if c != cls { assert r[c] == reg[c]; }
      }
    }
    assert forall c :: c != cls ==> ClassNeedsOf(r, c) == ClassNeedsOf(reg, c);
    r
  }
}
