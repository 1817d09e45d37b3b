/**
 * The live entity tree: every entity proxy and collection proxy is a record
 * in a `Store`, referred to by number. This module holds the invariant that
 * ties records together, `useEntity` (composable/entity/entity.js:9-70),
 * `create` and `delete` of collections
 * (composable/entity/entity-collection.js:84-119), the read side of the
 * entity proxy (get/has/ownKeys, composable/entity/entity.js:72-134), and the
 * frame predicates the tree-wide operations are proved with.
 */
module Entities {
  import opened JsValues
  import opened Definitions
  import opened Records

  // ---------------------------------------------------------------------------
  // The invariant

  /** The record of entity `e` is consistent with the rest of the store. */
  ghost predicate EntityOk(ents: map<nat, EntityState>, cols: map<nat, CollectionState>, e: nat)
    requires e in ents
  {
    var r := ents[e];
    && WellFormed(r.definition)
    && |r.children| == |Children(r.definition)|
    && (forall i :: 0 <= i < |r.children| ==>
          && r.children[i] in cols
          && cols[r.children[i]].definition == Children(r.definition)[i]
          && cols[r.children[i]].parent == Some(e))
    && (r.parent.Some? ==>
          && r.parent.value in cols && r.parent.value < e
          && cols[r.parent.value].definition == r.definition)
    && (r.base.Some? ==> r.base.value in ents && r.base.value < e)
    && (forall k :: k in r.details ==> IsDetailName(r.definition, k))
  }

  /** The record of collection `c` is consistent with the rest of the store. */
  ghost predicate CollectionOk(ents: map<nat, EntityState>, cols: map<nat, CollectionState>, c: nat)
    requires c in cols
  {
    var r := cols[c];
    && WellFormed(r.definition)
    && (forall m :: m in r.storedEntities ==> m in ents && ents[m].definition == r.definition && ents[m].parent == Some(c))
    && (forall m :: m in r.newEntities ==> m in ents && ents[m].definition == r.definition && ents[m].parent == Some(c))
    && Distinct(r.storedEntities + r.newEntities)
    && TombstonesInRange(r)
    && (r.parent.Some? ==>
          && r.parent.value in ents && r.parent.value < c
          && r.definition in Children(ents[r.parent.value].definition))
  }

  /** Every entity record is consistent and numbered below `next`. */
  ghost predicate EntitiesOk(ents: map<nat, EntityState>, cols: map<nat, CollectionState>, next: nat) {
    forall e {:trigger EntityOk(ents, cols, e)} :: e in ents ==> e < next && EntityOk(ents, cols, e)
  }

  /** Every collection record is consistent and numbered below `next`. */
  ghost predicate CollectionsOk(ents: map<nat, EntityState>, cols: map<nat, CollectionState>, next: nat) {
    forall c {:trigger CollectionOk(ents, cols, c)} :: c in cols ==> c < next && CollectionOk(ents, cols, c)
  }

  lemma EntitiesBelow(ents: map<nat, EntityState>, cols: map<nat, CollectionState>, next: nat)
    requires EntitiesOk(ents, cols, next)
    ensures forall e :: e in ents ==> e < next
  {
    forall e | e in ents ensures e < next {
      assert EntityOk(ents, cols, e);
    }
  }

  lemma CollectionsBelow(ents: map<nat, EntityState>, cols: map<nat, CollectionState>, next: nat)
    requires CollectionsOk(ents, cols, next)
    ensures forall c :: c in cols ==> c < next
  {
    forall c | c in cols ensures c < next {
      assert CollectionOk(ents, cols, c);
    }
  }

  /**
   * The store invariant: child collections exist with the child definitions
   * and point back at their owner; members of a collection have its
   * definition, point back at it and are listed once; tombstones denote
   * stored positions; a parent exists, is numbered below its record and sits
   * one level up the definition tree; a base is older than the entity cloned
   * from it.
   */
  ghost predicate ValidMaps(ents: map<nat, EntityState>, cols: map<nat, CollectionState>, next: nat) {
    EntitiesOk(ents, cols, next) && CollectionsOk(ents, cols, next)
  }

  /** Entity and collection records, reachable by number. */
  class Store {
    var entities: map<nat, EntityState>
    var collections: map<nat, CollectionState>
    var next: nat

    ghost predicate Valid()
      reads this
    {
      ValidMaps(entities, collections, next)
    }

    constructor ()
      ensures entities == map[] && collections == map[] && next == 0
      ensures Valid()
    {
      entities := map[];
      collections := map[];
      next := 0;
    }

    /**
     * `useEntity(definition, { root, parent, base })`: a fresh entity with
     * empty stored, changed and details maps and one fresh, empty collection
     * per child name (`navigationKey || entityName`), whose parent is the new
     * entity and whose root is the given root, else the new entity.
     */
    method UseEntity(definition: Definition, root: Option<Handle>, parent: Option<nat>, base: Option<nat>)
      returns (e: nat)
      requires Valid() && WellFormed(definition)
      requires parent.Some? ==> parent.value in collections && collections[parent.value].definition == definition
      requires base.Some? ==> base.value in entities
      modifies this
      ensures Valid()
      ensures e == old(next) && next == e + 1 + |Children(definition)|
      ensures entities == old(entities)[e := NewEntity(definition, root.GetOr(EntityRef(e)), parent, base, e)]
      ensures collections == old(collections) + FreshCollections(Children(definition), e + 1, root.GetOr(EntityRef(e)), e)
    {
      e := next;
      var record := NewEntity(definition, root.GetOr(EntityRef(e)), parent, base, e);
      AllocationValid(entities, collections, next, record, e);
      entities := entities[e := record];
      collections := collections + FreshCollections(Children(definition), e + 1, record.root, e);
      next := e + 1 + |Children(definition)|;
    }

    /**
     * `collection.create()`: an entity with the collection's definition and
     * root, whose parent is the collection, and which neither list holds.
     */
    method Create(c: nat) returns (e: nat)
      requires Valid() && c in collections
      modifies this
      ensures Valid()
      ensures e !in old(entities) && e in entities && c in collections
      ensures entities[e].definition == collections[c].definition
      ensures entities[e].storedProperties == map[] && entities[e].changedProperties == map[] && entities[e].details == map[]
      ensures entities[e].root == collections[c].root && entities[e].parent == Some(c)
      ensures collections[c] == old(collections)[c]
      ensures e !in collections[c].storedEntities && e !in collections[c].newEntities
      ensures Grows(old(entities), old(collections), old(next), entities, collections, next)
      ensures UnchangedFrom(old(entities), old(collections), entities, collections)
    {
      assert CollectionOk(entities, collections, c);
      ghost var ents0, cols0, next0 := entities, collections, next;
      e := UseEntity(collections[c].definition, Some(collections[c].root), Some(c), None);
      AllocationFresh(ents0, cols0, next0, entities[e], FreshCollections(Children(cols0[c].definition), e + 1, cols0[c].root, e));
    }

    /**
     * `collection.delete(index)` for a numeric index: see `Records.DeleteAt`.
     * Only that collection's record changes.
     */
    method Delete(c: nat, index: int)
      requires Valid() && c in collections
      modifies this
      ensures Valid()
      ensures entities == old(entities) && next == old(next)
      ensures collections == old(collections)[c := DeleteAt(old(collections)[c], index)]
    {
      assert CollectionOk(entities, collections, c);
      var r0 := collections[c];
      var updated := DeleteAt(r0, index);
      assert forall m :: m in updated.newEntities ==> m in r0.newEntities;
      var kept := |Remaining(r0.storedEntities, r0.deletedIndices)|;
      if kept <= index < |View(r0)| {
        DistinctWithout(r0.storedEntities, r0.newEntities, index - kept);
      }
      CollectionUpdateValid(entities, collections, next, c, updated);
      collections := collections[c := updated];
    }
  }

  /** Removing one new member keeps every member listed once. */
  lemma DistinctWithout(stored: seq<nat>, added: seq<nat>, j: nat)
    requires Distinct(stored + added) && j < |added|
    ensures Distinct(stored + (added[..j] + added[j + 1..]))
  {
    var xs, ys := stored + added, stored + (added[..j] + added[j + 1..]);
    var k := |stored| + j;
    forall a, b | 0 <= a < b < |ys| ensures ys[a] != ys[b] {
      var a', b' := if a < k then a else a + 1, if b < k then b else b + 1;
      assert ys[a] == xs[a'] && ys[b] == xs[b'];
    }
  }

  // ---------------------------------------------------------------------------
  // Allocation

  /**
   * The record `useEntity` creates for entity `e`: no stored, changed or
   * detail values, and child collections numbered right after `e`.
   */
  function NewEntity(definition: Definition, root: Handle, parent: Option<nat>, base: Option<nat>, e: nat): (r: EntityState)
    ensures r.storedProperties == map[] && r.changedProperties == map[] && r.details == map[]
    ensures |r.children| == |Children(definition)|
    ensures forall i :: 0 <= i < |r.children| ==> r.children[i] > e
  {
    EntityState(definition, map[], map[], map[], ChildNumbers(|Children(definition)|, e + 1), root, parent, base)
  }

  /** What allocation leaves in place: old records untouched, new ones numbered from `next0`. */
  lemma AllocationFresh(ents0: map<nat, EntityState>, cols0: map<nat, CollectionState>, next0: nat,
                        r: EntityState, created: map<nat, CollectionState>)
    requires ValidMaps(ents0, cols0, next0)
    requires forall c :: c in created ==> c > next0
    ensures next0 !in ents0
    ensures UnchangedFrom(ents0, cols0, ents0[next0 := r], cols0 + created)
  {
    EntitiesBelow(ents0, cols0, next0);
    CollectionsBelow(ents0, cols0, next0);
  }

  /** One empty collection per definition in `defs`, numbered from `first`, owned by entity `owner`. */
  function FreshCollections(defs: seq<Definition>, first: nat, root: Handle, owner: nat)
    : (m: map<nat, CollectionState>)
    ensures forall c :: c in m <==> first <= c < first + |defs|
    ensures forall c :: c in m ==> m[c] == CollectionState(defs[c - first], [], [], {}, root, Some(owner))
  {
    if defs == [] then map[]
    else
      var last := |defs| - 1;
      FreshCollections(defs[..last], first, root, owner)[first + last := CollectionState(defs[last], [], [], {}, root, Some(owner))]
  }

  /** The new collections are consistent: empty, with a well-formed child definition. */
  lemma FreshCollectionsOk(ents: map<nat, EntityState>, cols: map<nat, CollectionState>,
                           definition: Definition, e: nat, root: Handle)
    requires WellFormed(definition) && e in ents && ents[e].definition == definition
    requires var created := FreshCollections(Children(definition), e + 1, root, e);
             forall c :: c in created ==> c in cols && cols[c] == created[c]
    ensures forall c :: c in FreshCollections(Children(definition), e + 1, root, e) ==> CollectionOk(ents, cols, c)
  {
    var created := FreshCollections(Children(definition), e + 1, root, e);
    forall c | c in created ensures CollectionOk(ents, cols, c) {
      assert WellFormed(Children(definition)[c - (e + 1)]);
    }
  }

  /** The old entity records stay consistent once new records are added. */
  lemma OldEntitiesOk(ents: map<nat, EntityState>, cols: map<nat, CollectionState>, next: nat,
                      ents': map<nat, EntityState>, cols': map<nat, CollectionState>, next': nat)
    requires EntitiesOk(ents, cols, next) && next <= next'
    requires forall x :: x in ents ==> x in ents' && ents'[x] == ents[x]
    requires forall x :: x in cols ==> x in cols' && cols'[x] == cols[x]
    ensures forall x :: x in ents ==> x < next' && EntityOk(ents', cols', x)
  {
    forall x | x in ents ensures x < next' && EntityOk(ents', cols', x) {
      assert EntityOk(ents, cols, x);
    }
  }

  /** The old collection records stay consistent once new records are added. */
  lemma OldCollectionsOk(ents: map<nat, EntityState>, cols: map<nat, CollectionState>, next: nat,
                         ents': map<nat, EntityState>, cols': map<nat, CollectionState>, next': nat)
    requires CollectionsOk(ents, cols, next) && next <= next'
    requires forall x :: x in ents ==> x in ents' && ents'[x] == ents[x]
    requires forall x :: x in cols ==> x in cols' && cols'[x] == cols[x]
    ensures forall x :: x in cols ==> x < next' && CollectionOk(ents', cols', x)
  {
    forall x | x in cols ensures x < next' && CollectionOk(ents', cols', x) {
      assert CollectionOk(ents, cols, x);
    }
  }

  /** The numbers `first`, `first + 1`, ... of `n` new child collections. */
  function ChildNumbers(n: nat, first: nat): (r: seq<nat>)
    ensures |r| == n
    ensures forall i :: 0 <= i < n ==> r[i] == first + i
  {
    seq(n, i requires 0 <= i < n => first + i)
  }

  /** The new entity's record is consistent with its new collections. */
  lemma NewEntityOk(ents: map<nat, EntityState>, cols: map<nat, CollectionState>, e: nat)
    requires e in ents && WellFormed(ents[e].definition)
    requires ents[e].children == ChildNumbers(|Children(ents[e].definition)|, e + 1)
    requires var created := FreshCollections(Children(ents[e].definition), e + 1, ents[e].root, e);
             forall c :: c in created ==> c in cols && cols[c] == created[c]
    requires ents[e].parent.Some? ==> ents[e].parent.value in cols && ents[e].parent.value < e
    requires ents[e].parent.Some? ==> cols[ents[e].parent.value].definition == ents[e].definition
    requires ents[e].base.Some? ==> ents[e].base.value in ents && ents[e].base.value < e
    requires ents[e].details == map[]
    ensures EntityOk(ents, cols, e)
  {
    NewChildrenOk(ents[e], cols, e);
  }

  /** The children of a new record are its new collections. */
  lemma NewChildrenOk(r: EntityState, cols: map<nat, CollectionState>, e: nat)
    requires r.children == ChildNumbers(|Children(r.definition)|, e + 1)
    requires var created := FreshCollections(Children(r.definition), e + 1, r.root, e);
             forall c :: c in created ==> c in cols && cols[c] == created[c]
    ensures forall i :: 0 <= i < |r.children| ==>
              && r.children[i] in cols
              && cols[r.children[i]].definition == Children(r.definition)[i]
              && cols[r.children[i]].parent == Some(e)
  {
    var created := FreshCollections(Children(r.definition), e + 1, r.root, e);
    forall i | 0 <= i < |r.children|
      ensures r.children[i] in cols && cols[r.children[i]].definition == Children(r.definition)[i]
      ensures cols[r.children[i]].parent == Some(e)
    {
      assert r.children[i] == e + 1 + i && e + 1 + i in created;
    }
  }

  /** The entity records after `useEntity` added entity `e` and its child collections. */
  lemma AllocationEntitiesOk(ents: map<nat, EntityState>, cols: map<nat, CollectionState>, next: nat,
                             record: EntityState, e: nat)
    requires EntitiesOk(ents, cols, next) && e == next
    requires forall x :: x in cols ==> x < next
    requires WellFormed(record.definition)
    requires record.children == ChildNumbers(|Children(record.definition)|, e + 1)
    requires record.parent.Some? ==> record.parent.value in cols && cols[record.parent.value].definition == record.definition
    requires record.base.Some? ==> record.base.value in ents
    requires record.details == map[]
    ensures EntitiesOk(ents[e := record], cols + FreshCollections(Children(record.definition), e + 1, record.root, e),
                       e + 1 + |Children(record.definition)|)
  {
    var created := FreshCollections(Children(record.definition), e + 1, record.root, e);
    var ents', cols', next' := ents[e := record], cols + created, e + 1 + |Children(record.definition)|;
    EntitiesBelow(ents, cols, next);
    OldEntitiesOk(ents, cols, next, ents', cols', next');
    NewEntityOk(ents', cols', e);
    forall x | x in ents' ensures x < next' && EntityOk(ents', cols', x) {
      if x != e {
        assert x in ents;
      }
    }
  }

  /** The collection records after `useEntity` added entity `e` and its child collections. */
  lemma AllocationCollectionsOk(ents: map<nat, EntityState>, cols: map<nat, CollectionState>, next: nat,
                                record: EntityState, e: nat)
    requires CollectionsOk(ents, cols, next) && e == next
    requires forall x :: x in ents ==> x < next
    requires WellFormed(record.definition)
    ensures CollectionsOk(ents[e := record], cols + FreshCollections(Children(record.definition), e + 1, record.root, e),
                          e + 1 + |Children(record.definition)|)
  {
    var created := FreshCollections(Children(record.definition), e + 1, record.root, e);
    var ents', cols', next' := ents[e := record], cols + created, e + 1 + |Children(record.definition)|;
    CollectionsBelow(ents, cols, next);
    OldCollectionsOk(ents, cols, next, ents', cols', next');
    FreshCollectionsOk(ents', cols', record.definition, e, record.root);
    forall x | x in cols' ensures x < next' && CollectionOk(ents', cols', x) {
      if x !in created {
        assert x in cols;
      }
    }
  }

  /** The records `useEntity` adds, entity `e` and its child collections numbered after it, leave the store valid. */
  lemma AllocationValid(ents: map<nat, EntityState>, cols: map<nat, CollectionState>, next: nat,
                        record: EntityState, e: nat)
    requires ValidMaps(ents, cols, next) && e == next
    requires WellFormed(record.definition)
    requires record.children == ChildNumbers(|Children(record.definition)|, e + 1)
    requires record.parent.Some? ==> record.parent.value in cols && cols[record.parent.value].definition == record.definition
    requires record.base.Some? ==> record.base.value in ents
    requires record.details == map[]
    ensures ValidMaps(ents[e := record], cols + FreshCollections(Children(record.definition), e + 1, record.root, e),
                      e + 1 + |Children(record.definition)|)
  {
    EntitiesBelow(ents, cols, next);
    CollectionsBelow(ents, cols, next);
    AllocationEntitiesOk(ents, cols, next, record, e);
    AllocationCollectionsOk(ents, cols, next, record, e);
  }

  // ---------------------------------------------------------------------------
  // The read side of the entity proxy

  /** What a property read on an entity proxy yields: a plain value or a child collection. */
  datatype Item = Val(value: Value) | Coll(collection: nat)

  const FlagSkip := "__v_skip"
  const FlagRaw := "__v_raw"

  predicate IsKey(r: EntityState, name: string) {
    name in Keys(r.definition)
  }

  /** Where the collection named `name` sits among the children (past the end for no child). */
  function ChildSlot(r: EntityState, name: string): nat {
    PositionOf(ChildNames(r.definition), name)
  }

  predicate IsChild(r: EntityState, name: string) {
    name in ChildNames(r.definition) && ChildSlot(r, name) < |r.children|
  }

  /**
   * The `get` trap: `__v_skip` reads true and `__v_raw` false (so Vue leaves
   * the proxy alone); then declared keys, then child collections, then
   * details, a missing detail reading undefined.
   */
  function Read(r: EntityState, name: string): (item: Item)
    ensures name == FlagSkip ==> item == Val(Bool(true))
    ensures name == FlagRaw ==> item == Val(Bool(false))
    ensures name != FlagSkip && name != FlagRaw && IsKey(r, name) ==> item == Val(Effective(r, name))
    ensures name != FlagSkip && name != FlagRaw && !IsKey(r, name) && IsChild(r, name) ==> item == Coll(r.children[ChildSlot(r, name)])
    ensures name != FlagSkip && name != FlagRaw && !IsKey(r, name) && !IsChild(r, name) ==> item == Val(Field(r.details, name))
    ensures item.Coll? <==> name != FlagSkip && name != FlagRaw && !IsKey(r, name) && IsChild(r, name)
  {
    if name == FlagSkip then Val(Bool(true))
    else if name == FlagRaw then Val(Bool(false))
    else if IsKey(r, name) then Val(Effective(r, name))
    else if IsChild(r, name) then Coll(r.children[ChildSlot(r, name)])
    else Val(Field(r.details, name))
  }

  /**
   * `entityPrimaryValue`: the primary key read through the proxy (with a
   * well-formed definition the primary key is never a child name).
   */
  function PrimaryValue(r: EntityState): (v: Value)
    ensures WellFormed(r.definition) ==> Read(r, r.definition.primaryKey) == Val(v)
  {
    match Read(r, r.definition.primaryKey)
    case Val(v) => v
    case Coll(_) => Undefined
  }

  /** Names the `set` trap sends to the details map: not a flag, not a declared key, not a child name. */
  predicate IsDetailName(d: Definition, name: string) {
    name != FlagSkip && name != FlagRaw && name !in Keys(d) && name !in ChildNames(d)
  }

  /** The `has` trap: a declared key, a child name or a present detail (the flags are not included). */
  predicate Has(r: EntityState, name: string) {
    IsKey(r, name) || IsChild(r, name) || name in r.details
  }

  /** The `ownKeys` trap, as a set: exactly the names `has` accepts. */
  function OwnKeys(r: EntityState): (names: set<string>)
    ensures forall name :: name in names <==> Has(r, name)
  {
    var names := ChildNames(r.definition);
    var childKeys := set i | 0 <= i < |names| && i < |r.children| :: names[i];
    assert forall name :: name in childKeys <==> IsChild(r, name) by {
      forall name ensures name in childKeys <==> IsChild(r, name) {
        if IsChild(r, name) {
          var i := ChildSlot(r, name);
          assert names[i] == name;
        }
        if name in childKeys {
          var i :| 0 <= i < |names| && i < |r.children| && names[i] == name;
          assert ChildSlot(r, name) <= i;
        }
      }
    }
    (set k | k in Keys(r.definition)) + childKeys + r.details.Keys
  }

  // ---------------------------------------------------------------------------
  // Frames of the tree-wide operations

  /** Entities sit on odd levels and collections on even ones, each above what it holds. */
  function EntityHeight(r: EntityState): nat {
    2 * Height(r.definition) + 1
  }

  function CollectionHeight(r: CollectionState): nat {
    2 * Height(r.definition) + 2
  }

  /** A child collection sits below its owner. */
  lemma ChildBelow(ents: map<nat, EntityState>, cols: map<nat, CollectionState>, next: nat, e: nat, i: nat)
    requires ValidMaps(ents, cols, next) && e in ents && i < |ents[e].children|
    ensures ents[e].children[i] in cols && cols[ents[e].children[i]].parent == Some(e)
    ensures CollectionHeight(cols[ents[e].children[i]]) < EntityHeight(ents[e])
  {
    assert EntityOk(ents, cols, e);
    ChildHeight(ents[e].definition, Children(ents[e].definition)[i]);
  }

  /** A member sits below its collection. */
  lemma MemberBelow(ents: map<nat, EntityState>, cols: map<nat, CollectionState>, next: nat, c: nat, m: nat)
    requires ValidMaps(ents, cols, next) && c in cols
    requires m in cols[c].storedEntities || m in cols[c].newEntities
    ensures m in ents && ents[m].parent == Some(c) && EntityHeight(ents[m]) < CollectionHeight(cols[c])
  {
    assert CollectionOk(ents, cols, c);
  }

  ghost predicate SameShape(a: EntityState, b: EntityState) {
    a.definition == b.definition && a.children == b.children && a.root == b.root
    && a.parent == b.parent && a.base == b.base
  }

  /**
   * Records are only ever added, with numbers from `next0` on, and every old
   * record keeps its definition, its children, its root, its parent and its
   * base.
   */
  ghost predicate Grows(ents0: map<nat, EntityState>, cols0: map<nat, CollectionState>, next0: nat,
                  ents: map<nat, EntityState>, cols: map<nat, CollectionState>, next: nat) {
    && next0 <= next
    && (forall e :: e in ents0 ==> e in ents && SameShape(ents0[e], ents[e]))
    && (forall c :: c in cols0 ==>
          (c in cols && cols[c].definition == cols0[c].definition
           && cols[c].root == cols0[c].root && cols[c].parent == cols0[c].parent))
    && (forall e :: e in ents && e !in ents0 ==> e >= next0)
    && (forall c :: c in cols && c !in cols0 ==> c >= next0)
  }

  /** No old record changed. */
  ghost predicate UnchangedFrom(ents0: map<nat, EntityState>, cols0: map<nat, CollectionState>,
                          ents: map<nat, EntityState>, cols: map<nat, CollectionState>) {
    && (forall e :: e in ents0 ==> e in ents && ents[e] == ents0[e])
    && (forall c :: c in cols0 ==> c in cols && cols[c] == cols0[c])
  }

  /** No old record at height `h` or above changed, `self` aside. */
  ghost predicate UnchangedAbove(ents0: map<nat, EntityState>, cols0: map<nat, CollectionState>,
                           ents: map<nat, EntityState>, cols: map<nat, CollectionState>,
                           h: nat, self: Handle) {
    && (forall e :: e in ents0 && EntityRef(e) != self && EntityHeight(ents0[e]) >= h ==> e in ents && ents[e] == ents0[e])
    && (forall c :: c in cols0 && CollectionRef(c) != self && CollectionHeight(cols0[c]) >= h ==> c in cols && cols[c] == cols0[c])
  }

  /** Updating the non-structural fields of one entity keeps the store valid. */
  lemma EntityUpdateValid(ents: map<nat, EntityState>, cols: map<nat, CollectionState>, next: nat,
                          e: nat, r: EntityState)
    requires ValidMaps(ents, cols, next) && e in ents
    requires SameShape(ents[e], r)
    requires forall k :: k in r.details ==> IsDetailName(r.definition, k)
    ensures ValidMaps(ents[e := r], cols, next)
  {
    var ents' := ents[e := r];
    forall x | x in ents' ensures x < next && EntityOk(ents', cols, x) {
      assert EntityOk(ents, cols, x);
    }
    CollectionsSeeShapes(ents, cols, next, ents');
  }

  /** Collections only look at which entities exist and at their definitions. */
  lemma CollectionsSeeShapes(ents: map<nat, EntityState>, cols: map<nat, CollectionState>, next: nat,
                             ents': map<nat, EntityState>)
    requires CollectionsOk(ents, cols, next)
    requires forall x :: x in ents ==> x in ents' && ents'[x].definition == ents[x].definition && ents'[x].parent == ents[x].parent
    ensures CollectionsOk(ents', cols, next)
  {
    forall x | x in cols ensures x < next && CollectionOk(ents', cols, x) {
      assert CollectionOk(ents, cols, x);
    }
  }

  /** Entities only look at which collections exist and at their definitions. */
  lemma EntitiesSeeShapes(ents: map<nat, EntityState>, cols: map<nat, CollectionState>, next: nat,
                          cols': map<nat, CollectionState>)
    requires EntitiesOk(ents, cols, next)
    requires forall x :: x in cols ==> x in cols' && cols'[x].definition == cols[x].definition && cols'[x].parent == cols[x].parent
    ensures EntitiesOk(ents, cols', next)
  {
    forall x | x in ents ensures x < next && EntityOk(ents, cols', x) {
      assert EntityOk(ents, cols, x);
    }
  }

  /** Updating the lists of one collection keeps the store valid when its members are proper. */
  lemma CollectionUpdateValid(ents: map<nat, EntityState>, cols: map<nat, CollectionState>, next: nat,
                              c: nat, r: CollectionState)
    requires ValidMaps(ents, cols, next) && c in cols
    requires r.definition == cols[c].definition && r.root == cols[c].root && r.parent == cols[c].parent
    requires forall m :: m in r.storedEntities ==> m in ents && ents[m].definition == r.definition && ents[m].parent == Some(c)
    requires forall m :: m in r.newEntities ==> m in ents && ents[m].definition == r.definition && ents[m].parent == Some(c)
    requires Distinct(r.storedEntities + r.newEntities)
    requires TombstonesInRange(r)
    ensures ValidMaps(ents, cols[c := r], next)
  {
    var cols' := cols[c := r];
    assert CollectionOk(ents, cols, c);
    EntitiesSeeShapes(ents, cols, next, cols');
    UpdatedCollectionOk(ents, cols, c, r);
    OtherCollectionsOk(ents, cols, next, c, cols');
  }

  lemma OtherCollectionsOk(ents: map<nat, EntityState>, cols: map<nat, CollectionState>, next: nat,
                           c: nat, cols': map<nat, CollectionState>)
    requires CollectionsOk(ents, cols, next)
    requires forall x :: x in cols' && x != c ==> x in cols && cols'[x] == cols[x]
    ensures forall x :: x in cols' && x != c ==> x < next && CollectionOk(ents, cols', x)
  {
    forall x | x in cols' && x != c ensures x < next && CollectionOk(ents, cols', x) {
      assert CollectionOk(ents, cols, x);
    }
  }

  lemma UpdatedCollectionOk(ents: map<nat, EntityState>, cols: map<nat, CollectionState>, c: nat, r: CollectionState)
    requires c in cols && WellFormed(r.definition) && r.parent == cols[c].parent
    requires r.parent.Some? ==> r.parent.value in ents && r.parent.value < c
    requires r.parent.Some? ==> r.definition in Children(ents[r.parent.value].definition)
    requires forall m :: m in r.storedEntities ==> m in ents && ents[m].definition == r.definition && ents[m].parent == Some(c)
    requires forall m :: m in r.newEntities ==> m in ents && ents[m].definition == r.definition && ents[m].parent == Some(c)
    requires Distinct(r.storedEntities + r.newEntities) && TombstonesInRange(r)
    ensures CollectionOk(ents, cols[c := r], c)
  {
  }
}
