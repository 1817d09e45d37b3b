/**
 * `entityClone(entity)` (composable/entity/clone.js): a new entity with the
 * same definition, whose base is the original and which is its own root,
 * takes the original's state through `entitySyncState`. Anything but an
 * entity proxy throws.
 */
module Clone {
  import opened JsValues
  import opened Definitions
  import opened Records
  import opened Entities
  import opened Ownership
  import opened SyncState

  /**
   * Child collection `k` of the clone `rc` is a new record holding, list by
   * list and position by position, new copies of the members of child `k`
   * of the original `ro`, and the original child's tombstones.
   */
  ghost predicate ChildCloned(ents0: map<nat, EntityState>, cols0: map<nat, CollectionState>,
                              ents: map<nat, EntityState>, cols: map<nat, CollectionState>,
                              rc: EntityState, ro: EntityState, k: nat) {
    && k < |rc.children| && k < |ro.children|
    && rc.children[k] !in cols0 && rc.children[k] in cols && ro.children[k] in cols0
    && var r, rs := cols[rc.children[k]], cols0[ro.children[k]];
       && r.definition == rs.definition
       && r.deletedIndices == rs.deletedIndices
       && ListCopied(ents0, ents, r.storedEntities, rs.storedEntities)
       && ListCopied(ents0, ents, r.newEntities, rs.newEntities)
  }

  /**
   * `entityClone(value)`: for an entity proxy, a new entity `n` whose base is
   * the original, which is its own root and sits in no collection, holding
   * the original's stored values, changed values and details, and whose
   * child collections hold new copies of the original's members; no record
   * that existed before changes. Anything else (`None` stands for a value
   * that is not a proxy) throws and changes nothing.
   */
  method CloneEntity(s: Store, x: Option<Handle>) returns (r: Result<nat>)
    requires s.Valid() && (x.Some? ==> Exists(s.entities, s.collections, x.value))
    modifies s
    ensures s.Valid()
    ensures UnchangedFrom(old(s.entities), old(s.collections), s.entities, s.collections)
    ensures r.Ok? <==> x.Some? && x.value.EntityRef?
    ensures r.Err? ==> r.error == InvalidPath && s.entities == old(s.entities) && s.collections == old(s.collections)
    ensures r.Ok? ==>
              var e, n := x.value.entity, r.value;
              && n !in old(s.entities) && n in s.entities
              && s.entities[n].definition == old(s.entities)[e].definition
              && s.entities[n].base == Some(e) && s.entities[n].root == EntityRef(n) && s.entities[n].parent == None
              && s.entities[n].storedProperties == old(s.entities)[e].storedProperties
              && s.entities[n].changedProperties == old(s.entities)[e].changedProperties
              && s.entities[n].details == old(s.entities)[e].details
              && forall k :: 0 <= k < |s.entities[n].children| ==>
                   ChildCloned(old(s.entities), old(s.collections), s.entities, s.collections, s.entities[n], old(s.entities)[e], k)
  {
    if !(x.Some? && x.value.EntityRef?) {
      return Err(InvalidPath);
    }
    var e := x.value.entity;
    ghost var ents0, cols0, next0 := s.entities, s.collections, s.next;
    assert EntityOk(ents0, cols0, e);
    var definition := s.entities[e].definition;
    var n := s.UseEntity(definition, None, None, Some(e));
    AllocationFresh(ents0, cols0, next0, s.entities[n], FreshCollections(Children(definition), n + 1, EntityRef(n), n));
    ghost var ents1, cols1, next1 := s.entities, s.collections, s.next;
    FreshChildren(ents0, cols0, next0, ents1, cols1, next1, n);
    SyncEntityState(s, n, e);
    MergedFresh(ents1[n].details, ents1[e].details);
    CloneChildren(ents0, cols0, next0, ents1, cols1, next1, s.entities, s.collections, e, n);
    r := Ok(n);
  }

  /** What the sync of the clone `n` from `e` leaves in the clone's child collections. */
  lemma CloneChildren(ents0: map<nat, EntityState>, cols0: map<nat, CollectionState>, next0: nat,
                      ents1: map<nat, EntityState>, cols1: map<nat, CollectionState>, next1: nat,
                      ents: map<nat, EntityState>, cols: map<nat, CollectionState>, e: nat, n: nat)
    requires ValidMaps(ents0, cols0, next0) && e in ents0 && n !in ents0 && n in ents1 && n in ents
    requires ValidMaps(ents1, cols1, next1) && ents1[n].definition == ents0[e].definition
    requires UnchangedFrom(ents0, cols0, ents1, cols1)
    requires forall c :: c in ents1[n].children ==> c !in cols0
    requires ents[n].children == ents1[n].children
    requires ChildrenCopied(ents1, cols1, ents, cols, ents1[n], ents1[e])
    ensures forall k :: 0 <= k < |ents[n].children| ==> ChildCloned(ents0, cols0, ents, cols, ents[n], ents0[e], k)
  {
    forall k | 0 <= k < |ents[n].children| ensures ChildCloned(ents0, cols0, ents, cols, ents[n], ents0[e], k) {
      assert ChildCopied(ents1, cols1, ents, cols, ents1[n], ents1[e], k);
      var tc, sc := ents1[n].children[k], ents0[e].children[k];
      assert EntityOk(ents0, cols0, e) && EntityOk(ents1, cols1, n);
      assert CollectionOk(ents0, cols0, sc);
      assert tc != sc;
      CopiedRebase(ents0, ents1, cols1[tc], cols1[sc], false, ents, cols[tc]);
    }
  }
}
