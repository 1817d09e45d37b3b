/**
 * `entitySyncState(target, source)` (composable/entity/sync-state.js): the
 * state of one entity or collection is copied onto another one with the
 * same definition.
 *
 * An entity takes the source's stored and changed values exactly, takes the
 * source's details over its own, and syncs each child collection with the
 * source's child collection of the same name. A collection drops its members
 * and gets one freshly created member per source member, in the same list
 * and at the same position, synced from it, and the source's tombstones.
 *
 * The copies go into records created on the way, so apart from the target
 * record (and, for an entity, its child collections) no record of the store
 * changes. Syncing a collection with itself empties it: emptying the target's
 * lists empties the source's, which are the same arrays.
 */
module SyncState {
  import opened JsValues
  import opened Definitions
  import opened Records
  import opened Entities
  import opened Ownership

  // ---------------------------------------------------------------------------
  // The map copies of lines 14-34

  /**
   * Lines 14-21 (and 23-30 for the changed values): every target key the
   * source lacks is deleted, then every source entry is written, so the
   * target ends holding exactly the source's entries.
   */
  method CopyEntries(target: map<string, Value>, source: map<string, Value>) returns (r: map<string, Value>)
    ensures r == source
  {
    r := target;
    var stale := target.Keys;
    while stale != {}
      invariant stale <= target.Keys
      invariant forall k :: k in r ==> k in stale || k in source
      decreases |stale|
    {
      var k :| k in stale;
      if k !in source {
        r := r - {k};
      }
      stale := stale - {k};
    }
    var todo := source.Keys;
    while todo != {}
      invariant todo <= source.Keys
      invariant forall k :: k in r ==> k in source
      invariant forall k :: k in source && k !in todo ==> k in r && r[k] == source[k]
      decreases |todo|
    {
      var k :| k in todo;
      r := r[k := source[k]];
      todo := todo - {k};
    }
    assert r.Keys == source.Keys;
  }

  /**
   * Lines 32-34: every source entry is written over the target's, and the
   * keys only the target has stay.
   */
  method MergeEntries(target: map<string, Value>, source: map<string, Value>) returns (r: map<string, Value>)
    ensures forall k :: k in r <==> k in target || k in source
    ensures forall k :: k in source ==> r[k] == source[k]
    ensures forall k :: k in target && k !in source ==> r[k] == target[k]
    ensures r == target + source
  {
    r := target;
    var todo := source.Keys;
    while todo != {}
      invariant todo <= source.Keys
      invariant forall k :: k in r <==> k in target || (k in source && k !in todo)
      invariant forall k :: k in source && k !in todo ==> r[k] == source[k]
      invariant forall k :: k in target && k !in source ==> r[k] == target[k]
      decreases |todo|
    {
      var k :| k in todo;
      r := r[k := source[k]];
      todo := todo - {k};
    }
  }

  // ---------------------------------------------------------------------------
  // What a sync leaves

  /** The target entity record after the sync: the source's values, details merged, same place in the tree. */
  function CopiedRecord(r0: EntityState, src: EntityState): EntityState {
    r0.(storedProperties := src.storedProperties, changedProperties := src.changedProperties,
        details := r0.details + src.details)
  }

  /** The lists of a collection synced with itself. */
  function Emptied(r: CollectionState): CollectionState {
    r.(storedEntities := [], newEntities := [], deletedIndices := {})
  }

  /**
   * `n` is a member created by the sync (not a record of `ents0`) whose
   * stored values, changed values and details are those `m` had in `ents0`.
   */
  ghost predicate MemberCopied(ents0: map<nat, EntityState>, ents: map<nat, EntityState>, n: nat, m: nat) {
    && n !in ents0 && n in ents && m in ents0
    && ents[n].storedProperties == ents0[m].storedProperties
    && ents[n].changedProperties == ents0[m].changedProperties
    && ents[n].details == ents0[m].details
  }

  /** Position by position, the list `ns` holds copies of the members `ms`. */
  ghost predicate ListCopied(ents0: map<nat, EntityState>, ents: map<nat, EntityState>, ns: seq<nat>, ms: seq<nat>) {
    |ns| == |ms| && forall j :: 0 <= j < |ns| ==> MemberCopied(ents0, ents, ns[j], ms[j])
  }

  /**
   * The target collection record `r` after a sync from `src` (old records
   * `t0` and `src`): emptied when the target is the source; otherwise the
   * source's tombstones and, in each list, one new copy per source member.
   */
  ghost predicate CollectionCopied(ents0: map<nat, EntityState>, t0: CollectionState, src: CollectionState, same: bool,
                                   ents: map<nat, EntityState>, r: CollectionState) {
    if same then r == Emptied(t0)
    else
      && r == t0.(storedEntities := r.storedEntities, newEntities := r.newEntities, deletedIndices := src.deletedIndices)
      && ListCopied(ents0, ents, r.storedEntities, src.storedEntities)
      && ListCopied(ents0, ents, r.newEntities, src.newEntities)
  }

  /** The `k`-th child collection of the target entity `rt` was synced from the `k`-th one of `rs`. */
  ghost predicate ChildCopied(ents0: map<nat, EntityState>, cols0: map<nat, CollectionState>,
                              ents: map<nat, EntityState>, cols: map<nat, CollectionState>,
                              rt: EntityState, rs: EntityState, k: nat) {
    && k < |rt.children| && k < |rs.children|
    && rt.children[k] in cols0 && rs.children[k] in cols0 && rt.children[k] in cols
    && CollectionCopied(ents0, cols0[rt.children[k]], cols0[rs.children[k]], rt.children[k] == rs.children[k],
                        ents, cols[rt.children[k]])
  }

  ghost predicate ChildrenCopied(ents0: map<nat, EntityState>, cols0: map<nat, CollectionState>,
                                 ents: map<nat, EntityState>, cols: map<nat, CollectionState>,
                                 rt: EntityState, rs: EntityState) {
    forall k :: 0 <= k < |rt.children| ==> ChildCopied(ents0, cols0, ents, cols, rt, rs, k)
  }

  // ---------------------------------------------------------------------------
  // The operation

  /**
   * `entitySyncState(target, source)`: two entities or two collections with
   * the same definition are synced and the answer is true; any other pair
   * (`None` stands for a value that is not a proxy) is left alone and the
   * answer is false.
   */
  method SyncTarget(s: Store, target: Option<Handle>, source: Option<Handle>) returns (done: bool)
    requires s.Valid()
    requires target.Some? ==> Exists(s.entities, s.collections, target.value)
    requires source.Some? ==> Exists(s.entities, s.collections, source.value)
    modifies s
    ensures s.Valid()
    ensures done <==> SameKind(old(s.entities), old(s.collections), target, source)
    ensures !done ==> s.entities == old(s.entities) && s.collections == old(s.collections) && s.next == old(s.next)
    ensures done && target.value.EntityRef? ==>
              var t, src := target.value.entity, source.value.entity;
              t in s.entities && s.entities[t] == CopiedRecord(old(s.entities)[t], old(s.entities)[src])
              && ChildrenCopied(old(s.entities), old(s.collections), s.entities, s.collections, old(s.entities)[t], old(s.entities)[src])
    ensures done && target.value.EntityRef? ==>
              var t := target.value.entity;
              && (forall x :: x in old(s.entities) && x != t ==> x in s.entities && s.entities[x] == old(s.entities)[x])
              && (forall c :: c in old(s.collections) && c !in old(s.entities)[t].children ==>
                    c in s.collections && s.collections[c] == old(s.collections)[c])
    ensures done && target.value.CollectionRef? ==>
              var t, src := target.value.collection, source.value.collection;
              t in s.collections
              && CollectionCopied(old(s.entities), old(s.collections)[t], old(s.collections)[src], t == src, s.entities, s.collections[t])
  {
    if target.Some? && source.Some? && target.value.EntityRef? && source.value.EntityRef?
       && s.entities[target.value.entity].definition == s.entities[source.value.entity].definition {
      SyncEntityState(s, target.value.entity, source.value.entity);
      return true;
    }
    if target.Some? && source.Some? && target.value.CollectionRef? && source.value.CollectionRef?
       && s.collections[target.value.collection].definition == s.collections[source.value.collection].definition {
      SyncCollectionState(s, target.value.collection, source.value.collection);
      return true;
    }
    return false;
  }

  /** Both are entity proxies, or both collection proxies, with the identical definition (lines 9-13, 43-47). */
  predicate SameKind(ents: map<nat, EntityState>, cols: map<nat, CollectionState>, target: Option<Handle>, source: Option<Handle>)
    requires target.Some? ==> Exists(ents, cols, target.value)
    requires source.Some? ==> Exists(ents, cols, source.value)
  {
    && target.Some? && source.Some?
    && match (target.value, source.value)
       case (EntityRef(t), EntityRef(src)) => ents[t].definition == ents[src].definition
       case (CollectionRef(t), CollectionRef(src)) => cols[t].definition == cols[src].definition
       case _ => false
  }

  /**
   * The entity branch (lines 14-40): stored and changed values copied, details
   * merged, then each child collection synced with the source's one. Only
   * the target and its child collections change among the old records.
   */
  method SyncEntityState(s: Store, t: nat, src: nat)
    requires s.Valid() && t in s.entities && src in s.entities
    requires s.entities[t].definition == s.entities[src].definition
    modifies s
    decreases EntityHeight(s.entities[t]), 0
    ensures s.Valid()
    ensures forall x :: x in old(s.entities) && x != t ==> x in s.entities && s.entities[x] == old(s.entities)[x]
    ensures forall c :: c in old(s.collections) && c !in old(s.entities)[t].children ==>
              c in s.collections && s.collections[c] == old(s.collections)[c]
    ensures t in s.entities && s.entities[t] == CopiedRecord(old(s.entities)[t], old(s.entities)[src])
    ensures ChildrenCopied(old(s.entities), old(s.collections), s.entities, s.collections, old(s.entities)[t], old(s.entities)[src])
  {
    ghost var ents0, cols0, next0 := s.entities, s.collections, s.next;
    var rt, rs := s.entities[t], s.entities[src];
    var stored := CopyEntries(rt.storedProperties, rs.storedProperties);
    var changed := CopyEntries(rt.changedProperties, rs.changedProperties);
    var details := MergeEntries(rt.details, rs.details);
    var w := rt.(storedProperties := stored, changedProperties := changed, details := details);
    CopyWriteValid(ents0, cols0, next0, t, src, w);
    s.entities := s.entities[t := w];
    ChildLoopStart(ents0, cols0, t, src, w);
    var i := 0;
    while i < |rt.children|
      invariant s.Valid() && ChildLoop(ents0, cols0, t, src, w, i, s.entities, s.collections)
    {
      ghost var ents1, cols1 := s.entities, s.collections;
      ChildReady(ents0, cols0, next0, t, src, w, i, ents1, cols1);
      SyncCollectionState(s, rt.children[i], rs.children[i]);
      ChildSynced(ents0, cols0, next0, t, src, w, i, ents1, cols1, s.entities, s.collections);
      i := i + 1;
    }
    ChildLoopDone(ents0, cols0, t, src, w, s.entities, s.collections);
  }

  /**
   * Before step `i` of the child loop: the target holds its new record `w`,
   * the first `i` child collections are synced, and no other old record
   * changed.
   */
  ghost predicate ChildLoop(ents0: map<nat, EntityState>, cols0: map<nat, CollectionState>, t: nat, src: nat,
                            w: EntityState, i: nat, ents: map<nat, EntityState>, cols: map<nat, CollectionState>)
    requires t in ents0 && src in ents0
  {
    && i <= |ents0[t].children|
    && t in ents && ents[t] == w
    && (forall x :: x in ents0 && x != t ==> x in ents && ents[x] == ents0[x])
    && (forall c :: c in cols0 && c !in ents0[t].children[..i] ==> c in cols && cols[c] == cols0[c])
    && (forall k :: 0 <= k < i ==> ChildCopied(ents0, cols0, ents, cols, ents0[t], ents0[src], k))
  }

  lemma ChildLoopStart(ents0: map<nat, EntityState>, cols0: map<nat, CollectionState>, t: nat, src: nat, w: EntityState)
    requires t in ents0 && src in ents0
    ensures ChildLoop(ents0, cols0, t, src, w, 0, ents0[t := w], cols0)
  {
  }

  lemma ChildLoopDone(ents0: map<nat, EntityState>, cols0: map<nat, CollectionState>, t: nat, src: nat,
                      w: EntityState, ents: map<nat, EntityState>, cols: map<nat, CollectionState>)
    requires t in ents0 && src in ents0 && ChildLoop(ents0, cols0, t, src, w, |ents0[t].children|, ents, cols)
    ensures forall x :: x in ents0 && x != t ==> x in ents && ents[x] == ents0[x]
    ensures forall c :: c in cols0 && c !in ents0[t].children ==> c in cols && cols[c] == cols0[c]
    ensures t in ents && ents[t] == w
    ensures ChildrenCopied(ents0, cols0, ents, cols, ents0[t], ents0[src])
  {
    assert ents0[t].children[..|ents0[t].children|] == ents0[t].children;
  }

  /** The collections synced at step `i` are there, alike and lower than the target. */
  lemma ChildReady(ents0: map<nat, EntityState>, cols0: map<nat, CollectionState>, next0: nat, t: nat, src: nat,
                   w: EntityState, i: nat, ents1: map<nat, EntityState>, cols1: map<nat, CollectionState>)
    requires ValidMaps(ents0, cols0, next0) && t in ents0 && src in ents0
    requires ents0[t].definition == ents0[src].definition && i < |ents0[t].children|
    requires ChildLoop(ents0, cols0, t, src, w, i, ents1, cols1)
    ensures i < |ents0[src].children|
    ensures ents0[t].children[i] in cols1 && ents0[src].children[i] in cols1
    ensures cols1[ents0[t].children[i]].definition == cols1[ents0[src].children[i]].definition
    ensures CollectionHeight(cols1[ents0[t].children[i]]) < EntityHeight(ents0[t])
  {
    ChildPair(ents0, cols0, next0, t, src, i);
    ChildrenDistinct(ents0, cols0, next0, t);
    ChildPending(ents0[t].children, i);
    var sc := ents0[src].children[i];
    if t != src {
      assert sc !in ents0[t].children[..i];
    }
  }

  /** The merged record keeps the store valid: every detail name of the source is one of the target's definition. */
  lemma CopyWriteValid(ents: map<nat, EntityState>, cols: map<nat, CollectionState>, next: nat, t: nat, src: nat, w: EntityState)
    requires ValidMaps(ents, cols, next) && t in ents && src in ents
    requires ents[t].definition == ents[src].definition
    requires SameShape(ents[t], w) && w.details == ents[t].details + ents[src].details
    ensures ValidMaps(ents[t := w], cols, next)
  {
    assert EntityOk(ents, cols, t) && EntityOk(ents, cols, src);
    EntityUpdateValid(ents, cols, next, t, w);
  }

  /**
   * The `i`-th child collections of the target and the source have the same
   * definition, the target's one sits below the target, and when the two
   * entities differ, the source's child is none of the target's children and
   * its members are neither the target nor its children.
   */
  lemma ChildPair(ents: map<nat, EntityState>, cols: map<nat, CollectionState>, next: nat, t: nat, src: nat, i: nat)
    requires ValidMaps(ents, cols, next) && t in ents && src in ents
    requires ents[t].definition == ents[src].definition && i < |ents[t].children|
    ensures i < |ents[src].children|
    ensures ents[t].children[i] in cols && ents[src].children[i] in cols
    ensures cols[ents[t].children[i]].definition == cols[ents[src].children[i]].definition
    ensures CollectionHeight(cols[ents[t].children[i]]) < EntityHeight(ents[t])
    ensures t != src ==> ents[src].children[i] !in ents[t].children
    ensures forall m :: m in cols[ents[src].children[i]].storedEntities || m in cols[ents[src].children[i]].newEntities ==>
              m in ents && m != t
  {
    assert EntityOk(ents, cols, t) && EntityOk(ents, cols, src);
    ChildBelow(ents, cols, next, t, i);
    var sc := ents[src].children[i];
    assert CollectionOk(ents, cols, sc);
    ChildHeight(ents[t].definition, cols[sc].definition);
  }

  /** The collection synced at step `i` is not one of those already synced. */
  lemma ChildPending(children: seq<nat>, i: nat)
    requires i < |children| && forall a, b :: 0 <= a < b < |children| ==> children[a] != children[b]
    ensures children[i] !in children[..i]
    ensures children[..i + 1] == children[..i] + [children[i]]
  {
  }

  /** Step `i` of the child loop keeps the loop invariant. */
  lemma ChildSynced(ents0: map<nat, EntityState>, cols0: map<nat, CollectionState>, next0: nat, t: nat, src: nat,
                    w: EntityState, i: nat, ents1: map<nat, EntityState>, cols1: map<nat, CollectionState>,
                    ents2: map<nat, EntityState>, cols2: map<nat, CollectionState>)
    requires ValidMaps(ents0, cols0, next0) && t in ents0 && src in ents0
    requires ents0[t].definition == ents0[src].definition && i < |ents0[t].children| && i < |ents0[src].children|
    requires ChildLoop(ents0, cols0, t, src, w, i, ents1, cols1)
    requires forall x :: x in ents1 ==> x in ents2 && ents2[x] == ents1[x]
    requires var tc := ents0[t].children[i];
             forall c :: c in cols1 && c != tc ==> c in cols2 && cols2[c] == cols1[c]
    requires var tc, sc := ents0[t].children[i], ents0[src].children[i];
             tc in cols1 && sc in cols1 && tc in cols2
             && CollectionCopied(ents1, cols1[tc], cols1[sc], tc == sc, ents2, cols2[tc])
    ensures ChildLoop(ents0, cols0, t, src, w, i + 1, ents2, cols2)
  {
    var rt, rs := ents0[t], ents0[src];
    ChildPair(ents0, cols0, next0, t, src, i);
    ChildrenDistinct(ents0, cols0, next0, t);
    ChildPending(rt.children, i);
    var tc, sc := rt.children[i], rs.children[i];
    if t != src {
      assert sc !in rt.children[..i];
    }
    ChildFrameStep(ents0, cols0, rt.children, t, w, i, ents1, cols1, ents2, cols2);
    ChildCopiedStep(ents0, cols0, rt, rs, i, ents1, cols1, ents2, cols2);
  }

  /** The frame part of one step of the child loop. */
  lemma ChildFrameStep(ents0: map<nat, EntityState>, cols0: map<nat, CollectionState>, children: seq<nat>,
                       t: nat, w: EntityState, i: nat, ents1: map<nat, EntityState>, cols1: map<nat, CollectionState>,
                       ents2: map<nat, EntityState>, cols2: map<nat, CollectionState>)
    requires i < |children| && children[..i + 1] == children[..i] + [children[i]]
    requires t in ents1 && ents1[t] == w
    requires forall x :: x in ents0 && x != t ==> x in ents1 && ents1[x] == ents0[x]
    requires forall c :: c in cols0 && c !in children[..i] ==> c in cols1 && cols1[c] == cols0[c]
    requires forall x :: x in ents1 ==> x in ents2 && ents2[x] == ents1[x]
    requires forall c :: c in cols1 && c != children[i] ==> c in cols2 && cols2[c] == cols1[c]
    ensures t in ents2 && ents2[t] == w
    ensures forall x :: x in ents0 && x != t ==> x in ents2 && ents2[x] == ents0[x]
    ensures forall c :: c in cols0 && c !in children[..i + 1] ==> c in cols2 && cols2[c] == cols0[c]
  {
  }

  /** The synced part of one step of the child loop: the earlier children stay synced and child `i` is. */
  lemma ChildCopiedStep(ents0: map<nat, EntityState>, cols0: map<nat, CollectionState>, rt: EntityState, rs: EntityState,
                        i: nat, ents1: map<nat, EntityState>, cols1: map<nat, CollectionState>,
                        ents2: map<nat, EntityState>, cols2: map<nat, CollectionState>)
    requires i < |rt.children| && i < |rs.children|
    requires forall k :: 0 <= k < i ==> rt.children[k] != rt.children[i]
    requires forall k :: 0 <= k < i ==> ChildCopied(ents0, cols0, ents1, cols1, rt, rs, k)
    requires forall x :: x in ents1 ==> x in ents2 && ents2[x] == ents1[x]
    requires forall c :: c in cols1 && c != rt.children[i] ==> c in cols2 && cols2[c] == cols1[c]
    requires forall x :: x in ents0 ==> x in ents1
    requires var tc, sc := rt.children[i], rs.children[i];
             && tc in cols0 && sc in cols0 && tc in cols1 && sc in cols1 && tc in cols2
             && cols1[tc] == cols0[tc] && cols1[sc] == cols0[sc]
             && CollectionCopied(ents1, cols1[tc], cols1[sc], tc == sc, ents2, cols2[tc])
             && forall m :: m in cols0[sc].storedEntities || m in cols0[sc].newEntities ==> m in ents0 && ents1[m] == ents0[m]
    ensures forall k :: 0 <= k < i + 1 ==> ChildCopied(ents0, cols0, ents2, cols2, rt, rs, k)
  {
    var tc, sc := rt.children[i], rs.children[i];
    forall k | 0 <= k < i ensures ChildCopied(ents0, cols0, ents2, cols2, rt, rs, k) {
      assert ChildCopied(ents0, cols0, ents1, cols1, rt, rs, k);
      CopiedKept(ents0, cols0[rt.children[k]], cols0[rs.children[k]], rt.children[k] == rs.children[k],
                 ents1, cols1[rt.children[k]], ents2);
    }
    CopiedRebase(ents0, ents1, cols0[tc], cols0[sc], tc == sc, ents2, cols2[tc]);
  }

  /** The children of an entity are different collections. */
  lemma ChildrenDistinct(ents: map<nat, EntityState>, cols: map<nat, CollectionState>, next: nat, e: nat)
    requires ValidMaps(ents, cols, next) && e in ents
    ensures forall a, b :: 0 <= a < b < |ents[e].children| ==> ents[e].children[a] != ents[e].children[b]
  {
    var r := ents[e];
    assert EntityOk(ents, cols, e);
    forall a, b | 0 <= a < b < |r.children| ensures r.children[a] != r.children[b] {
      assert ChildNames(r.definition)[a] != ChildNames(r.definition)[b];
    }
  }

  /** A synced collection stays synced while none of the entities existing at that point changes. */
  lemma CopiedKept(ents0: map<nat, EntityState>, t0: CollectionState, src: CollectionState, same: bool,
                   ents1: map<nat, EntityState>, r: CollectionState, ents2: map<nat, EntityState>)
    requires CollectionCopied(ents0, t0, src, same, ents1, r)
    requires forall x :: x in ents1 ==> x in ents2 && ents2[x] == ents1[x]
    ensures CollectionCopied(ents0, t0, src, same, ents2, r)
  {
    if !same {
      forall j | 0 <= j < |r.storedEntities| ensures MemberCopied(ents0, ents2, r.storedEntities[j], src.storedEntities[j]) {
        assert MemberCopied(ents0, ents1, r.storedEntities[j], src.storedEntities[j]);
      }
      forall j | 0 <= j < |r.newEntities| ensures MemberCopied(ents0, ents2, r.newEntities[j], src.newEntities[j]) {
        assert MemberCopied(ents0, ents1, r.newEntities[j], src.newEntities[j]);
      }
    }
  }

  /**
   * A collection synced from source members that had not changed since
   * `ents0` is synced with respect to `ents0` too.
   */
  lemma CopiedRebase(ents0: map<nat, EntityState>, ents1: map<nat, EntityState>, t0: CollectionState, src: CollectionState,
                     same: bool, ents: map<nat, EntityState>, r: CollectionState)
    requires CollectionCopied(ents1, t0, src, same, ents, r)
    requires forall x :: x in ents0 ==> x in ents1
    requires forall m :: m in src.storedEntities || m in src.newEntities ==> m in ents0 && ents1[m] == ents0[m]
    ensures CollectionCopied(ents0, t0, src, same, ents, r)
  {
    if !same {
      forall j | 0 <= j < |r.storedEntities| ensures MemberCopied(ents0, ents, r.storedEntities[j], src.storedEntities[j]) {
        assert MemberCopied(ents1, ents, r.storedEntities[j], src.storedEntities[j]);
        assert src.storedEntities[j] in src.storedEntities;
      }
      forall j | 0 <= j < |r.newEntities| ensures MemberCopied(ents0, ents, r.newEntities[j], src.newEntities[j]) {
        assert MemberCopied(ents1, ents, r.newEntities[j], src.newEntities[j]);
        assert src.newEntities[j] in src.newEntities;
      }
    }
  }

  /**
   * The collection branch (lines 48-74). With the target being the source,
   * every list ends empty. Otherwise each stored and each new member of the
   * source gets a fresh copy, in its own list and position, and the target
   * takes the source's tombstones. No entity of the store changes.
   */
  method SyncCollectionState(s: Store, t: nat, src: nat)
    requires s.Valid() && t in s.collections && src in s.collections
    requires s.collections[t].definition == s.collections[src].definition
    modifies s
    decreases CollectionHeight(s.collections[t]), 2
    ensures s.Valid()
    ensures forall x :: x in old(s.entities) ==> x in s.entities && s.entities[x] == old(s.entities)[x]
    ensures forall c :: c in old(s.collections) && c != t ==> c in s.collections && s.collections[c] == old(s.collections)[c]
    ensures t in s.collections
    ensures CollectionCopied(old(s.entities), old(s.collections)[t], old(s.collections)[src], t == src, s.entities, s.collections[t])
  {
    ghost var ents0, cols0, next0 := s.entities, s.collections, s.next;
    var rt, rs := s.collections[t], s.collections[src];
    assert CollectionOk(ents0, cols0, t) && CollectionOk(ents0, cols0, src);
    if t == src {
      EmptyValid(ents0, cols0, next0, t);
      s.collections := s.collections[t := Emptied(rt)];
      return;
    }
    // Line 51, with the tombstones cleared already (line 69): nothing reads them until line 71.
    StoredDroppedValid(ents0, cols0, next0, t);
    s.collections := s.collections[t := rt.(storedEntities := [], deletedIndices := {})];
    ghost var cols1 := s.collections;
    CloneAll(s, t, rs.storedEntities, true);
    ghost var ents2, cols2, stored := s.entities, s.collections, s.collections[t].storedEntities;
    OthersKept(cols0, cols1, cols2, t);
    // Line 60.
    NewDroppedValid(s.entities, s.collections, s.next, t);
    s.collections := s.collections[t := s.collections[t].(newEntities := [])];
    ghost var cols3 := s.collections;
    OthersKept(cols0, cols2, cols3, t);
    CloneAll(s, t, rs.newEntities, false);
    ghost var cols4 := s.collections;
    OthersKept(cols0, cols3, cols4, t);
    ListKept(ents0, ents2, s.entities, stored, rs.storedEntities);
    // Lines 69-72.
    TombstonesCopiedValid(s.entities, s.collections, s.next, t, rs);
    s.collections := s.collections[t := s.collections[t].(deletedIndices := rs.deletedIndices)];
    OthersKept(cols0, cols4, s.collections, t);
  }

  /** Two steps that each leave every record but `t` alone leave every record but `t` alone. */
  lemma OthersKept<V>(m0: map<nat, V>, m1: map<nat, V>, m2: map<nat, V>, t: nat)
    requires forall c :: c in m0 && c != t ==> c in m1 && m1[c] == m0[c]
    requires forall c :: c in m1 && c != t ==> c in m2 && m2[c] == m1[c]
    ensures forall c :: c in m0 && c != t ==> c in m2 && m2[c] == m0[c]
  {
  }

  /**
   * The loop at lines 54-58 (`stored`) or 63-67: one fresh copy of each of
   * `ms`, in order, appended to the stored or the new list of `t`, which
   * starts empty. No entity existing before changes.
   */
  method CloneAll(s: Store, t: nat, ms: seq<nat>, stored: bool)
    requires s.Valid() && t in s.collections
    requires stored ==> s.collections[t].storedEntities == []
    requires !stored ==> s.collections[t].newEntities == []
    requires forall m :: m in ms ==> m in s.entities && s.entities[m].definition == s.collections[t].definition
    modifies s
    decreases CollectionHeight(s.collections[t]), 1
    ensures s.Valid()
    ensures forall x :: x in old(s.entities) ==> x in s.entities && s.entities[x] == old(s.entities)[x]
    ensures forall c :: c in old(s.collections) && c != t ==> c in s.collections && s.collections[c] == old(s.collections)[c]
    ensures t in s.collections
    ensures stored ==> s.collections[t] == old(s.collections)[t].(storedEntities := s.collections[t].storedEntities)
                       && ListCopied(old(s.entities), s.entities, s.collections[t].storedEntities, ms)
    ensures !stored ==> s.collections[t] == old(s.collections)[t].(newEntities := s.collections[t].newEntities)
                        && ListCopied(old(s.entities), s.entities, s.collections[t].newEntities, ms)
  {
    ghost var ents0, cols0 := s.entities, s.collections;
    var j := 0;
    while j < |ms|
      invariant j <= |ms|
      invariant s.Valid()
      invariant forall x :: x in ents0 ==> x in s.entities && s.entities[x] == ents0[x]
      invariant forall c :: c in cols0 && c != t ==> c in s.collections && s.collections[c] == cols0[c]
      invariant t in s.collections
      invariant stored ==> s.collections[t] == cols0[t].(storedEntities := s.collections[t].storedEntities)
                           && ListCopied(ents0, s.entities, s.collections[t].storedEntities, ms[..j])
      invariant !stored ==> s.collections[t] == cols0[t].(newEntities := s.collections[t].newEntities)
                            && ListCopied(ents0, s.entities, s.collections[t].newEntities, ms[..j])
      decreases |ms| - j
    {
      ghost var ents1 := s.entities;
      ghost var done := if stored then s.collections[t].storedEntities else s.collections[t].newEntities;
      assert ms[j] in ms;
      var n := CloneMember(s, t, ms[j], stored);
      ListStep(ents0, ents1, s.entities, done, ms, j, n);
      j := j + 1;
    }
    assert ms[..j] == ms;
  }

  /** A collection emptied of members and tombstones keeps the store valid. */
  lemma EmptyValid(ents: map<nat, EntityState>, cols: map<nat, CollectionState>, next: nat, c: nat)
    requires ValidMaps(ents, cols, next) && c in cols
    ensures ValidMaps(ents, cols[c := Emptied(cols[c])], next)
  {
    assert CollectionOk(ents, cols, c);
    CollectionUpdateValid(ents, cols, next, c, Emptied(cols[c]));
  }

  /** Dropping the stored members and the tombstones of a collection keeps the store valid. */
  lemma StoredDroppedValid(ents: map<nat, EntityState>, cols: map<nat, CollectionState>, next: nat, c: nat)
    requires ValidMaps(ents, cols, next) && c in cols
    ensures ValidMaps(ents, cols[c := cols[c].(storedEntities := [], deletedIndices := {})], next)
  {
    var r := cols[c];
    var w := r.(storedEntities := [], deletedIndices := {});
    assert CollectionOk(ents, cols, c);
    assert Distinct(w.storedEntities + w.newEntities) by {
      var xs := r.storedEntities + r.newEntities;
      forall a, b | 0 <= a < b < |r.newEntities| ensures r.newEntities[a] != r.newEntities[b] {
        assert xs[|r.storedEntities| + a] == r.newEntities[a] && xs[|r.storedEntities| + b] == r.newEntities[b];
      }
      assert w.storedEntities + w.newEntities == r.newEntities;
    }
    CollectionUpdateValid(ents, cols, next, c, w);
  }

  /** Dropping the new members of a collection without tombstones keeps the store valid. */
  lemma NewDroppedValid(ents: map<nat, EntityState>, cols: map<nat, CollectionState>, next: nat, c: nat)
    requires ValidMaps(ents, cols, next) && c in cols && cols[c].deletedIndices == {}
    ensures ValidMaps(ents, cols[c := cols[c].(newEntities := [])], next)
  {
    var r := cols[c];
    var w := r.(newEntities := []);
    assert CollectionOk(ents, cols, c);
    assert Distinct(w.storedEntities + w.newEntities) by {
      var xs := r.storedEntities + r.newEntities;
      forall a, b | 0 <= a < b < |r.storedEntities| ensures r.storedEntities[a] != r.storedEntities[b] {
        assert xs[a] == r.storedEntities[a] && xs[b] == r.storedEntities[b];
      }
      assert w.storedEntities + w.newEntities == r.storedEntities;
    }
    CollectionUpdateValid(ents, cols, next, c, w);
  }

  /** Taking over the tombstones of a source with as many stored members keeps the store valid. */
  lemma TombstonesCopiedValid(ents: map<nat, EntityState>, cols: map<nat, CollectionState>, next: nat, c: nat, src: CollectionState)
    requires ValidMaps(ents, cols, next) && c in cols
    requires TombstonesInRange(src) && |src.storedEntities| == |cols[c].storedEntities|
    ensures ValidMaps(ents, cols[c := cols[c].(deletedIndices := src.deletedIndices)], next)
  {
    assert CollectionOk(ents, cols, c);
    CollectionUpdateValid(ents, cols, next, c, cols[c].(deletedIndices := src.deletedIndices));
  }

  /** The copies made so far stay copies once one more copy is appended. */
  lemma ListStep(ents0: map<nat, EntityState>, ents1: map<nat, EntityState>, ents2: map<nat, EntityState>,
                 done: seq<nat>, ms: seq<nat>, j: nat, n: nat)
    requires j < |ms| && ListCopied(ents0, ents1, done, ms[..j])
    requires forall x :: x in ents0 ==> x in ents1
    requires forall x :: x in ents1 ==> x in ents2 && ents2[x] == ents1[x]
    requires ms[j] in ents0 && ents1[ms[j]] == ents0[ms[j]]
    requires MemberCopied(ents1, ents2, n, ms[j])
    ensures ListCopied(ents0, ents2, done + [n], ms[..j + 1])
  {
    var ns := done + [n];
    forall k | 0 <= k < |ns| ensures MemberCopied(ents0, ents2, ns[k], ms[..j + 1][k]) {
      if k < j {
        assert MemberCopied(ents0, ents1, done[k], ms[..j][k]);
      }
    }
  }

  /** Copies stay copies while no entity existing at that point changes. */
  lemma ListKept(ents0: map<nat, EntityState>, ents1: map<nat, EntityState>, ents2: map<nat, EntityState>,
                 ns: seq<nat>, ms: seq<nat>)
    requires ListCopied(ents0, ents1, ns, ms)
    requires forall x :: x in ents1 ==> x in ents2 && ents2[x] == ents1[x]
    ensures ListCopied(ents0, ents2, ns, ms)
  {
    forall k | 0 <= k < |ns| ensures MemberCopied(ents0, ents2, ns[k], ms[k]) {
      assert MemberCopied(ents0, ents1, ns[k], ms[k]);
    }
  }

  /**
   * One pass of the loops at lines 54-58 and 63-67: `target.create()`, sync
   * the new member from `m`, push it onto the stored list (`stored`) or the
   * new list. No entity existing before changes.
   */
  method CloneMember(s: Store, t: nat, m: nat, stored: bool) returns (n: nat)
    requires s.Valid() && t in s.collections && m in s.entities
    requires s.entities[m].definition == s.collections[t].definition
    modifies s
    decreases CollectionHeight(s.collections[t]), 0
    ensures s.Valid()
    ensures forall x :: x in old(s.entities) ==> x in s.entities && s.entities[x] == old(s.entities)[x]
    ensures forall c :: c in old(s.collections) && c != t ==> c in s.collections && s.collections[c] == old(s.collections)[c]
    ensures t in s.collections && MemberCopied(old(s.entities), s.entities, n, m)
    ensures stored ==> s.collections[t] == old(s.collections)[t].(storedEntities := old(s.collections)[t].storedEntities + [n])
    ensures !stored ==> s.collections[t] == old(s.collections)[t].(newEntities := old(s.collections)[t].newEntities + [n])
  {
    ghost var ents0, cols0, next0 := s.entities, s.collections, s.next;
    n := s.Create(t);
    ghost var ents1, cols1, next1 := s.entities, s.collections, s.next;
    FreshChildren(ents0, cols0, next0, ents1, cols1, next1, n);
    SyncEntityState(s, n, m);
    MergedFresh(ents1[n].details, ents0[m].details);
    MemberPushValid(ents0, cols0, next0, s.entities, s.collections, s.next, t, n, stored);
    var rec := s.collections[t];
    if stored {
      s.collections := s.collections[t := rec.(storedEntities := rec.storedEntities + [n])];
    } else {
      s.collections := s.collections[t := rec.(newEntities := rec.newEntities + [n])];
    }
  }

  /** The child collections of an entity created since `ents0` are not records of `cols0`. */
  lemma FreshChildren(ents0: map<nat, EntityState>, cols0: map<nat, CollectionState>, next0: nat,
                      ents1: map<nat, EntityState>, cols1: map<nat, CollectionState>, next1: nat, n: nat)
    requires ValidMaps(ents0, cols0, next0) && ValidMaps(ents1, cols1, next1)
    requires UnchangedFrom(ents0, cols0, ents1, cols1) && n !in ents0 && n in ents1
    ensures forall c :: c in ents1[n].children ==> c !in cols0
  {
    assert EntityOk(ents1, cols1, n);
    forall c | c in cols0 ensures c !in ents1[n].children {
      assert CollectionOk(ents0, cols0, c);
    }
  }

  /** A fresh member has no details, so after the merge it holds exactly the source's. */
  lemma MergedFresh(d0: map<string, Value>, d: map<string, Value>)
    requires d0 == map[]
    ensures d0 + d == d
  {
  }

  /** Pushing the new member `n` of `c` onto either list keeps the store valid. */
  lemma MemberPushValid(ents0: map<nat, EntityState>, cols0: map<nat, CollectionState>, next0: nat,
                        ents: map<nat, EntityState>, cols: map<nat, CollectionState>, next: nat, c: nat, n: nat, stored: bool)
    requires ValidMaps(ents0, cols0, next0) && ValidMaps(ents, cols, next) && c in cols0 && c in cols
    requires cols[c] == cols0[c] && n !in ents0 && n in ents
    requires ents[n].definition == cols[c].definition && ents[n].parent == Some(c)
    ensures var r := cols[c];
            var w := if stored then r.(storedEntities := r.storedEntities + [n]) else r.(newEntities := r.newEntities + [n]);
            ValidMaps(ents, cols[c := w], next)
  {
    var r := cols[c];
    var w := if stored then r.(storedEntities := r.storedEntities + [n]) else r.(newEntities := r.newEntities + [n]);
    assert CollectionOk(ents0, cols0, c);
    assert CollectionOk(ents, cols, c);
    var xs := r.storedEntities + r.newEntities;
    assert n !in xs;
    assert Distinct(w.storedEntities + w.newEntities) by {
      var ys := w.storedEntities + w.newEntities;
      if stored {
        forall a, b | 0 <= a < b < |ys| ensures ys[a] != ys[b] {
          var k := |r.storedEntities|;
          var a', b' := if a < k then a else a - 1, if b < k then b else b - 1;
          if a != k && b != k {
            assert ys[a] == xs[a'] && ys[b] == xs[b'];
          } else if a == k {
            assert ys[b] == xs[b'];
          } else {
            assert ys[a] == xs[a'];
          }
        }
      } else {
        assert ys == xs + [n];
      }
    }
    CollectionUpdateValid(ents, cols, next, c, w);
  }
}
