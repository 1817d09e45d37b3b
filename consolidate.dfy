/**
 * `entityConsolidate(entity)` (composable/entity/consolidate.js): local
 * edits become the baseline. An entity moves every changed value into its
 * stored values and consolidates its child collections; a collection
 * splices its tombstoned members out, highest position first, clears the
 * tombstones, appends its new members to the stored ones and consolidates
 * every stored member.
 */
module Consolidate {
  import opened JsValues
  import opened Definitions
  import opened Records
  import opened Entities
  import opened Ownership
  import opened Passes

  /** A non-empty set of positions has a highest one. */
  lemma {:induction false} HasHighest(pending: set<nat>)
    requires pending != {}
    ensures exists k :: k in pending && forall j :: j in pending ==> j <= k
    decreases pending
  {
    var x :| x in pending;
    var rest := pending - {x};
    if rest != {} {
      HasHighest(rest);
      var k :| k in rest && forall j :: j in rest ==> j <= k;
      var top := if k < x then x else k;
      forall j | j in pending ensures j <= top {
        if j != x {
          assert j in rest;
        }
      }
      assert top in pending;
    } else {
      assert pending == {x};
    }
  }

  /**
   * Lines 24-28, with the tombstones taken in descending numeric order: each
   * splice removes a position above every one still to come, so it never
   * shifts a later target. The result is the public view's stored part.
   */
  method SpliceTombstones(stored: seq<nat>, deleted: set<nat>) returns (kept: seq<nat>)
    requires forall i :: i in deleted ==> i < |stored|
    ensures kept == Remaining(stored, deleted)
  {
    kept := stored;
    var pending := deleted;
    ghost var b: nat := |stored|;
    while pending != {}
      invariant b <= |stored|
      invariant forall i :: i in pending <==> i in deleted && i < b
      invariant kept == stored[..b] + Kept(stored, deleted, b)
      decreases pending
    {
      HasHighest(pending);
      var k :| k in pending && forall j :: j in pending ==> j <= k;
      KeptBlock(stored, deleted, k + 1, b);
      assert stored[..b] == stored[..k + 1] + stored[k + 1..b];
      assert kept == stored[..k + 1] + Kept(stored, deleted, k + 1);
      SpliceHighestFirst(stored, deleted, k);
      kept := kept[..k] + kept[k + 1..];
      pending := pending - {k};
      b := k;
    }
    KeptBlock(stored, deleted, 0, b);
    assert stored[..b] == stored[0..b];
  }

  /**
   * Lines 9-14: each changed key in turn has its value stored and its dirty
   * entry deleted.
   */
  method CommitKeys(r: EntityState) returns (w: EntityState)
    ensures w == Commit(r)
  {
    w := r;
    var keys := r.changedProperties.Keys;
    while keys != {}
      invariant keys <= r.changedProperties.Keys
      invariant w == r.(storedProperties := w.storedProperties, changedProperties := w.changedProperties)
      invariant forall k :: k in w.changedProperties <==> k in keys
      invariant forall k :: k in w.changedProperties ==> w.changedProperties[k] == r.changedProperties[k]
      invariant forall k :: k in w.storedProperties <==> k in r.storedProperties || (k in r.changedProperties && k !in keys)
      invariant forall k :: k in w.storedProperties ==>
                  w.storedProperties[k] == if k in r.changedProperties && k !in keys then r.changedProperties[k] else r.storedProperties[k]
      decreases keys
    {
      var k :| k in keys;
      w := w.(storedProperties := w.storedProperties[k := w.changedProperties[k]],
              changedProperties := w.changedProperties - {k});
      keys := keys - {k};
    }
    assert w.storedProperties == r.storedProperties + r.changedProperties;
    assert w.changedProperties == map[];
  }

  /**
   * Consolidating an entity: every record below it ends as
   * `Passes.Applied(Consolidation, ...)` says (each entity committed, each
   * collection promoted, down every child collection and every remaining
   * stored member), nothing outside it changes and no record is created.
   * On a tree already consolidated it changes nothing, so consolidating
   * twice is consolidating once.
   */
  method ConsolidateEntity(s: Store, e: nat)
    requires s.Valid() && e in s.entities
    modifies s
    decreases EntityHeight(s.entities[e]), 1
    ensures s.Valid()
    ensures SameRecords(old(s.entities), old(s.collections), old(s.next), s.entities, s.collections, s.next)
    ensures Confined(old(s.entities), old(s.collections), s.entities, s.collections, EntityRef(e))
    ensures Applied(Consolidation, old(s.entities), old(s.collections), s.entities, s.collections, EntityRef(e))
    ensures Applied(Consolidation, old(s.entities), old(s.collections), old(s.entities), old(s.collections), EntityRef(e)) ==>
              s.entities == old(s.entities) && s.collections == old(s.collections)
  {
    ghost var ents0, cols0, next0 := s.entities, s.collections, s.next;
    var rec := s.entities[e];
    var w := CommitKeys(rec);
    EntityWriteValid(ents0, cols0, next0, e, w);
    s.entities := s.entities[e := w];
    ghost var ents1 := s.entities;
    ghost var hs := ChildHandles(rec);
    ChildrenFamily(ents1, cols0, next0, e);
    VisitStart(Consolidation, ents1, cols0, next0, hs, EntityRef(e));
    var i := 0;
    while i < |rec.children|
      invariant i <= |rec.children|
      invariant s.Valid() && Visiting(Consolidation, ents1, cols0, next0, s.entities, s.collections, s.next, hs, i, EntityRef(e))
    {
      ghost var entsJ, colsJ, nextJ := s.entities, s.collections, s.next;
      ChildBelow(ents1, cols0, next0, e, i);
      assert hs[i] == CollectionRef(rec.children[i]);
      ConsolidateCollection(s, rec.children[i]);
      VisitStep(Consolidation, ents1, cols0, next0, entsJ, colsJ, nextJ, s.entities, s.collections, s.next, hs, i, EntityRef(e));
      i := i + 1;
    }
    EntityFinish(Consolidation, ents0, cols0, next0, w, s.entities, s.collections, s.next, e);
  }

  /**
   * Consolidating a collection: tombstoned members go, new members are
   * promoted behind the remaining stored ones (so the public view reads the
   * same), and every member is consolidated in turn; see `ConsolidateEntity`.
   */
  method ConsolidateCollection(s: Store, c: nat)
    requires s.Valid() && c in s.collections
    modifies s
    decreases CollectionHeight(s.collections[c]), 1
    ensures s.Valid()
    ensures SameRecords(old(s.entities), old(s.collections), old(s.next), s.entities, s.collections, s.next)
    ensures Confined(old(s.entities), old(s.collections), s.entities, s.collections, CollectionRef(c))
    ensures Applied(Consolidation, old(s.entities), old(s.collections), s.entities, s.collections, CollectionRef(c))
    ensures Applied(Consolidation, old(s.entities), old(s.collections), old(s.entities), old(s.collections), CollectionRef(c)) ==>
              s.entities == old(s.entities) && s.collections == old(s.collections)
  {
    ghost var ents0, cols0, next0 := s.entities, s.collections, s.next;
    var rec := s.collections[c];
    assert CollectionOk(ents0, cols0, c);
    var kept := SpliceTombstones(rec.storedEntities, rec.deletedIndices);
    var promoted := rec.(storedEntities := kept + rec.newEntities, newEntities := [], deletedIndices := {});
    assert promoted == CollectionPass(Consolidation, rec);
    CollectionPassValid(Consolidation, ents0, cols0, next0, c);
    s.collections := s.collections[c := promoted];
    ghost var cols1 := s.collections;
    var members := promoted.storedEntities;
    ghost var hs := MemberHandles(members);
    MembersFamily(ents0, cols1, next0, c);
    VisitStart(Consolidation, ents0, cols1, next0, hs, CollectionRef(c));
    var i := 0;
    while i < |members|
      invariant i <= |members|
      invariant s.Valid() && Visiting(Consolidation, ents0, cols1, next0, s.entities, s.collections, s.next, hs, i, CollectionRef(c))
    {
      ghost var entsJ, colsJ, nextJ := s.entities, s.collections, s.next;
      MemberBelow(ents0, cols1, next0, c, members[i]);
      assert hs[i] == EntityRef(members[i]);
      ConsolidateEntity(s, members[i]);
      VisitStep(Consolidation, ents0, cols1, next0, entsJ, colsJ, nextJ, s.entities, s.collections, s.next, hs, i, CollectionRef(c));
      i := i + 1;
    }
    CollectionFinish(Consolidation, ents0, cols0, next0, s.entities, s.collections, s.next, c);
  }

  /**
   * `entityConsolidate(value)`: an entity proxy or a collection proxy is
   * consolidated and the answer is true; anything else (`None` here) is left
   * alone and the answer is false.
   */
  method ConsolidateTarget(s: Store, target: Option<Handle>) returns (done: bool)
    requires s.Valid() && (target.Some? ==> Exists(s.entities, s.collections, target.value))
    modifies s
    ensures done <==> target.Some?
    ensures s.Valid()
    ensures target.None? ==> s.entities == old(s.entities) && s.collections == old(s.collections)
    ensures target.Some? ==> Applied(Consolidation, old(s.entities), old(s.collections), s.entities, s.collections, target.value)
    ensures target.Some? ==> SameRecords(old(s.entities), old(s.collections), old(s.next), s.entities, s.collections, s.next)
    ensures target.Some? ==> Confined(old(s.entities), old(s.collections), s.entities, s.collections, target.value)
  {
    match target
    case None =>
      done := false;
    case Some(EntityRef(e)) =>
      ConsolidateEntity(s, e);
      done := true;
    case Some(CollectionRef(c)) =>
      ConsolidateCollection(s, c);
      done := true;
  }
}
