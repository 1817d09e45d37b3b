/**
 * `entityClear(entity)` (composable/entity/clear.js): an entity drops its
 * stored and changed values, clears each child collection, then drops its
 * details; a collection empties its stored and new members and its
 * tombstones. Nothing else is touched.
 */
module Clear {
  import opened JsValues
  import opened Definitions
  import opened Records
  import opened Entities
  import opened Ownership
  import opened Passes

  /** `for (const key in obj) delete obj[key]`: one key after the other, until none is left. */
  method DeleteEach(m: map<string, Value>) returns (r: map<string, Value>)
    ensures r == map[]
  {
    r := m;
    while r != map[]
      decreases |r.Keys|
    {
      var k :| k in r;
      r := r - {k};
    }
  }

  /**
   * Clearing a collection (lines 28-37): its stored and new members and its
   * tombstones are gone, so it lists nothing; the members themselves are
   * left as they are.
   */
  method ClearCollection(s: Store, c: nat)
    requires s.Valid() && c in s.collections
    modifies s
    ensures s.Valid()
    ensures SameRecords(old(s.entities), old(s.collections), old(s.next), s.entities, s.collections, s.next)
    ensures Confined(old(s.entities), old(s.collections), s.entities, s.collections, CollectionRef(c))
    ensures Applied(Clearing, old(s.entities), old(s.collections), s.entities, s.collections, CollectionRef(c))
    ensures Applied(Clearing, old(s.entities), old(s.collections), old(s.entities), old(s.collections), CollectionRef(c)) ==>
              s.entities == old(s.entities) && s.collections == old(s.collections)
    ensures View(s.collections[c]) == []
  {
    ghost var cols0 := s.collections;
    var rec := s.collections[c];
    var emptied := rec.(storedEntities := [], newEntities := [], deletedIndices := {});
    assert emptied == CollectionPass(Clearing, rec);
    CollectionPassValid(Clearing, s.entities, s.collections, s.next, c);
    s.collections := s.collections[c := emptied];
    if Applied(Clearing, old(s.entities), cols0, old(s.entities), cols0, CollectionRef(c)) {
      RewriteSame(cols0, c, emptied);
    }
  }

  /**
   * Clearing an entity (lines 8-26): every record below it ends as
   * `Passes.Applied(Clearing, ...)` says (each entity wiped, each child
   * collection emptied), nothing outside it changes and no record is
   * created. On a tree already cleared it changes nothing.
   */
  method ClearEntity(s: Store, e: nat)
    requires s.Valid() && e in s.entities
    modifies s
    ensures s.Valid()
    ensures SameRecords(old(s.entities), old(s.collections), old(s.next), s.entities, s.collections, s.next)
    ensures Confined(old(s.entities), old(s.collections), s.entities, s.collections, EntityRef(e))
    ensures Applied(Clearing, old(s.entities), old(s.collections), s.entities, s.collections, EntityRef(e))
    ensures Applied(Clearing, old(s.entities), old(s.collections), old(s.entities), old(s.collections), EntityRef(e)) ==>
              s.entities == old(s.entities) && s.collections == old(s.collections)
  {
    ghost var ents0, cols0, next0 := s.entities, s.collections, s.next;
    var rec := s.entities[e];
    var stored := DeleteEach(rec.storedProperties);
    var changed := DeleteEach(rec.changedProperties);
    var mid := rec.(storedProperties := stored, changedProperties := changed);
    EntityWriteValid(ents0, cols0, next0, e, mid);
    s.entities := s.entities[e := mid];
    ghost var ents1 := s.entities;
    ghost var hs := ChildHandles(rec);
    ChildrenFamily(ents1, cols0, next0, e);
    VisitStart(Clearing, ents1, cols0, next0, hs, EntityRef(e));
    var i := 0;
    while i < |rec.children|
      invariant i <= |rec.children|
      invariant s.Valid() && Visiting(Clearing, ents1, cols0, next0, s.entities, s.collections, s.next, hs, i, EntityRef(e))
    {
      ghost var entsJ, colsJ, nextJ := s.entities, s.collections, s.next;
      ChildBelow(ents1, cols0, next0, e, i);
      assert hs[i] == CollectionRef(rec.children[i]);
      ClearCollection(s, rec.children[i]);
      VisitStep(Clearing, ents1, cols0, next0, entsJ, colsJ, nextJ, s.entities, s.collections, s.next, hs, i, EntityRef(e));
      i := i + 1;
    }
    EntityFinish(Clearing, ents0, cols0, next0, mid, s.entities, s.collections, s.next, e);
    var details := DeleteEach(s.entities[e].details);
    s.entities := s.entities[e := s.entities[e].(details := details)];
  }

  /**
   * `entityClear(value)`: an entity proxy or a collection proxy is cleared
   * and the answer is true; anything else (`None` here) is left alone and
   * the answer is false.
   */
  method ClearTarget(s: Store, target: Option<Handle>) returns (done: bool)
    requires s.Valid() && (target.Some? ==> Exists(s.entities, s.collections, target.value))
    modifies s
    ensures done <==> target.Some?
    ensures s.Valid()
    ensures target.None? ==> s.entities == old(s.entities) && s.collections == old(s.collections)
    ensures target.Some? ==> Applied(Clearing, old(s.entities), old(s.collections), s.entities, s.collections, target.value)
    ensures target.Some? ==> SameRecords(old(s.entities), old(s.collections), old(s.next), s.entities, s.collections, s.next)
    ensures target.Some? ==> Confined(old(s.entities), old(s.collections), s.entities, s.collections, target.value)
  {
    match target
    case None =>
      done := false;
    case Some(EntityRef(e)) =>
      ClearEntity(s, e);
      done := true;
    case Some(CollectionRef(c)) =>
      ClearCollection(s, c);
      done := true;
  }
}
