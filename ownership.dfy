/**
 * Which records an operation on one entity or collection may touch. Every
 * entity points at the collection holding it and every collection at the
 * entity owning it (`parent`, composable/entity/navigation.js); following
 * those links from a record climbs the tree. An operation started on `self`
 * leaves every record that does not lie below `self` as it was.
 */
module Ownership {
  import opened JsValues
  import opened Definitions
  import opened Records
  import opened Entities

  function Number(x: Handle): nat {
    match x
    case EntityRef(e) => e
    case CollectionRef(c) => c
  }

  /** The record `x` is in the store. */
  predicate Exists(ents: map<nat, EntityState>, cols: map<nat, CollectionState>, x: Handle) {
    match x
    case EntityRef(e) => e in ents
    case CollectionRef(c) => c in cols
  }

  /** One step up: an entity's collection, a collection's owning entity. */
  function ParentOf(ents: map<nat, EntityState>, cols: map<nat, CollectionState>, x: Handle): Option<Handle> {
    match x
    case EntityRef(e) =>
      if e in ents && ents[e].parent.Some? then Some(CollectionRef(ents[e].parent.value)) else None
    case CollectionRef(c) =>
      if c in cols && cols[c].parent.Some? then Some(EntityRef(cols[c].parent.value)) else None
  }

  /** `x` is `y` or lies below it along parent links (each link leads to a lower number). */
  ghost predicate Descends(ents: map<nat, EntityState>, cols: map<nat, CollectionState>, x: Handle, y: Handle)
    decreases Number(x)
  {
    x == y
    || (var p := ParentOf(ents, cols, x);
        p.Some? && Number(p.value) < Number(x) && Descends(ents, cols, p.value, y))
  }

  /** Record `x` of the old store is still there, unchanged. */
  ghost predicate Untouched(ents0: map<nat, EntityState>, cols0: map<nat, CollectionState>,
                            ents: map<nat, EntityState>, cols: map<nat, CollectionState>, x: Handle) {
    match x
    case EntityRef(e) => e in ents0 ==> e in ents && ents[e] == ents0[e]
    case CollectionRef(c) => c in cols0 ==> c in cols && cols[c] == cols0[c]
  }

  /**
   * The frame of an operation started on `self`: every record of the old
   * store that does not lie below `self` is still there, unchanged.
   */
  ghost predicate Confined(ents0: map<nat, EntityState>, cols0: map<nat, CollectionState>,
                           ents: map<nat, EntityState>, cols: map<nat, CollectionState>, self: Handle) {
    forall x {:trigger Untouched(ents0, cols0, ents, cols, x)} ::
      !Descends(ents0, cols0, x, self) ==> Untouched(ents0, cols0, ents, cols, x)
  }

  // ---------------------------------------------------------------------------
  // Facts about descent

  /** Going down the tree only ever reaches higher numbers. */
  lemma {:induction false} DescendsBelow(ents: map<nat, EntityState>, cols: map<nat, CollectionState>, x: Handle, y: Handle)
    requires Descends(ents, cols, x, y) && x != y
    ensures Number(y) < Number(x)
    decreases Number(x)
  {
    var p := ParentOf(ents, cols, x).value;
    if p != y {
      DescendsBelow(ents, cols, p, y);
    }
  }

  lemma {:induction false} DescendsTrans(ents: map<nat, EntityState>, cols: map<nat, CollectionState>, x: Handle, y: Handle, z: Handle)
    requires Descends(ents, cols, x, y) && Descends(ents, cols, y, z)
    ensures Descends(ents, cols, x, z)
    decreases Number(x)
  {
    if x != y {
      DescendsTrans(ents, cols, ParentOf(ents, cols, x).value, y, z);
    }
  }

  /** A record whose parent is `p` lies below `p`. */
  lemma ChildDescends(ents: map<nat, EntityState>, cols: map<nat, CollectionState>, next: nat, x: Handle, p: Handle)
    requires ValidMaps(ents, cols, next) && Exists(ents, cols, x) && ParentOf(ents, cols, x) == Some(p)
    ensures Descends(ents, cols, x, p)
  {
    match x
    case EntityRef(e) => assert EntityOk(ents, cols, e);
    case CollectionRef(c) => assert CollectionOk(ents, cols, c);
  }

  /** Two different records with the same parent: neither lies below the other. */
  lemma Siblings(ents: map<nat, EntityState>, cols: map<nat, CollectionState>, next: nat, x: Handle, y: Handle)
    requires ValidMaps(ents, cols, next) && Exists(ents, cols, y) && x != y
    requires ParentOf(ents, cols, x).Some? && ParentOf(ents, cols, x) == ParentOf(ents, cols, y)
    ensures !Descends(ents, cols, x, y)
  {
    var p := ParentOf(ents, cols, x).value;
    ChildDescends(ents, cols, next, y, p);
    if Descends(ents, cols, x, y) {
      DescendsBelow(ents, cols, y, p);
      if p != y {
        DescendsBelow(ents, cols, p, y);
      }
    }
  }

  /** Every parent is a record of the store. */
  ghost predicate LinksClosed(ents: map<nat, EntityState>, cols: map<nat, CollectionState>) {
    && (forall e :: e in ents && ents[e].parent.Some? ==> ents[e].parent.value in cols)
    && (forall c :: c in cols && cols[c].parent.Some? ==> cols[c].parent.value in ents)
  }

  /** Parent links of the old records are kept, and old parents are old records. */
  ghost predicate LinksKept(ents0: map<nat, EntityState>, cols0: map<nat, CollectionState>,
                            ents: map<nat, EntityState>, cols: map<nat, CollectionState>) {
    && (forall e :: e in ents0 ==> e in ents && ents[e].parent == ents0[e].parent)
    && (forall c :: c in cols0 ==> c in cols && cols[c].parent == cols0[c].parent)
    && LinksClosed(ents0, cols0)
  }

  /** Climbing from a record of the store only meets records of the store. */
  lemma {:induction false} DescendsExists(ents: map<nat, EntityState>, cols: map<nat, CollectionState>, x: Handle, y: Handle)
    requires LinksClosed(ents, cols) && Exists(ents, cols, x) && Descends(ents, cols, x, y)
    ensures Exists(ents, cols, y)
    decreases Number(x)
  {
    if x != y {
      DescendsExists(ents, cols, ParentOf(ents, cols, x).value, y);
    }
  }

  /** No old record lies below a record created since. */
  lemma FreshNotBelow(ents0: map<nat, EntityState>, cols0: map<nat, CollectionState>,
                      ents: map<nat, EntityState>, cols: map<nat, CollectionState>, x: Handle, y: Handle)
    requires LinksKept(ents0, cols0, ents, cols) && Exists(ents0, cols0, x) && !Exists(ents0, cols0, y)
    ensures !Descends(ents, cols, x, y)
  {
    DescendsStable(ents0, cols0, ents, cols, x, y);
    if Descends(ents0, cols0, x, y) {
      DescendsExists(ents0, cols0, x, y);
    }
  }

  lemma GrowsKeepsLinks(ents0: map<nat, EntityState>, cols0: map<nat, CollectionState>, next0: nat,
                        ents: map<nat, EntityState>, cols: map<nat, CollectionState>, next: nat)
    requires ValidMaps(ents0, cols0, next0) && Grows(ents0, cols0, next0, ents, cols, next)
    ensures LinksKept(ents0, cols0, ents, cols)
  {
    forall e | e in ents0 && ents0[e].parent.Some? ensures ents0[e].parent.value in cols0 {
      assert EntityOk(ents0, cols0, e);
    }
    forall c | c in cols0 && cols0[c].parent.Some? ensures cols0[c].parent.value in ents0 {
      assert CollectionOk(ents0, cols0, c);
    }
  }

  /** Adding records and keeping the old links does not change what an old record lies below. */
  lemma {:induction false} DescendsStable(ents0: map<nat, EntityState>, cols0: map<nat, CollectionState>,
                                          ents: map<nat, EntityState>, cols: map<nat, CollectionState>,
                                          x: Handle, y: Handle)
    requires LinksKept(ents0, cols0, ents, cols) && Exists(ents0, cols0, x)
    ensures Descends(ents, cols, x, y) == Descends(ents0, cols0, x, y)
    decreases Number(x)
  {
    var p := ParentOf(ents0, cols0, x);
    assert ParentOf(ents, cols, x) == p;
    if p.Some? && Number(p.value) < Number(x) {
      DescendsStable(ents0, cols0, ents, cols, p.value, y);
    }
  }

  // ---------------------------------------------------------------------------
  // Composing frames

  /**
   * An inner operation on a record below `outer`, run after part of an outer
   * operation, keeps the outer operation within its frame.
   */
  lemma ConfinedStep(ents0: map<nat, EntityState>, cols0: map<nat, CollectionState>, next0: nat,
                     ents1: map<nat, EntityState>, cols1: map<nat, CollectionState>, next1: nat,
                     ents2: map<nat, EntityState>, cols2: map<nat, CollectionState>,
                     outer: Handle, inner: Handle)
    requires ValidMaps(ents0, cols0, next0) && Grows(ents0, cols0, next0, ents1, cols1, next1)
    requires Confined(ents0, cols0, ents1, cols1, outer)
    requires Confined(ents1, cols1, ents2, cols2, inner)
    requires Descends(ents1, cols1, inner, outer)
    ensures Confined(ents0, cols0, ents2, cols2, outer)
  {
    GrowsKeepsLinks(ents0, cols0, next0, ents1, cols1, next1);
    forall x | !Descends(ents0, cols0, x, outer) ensures Untouched(ents0, cols0, ents2, cols2, x) {
      if Exists(ents0, cols0, x) {
        DescendsStable(ents0, cols0, ents1, cols1, x, outer);
        if Descends(ents1, cols1, x, inner) {
          DescendsTrans(ents1, cols1, x, inner, outer);
        }
        assert Untouched(ents0, cols0, ents1, cols1, x);
        assert Untouched(ents1, cols1, ents2, cols2, x);
      }
    }
  }

  lemma GrowsTrans(ents0: map<nat, EntityState>, cols0: map<nat, CollectionState>, next0: nat,
                   ents1: map<nat, EntityState>, cols1: map<nat, CollectionState>, next1: nat,
                   ents2: map<nat, EntityState>, cols2: map<nat, CollectionState>, next2: nat)
    requires Grows(ents0, cols0, next0, ents1, cols1, next1)
    requires Grows(ents1, cols1, next1, ents2, cols2, next2)
    ensures Grows(ents0, cols0, next0, ents2, cols2, next2)
  {
  }

  /** An operation below `x` leaves the parent of `x` alone. */
  lemma AncestorKept(ents1: map<nat, EntityState>, cols1: map<nat, CollectionState>, next1: nat,
                     ents2: map<nat, EntityState>, cols2: map<nat, CollectionState>, x: Handle, p: Handle)
    requires ValidMaps(ents1, cols1, next1) && Exists(ents1, cols1, x) && ParentOf(ents1, cols1, x) == Some(p)
    requires Confined(ents1, cols1, ents2, cols2, x)
    ensures Untouched(ents1, cols1, ents2, cols2, p)
  {
    ChildDescends(ents1, cols1, next1, x, p);
    DescendsBelow(ents1, cols1, x, p);
    if Descends(ents1, cols1, p, x) {
      DescendsBelow(ents1, cols1, p, x);
    }
    assert !Descends(ents1, cols1, p, x) ==> Untouched(ents1, cols1, ents2, cols2, p);
  }

  /** An operation on one record leaves a different record with the same parent alone. */
  lemma SiblingKept(ents1: map<nat, EntityState>, cols1: map<nat, CollectionState>, next1: nat,
                    ents2: map<nat, EntityState>, cols2: map<nat, CollectionState>, x: Handle, y: Handle)
    requires ValidMaps(ents1, cols1, next1) && Exists(ents1, cols1, y) && x != y
    requires ParentOf(ents1, cols1, x).Some? && ParentOf(ents1, cols1, x) == ParentOf(ents1, cols1, y)
    requires Confined(ents1, cols1, ents2, cols2, y)
    ensures Untouched(ents1, cols1, ents2, cols2, x)
  {
    Siblings(ents1, cols1, next1, x, y);
    assert !Descends(ents1, cols1, x, y) ==> Untouched(ents1, cols1, ents2, cols2, x);
  }

  /** An operation that changed no old record but `self` stayed in its frame. */
  lemma ConfinedByFrame(ents0: map<nat, EntityState>, cols0: map<nat, CollectionState>,
                        ents: map<nat, EntityState>, cols: map<nat, CollectionState>, self: Handle)
    requires forall e :: e in ents0 && EntityRef(e) != self ==> e in ents && ents[e] == ents0[e]
    requires forall c :: c in cols0 && CollectionRef(c) != self ==> c in cols && cols[c] == cols0[c]
    ensures Confined(ents0, cols0, ents, cols, self)
  {
    forall x | !Descends(ents0, cols0, x, self) ensures Untouched(ents0, cols0, ents, cols, x) {
    }
  }

  /** An operation on a record created since the old store leaves every old record alone. */
  lemma FreshFrame(ents0: map<nat, EntityState>, cols0: map<nat, CollectionState>, next0: nat,
                   ents1: map<nat, EntityState>, cols1: map<nat, CollectionState>, next1: nat,
                   ents2: map<nat, EntityState>, cols2: map<nat, CollectionState>, self: Handle)
    requires ValidMaps(ents0, cols0, next0) && Grows(ents0, cols0, next0, ents1, cols1, next1)
    requires UnchangedFrom(ents0, cols0, ents1, cols1) && !Exists(ents0, cols0, self)
    requires Confined(ents1, cols1, ents2, cols2, self)
    ensures UnchangedFrom(ents0, cols0, ents2, cols2)
  {
    GrowsKeepsLinks(ents0, cols0, next0, ents1, cols1, next1);
    forall e | e in ents0 ensures e in ents2 && ents2[e] == ents0[e] {
      FreshNotBelow(ents0, cols0, ents1, cols1, EntityRef(e), self);
      assert Untouched(ents1, cols1, ents2, cols2, EntityRef(e));
    }
    forall c | c in cols0 ensures c in cols2 && cols2[c] == cols0[c] {
      FreshNotBelow(ents0, cols0, ents1, cols1, CollectionRef(c), self);
      assert Untouched(ents1, cols1, ents2, cols2, CollectionRef(c));
    }
  }

  /** The frame of a record is inside the frame of every record above it. */
  lemma ConfinedWiden(ents0: map<nat, EntityState>, cols0: map<nat, CollectionState>,
                      ents: map<nat, EntityState>, cols: map<nat, CollectionState>, inner: Handle, outer: Handle)
    requires Confined(ents0, cols0, ents, cols, inner) && Descends(ents0, cols0, inner, outer)
    ensures Confined(ents0, cols0, ents, cols, outer)
  {
    forall x | !Descends(ents0, cols0, x, outer) ensures Untouched(ents0, cols0, ents, cols, x) {
      if Descends(ents0, cols0, x, inner) {
        DescendsTrans(ents0, cols0, x, inner, outer);
      }
    }
  }
}
