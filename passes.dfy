/**
 * Tree-wide passes that rewrite every record below a starting entity or
 * collection without creating any: consolidation
 * (composable/entity/consolidate.js) and clearing
 * (composable/entity/clear.js). `Applied` states what a pass leaves below
 * its starting point, all the way down; the lemmas carry that statement
 * across the frames of the recursive calls a pass makes, one sibling after
 * the other.
 */
module Passes {
  import opened JsValues
  import opened Definitions
  import opened Records
  import opened Entities
  import opened Ownership

  datatype Pass = Consolidation | Clearing

  /** What a pass does to one entity record: commit its changes, or wipe its values. */
  function EntityPass(p: Pass, r: EntityState): (w: EntityState)
    ensures SameShape(r, w)
    ensures forall k :: k in w.details ==> k in r.details
  {
    match p
    case Consolidation => Commit(r)
    case Clearing => Wipe(r)
  }

  /** What a pass does to one collection record: promote its view, or empty both lists. */
  function CollectionPass(p: Pass, c: CollectionState): (w: CollectionState)
    ensures w.definition == c.definition && w.root == c.root && w.parent == c.parent
    ensures forall m :: m in w.storedEntities ==> m in c.storedEntities || m in c.newEntities
    ensures w.newEntities == [] && w.deletedIndices == {}
  {
    match p
    case Consolidation => Promote(c)
    case Clearing => c.(storedEntities := [], newEntities := [], deletedIndices := {})
  }

  /** Running a pass over a record it has already run over changes nothing. */
  lemma PassIdempotent(p: Pass, r: EntityState, c: CollectionState)
    ensures EntityPass(p, EntityPass(p, r)) == EntityPass(p, r)
    ensures CollectionPass(p, CollectionPass(p, c)) == CollectionPass(p, c)
  {
    if p == Consolidation {
      CommitIdempotent(r);
      PromoteIdempotent(c);
    }
  }

  /** The height of a record in the store (0 for a number that is no record). */
  function Level(ents: map<nat, EntityState>, cols: map<nat, CollectionState>, x: Handle): nat {
    match x
    case EntityRef(e) => if e in ents then EntityHeight(ents[e]) else 0
    case CollectionRef(c) => if c in cols then CollectionHeight(cols[c]) else 0
  }

  /**
   * Pass `p` turned the store `ents0`/`cols0` into `ents`/`cols` at `x` and
   * everywhere below it: the record of `x` is the pass applied to its old
   * record, and so it is for every child collection of an entity and for
   * every stored member a collection ends with.
   */
  ghost predicate Applied(p: Pass, ents0: map<nat, EntityState>, cols0: map<nat, CollectionState>,
                          ents: map<nat, EntityState>, cols: map<nat, CollectionState>, x: Handle)
    decreases Level(ents, cols, x)
  {
    match x
    case EntityRef(e) =>
      && e in ents0 && e in ents && ents[e] == EntityPass(p, ents0[e])
      && forall i :: 0 <= i < |ents[e].children| ==>
           && ents[e].children[i] in cols
           && CollectionHeight(cols[ents[e].children[i]]) < EntityHeight(ents[e])
           && Applied(p, ents0, cols0, ents, cols, CollectionRef(ents[e].children[i]))
    case CollectionRef(c) =>
      && c in cols0 && c in cols && cols[c] == CollectionPass(p, cols0[c])
      && forall m :: m in cols[c].storedEntities ==>
           && m in ents
           && EntityHeight(ents[m]) < CollectionHeight(cols[c])
           && Applied(p, ents0, cols0, ents, cols, EntityRef(m))
  }

  /** After a pass, running it again below `x` would change nothing. */
  lemma {:induction false} AppliedIdempotent(p: Pass, ents0: map<nat, EntityState>, cols0: map<nat, CollectionState>,
                                             ents: map<nat, EntityState>, cols: map<nat, CollectionState>, x: Handle)
    requires Applied(p, ents0, cols0, ents, cols, x)
    ensures Applied(p, ents, cols, ents, cols, x)
    decreases Level(ents, cols, x)
  {
    match x
    case EntityRef(e) =>
      PassIdempotent(p, ents0[e], CollectionState(ents0[e].definition, [], [], {}, ents0[e].root, None));
      forall i | 0 <= i < |ents[e].children|
        ensures Applied(p, ents, cols, ents, cols, CollectionRef(ents[e].children[i]))
      {
        AppliedIdempotent(p, ents0, cols0, ents, cols, CollectionRef(ents[e].children[i]));
      }
    case CollectionRef(c) =>
      PassIdempotent(p, EntityState(cols0[c].definition, map[], map[], map[], [], cols0[c].root, None, None), cols0[c]);
      forall m | m in cols[c].storedEntities
        ensures Applied(p, ents, cols, ents, cols, EntityRef(m))
      {
        AppliedIdempotent(p, ents0, cols0, ents, cols, EntityRef(m));
      }
  }

  // ---------------------------------------------------------------------------
  // Frames

  /** No record is created or dropped, and every record keeps its place in the tree. */
  ghost predicate SameRecords(ents0: map<nat, EntityState>, cols0: map<nat, CollectionState>, next0: nat,
                              ents: map<nat, EntityState>, cols: map<nat, CollectionState>, next: nat) {
    Grows(ents0, cols0, next0, ents, cols, next) && ents.Keys == ents0.Keys && cols.Keys == cols0.Keys && next == next0
  }

  lemma SameRecordsTrans(ents0: map<nat, EntityState>, cols0: map<nat, CollectionState>, next0: nat,
                         ents1: map<nat, EntityState>, cols1: map<nat, CollectionState>, next1: nat,
                         ents2: map<nat, EntityState>, cols2: map<nat, CollectionState>, next2: nat)
    requires SameRecords(ents0, cols0, next0, ents1, cols1, next1)
    requires SameRecords(ents1, cols1, next1, ents2, cols2, next2)
    ensures SameRecords(ents0, cols0, next0, ents2, cols2, next2)
  {
    GrowsTrans(ents0, cols0, next0, ents1, cols1, next1, ents2, cols2, next2);
  }

  /** With the same records and links, what lies below what is unchanged. */
  lemma SameDescends(ents0: map<nat, EntityState>, cols0: map<nat, CollectionState>, next0: nat,
                     ents: map<nat, EntityState>, cols: map<nat, CollectionState>, next: nat)
    requires ValidMaps(ents0, cols0, next0) && SameRecords(ents0, cols0, next0, ents, cols, next)
    ensures forall a, b :: Descends(ents, cols, a, b) == Descends(ents0, cols0, a, b)
  {
    GrowsKeepsLinks(ents0, cols0, next0, ents, cols, next);
    forall a, b ensures Descends(ents, cols, a, b) == Descends(ents0, cols0, a, b) {
      if Exists(ents0, cols0, a) {
        DescendsStable(ents0, cols0, ents, cols, a, b);
      } else {
        assert ParentOf(ents, cols, a) == None && ParentOf(ents0, cols0, a) == None;
      }
    }
  }

  /** Two records a third one lies below lie one below the other. */
  lemma {:induction false} DescendsChain(ents: map<nat, EntityState>, cols: map<nat, CollectionState>, z: Handle, a: Handle, b: Handle)
    requires Descends(ents, cols, z, a) && Descends(ents, cols, z, b)
    ensures Descends(ents, cols, a, b) || Descends(ents, cols, b, a)
    decreases Number(z)
  {
    if z != a && z != b {
      DescendsChain(ents, cols, ParentOf(ents, cols, z).value, a, b);
    }
  }

  /** An operation confined below `y` leaves alone everything below a record unrelated to `y`. */
  lemma DisjointUntouched(ents: map<nat, EntityState>, cols: map<nat, CollectionState>,
                          ents': map<nat, EntityState>, cols': map<nat, CollectionState>, x: Handle, y: Handle)
    requires Confined(ents, cols, ents', cols', y)
    requires !Descends(ents, cols, x, y) && !Descends(ents, cols, y, x)
    ensures forall w :: Descends(ents, cols, w, x) ==> Untouched(ents, cols, ents', cols', w)
  {
    forall w | Descends(ents, cols, w, x) ensures Untouched(ents, cols, ents', cols', w) {
      if Descends(ents, cols, w, y) {
        DescendsChain(ents, cols, w, x, y);
        if Descends(ents, cols, y, x) {
        } else {
          DescendsTrans(ents, cols, w, x, y);
        }
      }
    }
  }

  /** Changes away from everything below `x` keep a pass applied below `x`. */
  lemma {:induction false} AppliedLater(p: Pass, ents0: map<nat, EntityState>, cols0: map<nat, CollectionState>,
                                        ents1: map<nat, EntityState>, cols1: map<nat, CollectionState>, next1: nat,
                                        ents2: map<nat, EntityState>, cols2: map<nat, CollectionState>, x: Handle)
    requires ValidMaps(ents1, cols1, next1)
    requires Applied(p, ents0, cols0, ents1, cols1, x)
    requires forall w :: Descends(ents1, cols1, w, x) ==> Untouched(ents1, cols1, ents2, cols2, w)
    ensures Applied(p, ents0, cols0, ents2, cols2, x)
    decreases Level(ents1, cols1, x)
  {
    assert Untouched(ents1, cols1, ents2, cols2, x);
    match x
    case EntityRef(e) =>
      assert EntityOk(ents1, cols1, e);
      forall i | 0 <= i < |ents2[e].children|
        ensures ents2[e].children[i] in cols2
        ensures CollectionHeight(cols2[ents2[e].children[i]]) < EntityHeight(ents2[e])
        ensures Applied(p, ents0, cols0, ents2, cols2, CollectionRef(ents2[e].children[i]))
      {
        var z := CollectionRef(ents1[e].children[i]);
        ChildDescends(ents1, cols1, next1, z, x);
        forall w | Descends(ents1, cols1, w, z) ensures Untouched(ents1, cols1, ents2, cols2, w) {
          DescendsTrans(ents1, cols1, w, z, x);
        }
        assert Untouched(ents1, cols1, ents2, cols2, z);
        AppliedLater(p, ents0, cols0, ents1, cols1, next1, ents2, cols2, z);
      }
    case CollectionRef(c) =>
      assert CollectionOk(ents1, cols1, c);
      forall m | m in cols2[c].storedEntities
        ensures m in ents2
        ensures EntityHeight(ents2[m]) < CollectionHeight(cols2[c])
        ensures Applied(p, ents0, cols0, ents2, cols2, EntityRef(m))
      {
        var z := EntityRef(m);
        ChildDescends(ents1, cols1, next1, z, x);
        forall w | Descends(ents1, cols1, w, z) ensures Untouched(ents1, cols1, ents2, cols2, w) {
          DescendsTrans(ents1, cols1, w, z, x);
        }
        assert Untouched(ents1, cols1, ents2, cols2, z);
        AppliedLater(p, ents0, cols0, ents1, cols1, next1, ents2, cols2, z);
      }
  }

  /** A pass applied from a store that agrees with an earlier one below `x` is applied from the earlier one. */
  lemma {:induction false} AppliedEarlier(p: Pass, ents0: map<nat, EntityState>, cols0: map<nat, CollectionState>,
                                          ents1: map<nat, EntityState>, cols1: map<nat, CollectionState>, next1: nat,
                                          ents: map<nat, EntityState>, cols: map<nat, CollectionState>, x: Handle)
    requires ValidMaps(ents1, cols1, next1) && ents0.Keys == ents1.Keys && cols0.Keys == cols1.Keys
    requires Applied(p, ents1, cols1, ents, cols, x)
    requires forall w :: Descends(ents1, cols1, w, x) ==> Untouched(ents0, cols0, ents1, cols1, w)
    ensures Applied(p, ents0, cols0, ents, cols, x)
    decreases Level(ents, cols, x)
  {
    assert Untouched(ents0, cols0, ents1, cols1, x);
    match x
    case EntityRef(e) =>
      assert EntityOk(ents1, cols1, e);
      forall i | 0 <= i < |ents[e].children|
        ensures Applied(p, ents0, cols0, ents, cols, CollectionRef(ents[e].children[i]))
      {
        var z := CollectionRef(ents1[e].children[i]);
        ChildDescends(ents1, cols1, next1, z, x);
        forall w | Descends(ents1, cols1, w, z) ensures Untouched(ents0, cols0, ents1, cols1, w) {
          DescendsTrans(ents1, cols1, w, z, x);
        }
        AppliedEarlier(p, ents0, cols0, ents1, cols1, next1, ents, cols, z);
      }
    case CollectionRef(c) =>
      assert CollectionOk(ents1, cols1, c);
      forall m | m in cols[c].storedEntities
        ensures Applied(p, ents0, cols0, ents, cols, EntityRef(m))
      {
        var z := EntityRef(m);
        ChildDescends(ents1, cols1, next1, z, x);
        forall w | Descends(ents1, cols1, w, z) ensures Untouched(ents0, cols0, ents1, cols1, w) {
          DescendsTrans(ents1, cols1, w, z, x);
        }
        AppliedEarlier(p, ents0, cols0, ents1, cols1, next1, ents, cols, z);
      }
  }

  /**
   * A step that changed no record but `self` left alone everything below a
   * record numbered above `self` (nothing below `x` is numbered below `x`),
   * whichever store the descent is read in.
   */
  lemma OnlySelfChanged(ents0: map<nat, EntityState>, cols0: map<nat, CollectionState>,
                        ents1: map<nat, EntityState>, cols1: map<nat, CollectionState>,
                        entsD: map<nat, EntityState>, colsD: map<nat, CollectionState>, self: Handle, x: Handle)
    requires forall e :: e in ents0 && EntityRef(e) != self ==> e in ents1 && ents1[e] == ents0[e]
    requires forall c :: c in cols0 && CollectionRef(c) != self ==> c in cols1 && cols1[c] == cols0[c]
    requires Number(self) < Number(x)
    ensures forall w :: Descends(entsD, colsD, w, x) ==> Untouched(ents0, cols0, ents1, cols1, w)
  {
    forall w | Descends(entsD, colsD, w, x) ensures Untouched(ents0, cols0, ents1, cols1, w) {
      if w != x {
        DescendsBelow(entsD, colsD, w, x);
      }
      assert w != self;
    }
  }

  // ---------------------------------------------------------------------------
  // Visiting siblings one after the other

  /** The child collections of an entity record, as handles. */
  function ChildHandles(r: EntityState): (hs: seq<Handle>)
    ensures |hs| == |r.children| && forall i :: 0 <= i < |hs| ==> hs[i] == CollectionRef(r.children[i])
  {
    seq(|r.children|, i requires 0 <= i < |r.children| => CollectionRef(r.children[i]))
  }

  /** Members of a collection, as handles. */
  function MemberHandles(ms: seq<nat>): (hs: seq<Handle>)
    ensures |hs| == |ms| && forall i :: 0 <= i < |hs| ==> hs[i] == EntityRef(ms[i])
  {
    seq(|ms|, i requires 0 <= i < |ms| => EntityRef(ms[i]))
  }

  /** `hs` are different records of the store, each with parent `parent`. */
  ghost predicate Family(ents: map<nat, EntityState>, cols: map<nat, CollectionState>, next: nat,
                         hs: seq<Handle>, parent: Handle) {
    && ValidMaps(ents, cols, next) && Exists(ents, cols, parent)
    && (forall k :: 0 <= k < |hs| ==> Exists(ents, cols, hs[k]) && ParentOf(ents, cols, hs[k]) == Some(parent))
    && (forall a, b :: 0 <= a < b < |hs| ==> hs[a] != hs[b])
  }

  /** The pass is applied below each of the first `j` siblings. */
  ghost predicate DoneBelow(p: Pass, ents1: map<nat, EntityState>, cols1: map<nat, CollectionState>,
                            ents: map<nat, EntityState>, cols: map<nat, CollectionState>, hs: seq<Handle>, j: nat) {
    forall i :: 0 <= i < j && i < |hs| ==> Applied(p, ents1, cols1, ents, cols, hs[i])
  }

  /** Everything below the siblings from `j` on is as it was. */
  ghost predicate PendingUntouched(ents1: map<nat, EntityState>, cols1: map<nat, CollectionState>,
                                   ents: map<nat, EntityState>, cols: map<nat, CollectionState>, hs: seq<Handle>, j: nat) {
    forall k, w :: j <= k < |hs| && Descends(ents1, cols1, w, hs[k]) ==> Untouched(ents1, cols1, ents, cols, w)
  }

  /** When the pass was already applied below every sibling, nothing changed. */
  ghost predicate CleanKept(p: Pass, ents1: map<nat, EntityState>, cols1: map<nat, CollectionState>,
                            ents: map<nat, EntityState>, cols: map<nat, CollectionState>, hs: seq<Handle>) {
    (forall k :: 0 <= k < |hs| ==> Applied(p, ents1, cols1, ents1, cols1, hs[k])) ==> ents == ents1 && cols == cols1
  }

  /**
   * The loop over the siblings `hs` below `parent`, started from the store
   * `ents1`/`cols1`, has run the pass below the first `j` of them: nothing
   * was created, the parent and everything below the siblings still to come
   * are as they were, and when every sibling was already done nothing changed.
   */
  ghost predicate Visiting(p: Pass, ents1: map<nat, EntityState>, cols1: map<nat, CollectionState>, next1: nat,
                           ents: map<nat, EntityState>, cols: map<nat, CollectionState>, next: nat,
                           hs: seq<Handle>, j: nat, parent: Handle) {
    && j <= |hs|
    && SameRecords(ents1, cols1, next1, ents, cols, next)
    && Confined(ents1, cols1, ents, cols, parent)
    && Untouched(ents1, cols1, ents, cols, parent)
    && DoneBelow(p, ents1, cols1, ents, cols, hs, j)
    && PendingUntouched(ents1, cols1, ents, cols, hs, j)
    && CleanKept(p, ents1, cols1, ents, cols, hs)
  }

  lemma VisitStart(p: Pass, ents: map<nat, EntityState>, cols: map<nat, CollectionState>, next: nat,
                   hs: seq<Handle>, parent: Handle)
    ensures Visiting(p, ents, cols, next, ents, cols, next, hs, 0, parent)
  {
    ConfinedByFrame(ents, cols, ents, cols, parent);
  }

  /** One more sibling visited: the pass ran below `hs[j]` and stayed there. */
  lemma VisitStep(p: Pass, ents1: map<nat, EntityState>, cols1: map<nat, CollectionState>, next1: nat,
                  entsJ: map<nat, EntityState>, colsJ: map<nat, CollectionState>, nextJ: nat,
                  ents: map<nat, EntityState>, cols: map<nat, CollectionState>, next: nat,
                  hs: seq<Handle>, j: nat, parent: Handle)
    requires Family(ents1, cols1, next1, hs, parent) && j < |hs|
    requires ValidMaps(entsJ, colsJ, nextJ) && Visiting(p, ents1, cols1, next1, entsJ, colsJ, nextJ, hs, j, parent)
    requires SameRecords(entsJ, colsJ, nextJ, ents, cols, next)
    requires Confined(entsJ, colsJ, ents, cols, hs[j])
    requires Applied(p, entsJ, colsJ, ents, cols, hs[j])
    requires Applied(p, entsJ, colsJ, entsJ, colsJ, hs[j]) ==> ents == entsJ && cols == colsJ
    ensures Visiting(p, ents1, cols1, next1, ents, cols, next, hs, j + 1, parent)
  {
    SameDescends(ents1, cols1, next1, entsJ, colsJ, nextJ);
    SameRecordsTrans(ents1, cols1, next1, entsJ, colsJ, nextJ, ents, cols, next);
    VisitFrame(ents1, cols1, next1, entsJ, colsJ, nextJ, ents, cols, hs, j, parent);
    VisitDone(p, ents1, cols1, next1, entsJ, colsJ, nextJ, ents, cols, hs, j, parent);
    VisitPending(ents1, cols1, next1, entsJ, colsJ, ents, cols, hs, j, parent);
    VisitClean(p, ents1, cols1, entsJ, colsJ, ents, cols, hs, j);
  }

  /** The parent, and what lies outside `parent`, stay as they were. */
  lemma VisitFrame(ents1: map<nat, EntityState>, cols1: map<nat, CollectionState>, next1: nat,
                   entsJ: map<nat, EntityState>, colsJ: map<nat, CollectionState>, nextJ: nat,
                   ents: map<nat, EntityState>, cols: map<nat, CollectionState>,
                   hs: seq<Handle>, j: nat, parent: Handle)
    requires Family(ents1, cols1, next1, hs, parent) && j < |hs|
    requires ValidMaps(entsJ, colsJ, nextJ) && Grows(ents1, cols1, next1, entsJ, colsJ, nextJ)
    requires Confined(ents1, cols1, entsJ, colsJ, parent) && Untouched(ents1, cols1, entsJ, colsJ, parent)
    requires Confined(entsJ, colsJ, ents, cols, hs[j])
    ensures Confined(ents1, cols1, ents, cols, parent)
    ensures Untouched(ents1, cols1, ents, cols, parent)
  {
    var x := hs[j];
    assert Exists(ents1, cols1, x) && ParentOf(ents1, cols1, x) == Some(parent);
    GrowsKeepsLinks(ents1, cols1, next1, entsJ, colsJ, nextJ);
    ParentKept(ents1, cols1, entsJ, colsJ, x);
    ChildDescends(entsJ, colsJ, nextJ, x, parent);
    ConfinedStep(ents1, cols1, next1, entsJ, colsJ, nextJ, ents, cols, parent, x);
    AncestorKept(entsJ, colsJ, nextJ, ents, cols, x, parent);
  }

  /** A record keeps its parent when the links are kept. */
  lemma ParentKept(ents0: map<nat, EntityState>, cols0: map<nat, CollectionState>,
                   ents: map<nat, EntityState>, cols: map<nat, CollectionState>, x: Handle)
    requires LinksKept(ents0, cols0, ents, cols) && Exists(ents0, cols0, x)
    ensures Exists(ents, cols, x) && ParentOf(ents, cols, x) == ParentOf(ents0, cols0, x)
  {
  }

  /** The siblings done so far, and `hs[j]` now too, have the pass applied. */
  lemma VisitDone(p: Pass, ents1: map<nat, EntityState>, cols1: map<nat, CollectionState>, next1: nat,
                  entsJ: map<nat, EntityState>, colsJ: map<nat, CollectionState>, nextJ: nat,
                  ents: map<nat, EntityState>, cols: map<nat, CollectionState>,
                  hs: seq<Handle>, j: nat, parent: Handle)
    requires Family(ents1, cols1, next1, hs, parent) && j < |hs|
    requires ValidMaps(entsJ, colsJ, nextJ) && entsJ.Keys == ents1.Keys && colsJ.Keys == cols1.Keys
    requires forall a, b :: Descends(entsJ, colsJ, a, b) == Descends(ents1, cols1, a, b)
    requires DoneBelow(p, ents1, cols1, entsJ, colsJ, hs, j) && PendingUntouched(ents1, cols1, entsJ, colsJ, hs, j)
    requires Confined(entsJ, colsJ, ents, cols, hs[j])
    requires Applied(p, entsJ, colsJ, ents, cols, hs[j])
    ensures DoneBelow(p, ents1, cols1, ents, cols, hs, j + 1)
  {
    forall i | 0 <= i < j ensures Applied(p, ents1, cols1, ents, cols, hs[i]) {
      Siblings(ents1, cols1, next1, hs[i], hs[j]);
      Siblings(ents1, cols1, next1, hs[j], hs[i]);
      DisjointUntouched(entsJ, colsJ, ents, cols, hs[i], hs[j]);
      AppliedLater(p, ents1, cols1, entsJ, colsJ, nextJ, ents, cols, hs[i]);
    }
    forall w | Descends(entsJ, colsJ, w, hs[j]) ensures Untouched(ents1, cols1, entsJ, colsJ, w) {
      assert Descends(ents1, cols1, w, hs[j]);
    }
    AppliedEarlier(p, ents1, cols1, entsJ, colsJ, nextJ, ents, cols, hs[j]);
  }

  /** Everything below the siblings still to come stays as it was. */
  lemma VisitPending(ents1: map<nat, EntityState>, cols1: map<nat, CollectionState>, next1: nat,
                     entsJ: map<nat, EntityState>, colsJ: map<nat, CollectionState>,
                     ents: map<nat, EntityState>, cols: map<nat, CollectionState>,
                     hs: seq<Handle>, j: nat, parent: Handle)
    requires Family(ents1, cols1, next1, hs, parent) && j < |hs|
    requires PendingUntouched(ents1, cols1, entsJ, colsJ, hs, j)
    requires forall a, b :: Descends(entsJ, colsJ, a, b) == Descends(ents1, cols1, a, b)
    requires Confined(entsJ, colsJ, ents, cols, hs[j])
    ensures PendingUntouched(ents1, cols1, ents, cols, hs, j + 1)
  {
    forall k, w | j + 1 <= k < |hs| && Descends(ents1, cols1, w, hs[k])
      ensures Untouched(ents1, cols1, ents, cols, w)
    {
      assert Untouched(ents1, cols1, entsJ, colsJ, w);
      Siblings(ents1, cols1, next1, hs[k], hs[j]);
      Siblings(ents1, cols1, next1, hs[j], hs[k]);
      if Descends(ents1, cols1, w, hs[j]) {
        DescendsChain(ents1, cols1, w, hs[k], hs[j]);
      }
      assert Untouched(entsJ, colsJ, ents, cols, w);
    }
  }

  /** A step that changed nothing on an already-clean tree keeps it unchanged. */
  lemma VisitClean(p: Pass, ents1: map<nat, EntityState>, cols1: map<nat, CollectionState>,
                   entsJ: map<nat, EntityState>, colsJ: map<nat, CollectionState>,
                   ents: map<nat, EntityState>, cols: map<nat, CollectionState>,
                   hs: seq<Handle>, j: nat)
    requires j < |hs| && CleanKept(p, ents1, cols1, entsJ, colsJ, hs)
    requires Applied(p, entsJ, colsJ, entsJ, colsJ, hs[j]) ==> ents == entsJ && cols == colsJ
    ensures CleanKept(p, ents1, cols1, ents, cols, hs)
  {
    if forall k :: 0 <= k < |hs| ==> Applied(p, ents1, cols1, ents1, cols1, hs[k]) {
      assert Applied(p, ents1, cols1, ents1, cols1, hs[j]);
    }
  }

  // ---------------------------------------------------------------------------
  // The two steps of a pass on one record

  /**
   * Rewriting the values of one entity record, keeping its place in the tree
   * and dropping no detail name it did not have, keeps the store valid and
   * stays at that entity.
   */
  lemma EntityWriteValid(ents: map<nat, EntityState>, cols: map<nat, CollectionState>, next: nat, e: nat, r: EntityState)
    requires ValidMaps(ents, cols, next) && e in ents
    requires SameShape(ents[e], r) && forall k :: k in r.details ==> k in ents[e].details
    ensures ValidMaps(ents[e := r], cols, next)
    ensures SameRecords(ents, cols, next, ents[e := r], cols, next)
    ensures Confined(ents, cols, ents[e := r], cols, EntityRef(e))
  {
    assert EntityOk(ents, cols, e);
    EntityUpdateValid(ents, cols, next, e, r);
    ConfinedByFrame(ents, cols, ents[e := r], cols, EntityRef(e));
  }

  /** Rewriting one collection record by the pass keeps the store valid and stays at that collection. */
  lemma CollectionPassValid(p: Pass, ents: map<nat, EntityState>, cols: map<nat, CollectionState>, next: nat, c: nat)
    requires ValidMaps(ents, cols, next) && c in cols
    ensures ValidMaps(ents, cols[c := CollectionPass(p, cols[c])], next)
    ensures SameRecords(ents, cols, next, ents, cols[c := CollectionPass(p, cols[c])], next)
    ensures Confined(ents, cols, ents, cols[c := CollectionPass(p, cols[c])], CollectionRef(c))
  {
    var r := cols[c];
    var w := CollectionPass(p, r);
    assert CollectionOk(ents, cols, c);
    if p == Consolidation {
      ViewDistinct(r);
    }
    assert w.storedEntities + w.newEntities == w.storedEntities;
    CollectionUpdateValid(ents, cols, next, c, w);
    ConfinedByFrame(ents, cols, ents, cols[c := w], CollectionRef(c));
  }

  /** The child collections of an entity are different records whose parent is the entity. */
  lemma ChildrenFamily(ents: map<nat, EntityState>, cols: map<nat, CollectionState>, next: nat, e: nat)
    requires ValidMaps(ents, cols, next) && e in ents
    ensures Family(ents, cols, next, ChildHandles(ents[e]), EntityRef(e))
  {
    var r := ents[e];
    var hs := ChildHandles(r);
    assert EntityOk(ents, cols, e);
    forall a, b | 0 <= a < b < |hs| ensures hs[a] != hs[b] {
      assert ChildNames(r.definition)[a] != ChildNames(r.definition)[b];
    }
  }

  /** The stored members of a collection are different records whose parent is the collection. */
  lemma MembersFamily(ents: map<nat, EntityState>, cols: map<nat, CollectionState>, next: nat, c: nat)
    requires ValidMaps(ents, cols, next) && c in cols
    ensures Family(ents, cols, next, MemberHandles(cols[c].storedEntities), CollectionRef(c))
  {
    var ms := cols[c].storedEntities;
    var hs := MemberHandles(ms);
    assert CollectionOk(ents, cols, c);
    forall a, b | 0 <= a < b < |hs| ensures hs[a] != hs[b] {
      assert (ms + cols[c].newEntities)[a] == ms[a] && (ms + cols[c].newEntities)[b] == ms[b];
    }
  }

  /**
   * An entity pass that first rewrote the entity record to `mid` (same
   * place in the tree, same details), then visited every child collection,
   * and then wrote the record the pass calls for, has the pass applied all
   * the way below the entity; when the tree was already done, nothing
   * changed.
   */
  lemma EntityFinish(p: Pass, ents0: map<nat, EntityState>, cols0: map<nat, CollectionState>, next0: nat, mid: EntityState,
                     ents: map<nat, EntityState>, cols: map<nat, CollectionState>, next: nat, e: nat)
    requires ValidMaps(ents0, cols0, next0) && e in ents0
    requires SameShape(ents0[e], mid) && mid.details == ents0[e].details
    requires EntityPass(p, ents0[e]) == ents0[e] ==> mid == ents0[e]
    requires Visiting(p, ents0[e := mid], cols0, next0, ents, cols, next,
                      ChildHandles(ents0[e]), |ents0[e].children|, EntityRef(e))
    requires ValidMaps(ents, cols, next)
    ensures e in ents && ents[e] == mid
    ensures mid == EntityPass(p, ents0[e]) ==> ents[e := mid] == ents
    ensures ValidMaps(ents[e := EntityPass(p, ents0[e])], cols, next)
    ensures SameRecords(ents0, cols0, next0, ents[e := EntityPass(p, ents0[e])], cols, next)
    ensures Confined(ents0, cols0, ents[e := EntityPass(p, ents0[e])], cols, EntityRef(e))
    ensures Applied(p, ents0, cols0, ents[e := EntityPass(p, ents0[e])], cols, EntityRef(e))
    ensures Applied(p, ents0, cols0, ents0, cols0, EntityRef(e)) ==>
              ents[e := EntityPass(p, ents0[e])] == ents0 && cols == cols0
  {
    var ents1 := ents0[e := mid];
    var w := EntityPass(p, ents0[e]);
    var ents2 := ents[e := w];
    EntityFinishFrame(p, ents0, cols0, next0, ents1, ents, cols, next, e);
    EntityFinishApplied(p, ents0, cols0, next0, ents1, ents, cols, next, e);
    EntityFinishClean(p, ents0, cols0, next0, mid, ents, cols, next, e);
    RewriteSame(ents, e, mid);
  }

  /** Writing back the value a map already holds leaves the map as it was. */
  lemma RewriteSame<V>(m: map<nat, V>, k: nat, v: V)
    requires k in m && m[k] == v
    ensures m[k := v] == m
  {
  }

  lemma EntityFinishFrame(p: Pass, ents0: map<nat, EntityState>, cols0: map<nat, CollectionState>, next0: nat,
                          ents1: map<nat, EntityState>,
                          ents: map<nat, EntityState>, cols: map<nat, CollectionState>, next: nat, e: nat)
    requires ValidMaps(ents0, cols0, next0) && e in ents0 && e in ents1
    requires SameShape(ents0[e], ents1[e]) && ents1[e].details == ents0[e].details && ents1 == ents0[e := ents1[e]]
    requires SameRecords(ents1, cols0, next0, ents, cols, next)
    requires Confined(ents1, cols0, ents, cols, EntityRef(e)) && Untouched(ents1, cols0, ents, cols, EntityRef(e))
    requires ValidMaps(ents, cols, next)
    ensures ValidMaps(ents1, cols0, next0)
    ensures e in ents && ents[e] == ents1[e]
    ensures ValidMaps(ents[e := EntityPass(p, ents0[e])], cols, next)
    ensures SameRecords(ents0, cols0, next0, ents[e := EntityPass(p, ents0[e])], cols, next)
    ensures Confined(ents0, cols0, ents[e := EntityPass(p, ents0[e])], cols, EntityRef(e))
  {
    var w := EntityPass(p, ents0[e]);
    EntityWriteValid(ents0, cols0, next0, e, ents1[e]);
    SameRecordsTrans(ents0, cols0, next0, ents1, cols0, next0, ents, cols, next);
    ConfinedStep(ents0, cols0, next0, ents1, cols0, next0, ents, cols, EntityRef(e), EntityRef(e));
    EntityWriteValid(ents, cols, next, e, w);
    SameRecordsTrans(ents0, cols0, next0, ents, cols, next, ents[e := w], cols, next);
    ConfinedStep(ents0, cols0, next0, ents, cols, next, ents[e := w], cols, EntityRef(e), EntityRef(e));
  }

  lemma EntityFinishApplied(p: Pass, ents0: map<nat, EntityState>, cols0: map<nat, CollectionState>, next0: nat,
                            ents1: map<nat, EntityState>,
                            ents: map<nat, EntityState>, cols: map<nat, CollectionState>, next: nat, e: nat)
    requires e in ents0 && e in ents1 && ents1 == ents0[e := ents1[e]] && SameShape(ents0[e], ents1[e])
    requires ValidMaps(ents1, cols0, next0) && ValidMaps(ents, cols, next) && e in ents
    requires DoneBelow(p, ents1, cols0, ents, cols, ChildHandles(ents0[e]), |ents0[e].children|)
    ensures Applied(p, ents0, cols0, ents[e := EntityPass(p, ents0[e])], cols, EntityRef(e))
  {
    var ents2 := ents[e := EntityPass(p, ents0[e])];
    var hs := ChildHandles(ents0[e]);
    assert forall f :: f in ents0 && EntityRef(f) != EntityRef(e) ==> f in ents1 && ents1[f] == ents0[f];
    assert forall f :: f in ents && EntityRef(f) != EntityRef(e) ==> f in ents2 && ents2[f] == ents[f];
    forall i | 0 <= i < |ents2[e].children|
      ensures ents2[e].children[i] in cols
      ensures CollectionHeight(cols[ents2[e].children[i]]) < EntityHeight(ents2[e])
      ensures Applied(p, ents0, cols0, ents2, cols, CollectionRef(ents2[e].children[i]))
    {
      assert hs[i] == CollectionRef(ents1[e].children[i]);
      ChildFinish(p, ents0, cols0, next0, ents1, ents, cols, next, ents2, e, i);
    }
  }

  /** One child collection of `EntityFinishApplied`: the pass stays applied across the two writes to the entity. */
  lemma ChildFinish(p: Pass, ents0: map<nat, EntityState>, cols0: map<nat, CollectionState>, next0: nat,
                    ents1: map<nat, EntityState>,
                    ents: map<nat, EntityState>, cols: map<nat, CollectionState>, next: nat,
                    ents2: map<nat, EntityState>, e: nat, i: nat)
    requires ValidMaps(ents1, cols0, next0) && e in ents1 && i < |ents1[e].children|
    requires ents0.Keys == ents1.Keys && forall f :: f in ents0 && EntityRef(f) != EntityRef(e) ==> f in ents1 && ents1[f] == ents0[f]
    requires ValidMaps(ents, cols, next)
    requires forall f :: f in ents && EntityRef(f) != EntityRef(e) ==> f in ents2 && ents2[f] == ents[f]
    requires Applied(p, ents1, cols0, ents, cols, CollectionRef(ents1[e].children[i]))
    ensures ents1[e].children[i] in cols && cols[ents1[e].children[i]].definition == cols0[ents1[e].children[i]].definition
    ensures CollectionHeight(cols0[ents1[e].children[i]]) < EntityHeight(ents1[e])
    ensures Applied(p, ents0, cols0, ents2, cols, CollectionRef(ents1[e].children[i]))
  {
    var z := ents1[e].children[i];
    ChildBelow(ents1, cols0, next0, e, i);
    assert CollectionOk(ents1, cols0, z);
    OnlySelfChanged(ents, cols, ents2, cols, ents, cols, EntityRef(e), CollectionRef(z));
    AppliedLater(p, ents1, cols0, ents, cols, next, ents2, cols, CollectionRef(z));
    EarlierPastSelf(p, ents0, cols0, ents1, cols0, next0, ents2, cols, EntityRef(e), CollectionRef(z));
  }

  lemma EntityFinishClean(p: Pass, ents0: map<nat, EntityState>, cols0: map<nat, CollectionState>, next0: nat, mid: EntityState,
                          ents: map<nat, EntityState>, cols: map<nat, CollectionState>, next: nat, e: nat)
    requires e in ents0
    requires EntityPass(p, ents0[e]) == ents0[e] ==> mid == ents0[e]
    requires Visiting(p, ents0[e := mid], cols0, next0, ents, cols, next,
                      ChildHandles(ents0[e]), |ents0[e].children|, EntityRef(e))
    ensures Applied(p, ents0, cols0, ents0, cols0, EntityRef(e)) ==>
              ents[e := EntityPass(p, ents0[e])] == ents0 && cols == cols0
  {
    var ents1 := ents0[e := mid];
    var hs := ChildHandles(ents0[e]);
    if Applied(p, ents0, cols0, ents0, cols0, EntityRef(e)) {
      assert ents1 == ents0;
      forall k | 0 <= k < |hs| ensures Applied(p, ents1, cols0, ents1, cols0, hs[k]) {
        assert hs[k] == CollectionRef(ents0[e].children[k]);
      }
      assert ents == ents0;
    }
  }

  /**
   * A collection pass that rewrote the collection record and then visited
   * every stored member it ended with has the pass applied all the way below
   * the collection.
   */
  lemma CollectionFinish(p: Pass, ents0: map<nat, EntityState>, cols0: map<nat, CollectionState>, next0: nat,
                         ents: map<nat, EntityState>, cols: map<nat, CollectionState>, next: nat, c: nat)
    requires ValidMaps(ents0, cols0, next0) && c in cols0
    requires Visiting(p, ents0, cols0[c := CollectionPass(p, cols0[c])], next0, ents, cols, next,
                      MemberHandles(CollectionPass(p, cols0[c]).storedEntities),
                      |CollectionPass(p, cols0[c]).storedEntities|, CollectionRef(c))
    requires ValidMaps(ents, cols, next)
    ensures SameRecords(ents0, cols0, next0, ents, cols, next)
    ensures Confined(ents0, cols0, ents, cols, CollectionRef(c))
    ensures Applied(p, ents0, cols0, ents, cols, CollectionRef(c))
    ensures Applied(p, ents0, cols0, ents0, cols0, CollectionRef(c)) ==> ents == ents0 && cols == cols0
  {
    var cols1 := cols0[c := CollectionPass(p, cols0[c])];
    CollectionPassValid(p, ents0, cols0, next0, c);
    SameRecordsTrans(ents0, cols0, next0, ents0, cols1, next0, ents, cols, next);
    ConfinedStep(ents0, cols0, next0, ents0, cols1, next0, ents, cols, CollectionRef(c), CollectionRef(c));
    var ms := cols1[c].storedEntities;
    var hs := MemberHandles(ms);
    assert Untouched(ents0, cols1, ents, cols, CollectionRef(c));
    forall i | 0 <= i < |ms| ensures Applied(p, ents0, cols1, ents, cols, EntityRef(ms[i])) {
      assert hs[i] == EntityRef(ms[i]);
    }
    CollectionFinishApplied(p, ents0, cols0, next0, cols1, ents, cols, c);
    CollectionFinishClean(p, ents0, cols0, next0, ents, cols, next, c);
  }

  lemma CollectionFinishApplied(p: Pass, ents0: map<nat, EntityState>, cols0: map<nat, CollectionState>, next0: nat,
                                cols1: map<nat, CollectionState>,
                                ents: map<nat, EntityState>, cols: map<nat, CollectionState>, c: nat)
    requires c in cols0 && cols1 == cols0[c := CollectionPass(p, cols0[c])] && ValidMaps(ents0, cols1, next0)
    requires c in cols && cols[c] == cols1[c]
    requires forall i :: 0 <= i < |cols1[c].storedEntities| ==> Applied(p, ents0, cols1, ents, cols, EntityRef(cols1[c].storedEntities[i]))
    ensures Applied(p, ents0, cols0, ents, cols, CollectionRef(c))
  {
    var ms := cols1[c].storedEntities;
    assert forall d :: d in cols0 && CollectionRef(d) != CollectionRef(c) ==> d in cols1 && cols1[d] == cols0[d];
    forall m | m in cols[c].storedEntities
      ensures m in ents
      ensures EntityHeight(ents[m]) < CollectionHeight(cols[c])
      ensures Applied(p, ents0, cols0, ents, cols, EntityRef(m))
    {
      var i :| 0 <= i < |ms| && ms[i] == m;
      MemberBelow(ents0, cols1, next0, c, m);
      assert EntityOk(ents0, cols1, m);
      EarlierPastSelf(p, ents0, cols0, ents0, cols1, next0, ents, cols, CollectionRef(c), EntityRef(m));
    }
  }

  /** `AppliedEarlier` across a step that rewrote only `self`, for an `x` numbered above `self`. */
  lemma EarlierPastSelf(p: Pass, ents0: map<nat, EntityState>, cols0: map<nat, CollectionState>,
                        ents1: map<nat, EntityState>, cols1: map<nat, CollectionState>, next1: nat,
                        ents: map<nat, EntityState>, cols: map<nat, CollectionState>, self: Handle, x: Handle)
    requires ValidMaps(ents1, cols1, next1) && ents0.Keys == ents1.Keys && cols0.Keys == cols1.Keys
    requires forall e :: e in ents0 && EntityRef(e) != self ==> e in ents1 && ents1[e] == ents0[e]
    requires forall c :: c in cols0 && CollectionRef(c) != self ==> c in cols1 && cols1[c] == cols0[c]
    requires Number(self) < Number(x)
    requires Applied(p, ents1, cols1, ents, cols, x)
    ensures Applied(p, ents0, cols0, ents, cols, x)
  {
    OnlySelfChanged(ents0, cols0, ents1, cols1, ents1, cols1, self, x);
    AppliedEarlier(p, ents0, cols0, ents1, cols1, next1, ents, cols, x);
  }

  lemma CollectionFinishClean(p: Pass, ents0: map<nat, EntityState>, cols0: map<nat, CollectionState>, next0: nat,
                              ents: map<nat, EntityState>, cols: map<nat, CollectionState>, next: nat, c: nat)
    requires c in cols0
    requires Visiting(p, ents0, cols0[c := CollectionPass(p, cols0[c])], next0, ents, cols, next,
                      MemberHandles(CollectionPass(p, cols0[c]).storedEntities),
                      |CollectionPass(p, cols0[c]).storedEntities|, CollectionRef(c))
    ensures Applied(p, ents0, cols0, ents0, cols0, CollectionRef(c)) ==> ents == ents0 && cols == cols0
  {
    var cols1 := cols0[c := CollectionPass(p, cols0[c])];
    var ms := cols1[c].storedEntities;
    var hs := MemberHandles(ms);
    if Applied(p, ents0, cols0, ents0, cols0, CollectionRef(c)) {
      assert cols1 == cols0;
      forall k | 0 <= k < |hs| ensures Applied(p, ents0, cols1, ents0, cols1, hs[k]) {
        assert hs[k] == EntityRef(ms[k]);
      }
    }
  }
}
