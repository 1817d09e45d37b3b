/**
 * `entityDelete` (composable/entity/delete.js:5-48): a derived entity deletes
 * its base instead; an entity with a primary value sends one DELETE request
 * and, once it succeeds, drops out of the collection holding it — out of the
 * stored members, with the tombstones above its position moved down by one,
 * and out of the new members.
 */
module Delete {
  import opened JsValues
  import opened Definitions
  import opened Records
  import opened Entities
  import opened Ownership
  import opened SavePlan

  // ---------------------------------------------------------------------------
  // A list without one member

  /** `xs.filter(y => y !== x)`: the list with every occurrence of `x` removed, order kept. */
  function Drop(xs: seq<nat>, x: nat): seq<nat> {
    if xs == [] then [] else (if xs[0] == x then [] else [xs[0]]) + Drop(xs[1..], x)
  }

  /** What `Drop` leaves: every member but `x`. */
  lemma {:induction false} DropMembers(xs: seq<nat>, x: nat)
    ensures forall y :: y in Drop(xs, x) <==> y in xs && y != x
  {
    if xs != [] {
      DropMembers(xs[1..], x);
      assert xs == [xs[0]] + xs[1..];
    }
  }

  lemma {:induction false} DropAppend(a: seq<nat>, b: seq<nat>, x: nat)
    ensures Drop(a + b, x) == Drop(a, x) + Drop(b, x)
  {
    if a != [] {
      var head := if a[0] == x then [] else [a[0]];
      assert (a + b)[0] == a[0];
      assert (a + b)[1..] == a[1..] + b;
      DropAppend(a[1..], b, x);
      calc {
        Drop(a + b, x);
        head + Drop(a[1..] + b, x);
        head + (Drop(a[1..], x) + Drop(b, x));
        (head + Drop(a[1..], x)) + Drop(b, x);
      }
    } else {
      assert a + b == b;
    }
  }

  lemma {:induction false} DropAbsent(xs: seq<nat>, x: nat)
    requires x !in xs
    ensures Drop(xs, x) == xs
  {
    if xs != [] {
      DropAbsent(xs[1..], x);
    }
  }

  /** Removing the one occurrence at `j` is the same as dropping the member. */
  lemma {:induction false} DropAt(xs: seq<nat>, j: nat)
    requires j < |xs| && xs[j] !in xs[..j] && xs[j] !in xs[j + 1..]
    ensures Drop(xs, xs[j]) == xs[..j] + xs[j + 1..]
    decreases j
  {
    var x, tail := xs[j], xs[1..];
    if j == 0 {
      DropAbsent(tail, x);
      assert xs[..0] + xs[1..] == tail;
    } else {
      assert xs[0] in xs[..j];
      assert tail[j - 1] == x;
      assert tail[..j - 1] == xs[1..j];
      assert tail[j..] == xs[j + 1..];
      assert x !in tail[..j - 1] by {
        assert forall y :: y in xs[1..j] ==> y in xs[..j];
      }
      DropAt(tail, j - 1);
      assert Drop(xs, x) == [xs[0]] + (xs[1..j] + xs[j + 1..]);
      assert xs[..j] == [xs[0]] + xs[1..j];
    }
  }

  // ---------------------------------------------------------------------------
  // The tombstones after a stored member is spliced out (lines 26-34)

  /** The tombstones the loop has moved down, those it has not reached yet, and the untouched ones below. */
  function Shifted(deleted: set<nat>, k: nat, indices: seq<nat>, i: nat): set<nat>
    requires i <= |indices| && forall j :: 0 <= j < |indices| ==> indices[j] > k
  {
    (set x | x in deleted && x < k)
      + (set j | 0 <= j < i :: (indices[j] - 1) as nat)
      + (set j | i <= j < |indices| :: indices[j])
  }

  predicate Ascending(xs: seq<nat>) {
    forall a, b :: 0 <= a < b < |xs| ==> xs[a] < xs[b]
  }

  /** The tombstones from `lo` on are visited in strictly ascending order. */
  lemma {:induction false} TombstonesAscending(n: nat, deleted: set<nat>, lo: nat)
    ensures Ascending(Tombstones(n, deleted, lo))
    decreases n - lo
  {
    if lo < n {
      TombstonesAscending(n, deleted, lo + 1);
      var rest := Tombstones(n, deleted, lo + 1);
      if lo in deleted {
        var ts := [lo] + rest;
        assert Tombstones(n, deleted, lo) == ts;
        forall a, b | 0 <= a < b < |ts| ensures ts[a] < ts[b] {
          assert ts[b] == rest[b - 1];
          if a > 0 {
            assert ts[a] == rest[a - 1];
          }
        }
      } else {
        assert Tombstones(n, deleted, lo) == rest;
      }
    }
  }

  /** Before the loop, the tombstones below `k` and the list of those above it make up the set. */
  lemma ShiftStart(deleted: set<nat>, k: nat, n: nat)
    requires forall x :: x in deleted ==> x < n
    ensures var indices := Tombstones(n, deleted - {k}, k + 1);
            && (forall j :: 0 <= j < |indices| ==> indices[j] > k)
            && deleted - {k} == Shifted(deleted, k, indices, 0)
  {
    var indices := Tombstones(n, deleted - {k}, k + 1);
    TombstonesCover(n, deleted - {k}, k + 1);
    var high := set j | 0 <= j < |indices| :: indices[j];
    assert forall x :: x in deleted - {k} && x > k ==> x in high;
  }

  /** One turn of the loop: `delete(currentIndex)` then `add(currentIndex - 1)`. */
  lemma ShiftStep(deleted: set<nat>, k: nat, indices: seq<nat>, i: nat)
    requires i < |indices|
    requires forall j :: 0 <= j < |indices| ==> indices[j] > k
    requires Ascending(indices)
    ensures Shifted(deleted, k, indices, i) - {indices[i]} + {(indices[i] - 1) as nat} == Shifted(deleted, k, indices, i + 1)
  {
    var low := set x | x in deleted && x < k;
    var moved := set j | 0 <= j < i :: (indices[j] - 1) as nat;
    var moved' := set j | 0 <= j < i + 1 :: (indices[j] - 1) as nat;
    var ahead := set j | i <= j < |indices| :: indices[j];
    var ahead' := set j | i + 1 <= j < |indices| :: indices[j];
    assert indices[i] !in low;
    assert indices[i] !in moved;
    assert ahead - {indices[i]} == ahead';
    assert moved' == moved + {(indices[i] - 1) as nat};
  }

  /** After the loop, the set is the remapped one. */
  lemma ShiftDone(deleted: set<nat>, k: nat, n: nat, indices: seq<nat>)
    requires forall x :: x in deleted ==> x < n
    requires indices == Tombstones(n, deleted - {k}, k + 1)
    requires forall j :: 0 <= j < |indices| ==> indices[j] > k
    ensures Shifted(deleted, k, indices, |indices|) == Remap(deleted, k)
  {
    TombstonesCover(n, deleted - {k}, k + 1);
    forall y ensures y in Shifted(deleted, k, indices, |indices|) <==> y in Remap(deleted, k) {
      ShiftDoneAt(deleted, k, indices, y);
    }
  }

  /** One member of the sets compared by `ShiftDone`. */
  lemma ShiftDoneAt(deleted: set<nat>, k: nat, indices: seq<nat>, y: nat)
    requires forall j :: 0 <= j < |indices| ==> indices[j] > k && indices[j] in deleted
    requires forall x :: x in deleted && x > k ==> x in indices
    ensures y in Shifted(deleted, k, indices, |indices|) <==> y in Remap(deleted, k)
  {
    RemapMembership(deleted, k, y);
    var moved := set j | 0 <= j < |indices| :: (indices[j] - 1) as nat;
    if y >= k && y + 1 in deleted {
      var j :| 0 <= j < |indices| && indices[j] == y + 1;
      assert y in moved;
    }
  }

  /**
   * Lines 25-34: `deletedIndices.delete(storedIndex)`, then every tombstone
   * above the spliced position, in ascending order (`Int32Array.sort` is
   * numeric), is deleted and re-added one lower. The result is `Remap`.
   */
  method ShiftTombstones(deleted: set<nat>, k: nat, n: nat) returns (d: set<nat>)
    requires forall x :: x in deleted ==> x < n
    ensures d == Remap(deleted, k)
  {
    d := deleted - {k};
    var indices := Tombstones(n, d, k + 1);
    ShiftStart(deleted, k, n);
    TombstonesAscending(n, d, k + 1);
    var i := 0;
    while i < |indices|
      invariant i <= |indices|
      invariant d == Shifted(deleted, k, indices, i)
    {
      ShiftStep(deleted, k, indices, i);
      d := d - {indices[i]};
      d := d + {(indices[i] - 1) as nat};
      i := i + 1;
    }
    ShiftDone(deleted, k, n, indices);
  }

  // ---------------------------------------------------------------------------
  // The collection without the deleted entity (lines 19-40)

  /**
   * The parent collection after the deletion: spliced out of the stored
   * members with the tombstones re-indexed, then spliced out of the new ones.
   */
  function Unlist(r: CollectionState, e: nat): (w: CollectionState)
    ensures w.definition == r.definition && w.root == r.root && w.parent == r.parent
    ensures forall m :: m in w.storedEntities ==> m in r.storedEntities
    ensures forall m :: m in w.newEntities ==> m in r.newEntities
  {
    var k := IndexOf(r.storedEntities, e);
    var r1 := if k < 0 then r else SpliceStored(r, k);
    var j := IndexOf(r1.newEntities, e);
    if j < 0 then r1 else SpliceNew(r1, j)
  }

  /** The collection with stored position `k` spliced out and the tombstones above it moved down by one. */
  function SpliceStored(r: CollectionState, k: nat): (w: CollectionState)
    requires k < |r.storedEntities|
    ensures w.definition == r.definition && w.root == r.root && w.parent == r.parent && w.newEntities == r.newEntities
    ensures forall m :: m in w.storedEntities ==> m in r.storedEntities
  {
    assert forall m :: m in r.storedEntities[..k] + r.storedEntities[k + 1..] ==> m in r.storedEntities;
    r.(storedEntities := r.storedEntities[..k] + r.storedEntities[k + 1..], deletedIndices := Remap(r.deletedIndices, k))
  }

  /** The collection with new position `j` spliced out. */
  function SpliceNew(r: CollectionState, j: nat): (w: CollectionState)
    requires j < |r.newEntities|
    ensures w.definition == r.definition && w.root == r.root && w.parent == r.parent
    ensures w.storedEntities == r.storedEntities && w.deletedIndices == r.deletedIndices
    ensures forall m :: m in w.newEntities ==> m in r.newEntities
  {
    assert forall m :: m in r.newEntities[..j] + r.newEntities[j + 1..] ==> m in r.newEntities;
    r.(newEntities := r.newEntities[..j] + r.newEntities[j + 1..])
  }

  /** Position `j` of the spliced list from `k` on holds the next stored member. */
  lemma {:induction false} KeptAbove(stored: seq<nat>, deleted: set<nat>, k: nat, j: nat)
    requires k <= j < |stored|
    ensures Kept(stored[..k] + stored[k + 1..], Remap(deleted, k), j) == Kept(stored, deleted, j + 1)
    decreases |stored| - j
  {
    var spliced := stored[..k] + stored[k + 1..];
    if j < |spliced| {
      SplicedAt(stored, k, j);
      RemapMembership(deleted, k, j);
      KeptAbove(stored, deleted, k, j + 1);
    }
  }

  /** Below the spliced position, the spliced list keeps what the old one kept, the entity dropped. */
  lemma {:induction false} KeptBelow(stored: seq<nat>, deleted: set<nat>, k: nat, lo: nat)
    requires lo <= k < |stored| && stored[k] !in stored[..k] && stored[k] !in stored[k + 1..]
    ensures Kept(stored[..k] + stored[k + 1..], Remap(deleted, k), lo) == Drop(Kept(stored, deleted, lo), stored[k])
    decreases k - lo
  {
    if lo == k {
      KeptAtSplice(stored, deleted, k);
    } else {
      KeptBelow(stored, deleted, k, lo + 1);
      KeptBelowStep(stored, deleted, k, lo);
    }
  }

  /** One position below the spliced one: both lists keep or drop the same member there. */
  lemma KeptBelowStep(stored: seq<nat>, deleted: set<nat>, k: nat, lo: nat)
    requires lo < k < |stored| && stored[k] !in stored[..k]
    requires Kept(stored[..k] + stored[k + 1..], Remap(deleted, k), lo + 1) == Drop(Kept(stored, deleted, lo + 1), stored[k])
    ensures Kept(stored[..k] + stored[k + 1..], Remap(deleted, k), lo) == Drop(Kept(stored, deleted, lo), stored[k])
  {
    var e := stored[k];
    SplicedAt(stored, k, lo);
    RemapMembership(deleted, k, lo);
    assert stored[lo] in stored[..k];
    var head := if lo in deleted then [] else [stored[lo]];
    DropAppend(head, Kept(stored, deleted, lo + 1), e);
    DropAbsent(head, e);
  }

  /** From the spliced position on, the spliced list keeps what the old one kept past it. */
  lemma KeptAtSplice(stored: seq<nat>, deleted: set<nat>, k: nat)
    requires k < |stored| && stored[k] !in stored[k + 1..]
    ensures Kept(stored[..k] + stored[k + 1..], Remap(deleted, k), k) == Drop(Kept(stored, deleted, k), stored[k])
  {
    var e := stored[k];
    KeptAbove(stored, deleted, k, k);
    var rest := Kept(stored, deleted, k + 1);
    KeptWithin(stored, deleted, k + 1);
    DropAbsent(rest, e);
    DropAppend(if k in deleted then [] else [e], rest, e);
  }

  /** A member listed once in `xs` is at its first position and nowhere else. */
  lemma OnceAt(xs: seq<nat>, x: nat)
    requires Distinct(xs) && x in xs
    ensures var j := IndexOf(xs, x); x !in xs[..j] && x !in xs[j + 1..]
  {
    var j := IndexOf(xs, x);
    forall i | j < i < |xs| ensures xs[i] != x {}
  }

  /** Removing a stored member keeps every member listed once. */
  lemma DistinctWithoutStored(stored: seq<nat>, added: seq<nat>, k: nat)
    requires Distinct(stored + added) && k < |stored|
    ensures Distinct((stored[..k] + stored[k + 1..]) + added)
  {
    var xs, ys := stored + added, (stored[..k] + stored[k + 1..]) + added;
    forall a, b | 0 <= a < b < |ys| ensures ys[a] != ys[b] {
      var a', b' := if a < k then a else a + 1, if b < k then b else b + 1;
      assert ys[a] == xs[a'] && ys[b] == xs[b'];
    }
  }

  /**
   * The store invariant of the collection survives the deletion: the members
   * stay listed once and every tombstone still denotes a stored position.
   */
  lemma UnlistValid(r: CollectionState, e: nat)
    requires Distinct(r.storedEntities + r.newEntities) && TombstonesInRange(r)
    ensures var w := Unlist(r, e);
            Distinct(w.storedEntities + w.newEntities) && TombstonesInRange(w)
  {
    var k := IndexOf(r.storedEntities, e);
    var r1 := if k < 0 then r else SpliceStored(r, k);
    if k >= 0 {
      SpliceStoredValid(r, k);
    }
    var j := IndexOf(r1.newEntities, e);
    if j >= 0 {
      SpliceNewValid(r1, j);
    }
  }

  /** Splicing out stored position `k` and re-indexing the tombstones keeps the collection's invariant. */
  lemma SpliceStoredValid(r: CollectionState, k: nat)
    requires Distinct(r.storedEntities + r.newEntities) && TombstonesInRange(r) && k < |r.storedEntities|
    ensures var w := SpliceStored(r, k);
            Distinct(w.storedEntities + w.newEntities) && TombstonesInRange(w)
  {
    RemapKeepsMembers(r.storedEntities, r.deletedIndices, k);
    DistinctWithoutStored(r.storedEntities, r.newEntities, k);
  }

  /** Splicing out new position `j` keeps the collection's invariant. */
  lemma SpliceNewValid(r: CollectionState, j: nat)
    requires Distinct(r.storedEntities + r.newEntities) && TombstonesInRange(r) && j < |r.newEntities|
    ensures var w := SpliceNew(r, j);
            Distinct(w.storedEntities + w.newEntities) && TombstonesInRange(w)
  {
    DistinctWithout(r.storedEntities, r.newEntities, j);
  }

  /** Members listed once in `a + b` are listed once in `a` and in `b`, and never in both. */
  lemma DistinctParts(a: seq<nat>, b: seq<nat>)
    requires Distinct(a + b)
    ensures Distinct(a) && Distinct(b) && forall x :: x in a ==> x !in b
  {
    assert forall i :: 0 <= i < |b| ==> (a + b)[|a| + i] == b[i];
    assert forall i :: 0 <= i < |a| ==> (a + b)[i] == a[i];
    forall i, j | 0 <= i < |a| && 0 <= j < |b| ensures a[i] != b[j] {
      assert (a + b)[i] == a[i] && (a + b)[|a| + j] == b[j];
    }
  }

  /**
   * The public view of the collection after the deletion is the old view with
   * the entity filtered out: every other member keeps its place, whether the
   * entity was stored, tombstoned or new.
   */
  lemma UnlistView(r: CollectionState, e: nat)
    requires Distinct(r.storedEntities + r.newEntities)
    ensures View(Unlist(r, e)) == Drop(View(r), e)
  {
    DistinctParts(r.storedEntities, r.newEntities);
    if e in r.storedEntities {
      StoredUnlistView(r, e);
    } else {
      NewUnlistView(r, e);
    }
  }

  /** The entity was stored: the spliced list with re-indexed tombstones keeps the other members. */
  lemma StoredUnlistView(r: CollectionState, e: nat)
    requires Distinct(r.storedEntities) && e in r.storedEntities && e !in r.newEntities
    ensures View(Unlist(r, e)) == Drop(View(r), e)
  {
    var stored, added := r.storedEntities, r.newEntities;
    var k := IndexOf(stored, e);
    var w := SpliceStored(r, k);
    assert Unlist(r, e) == w;
    OnceAt(stored, e);
    KeptBelow(stored, r.deletedIndices, k, 0);
    var kept := Remaining(stored, r.deletedIndices);
    assert Remaining(w.storedEntities, w.deletedIndices) == Drop(kept, e);
    DropAppend(kept, added, e);
    DropAbsent(added, e);
    assert View(w) == Drop(kept, e) + added;
  }

  /** The entity was not stored: the remaining members stay, the new ones lose it. */
  lemma NewUnlistView(r: CollectionState, e: nat)
    requires Distinct(r.newEntities) && e !in r.storedEntities
    ensures View(Unlist(r, e)) == Drop(View(r), e)
  {
    var kept, added := Remaining(r.storedEntities, r.deletedIndices), r.newEntities;
    DropAppend(kept, added, e);
    DropAbsent(kept, e);
    var j := IndexOf(added, e);
    if j >= 0 {
      OnceAt(added, e);
      DropAt(added, j);
      assert Unlist(r, e) == SpliceNew(r, j);
    } else {
      DropAbsent(added, e);
      assert Unlist(r, e) == r;
    }
  }

  // ---------------------------------------------------------------------------
  // The operation

  /** `primaryValue != null`. */
  predicate Nullish(v: Value) {
    v == Undefined || v == Null
  }

  /**
   * Lines 19-40: the collection holding the entity, if any, drops it. Only
   * that collection's record changes.
   */
  method UnlistFromParent(s: Store, e: nat)
    requires s.Valid() && e in s.entities
    modifies s
    ensures s.Valid()
    ensures s.entities == old(s.entities) && s.next == old(s.next)
    ensures old(s.entities)[e].parent.None? ==> s.collections == old(s.collections)
    ensures old(s.entities)[e].parent.Some? ==>
              var c := old(s.entities)[e].parent.value;
              c in old(s.collections) && s.collections == old(s.collections)[c := Unlist(old(s.collections)[c], e)]
  {
    assert EntityOk(s.entities, s.collections, e);
    var parent := s.entities[e].parent;
    if parent.Some? {
      var c := parent.value;
      var r := s.collections[c];
      assert CollectionOk(s.entities, s.collections, c);
      var storedIndex := IndexOf(r.storedEntities, e);
      var w := r;
      if storedIndex > -1 {
        var d := ShiftTombstones(r.deletedIndices, storedIndex, |r.storedEntities|);
        w := w.(storedEntities := r.storedEntities[..storedIndex] + r.storedEntities[storedIndex + 1..], deletedIndices := d);
        assert w == SpliceStored(r, storedIndex);
      }
      var newIndex := IndexOf(w.newEntities, e);
      if newIndex > -1 {
        ghost var w0 := w;
        w := w.(newEntities := w.newEntities[..newIndex] + w.newEntities[newIndex + 1..]);
        assert w == SpliceNew(w0, newIndex);
      }
      assert w == Unlist(r, e);
      UnlistValid(r, e);
      CollectionUpdateValid(s.entities, s.collections, s.next, c, w);
      s.collections := s.collections[c := w];
    }
  }

  /**
   * The entity whose DELETE is sent: a derived entity defers to its base,
   * and that one to its own, and so on.
   */
  function Origin(ents: map<nat, EntityState>, cols: map<nat, CollectionState>, next: nat, e: nat): (o: nat)
    requires ValidMaps(ents, cols, next) && e in ents
    ensures o in ents && ents[o].base.None? && o <= e
    decreases e
  {
    assert EntityOk(ents, cols, e);
    match ents[e].base
    case None => e
    case Some(b) => Origin(ents, cols, next, b)
  }

  /**
   * `entityDelete(entity)` for an entity proxy `e`. `outcome` is how the
   * DELETE request ends (a rejection is rethrown). The request goes to
   * `KeyUrl` of the origin's definition and primary value; none is sent when
   * that value is nullish, and the answer is then false.
   */
  method DeleteEntity(s: Store, e: nat, outcome: Result<()>) returns (sent: Option<string>, r: Result<bool>)
    requires s.Valid() && e in s.entities
    modifies s
    ensures s.Valid()
    ensures var o := Origin(old(s.entities), old(s.collections), old(s.next), e);
            var rec := old(s.entities)[o];
            && (Nullish(PrimaryValue(rec)) ==> sent == None && r == Ok(false))
            && (!Nullish(PrimaryValue(rec)) ==>
                  && sent == Some(KeyUrl(rec.definition, PrimaryValue(rec)))
                  && r == (if outcome.Err? then Err(outcome.error) else Ok(true)))
            && (r != Ok(true) ==>
                  s.entities == old(s.entities) && s.collections == old(s.collections) && s.next == old(s.next))
            && (r == Ok(true) ==>
                  && s.entities == old(s.entities) && s.next == old(s.next)
                  && (rec.parent.None? ==> s.collections == old(s.collections))
                  && (rec.parent.Some? ==>
                        var c := rec.parent.value;
                        c in old(s.collections)
                        && s.collections == old(s.collections)[c := Unlist(old(s.collections)[c], o)]))
    decreases e
  {
    assert EntityOk(s.entities, s.collections, e);
    var record := s.entities[e];
    if record.base.Some? {
      sent, r := DeleteEntity(s, record.base.value, outcome);
      return;
    }
    var primaryValue := PrimaryValue(record);
    if Nullish(primaryValue) {
      return None, Ok(false);
    }
    sent := Some(KeyUrl(record.definition, primaryValue));
    if outcome.Err? {
      return sent, Err(outcome.error);
    }
    UnlistFromParent(s, e);
    r := Ok(true);
  }

  /**
   * `entityDelete(value)`: anything but an entity proxy answers false and
   * sends nothing.
   */
  method Delete(s: Store, x: Option<Handle>, outcome: Result<()>) returns (sent: Option<string>, r: Result<bool>)
    requires s.Valid() && (x.Some? ==> Exists(s.entities, s.collections, x.value))
    modifies s
    ensures s.Valid()
    ensures x.None? || x.value.CollectionRef? ==>
              sent == None && r == Ok(false)
              && s.entities == old(s.entities) && s.collections == old(s.collections) && s.next == old(s.next)
    ensures x.Some? && x.value.EntityRef? ==>
              var o := Origin(old(s.entities), old(s.collections), old(s.next), x.value.entity);
              (sent.Some? <==> !Nullish(PrimaryValue(old(s.entities)[o])))
              && (r == Ok(true) <==> sent.Some? && outcome.Ok?)
  {
    if x.None? || x.value.CollectionRef? {
      return None, Ok(false);
    }
    sent, r := DeleteEntity(s, x.value.entity, outcome);
  }

  /**
   * After a successful deletion of a stored or new member, the entity is gone
   * from the public view of its collection and every other member keeps its
   * place.
   */
  lemma DeletedLeavesView(ents: map<nat, EntityState>, cols: map<nat, CollectionState>, next: nat, c: nat, e: nat)
    requires ValidMaps(ents, cols, next) && c in cols
    ensures e !in View(Unlist(cols[c], e))
    ensures View(Unlist(cols[c], e)) == Drop(View(cols[c]), e)
  {
    assert CollectionOk(ents, cols, c);
    UnlistView(cols[c], e);
    DropMembers(View(cols[c]), e);
  }
}
