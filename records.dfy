/**
 * The state behind one entity proxy and one collection proxy
 * (composable/entity/entity.js, composable/entity/entity-collection.js), as
 * values, with the per-record operations the tree-wide operations are built
 * from. Entities and collections are referred to by number; the numbers
 * index the `Store` of the Entities module.
 */
module Records {
  import opened JsValues
  import opened Definitions

  /** A reference to an entity or a collection (the `root` of a node is one or the other). */
  datatype Handle = EntityRef(entity: nat) | CollectionRef(collection: nat)

  /** The target object of an entity proxy. */
  datatype EntityState = EntityState(
    definition: Definition,
    storedProperties: map<string, Value>,
    changedProperties: map<string, Value>,
    details: map<string, Value>,
    children: seq<nat>,             // the collection of the i-th child definition
    root: Handle,
    parent: Option<nat>,            // the collection holding this entity, if any
    base: Option<nat>)              // the entity this one was cloned from, if any

  /** The target object of a collection proxy. */
  datatype CollectionState = CollectionState(
    definition: Definition,
    storedEntities: seq<nat>,
    newEntities: seq<nat>,
    deletedIndices: set<nat>,
    root: Handle,
    parent: Option<nat>)            // the owning entity, if any

  // ---------------------------------------------------------------------------
  // Declared keys and details of an entity

  /** The computed getter of a declared key: the changed value if one is recorded, else the stored one. */
  function Effective(r: EntityState, key: string): Value {
    if key in r.changedProperties then r.changedProperties[key] else Field(r.storedProperties, key)
  }

  /**
   * The computed setter of a declared key: a value `===` the stored one drops
   * the dirty entry, any other value is recorded as changed. Nothing but the
   * changed map is touched.
   */
  function WriteKey(r: EntityState, key: string, value: Value): (w: EntityState)
    ensures Effective(w, key) == value
    ensures forall k :: k != key ==> Effective(w, k) == Effective(r, k)
    ensures key in w.changedProperties <==> value != Field(r.storedProperties, key)
    ensures w.changedProperties - {key} == r.changedProperties - {key}
    ensures w == r.(changedProperties := w.changedProperties)
  {
    if Field(r.storedProperties, key) == value then
      r.(changedProperties := r.changedProperties - {key})
    else
      r.(changedProperties := r.changedProperties[key := value])
  }

  /** Setting a key and then setting it back to its stored value leaves it clean. */
  lemma SetThenRevert(r: EntityState, key: string, value: Value)
    ensures WriteKey(WriteKey(r, key, value), key, Field(r.storedProperties, key)).changedProperties
         == r.changedProperties - {key}
  {
  }

  /** Writing a name that is neither a declared key nor a child: undefined deletes the detail. */
  function WriteDetail(r: EntityState, name: string, value: Value): (w: EntityState)
    ensures Field(w.details, name) == value
    ensures name in w.details <==> value != Undefined
    ensures w.details - {name} == r.details - {name}
    ensures w == r.(details := w.details)
  {
    if value == Undefined then r.(details := r.details - {name})
    else r.(details := r.details[name := value])
  }

  /**
   * Consolidating an entity record: every changed value becomes the stored one
   * and the changed map empties, so no declared key reads differently.
   */
  function Commit(r: EntityState): (w: EntityState)
    ensures w.changedProperties == map[]
    ensures forall k :: k in r.changedProperties ==> k in w.storedProperties && w.storedProperties[k] == r.changedProperties[k]
    ensures forall k :: k !in r.changedProperties ==> Field(w.storedProperties, k) == Field(r.storedProperties, k)
    ensures forall k :: Effective(w, k) == Effective(r, k)
    ensures w == r.(storedProperties := w.storedProperties, changedProperties := map[])
  {
    r.(storedProperties := r.storedProperties + r.changedProperties, changedProperties := map[])
  }

  /** Consolidating a consolidated record changes nothing. */
  lemma CommitIdempotent(r: EntityState)
    ensures Commit(Commit(r)) == Commit(r)
  {
    assert Commit(r).storedProperties + map[] == Commit(r).storedProperties;
  }

  /** Clearing an entity record: stored, changed and details all empty, so every key reads undefined. */
  function Wipe(r: EntityState): (w: EntityState)
    ensures forall k :: Effective(w, k) == Undefined
    ensures w.details == map[]
    ensures w == r.(storedProperties := map[], changedProperties := map[], details := map[])
  {
    r.(storedProperties := map[], changedProperties := map[], details := map[])
  }

  // ---------------------------------------------------------------------------
  // The public view of a collection

  /** The stored members from position `lo` on whose index is not tombstoned, in order. */
  function Kept(stored: seq<nat>, deleted: set<nat>, lo: nat): (r: seq<nat>)
    ensures |r| <= |stored| - lo || lo > |stored|
    ensures forall x :: x in r ==> x in stored
    decreases |stored| - lo
  {
    if lo >= |stored| then []
    else (if lo in deleted then [] else [stored[lo]]) + Kept(stored, deleted, lo + 1)
  }

  /** `storedEntities.filter((_, index) => !deletedIndices.has(index))`. */
  function Remaining(stored: seq<nat>, deleted: set<nat>): (r: seq<nat>)
    ensures forall x :: x in r ==> x in stored
  {
    Kept(stored, deleted, 0)
  }

  /** `remainingEntities.concat(newEntities)`. */
  function View(c: CollectionState): seq<nat> {
    Remaining(c.storedEntities, c.deletedIndices) + c.newEntities
  }

  /** The stored positions from `lo` on that are not tombstoned, ascending. */
  function KeptIndices(n: nat, deleted: set<nat>, lo: nat): seq<nat>
    decreases n - lo
  {
    if lo >= n then []
    else (if lo in deleted then [] else [lo]) + KeptIndices(n, deleted, lo + 1)
  }

  /** The kept positions lie in [lo, n) and are not tombstoned. */
  lemma {:induction false} KeptIndicesBounds(n: nat, deleted: set<nat>, lo: nat)
    ensures forall i :: 0 <= i < |KeptIndices(n, deleted, lo)| ==>
              lo <= KeptIndices(n, deleted, lo)[i] < n && KeptIndices(n, deleted, lo)[i] !in deleted
    decreases n - lo
  {
    if lo < n {
      KeptIndicesBounds(n, deleted, lo + 1);
    }
  }

  /** The remaining members are the stored members at the kept positions. */
  lemma {:induction false} KeptAt(stored: seq<nat>, deleted: set<nat>, lo: nat)
    ensures |Kept(stored, deleted, lo)| == |KeptIndices(|stored|, deleted, lo)|
    ensures forall i :: 0 <= i < |Kept(stored, deleted, lo)| ==>
              KeptIndices(|stored|, deleted, lo)[i] < |stored|
              && Kept(stored, deleted, lo)[i] == stored[KeptIndices(|stored|, deleted, lo)[i]]
    decreases |stored| - lo
  {
    KeptIndicesBounds(|stored|, deleted, lo);
    if lo < |stored| {
      KeptAt(stored, deleted, lo + 1);
    }
  }

  /** Tombstoning one more kept position removes exactly that position from the kept ones. */
  lemma {:induction false} KeptIndicesWithout(n: nat, deleted: set<nat>, lo: nat, i: nat)
    requires i < |KeptIndices(n, deleted, lo)|
    ensures KeptIndices(n, deleted + {KeptIndices(n, deleted, lo)[i]}, lo)
         == KeptIndices(n, deleted, lo)[..i] + KeptIndices(n, deleted, lo)[i + 1..]
    decreases n - lo
  {
    var ks := KeptIndices(n, deleted, lo);
    var k := ks[i];
    var ks' := KeptIndices(n, deleted + {k}, lo);
    KeptIndicesBounds(n, deleted, lo + 1);
    if lo !in deleted {
      assert ks == [lo] + KeptIndices(n, deleted, lo + 1);
      if i == 0 {
        assert k == lo;
        KeptIndicesSkip(n, deleted, lo + 1, k);
        assert lo in deleted + {k};
        assert ks' == KeptIndices(n, deleted + {k}, lo + 1);
      } else {
        KeptIndicesWithout(n, deleted, lo + 1, i - 1);
        assert KeptIndices(n, deleted, lo + 1)[i - 1] == k;
        assert ks' == [lo] + KeptIndices(n, deleted + {k}, lo + 1);
      }
    } else {
      assert ks == KeptIndices(n, deleted, lo + 1);
      KeptIndicesWithout(n, deleted, lo + 1, i);
      assert ks' == KeptIndices(n, deleted + {k}, lo + 1);
    }
  }

  /** Tombstoning a position below `lo` does not change the kept positions from `lo` on. */
  lemma {:induction false} KeptIndicesSkip(n: nat, deleted: set<nat>, lo: nat, k: nat)
    requires k < lo
    ensures KeptIndices(n, deleted + {k}, lo) == KeptIndices(n, deleted, lo)
    decreases n - lo
  {
    if lo < n {
      KeptIndicesSkip(n, deleted, lo + 1, k);
    }
  }

  predicate Distinct(xs: seq<nat>) {
    forall i, j :: 0 <= i < j < |xs| ==> xs[i] != xs[j]
  }

  /** `xs.indexOf(x)`: the first position holding `x`, or -1. */
  function IndexOf(xs: seq<nat>, x: nat): (r: int)
    ensures -1 <= r < |xs|
    ensures r == -1 <==> x !in xs
    ensures r >= 0 ==> xs[r] == x && forall j :: 0 <= j < r ==> xs[j] != x
  {
    if xs == [] then -1
    else if xs[0] == x then 0
    else
      var t := IndexOf(xs[1..], x);
      if t == -1 then -1 else t + 1
  }

  /** Every tombstone denotes a stored position. */
  predicate TombstonesInRange(c: CollectionState) {
    forall i :: i in c.deletedIndices ==> i < |c.storedEntities|
  }

  /**
   * `collection.delete(index)` for a numeric index: outside the public view it
   * does nothing; inside the remaining part it tombstones the stored position
   * of that member (the first one holding it); in the new tail it splices the
   * member out of `newEntities`.
   */
  function DeleteAt(c: CollectionState, index: int): (w: CollectionState)
    ensures index < 0 || index >= |View(c)| ==> w == c
    ensures w.storedEntities == c.storedEntities
    ensures TombstonesInRange(c) ==> TombstonesInRange(w)
    ensures 0 <= index < |Remaining(c.storedEntities, c.deletedIndices)| ==>
              w.newEntities == c.newEntities
              && w.deletedIndices == c.deletedIndices
                   + {IndexOf(c.storedEntities, Remaining(c.storedEntities, c.deletedIndices)[index])}
    ensures |Remaining(c.storedEntities, c.deletedIndices)| <= index < |View(c)| ==>
              var j := index - |Remaining(c.storedEntities, c.deletedIndices)|;
              w.deletedIndices == c.deletedIndices && w.newEntities == c.newEntities[..j] + c.newEntities[j + 1..]
  {
    var remaining := Remaining(c.storedEntities, c.deletedIndices);
    if index < 0 || index >= |View(c)| then c
    else if index < |remaining| then
      c.(deletedIndices := c.deletedIndices + {IndexOf(c.storedEntities, remaining[index])})
    else
      var j := index - |remaining|;
      c.(newEntities := c.newEntities[..j] + c.newEntities[j + 1..])
  }

  /** Tombstoning the stored position behind a remaining index removes exactly that member. */
  lemma RemainingWithout(s: seq<nat>, d: set<nat>, index: nat)
    requires index < |Remaining(s, d)|
    ensures |KeptIndices(|s|, d, 0)| == |Remaining(s, d)|
    ensures KeptIndices(|s|, d, 0)[index] < |s|
    ensures Remaining(s, d + {KeptIndices(|s|, d, 0)[index]}) == Remaining(s, d)[..index] + Remaining(s, d)[index + 1..]
  {
    var remaining := Remaining(s, d);
    KeptAt(s, d, 0);
    var ks := KeptIndices(|s|, d, 0);
    var k := ks[index];
    KeptIndicesWithout(|s|, d, 0, index);
    KeptAt(s, d + {k}, 0);
    var remaining' := Remaining(s, d + {k});
    forall i | 0 <= i < |remaining'|
      ensures remaining'[i] == (remaining[..index] + remaining[index + 1..])[i]
    {
      if i < index {
        assert KeptIndices(|s|, d + {k}, 0)[i] == ks[i];
      } else {
        assert KeptIndices(|s|, d + {k}, 0)[i] == ks[i + 1];
      }
    }
  }

  /** Without repeated members, `indexOf` finds the very position a remaining index stands for. */
  lemma IndexOfRemaining(s: seq<nat>, d: set<nat>, index: nat)
    requires Distinct(s) && index < |Remaining(s, d)|
    ensures |KeptIndices(|s|, d, 0)| == |Remaining(s, d)|
    ensures IndexOf(s, Remaining(s, d)[index]) == KeptIndices(|s|, d, 0)[index]
  {
    KeptAt(s, d, 0);
    var k := KeptIndices(|s|, d, 0)[index];
    var first := IndexOf(s, s[k]);
    assert s[first] == s[k];
  }

  /**
   * When no entity is stored twice, deleting a public index removes exactly
   * that member from the public view, whichever branch handles it.
   */
  lemma DeleteAtShrinksView(c: CollectionState, index: int)
    requires Distinct(c.storedEntities)
    requires 0 <= index < |View(c)|
    ensures View(DeleteAt(c, index)) == View(c)[..index] + View(c)[index + 1..]
  {
    var s, d := c.storedEntities, c.deletedIndices;
    var remaining := Remaining(s, d);
    if index < |remaining| {
      IndexOfRemaining(s, d, index);
      RemainingWithout(s, d, index);
      assert View(c)[..index] + View(c)[index + 1..] == (remaining[..index] + remaining[index + 1..]) + c.newEntities;
    } else {
      assert View(c)[..index] + View(c)[index + 1..]
          == remaining + (c.newEntities[..index - |remaining|] + c.newEntities[index - |remaining| + 1..]);
    }
  }

  // ---------------------------------------------------------------------------
  // Consolidating a collection

  /** The collection part of consolidation: tombstoned members go, new ones become stored. */
  function Promote(c: CollectionState): (w: CollectionState)
    ensures w.storedEntities == View(c)
    ensures w.newEntities == [] && w.deletedIndices == {}
    ensures View(w) == View(c)
    ensures TombstonesInRange(w)
    ensures w == c.(storedEntities := w.storedEntities, newEntities := [], deletedIndices := {})
  {
    var w := c.(storedEntities := View(c), newEntities := [], deletedIndices := {});
    KeptNothingDeleted(View(c), 0);
    w
  }

  /** With nothing tombstoned every stored member remains. */
  lemma {:induction false} KeptNothingDeleted(stored: seq<nat>, lo: nat)
    requires lo <= |stored|
    ensures Kept(stored, {}, lo) == stored[lo..]
    decreases |stored| - lo
  {
    if lo < |stored| {
      KeptNothingDeleted(stored, lo + 1);
      assert stored[lo..] == [stored[lo]] + stored[lo + 1..];
    }
  }

  /** Consolidating a consolidated collection changes nothing. */
  lemma PromoteIdempotent(c: CollectionState)
    ensures Promote(Promote(c)) == Promote(c)
  {
    assert View(Promote(c)) + [] == View(Promote(c));
  }

  /** The members kept from position `lo` on are stored from `lo` on. */
  lemma {:induction false} KeptWithin(stored: seq<nat>, deleted: set<nat>, lo: nat)
    requires lo <= |stored|
    ensures forall x :: x in Kept(stored, deleted, lo) ==> x in stored[lo..]
    decreases |stored| - lo
  {
    if lo < |stored| {
      KeptWithin(stored, deleted, lo + 1);
      assert stored[lo..] == [stored[lo]] + stored[lo + 1..];
    }
  }

  /** Dropping tombstoned members keeps the members listed once. */
  lemma {:induction false} KeptDistinct(stored: seq<nat>, deleted: set<nat>, lo: nat, added: seq<nat>)
    requires lo <= |stored| && Distinct(stored[lo..] + added)
    ensures Distinct(Kept(stored, deleted, lo) + added)
    decreases |stored| - lo
  {
    if lo < |stored| {
      var xs := stored[lo..] + added;
      var tail := stored[lo + 1..] + added;
      assert xs == [stored[lo]] + tail;
      assert Distinct(tail) by {
        forall a, b | 0 <= a < b < |tail| ensures tail[a] != tail[b] {
          assert tail[a] == xs[a + 1] && tail[b] == xs[b + 1];
        }
      }
      KeptDistinct(stored, deleted, lo + 1, added);
      var rest := Kept(stored, deleted, lo + 1) + added;
      if lo !in deleted {
        KeptWithin(stored, deleted, lo + 1);
        assert stored[lo] !in tail by {
          forall b | 0 <= b < |tail| ensures tail[b] != stored[lo] {
            assert tail[b] == xs[b + 1] && xs[0] == stored[lo];
          }
        }
        assert stored[lo] !in rest;
        var ys := [stored[lo]] + rest;
        assert Kept(stored, deleted, lo) + added == ys;
        forall a, b | 0 <= a < b < |ys| ensures ys[a] != ys[b] {
          if a == 0 {
            assert ys[b] == rest[b - 1];
          } else {
            assert ys[a] == rest[a - 1] && ys[b] == rest[b - 1];
          }
        }
      } else {
        assert Kept(stored, deleted, lo) + added == rest;
      }
    } else {
      assert stored[lo..] + added == added;
    }
  }

  /** The public view lists every member once when the two lists together do. */
  lemma ViewDistinct(c: CollectionState)
    requires Distinct(c.storedEntities + c.newEntities)
    ensures Distinct(View(c))
  {
    assert c.storedEntities[0..] == c.storedEntities;
    KeptDistinct(c.storedEntities, c.deletedIndices, 0, c.newEntities);
  }

  /** Removing the tombstoned positions one by one, highest first, from position `k` down. */
  lemma {:induction false} SpliceHighestFirst(stored: seq<nat>, deleted: set<nat>, k: nat)
    requires k < |stored|
    ensures k in deleted ==> stored[..k] + Kept(stored, deleted, k + 1) == (stored[..k + 1] + Kept(stored, deleted, k + 1))[..k]
                                + (stored[..k + 1] + Kept(stored, deleted, k + 1))[k + 1..]
    ensures stored[..k] + Kept(stored, deleted, k)
         == if k in deleted then stored[..k] + Kept(stored, deleted, k + 1)
            else stored[..k + 1] + Kept(stored, deleted, k + 1)
  {
    var rest := Kept(stored, deleted, k + 1);
    var whole := stored[..k + 1] + rest;
    assert stored[..k + 1] == stored[..k] + [stored[k]];
    assert whole[..k] == stored[..k];
    assert whole[k + 1..] == rest;
    if k in deleted {
      assert Kept(stored, deleted, k) == [] + rest == rest;
    } else {
      assert Kept(stored, deleted, k) == [stored[k]] + rest;
      assert whole == stored[..k] + ([stored[k]] + rest);
    }
  }

  /**
   * The order the source splices tombstones in: `Array.from(set)`, in the
   * set's insertion order, then `.sort().reverse()`. The default `sort`
   * compares the decimal texts of the indices, not their values.
   */
  function AsWrittenSpliceOrder(insertionOrder: seq<nat>): (r: seq<nat>)
    ensures |r| == |insertionOrder|
  {
    Reverse(SortByText(insertionOrder))
  }

  function Reverse(xs: seq<nat>): (r: seq<nat>)
    ensures |r| == |xs|
  {
    if xs == [] then [] else Reverse(xs[1..]) + [xs[0]]
  }

  /** Code-unit order of strings, as the default comparator of `Array.prototype.sort` uses. */
  predicate TextBefore(a: string, b: string) {
    if a == [] then b != []
    else if b == [] then false
    else if a[0] != b[0] then a[0] < b[0]
    else TextBefore(a[1..], b[1..])
  }

  /** An insertion sort by decimal text. */
  function SortByText(xs: seq<nat>): (r: seq<nat>)
    ensures |r| == |xs|
  {
    if xs == [] then [] else InsertByText(xs[0], SortByText(xs[1..]))
  }

  function InsertByText(x: nat, sorted: seq<nat>): (r: seq<nat>)
    ensures |r| == |sorted| + 1
  {
    if sorted == [] || !TextBefore(NatToString(sorted[0]), NatToString(x)) then [x] + sorted
    else [sorted[0]] + InsertByText(x, sorted[1..])
  }

  /** Splicing positions out one after the other, in the given order. */
  function SpliceInOrder(stored: seq<nat>, order: seq<nat>): seq<nat> {
    if order == [] then stored
    else if order[0] < |stored| then SpliceInOrder(stored[..order[0]] + stored[order[0] + 1..], order[1..])
    else SpliceInOrder(stored, order[1..])
  }

  /** Positions without tombstones between `lo` and `hi` are kept as a block. */
  lemma {:induction false} KeptBlock(stored: seq<nat>, deleted: set<nat>, lo: nat, hi: nat)
    requires lo <= hi <= |stored|
    requires forall i :: lo <= i < hi ==> i !in deleted
    ensures Kept(stored, deleted, lo) == stored[lo..hi] + Kept(stored, deleted, hi)
    decreases hi - lo
  {
    if lo < hi {
      KeptBlock(stored, deleted, lo + 1, hi);
      assert Kept(stored, deleted, lo) == [stored[lo]] + Kept(stored, deleted, lo + 1);
      assert stored[lo..hi] == [stored[lo]] + stored[lo + 1..hi];
    }
  }

  /** The text order puts 10 before 2, so reversed it splices position 2 first. */
  lemma TextOrderOfTwoAndTen()
    ensures AsWrittenSpliceOrder([2, 10]) == [2, 10]
  {
    assert NatToString(2) == "2";
    assert NatToString(1) == "1";
    assert NatToString(10) == "10";
    assert TextBefore("10", "2");
    assert SortByText([10]) == [10];
    assert SortByText([2, 10]) == [10, 2];
    assert Reverse([2]) == [2];
  }

  /** Twelve members, numbered by their positions. */
  function Twelve(): (s: seq<nat>)
    ensures |s| == 12 && forall i :: 0 <= i < 12 ==> s[i] == i
  {
    [0, 1, 2, 3, 4, 5, 6, 7, 8, 9, 10, 11]
  }

  /** The members kept from position 3 on when positions 2 and 10 of twelve are tombstoned. */
  lemma KeptOfTwelveFromThree()
    ensures Kept(Twelve(), {2, 10}, 3) == Twelve()[3..10] + Twelve()[11..]
  {
    var stored := Twelve();
    var d: set<nat> := {2, 10};
    KeptBlock(stored, d, 3, 10);
    KeptBlock(stored, d, 11, 12);
    assert Kept(stored, d, 10) == Kept(stored, d, 11);
    assert Kept(stored, d, 12) == [];
    assert stored[11..12] == stored[11..];
  }

  /** The members left when positions 2 and 10 of twelve are tombstoned. */
  lemma RemainingOfTwelve()
    ensures Remaining(Twelve(), {2, 10}) == Twelve()[..2] + Twelve()[3..10] + Twelve()[11..]
  {
    var stored := Twelve();
    var d: set<nat> := {2, 10};
    KeptOfTwelveFromThree();
    KeptBlock(stored, d, 0, 2);
    assert Kept(stored, d, 2) == Kept(stored, d, 3);
    assert stored[0..2] == stored[..2];
    assert Remaining(stored, d) == stored[..2] + (stored[3..10] + stored[11..]);
  }

  /**
   * With twelve stored members and positions 2 and 10 tombstoned, the text
   * order splices position 2 first and then position 10 of the shortened
   * list: the members stored at 2 and 11 go, and the tombstoned member at 10
   * stays, where the tombstones promise the members at 2 and 10 gone. (With
   * eleven members the second splice finds nothing and the source throws.)
   */
  lemma TextOrderSplicesWrongMember()
    ensures SpliceInOrder(Twelve(), AsWrittenSpliceOrder([2, 10])) == Twelve()[..2] + Twelve()[3..11]
    ensures SpliceInOrder(Twelve(), AsWrittenSpliceOrder([2, 10])) != Remaining(Twelve(), {2, 10})
  {
    TextOrderOfTwoAndTen();
    RemainingOfTwelve();
    var stored := Twelve();
    var once := stored[..2] + stored[3..];
    assert once[..10] + once[11..] == stored[..2] + stored[3..11];
    assert SpliceInOrder(stored, [2, 10]) == SpliceInOrder(once, [10]);
    assert (stored[..2] + stored[3..11])[9] == 10;
    assert (stored[..2] + stored[3..10] + stored[11..])[9] == 11;
  }

  // ---------------------------------------------------------------------------
  // Re-indexing tombstones after a stored member is removed

  /** Tombstones below the removed position stay; those above move down by one. */
  function Remap(deleted: set<nat>, k: nat): set<nat> {
    (set i | i in deleted && i < k) + (set i | i in deleted && i > k :: i - 1)
  }

  /** A remapped tombstone at `j` stands for the old one at `j`, below `k`, or at `j + 1` from `k` on. */
  lemma RemapMembership(deleted: set<nat>, k: nat, j: nat)
    ensures j in Remap(deleted, k) <==> if j < k then j in deleted else j + 1 in deleted
  {
    var high := set i | i in deleted && i > k :: i - 1;
    if j >= k && j + 1 in deleted {
      assert (j + 1) - 1 in high;
    }
    if j in high {
      var i :| i in deleted && i > k && j == i - 1;
    }
  }

  /**
   * After splicing out position `k`, the remapped tombstones denote exactly the
   * members the old ones denoted, the removed position's own tombstone aside,
   * and they stay within the shortened list.
   */
  lemma RemapKeepsMembers(stored: seq<nat>, deleted: set<nat>, k: nat)
    requires k < |stored|
    requires forall i :: i in deleted ==> i < |stored|
    ensures var spliced := stored[..k] + stored[k + 1..];
            && (forall j :: j in Remap(deleted, k) ==> j < |spliced|)
            && (set j | j in Remap(deleted, k) :: spliced[j]) == (set i | i in deleted && i != k :: stored[i])
  {
    var spliced := stored[..k] + stored[k + 1..];
    var r := Remap(deleted, k);
    forall j | j in r ensures j < |spliced| {
      RemapMembership(deleted, k, j);
    }
    var lhs := set j | j in r :: spliced[j];
    var rhs := set i | i in deleted && i != k :: stored[i];
    forall x | x in lhs ensures x in rhs {
      var j :| j in r && spliced[j] == x;
      RemapMembership(deleted, k, j);
      SplicedAt(stored, k, j);
      if j < k && j in deleted {
        assert stored[j] == x;
      } else {
        assert stored[j + 1] == x && j + 1 in deleted && j + 1 != k;
      }
    }
    forall x | x in rhs ensures x in lhs {
      var i :| i in deleted && i != k && stored[i] == x;
      if i < k {
        RemapMembership(deleted, k, i);
        SplicedAt(stored, k, i);
      } else {
        RemapMembership(deleted, k, i - 1);
        SplicedAt(stored, k, i - 1);
      }
    }
  }

  /** Position `j` of the list with position `k` spliced out. */
  lemma SplicedAt(stored: seq<nat>, k: nat, j: nat)
    requires k < |stored| && j < |stored| - 1
    ensures (stored[..k] + stored[k + 1..])[j] == if j < k then stored[j] else stored[j + 1]
  {
  }
}
