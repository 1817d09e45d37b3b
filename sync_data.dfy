/**
 * `entitySyncData(entity, data)` (composable/entity/sync-data.js) and the
 * proxy traps it drives: the entity `set` trap
 * (composable/entity/entity.js:98-124), the collection `set` trap and `add`
 * (composable/entity/entity-collection.js:59-68, 91-105).
 *
 * Syncing an entity writes undefined through every name it owns and then
 * writes every enumerable name of the data. Syncing a collection tombstones
 * every stored member, drops the new ones, re-syncs each stored member whose
 * primary value some element of the data carries (the first such element,
 * which is taken out), and adds a new member for every element left over.
 *
 * A JavaScript exception is an `Err` result; the partial state it leaves is
 * only constrained by the store invariant and the frame.
 */
module SyncData {
  import opened JsValues
  import opened Definitions
  import opened Records
  import opened Entities
  import opened Ownership

  // ---------------------------------------------------------------------------
  // What `for (const key in data)` visits

  /** The index names "0", "1", ... of an array of length `n`. */
  function IndexNames(n: nat): (r: set<string>)
    ensures forall i :: 0 <= i < n ==> NatToString(i) in r
    ensures forall k :: k in r ==> ParseIndex(k).Some? && ParseIndex(k).value < n
  {
    if n == 0 then {}
    else
      ParseIndexRoundTrip(n - 1);
      IndexNames(n - 1) + {NatToString(n - 1)}
  }

  /**
   * The names a `for ... in` loop visits in `data`, with the value read under
   * each: the fields of a plain object, the index names of an array; nothing
   * for null, a date or a primitive.
   */
  function Entries(data: Value): (m: map<string, Value>)
    ensures data.Obj? ==> m == data.fields
    ensures !data.Obj? && !data.Arr? ==> m == map[]
  {
    match data
    case Obj(fields) => fields
    case Arr(items) => map k | k in IndexNames(|items|) :: items[ParseIndex(k).value]
    case _ => map[]
  }

  /** An array is visited under the index name of each element, and under no other name. */
  lemma ArrayEntries(items: seq<Value>)
    ensures forall i :: 0 <= i < |items| ==> NatToString(i) in Entries(Arr(items)) && Entries(Arr(items))[NatToString(i)] == items[i]
    ensures forall k :: k in Entries(Arr(items)) ==> ParseIndex(k).Some? && ParseIndex(k).value < |items|
  {
    forall i | 0 <= i < |items| ensures Entries(Arr(items))[NatToString(i)] == items[i] {
      ParseIndexRoundTrip(i);
    }
  }

  /** `data[name]` as the loop reads it (undefined for a name it does not visit). */
  function Entry(data: Value, name: string): Value {
    Field(Entries(data), name)
  }

  /** The data carries one of the names whose write the entity proxy refuses. */
  predicate HasReservedName(data: Value) {
    FlagSkip in Entries(data) || FlagRaw in Entries(data)
  }

  // ---------------------------------------------------------------------------
  // What a synced entity holds

  /** The details a sync with the names `m` leaves: every detail name of `m` whose value is not undefined. */
  function SyncedDetails(d: Definition, m: map<string, Value>): (details: map<string, Value>)
    ensures forall k :: k in details <==> k in m && IsDetailName(d, k) && m[k] != Undefined
    ensures forall k :: k in details ==> details[k] == m[k]
  {
    map k | k in m && IsDetailName(d, k) && m[k] != Undefined :: m[k]
  }

  /**
   * An entity record after writing undefined through its own names and then
   * the names `m`: its stored values are `stored0`, every declared key reads
   * what `m` holds under it (or undefined) and is dirty exactly when that
   * differs from the stored value, and its details are the detail names of `m`.
   */
  ghost predicate AssignedFrom(stored0: map<string, Value>, r: EntityState, m: map<string, Value>) {
    && r.storedProperties == stored0
    && (forall k :: k in Keys(r.definition) ==> Effective(r, k) == Field(m, k))
    && (forall k :: k in Keys(r.definition) ==> (k in r.changedProperties <==> Field(m, k) != Field(stored0, k)))
    && r.details == SyncedDetails(r.definition, m)
  }

  /** An entity record after a sync with `data`. */
  ghost predicate EntitySynced(stored0: map<string, Value>, r: EntityState, data: Value) {
    AssignedFrom(stored0, r, Entries(data))
  }

  // ---------------------------------------------------------------------------
  // Matching stored members to array elements

  /**
   * `remainingData.findIndex(data => data[primaryKey] === primaryValue)`:
   * the first element carrying `pv`; reading the key of a null or undefined
   * element before that throws.
   */
  function FindMatch(items: seq<Value>, pk: string, pv: Value): (r: Result<Option<nat>>)
    ensures r.Ok? && r.value.Some? ==> r.value.value < |items| && Get(items[r.value.value], pk) == Ok(pv)
    ensures r.Ok? ==> forall j :: 0 <= j < (if r.value.Some? then r.value.value else |items|) ==>
                        Get(items[j], pk).Ok? && Get(items[j], pk) != Ok(pv)
    ensures r.Err? ==> exists j :: 0 <= j < |items| && IsNullish(items[j])
  {
    if items == [] then Ok(None)
    else match Get(items[0], pk)
      case Err(e) => Err(e)
      case Ok(v) =>
        if v == pv then Ok(Some(0))
        else
          var rest := FindMatch(items[1..], pk, pv);
          if rest.Err? then
            var j :| 0 <= j < |items[1..]| && IsNullish(items[1..][j]);
            assert IsNullish(items[j + 1]);
            Err(rest.error)
          else if rest.value.Some? then Ok(Some(rest.value.value + 1))
          else Ok(None)
  }

  /**
   * The matching loop of lines 37-47 over the primary values `pvs` of the
   * stored members: for each in turn, the element it matched (taken out of
   * the remaining data) or none, and the elements left over.
   */
  function Matching(pvs: seq<Value>, items: seq<Value>, pk: string): (r: Result<(seq<Option<Value>>, seq<Value>)>)
    decreases |pvs|
  {
    if pvs == [] then Ok(([], items))
    else
      var prev :- Matching(pvs[..|pvs| - 1], items, pk);
      var found :- FindMatch(prev.1, pk, pvs[|pvs| - 1]);
      if found.Some? then
        Ok((prev.0 + [Some(prev.1[found.value])], prev.1[..found.value] + prev.1[found.value + 1..]))
      else
        Ok((prev.0 + [None], prev.1))
  }

  /** One more stored member extends the matching by the outcome of its lookup. */
  lemma MatchingNext(pvs: seq<Value>, items: seq<Value>, pk: string, index: nat,
                     matched: seq<Option<Value>>, remaining: seq<Value>)
    requires index < |pvs| && Matching(pvs[..index], items, pk) == Ok((matched, remaining))
    ensures var found := FindMatch(remaining, pk, pvs[index]);
            Matching(pvs[..index + 1], items, pk) ==
              if found.Err? then Err(found.error)
              else if found.value.Some? then
                Ok((matched + [Some(remaining[found.value.value])],
                    remaining[..found.value.value] + remaining[found.value.value + 1..]))
              else Ok((matched + [None], remaining))
  {
    assert pvs[..index + 1][..index] == pvs[..index];
  }

  /** The elements matched, in the order of the stored members they went to. */
  function Picked(matched: seq<Option<Value>>): (r: seq<Value>)
    ensures |r| <= |matched|
  {
    if matched == [] then []
    else
      var last := matched[|matched| - 1];
      Picked(matched[..|matched| - 1]) + (if last.Some? then [last.value] else [])
  }

  /** One entry per stored member; each matched element carries that member's primary value. */
  lemma {:induction false} MatchingShape(pvs: seq<Value>, items: seq<Value>, pk: string)
    requires Matching(pvs, items, pk).Ok?
    ensures |Matching(pvs, items, pk).value.0| == |pvs|
    ensures forall i :: 0 <= i < |pvs| && Matching(pvs, items, pk).value.0[i].Some? ==>
              Get(Matching(pvs, items, pk).value.0[i].value, pk) == Ok(pvs[i])
    decreases |pvs|
  {
    if pvs != [] {
      MatchingShape(pvs[..|pvs| - 1], items, pk);
    }
  }

  /** No element is lost or duplicated: the matched ones and the leftover ones make up the data. */
  lemma {:induction false} MatchingConserves(pvs: seq<Value>, items: seq<Value>, pk: string)
    requires Matching(pvs, items, pk).Ok?
    ensures multiset(Picked(Matching(pvs, items, pk).value.0)) + multiset(Matching(pvs, items, pk).value.1) == multiset(items)
    decreases |pvs|
  {
    if pvs != [] {
      var init := pvs[..|pvs| - 1];
      MatchingConserves(init, items, pk);
      var prev := Matching(init, items, pk).value;
      var found := FindMatch(prev.1, pk, pvs[|pvs| - 1]).value;
      var r := Matching(pvs, items, pk).value;
      if found.Some? {
        var j := found.value;
        assert r.0 == prev.0 + [Some(prev.1[j])];
        assert r.1 == prev.1[..j] + prev.1[j + 1..];
        assert prev.1 == prev.1[..j] + [prev.1[j]] + prev.1[j + 1..];
        PickedSnoc(prev.0, Some(prev.1[j]));
      } else {
        assert r == (prev.0 + [None], prev.1);
        PickedSnoc(prev.0, None);
      }
    }
  }

  lemma PickedSnoc(matched: seq<Option<Value>>, last: Option<Value>)
    ensures Picked(matched + [last]) == Picked(matched) + (if last.Some? then [last.value] else [])
  {
    assert (matched + [last])[..|matched|] == matched;
  }

  /** Matching only fails on a null or undefined element of the data. */
  lemma {:induction false} MatchingFails(pvs: seq<Value>, items: seq<Value>, pk: string)
    requires forall j :: 0 <= j < |items| ==> !IsNullish(items[j])
    ensures Matching(pvs, items, pk).Ok?
    decreases |pvs|
  {
    if pvs != [] {
      var init := pvs[..|pvs| - 1];
      MatchingFails(init, items, pk);
      MatchingConserves(init, items, pk);
      var prev := Matching(init, items, pk).value;
      forall j | 0 <= j < |prev.1| ensures !IsNullish(prev.1[j]) {
        var x := prev.1[j];
        assert x in multiset(prev.1);
        assert x in multiset(items);
        var k :| 0 <= k < |items| && items[k] == x;
      }
      var found := FindMatch(prev.1, pk, pvs[|pvs| - 1]);
      assert found.Ok?;
    }
  }

  /**
   * What the collection branch makes of its data: the matching for an array,
   * no match and no leftover element otherwise.
   */
  function Outcome(pvs: seq<Value>, data: Value, pk: string): Result<(seq<Option<Value>>, seq<Value>)> {
    if data.Arr? then Matching(pvs, data.items, pk)
    else Ok((seq(|pvs|, _ => None), []))
  }

  /** The tombstones after the matching loop of `n` stored members: the unmatched ones. */
  function Unmatched(matched: seq<Option<Value>>, n: nat): (d: set<nat>)
    ensures forall i: nat :: i in d <==> i < n && (i >= |matched| || matched[i].None?)
  {
    set i: nat | i < n && (i >= |matched| || matched[i].None?)
  }

  /** The primary value each stored member reads (undefined for a number the store lacks). */
  function Pvs(ents: map<nat, EntityState>, stored: seq<nat>): (pvs: seq<Value>)
    ensures |pvs| == |stored|
    ensures forall i :: 0 <= i < |stored| && stored[i] in ents ==> pvs[i] == PrimaryValue(ents[stored[i]])
  {
    seq(|stored|, i requires 0 <= i < |stored| => if stored[i] in ents then PrimaryValue(ents[stored[i]]) else Undefined)
  }

  /** Lines 23-31: the new members are dropped and every stored position is tombstoned. */
  function Reset(r: CollectionState): (w: CollectionState)
    ensures w.storedEntities == r.storedEntities && w.newEntities == []
    ensures TombstonesInRange(w)
    ensures View(w) == []
  {
    var w := r.(newEntities := [], deletedIndices := Unmatched([], |r.storedEntities|));
    KeptAllDeleted(r.storedEntities, w.deletedIndices, 0);
    w
  }

  lemma {:induction false} KeptAllDeleted(stored: seq<nat>, deleted: set<nat>, lo: nat)
    requires forall i :: lo <= i < |stored| ==> i in deleted
    ensures Kept(stored, deleted, lo) == []
    decreases |stored| - lo
  {
    if lo < |stored| {
      KeptAllDeleted(stored, deleted, lo + 1);
    }
  }

  lemma ResetIdempotent(r: CollectionState)
    ensures Reset(Reset(r)) == Reset(r)
  {
  }

  // ---------------------------------------------------------------------------
  // What a synced collection holds

  /** Stored member `m` was re-synced with the element `d` it matched, or left alone when none matched. */
  ghost predicate MemberSynced(ents0: map<nat, EntityState>, ents: map<nat, EntityState>, m: nat, d: Option<Value>) {
    && m in ents0 && m in ents
    && (d.Some? ==> EntitySynced(ents0[m].storedProperties, ents[m], d.value))
    && (d.None? ==> ents[m] == ents0[m])
  }

  ghost predicate MembersSynced(ents0: map<nat, EntityState>, ents: map<nat, EntityState>,
                                stored: seq<nat>, matched: seq<Option<Value>>) {
    |matched| <= |stored| && forall i :: 0 <= i < |matched| ==> MemberSynced(ents0, ents, stored[i], matched[i])
  }

  /** `m` was created by the sync and synced with the leftover element `d`. */
  ghost predicate AddedOne(ents0: map<nat, EntityState>, ents: map<nat, EntityState>, m: nat, d: Value) {
    m !in ents0 && m in ents && EntitySynced(map[], ents[m], d)
  }

  ghost predicate AddedSynced(ents0: map<nat, EntityState>, ents: map<nat, EntityState>,
                              added: seq<nat>, leftover: seq<Value>) {
    |added| == |leftover| && forall j :: 0 <= j < |added| ==> AddedOne(ents0, ents, added[j], leftover[j])
  }

  /**
   * A collection record after a sync with `data` that did not throw: the
   * matching succeeded; the stored list is kept, the unmatched stored members
   * are tombstoned and left alone, the matched ones are re-synced with their
   * element, and the new list holds one fresh member per leftover element,
   * in order, synced with it.
   */
  ghost predicate CollectionSynced(ents0: map<nat, EntityState>, r0: CollectionState,
                                   ents: map<nat, EntityState>, r: CollectionState, data: Value) {
    var outcome := Outcome(Pvs(ents0, r0.storedEntities), data, r0.definition.primaryKey);
    && outcome.Ok?
    && r == r0.(newEntities := r.newEntities, deletedIndices := Unmatched(outcome.value.0, |r0.storedEntities|))
    && MembersSynced(ents0, ents, r0.storedEntities, outcome.value.0)
    && AddedSynced(ents0, ents, r.newEntities, outcome.value.1)
  }

  /**
   * What an entity sync leaves in one of its child collections: the stored
   * list is kept and every new member is fresh; with data that is not an
   * array the collection is reset.
   */
  ghost predicate ChildOutcome(ents0: map<nat, EntityState>, r0: CollectionState, r: CollectionState, data: Value) {
    && r.storedEntities == r0.storedEntities
    && (forall m :: m in r.newEntities ==> m !in ents0)
    && (!data.Arr? ==> r == Reset(r0))
  }

  lemma SyncedChildOutcome(ents0: map<nat, EntityState>, r0: CollectionState,
                           ents: map<nat, EntityState>, r: CollectionState, data: Value)
    requires CollectionSynced(ents0, r0, ents, r, data)
    ensures ChildOutcome(ents0, r0, r, data)
  {
    var outcome := Outcome(Pvs(ents0, r0.storedEntities), data, r0.definition.primaryKey).value;
    forall m | m in r.newEntities ensures m !in ents0 {
      var j :| 0 <= j < |r.newEntities| && r.newEntities[j] == m;
      assert AddedOne(ents0, ents, r.newEntities[j], outcome.1[j]);
    }
  }

  /** Every child collection of `r0`, numbered in `cols0`, ended as `ChildOutcome` says for its entry of `data`. */
  ghost predicate ChildrenSynced(ents0: map<nat, EntityState>, cols0: map<nat, CollectionState>,
                                 cols: map<nat, CollectionState>, r0: EntityState, data: Value) {
    |r0.children| <= |ChildNames(r0.definition)|
    && forall i :: 0 <= i < |r0.children| ==>
         r0.children[i] in cols0 && r0.children[i] in cols
         && ChildOutcome(ents0, cols0[r0.children[i]], cols[r0.children[i]], Entry(data, ChildNames(r0.definition)[i]))
  }

  // ---------------------------------------------------------------------------
  // The traps and the sync, mutually recursive

  /**
   * The entity `set` trap: a Vue flag is refused (false); a declared key
   * goes through its computed setter; a child name syncs that collection
   * (whose result is returned); anything else is written to the details,
   * undefined deleting the entry.
   */
  method SetProperty(s: Store, e: nat, name: string, value: Value) returns (r: Result<bool>)
    requires s.Valid() && e in s.entities
    modifies s
    decreases EntityHeight(s.entities[e]), 1
    ensures s.Valid()
    ensures Grows(old(s.entities), old(s.collections), old(s.next), s.entities, s.collections, s.next)
    ensures Confined(old(s.entities), old(s.collections), s.entities, s.collections, EntityRef(e))
    ensures name == FlagSkip || name == FlagRaw ==>
              r == Ok(false) && s.entities == old(s.entities) && s.collections == old(s.collections) && s.next == old(s.next)
    ensures name != FlagSkip && name != FlagRaw && IsKey(old(s.entities[e]), name) ==>
              && r == Ok(true) && s.collections == old(s.collections) && s.next == old(s.next)
              && s.entities == old(s.entities)[e := WriteKey(old(s.entities[e]), name, value)]
    ensures name != FlagSkip && name != FlagRaw && !IsKey(old(s.entities[e]), name) && IsChild(old(s.entities[e]), name) ==>
              var c := old(s.entities[e]).children[ChildSlot(old(s.entities[e]), name)];
              && c in old(s.collections) && c in s.collections && e in s.entities
              && s.entities[e] == old(s.entities[e])
              && Confined(old(s.entities), old(s.collections), s.entities, s.collections, CollectionRef(c))
              && (r.Ok? ==> r.value && CollectionSynced(old(s.entities), old(s.collections)[c], s.entities, s.collections[c], value))
              && (!value.Arr? ==>
                    && r == Ok(true) && s.entities == old(s.entities) && s.next == old(s.next)
                    && s.collections == old(s.collections)[c := Reset(old(s.collections)[c])])
    ensures name != FlagSkip && name != FlagRaw && !IsKey(old(s.entities[e]), name) && !IsChild(old(s.entities[e]), name) ==>
              && r == Ok(true) && s.collections == old(s.collections) && s.next == old(s.next)
              && s.entities == old(s.entities)[e := WriteDetail(old(s.entities[e]), name, value)]
  {
    var rec := s.entities[e];
    if name == FlagSkip || name == FlagRaw {
      return Ok(false);
    }
    if IsKey(rec, name) {
      var w := WriteKey(rec, name, value);
      RecordWriteValid(s.entities, s.collections, s.next, e, w);
      s.entities := s.entities[e := w];
      return Ok(true);
    }
    if IsChild(rec, name) {
      var i := ChildSlot(rec, name);
      ChildBelow(s.entities, s.collections, s.next, e, i);
      var c := rec.children[i];
      ghost var ents1, cols1, next1 := s.entities, s.collections, s.next;
      r := SyncCollection(s, c, value);
      AncestorKept(ents1, cols1, next1, s.entities, s.collections, CollectionRef(c), EntityRef(e));
      ChildDescends(ents1, cols1, next1, CollectionRef(c), EntityRef(e));
      ConfinedWiden(ents1, cols1, s.entities, s.collections, CollectionRef(c), EntityRef(e));
      return;
    }
    var w := WriteDetail(rec, name, value);
    DetailWriteValid(s.entities, s.collections, s.next, e, name, value);
    s.entities := s.entities[e := w];
    r := Ok(true);
  }

  /** Rewriting the values of `e` alone keeps the store valid and stays in the frame of `e`. */
  lemma RecordWriteValid(ents: map<nat, EntityState>, cols: map<nat, CollectionState>, next: nat, e: nat, w: EntityState)
    requires ValidMaps(ents, cols, next) && e in ents
    requires w == ents[e].(changedProperties := w.changedProperties, details := w.details)
    requires forall k :: k in w.details ==> k in ents[e].details
    ensures ValidMaps(ents[e := w], cols, next)
    ensures Grows(ents, cols, next, ents[e := w], cols, next)
    ensures Confined(ents, cols, ents[e := w], cols, EntityRef(e))
  {
    assert EntityOk(ents, cols, e);
    EntityUpdateValid(ents, cols, next, e, w);
    ExactUpdateConfined(ents, cols, next, ents[e := w], cols, next, e);
  }

  /** The detail branch of the `set` trap keeps the store valid and stays in the frame of `e`. */
  lemma DetailWriteValid(ents: map<nat, EntityState>, cols: map<nat, CollectionState>, next: nat,
                         e: nat, name: string, value: Value)
    requires ValidMaps(ents, cols, next) && e in ents
    requires name != FlagSkip && name != FlagRaw && !IsKey(ents[e], name) && !IsChild(ents[e], name)
    ensures ValidMaps(ents[e := WriteDetail(ents[e], name, value)], cols, next)
    ensures Grows(ents, cols, next, ents[e := WriteDetail(ents[e], name, value)], cols, next)
    ensures Confined(ents, cols, ents[e := WriteDetail(ents[e], name, value)], cols, EntityRef(e))
  {
    var w := WriteDetail(ents[e], name, value);
    assert forall k :: k in w.details ==> IsDetailName(w.definition, k) by {
      assert EntityOk(ents, cols, e);
    }
    EntityUpdateValid(ents, cols, next, e, w);
    ExactUpdateConfined(ents, cols, next, ents[e := w], cols, next, e);
  }

  /**
   * The collection branch of `entitySyncData` (lines 22-55): reset, then for
   * an array match every stored member by primary value, re-sync the matched
   * ones and un-tombstone them, then add the leftover elements.
   */
  method SyncCollection(s: Store, c: nat, data: Value) returns (r: Result<bool>)
    requires s.Valid() && c in s.collections
    modifies s
    decreases CollectionHeight(s.collections[c]), 3
    ensures s.Valid()
    ensures Grows(old(s.entities), old(s.collections), old(s.next), s.entities, s.collections, s.next)
    ensures Confined(old(s.entities), old(s.collections), s.entities, s.collections, CollectionRef(c))
    ensures c in s.collections
    ensures Outcome(Pvs(old(s.entities), old(s.collections)[c].storedEntities), data, old(s.collections)[c].definition.primaryKey).Err? ==> r.Err?
    ensures r.Ok? ==> r == Ok(true) && CollectionSynced(old(s.entities), old(s.collections)[c], s.entities, s.collections[c], data)
    ensures !data.Arr? ==>
              && r == Ok(true) && s.entities == old(s.entities) && s.next == old(s.next)
              && s.collections == old(s.collections)[c := Reset(old(s.collections)[c])]
  {
    ghost var ents0, cols0, next0 := s.entities, s.collections, s.next;
    var rec0 := s.collections[c];
    assert CollectionOk(ents0, cols0, c);
    var reset := Reset(rec0);
    ConfinedByFrame(ents0, cols0, ents0, cols0, CollectionRef(c));
    ListsStep(ents0, cols0, next0, ents0, cols0, next0, c, reset);
    s.collections := s.collections[c := reset];
    if !data.Arr? {
      return Ok(true);
    }
    var stored := rec0.storedEntities;
    ghost var colsR := s.collections;
    ResetIdempotent(rec0);
    var remaining;
    ghost var matched;
    r, remaining, matched := SyncStored(s, c, data.items);
    ghost var ents1, cols1, next1 := s.entities, s.collections, s.next;
    GrowsTrans(ents0, cols0, next0, ents0, colsR, next0, ents1, cols1, next1);
    ConfinedStep(ents0, cols0, next0, ents0, colsR, next0, ents1, cols1, CollectionRef(c), CollectionRef(c));
    if r.Err? {
      return;
    }
    ghost var added;
    r, added := AddLeftover(s, c, remaining);
    ghost var ents2, cols2, next2 := s.entities, s.collections, s.next;
    GrowsTrans(ents0, cols0, next0, ents1, cols1, next1, ents2, cols2, next2);
    ConfinedStep(ents0, cols0, next0, ents1, cols1, next1, ents2, cols2, CollectionRef(c), CollectionRef(c));
    if r.Ok? {
      LaterSynced(ents0, ents1, ents2, stored, matched, added, remaining);
    }
  }

  /**
   * Lines 37-47: every stored member whose primary value an element of the
   * data carries takes the first such element out of the data, is re-synced
   * with it and loses its tombstone. What is left of the data is returned.
   */
  method SyncStored(s: Store, c: nat, items: seq<Value>) returns (r: Result<bool>, remaining: seq<Value>, ghost matched: seq<Option<Value>>)
    requires s.Valid() && c in s.collections
    requires s.collections[c] == Reset(s.collections[c])
    modifies s
    decreases CollectionHeight(s.collections[c]), 2
    ensures s.Valid()
    ensures Grows(old(s.entities), old(s.collections), old(s.next), s.entities, s.collections, s.next)
    ensures Confined(old(s.entities), old(s.collections), s.entities, s.collections, CollectionRef(c))
    ensures c in s.collections
    ensures var outcome := Matching(Pvs(old(s.entities), old(s.collections)[c].storedEntities), items, old(s.collections)[c].definition.primaryKey);
            && (outcome.Err? ==> r.Err?)
            && (r.Ok? ==>
                  && r == Ok(true) && outcome == Ok((matched, remaining))
                  && s.collections[c] == old(s.collections)[c].(deletedIndices := Unmatched(matched, |old(s.collections)[c].storedEntities|))
                  && MembersSynced(old(s.entities), s.entities, old(s.collections)[c].storedEntities, matched))
  {
    ghost var ents0, cols0, next0 := s.entities, s.collections, s.next;
    var reset := s.collections[c];
    var pk := reset.definition.primaryKey;
    var stored := reset.storedEntities;
    ghost var pvs := Pvs(ents0, stored);
    remaining := items;
    matched := [];
    StageStart(ents0, cols0, next0, c);
    var index := 0;
    while index < |stored|
      invariant 0 <= index <= |stored| && |matched| == index
      invariant Matching(pvs[..index], items, pk) == Ok((matched, remaining))
      invariant s.Valid() && Stage(ents0, cols0, next0, s.entities, s.collections, s.next, c, reset, matched)
    {
      r, remaining, matched := SyncMember(s, c, index, remaining, ents0, cols0, next0, reset, matched, items);
      if r.Err? {
        return;
      }
      index := index + 1;
    }
    assert pvs[..|stored|] == pvs;
    StageDone(ents0, cols0, next0, s.entities, s.collections, s.next, c, reset, matched);
    r := Ok(true);
  }

  /** Before the first stored member is matched, every tombstone is in place and nothing is synced. */
  lemma StageStart(ents0: map<nat, EntityState>, cols0: map<nat, CollectionState>, next0: nat, c: nat)
    requires ValidMaps(ents0, cols0, next0) && c in cols0 && cols0[c] == Reset(cols0[c])
    ensures Stage(ents0, cols0, next0, ents0, cols0, next0, c, cols0[c], [])
  {
    assert CollectionOk(ents0, cols0, c);
    ConfinedByFrame(ents0, cols0, ents0, cols0, CollectionRef(c));
  }

  /** Once every stored member is matched, the stage is the record the sync promises. */
  lemma StageDone(ents0: map<nat, EntityState>, cols0: map<nat, CollectionState>, next0: nat,
                  ents: map<nat, EntityState>, cols: map<nat, CollectionState>, next: nat,
                  c: nat, reset: CollectionState, matched: seq<Option<Value>>)
    requires Stage(ents0, cols0, next0, ents, cols, next, c, reset, matched)
    ensures Grows(ents0, cols0, next0, ents, cols, next)
    ensures Confined(ents0, cols0, ents, cols, CollectionRef(c))
    ensures c in cols && cols[c] == reset.(deletedIndices := Unmatched(matched, |reset.storedEntities|))
    ensures MembersSynced(ents0, ents, reset.storedEntities, matched)
  {
  }

  /**
   * Lines 38-46 for stored member `index`: look up the first remaining element
   * carrying its primary value; if there is one, take it out of the remaining
   * data, re-sync the member with it and lift its tombstone.
   */
  method SyncMember(s: Store, c: nat, index: nat, remaining: seq<Value>,
                    ghost ents0: map<nat, EntityState>, ghost cols0: map<nat, CollectionState>, ghost next0: nat,
                    ghost reset: CollectionState, ghost matched: seq<Option<Value>>, ghost items: seq<Value>)
    returns (r: Result<bool>, remaining': seq<Value>, ghost matched': seq<Option<Value>>)
    requires s.Valid() && Stage(ents0, cols0, next0, s.entities, s.collections, s.next, c, reset, matched)
    requires index == |matched| < |reset.storedEntities|
    requires Matching(Pvs(ents0, reset.storedEntities)[..index], items, reset.definition.primaryKey) == Ok((matched, remaining))
    modifies s
    decreases CollectionHeight(s.collections[c]), 1
    ensures s.Valid() && c in s.collections
    ensures Grows(ents0, cols0, next0, s.entities, s.collections, s.next)
    ensures Confined(ents0, cols0, s.entities, s.collections, CollectionRef(c))
    ensures var step := Matching(Pvs(ents0, reset.storedEntities)[..index + 1], items, reset.definition.primaryKey);
            && (step.Err? ==> r.Err?)
            && (r.Ok? ==>
                  && r == Ok(true) && step == Ok((matched', remaining')) && |matched'| == index + 1
                  && Stage(ents0, cols0, next0, s.entities, s.collections, s.next, c, reset, matched'))
  {
    remaining', matched' := remaining, matched;
    StageCurrent(ents0, cols0, next0, s.entities, s.collections, s.next, c, reset, matched);
    var pk := s.collections[c].definition.primaryKey;
    var m := s.collections[c].storedEntities[index];
    ghost var pvs := Pvs(ents0, reset.storedEntities);
    MatchingNext(pvs, items, pk, index, matched, remaining);
    ghost var step := Matching(pvs[..index + 1], items, pk);
    var found := FindMatch(remaining, pk, PrimaryValue(s.entities[m]));
    assert found == FindMatch(remaining, pk, pvs[index]);
    if found.Err? {
      return Err(found.error), remaining', matched';
    }
    if found.value.Some? {
      var j := found.value.value;
      var d := remaining[j];
      remaining' := remaining[..j] + remaining[j + 1..];
      assert step == Ok((matched + [Some(d)], remaining'));
      r := Resync(s, c, index, d, ents0, cols0, next0, reset, matched);
      if r.Err? {
        return;
      }
      matched' := matched + [Some(d)];
    } else {
      NoMatchStage(ents0, cols0, next0, s.entities, s.collections, s.next, c, reset, matched);
      matched' := matched + [None];
    }
    r := Ok(true);
  }

  /** Lines 43-45: re-sync stored member `index` with the element it matched and lift its tombstone. */
  method Resync(s: Store, c: nat, index: nat, d: Value,
                ghost ents0: map<nat, EntityState>, ghost cols0: map<nat, CollectionState>, ghost next0: nat,
                ghost reset: CollectionState, ghost matched: seq<Option<Value>>)
    returns (r: Result<bool>)
    requires s.Valid() && Stage(ents0, cols0, next0, s.entities, s.collections, s.next, c, reset, matched)
    requires index == |matched| < |reset.storedEntities|
    modifies s
    decreases CollectionHeight(s.collections[c]), 0
    ensures s.Valid() && c in s.collections
    ensures Grows(ents0, cols0, next0, s.entities, s.collections, s.next)
    ensures Confined(ents0, cols0, s.entities, s.collections, CollectionRef(c))
    ensures r.Ok? ==> r == Ok(true) && Stage(ents0, cols0, next0, s.entities, s.collections, s.next, c, reset, matched + [Some(d)])
  {
    StageCurrent(ents0, cols0, next0, s.entities, s.collections, s.next, c, reset, matched);
    var m := s.collections[c].storedEntities[index];
    ghost var ents1, cols1, next1 := s.entities, s.collections, s.next;
    MemberBelow(ents1, cols1, next1, c, m);
    r := SyncEntity(s, m, d);
    MatchStage(ents0, cols0, next0, ents1, cols1, next1, s.entities, s.collections, s.next, c, reset, matched, index, d, r.Ok?);
    if r.Err? {
      return;
    }
    s.collections := s.collections[c := s.collections[c].(deletedIndices := s.collections[c].deletedIndices - {index})];
  }

  /**
   * The state of the matching loop after the first `|matched|` stored members
   * of `c`: the store grew within the frame of `c`, the matched members so far
   * are re-synced and lose their tombstones, and the members still to come
   * are untouched.
   */
  ghost predicate Stage(ents0: map<nat, EntityState>, cols0: map<nat, CollectionState>, next0: nat,
                        ents: map<nat, EntityState>, cols: map<nat, CollectionState>, next: nat,
                        c: nat, reset: CollectionState, matched: seq<Option<Value>>) {
    var stored := reset.storedEntities;
    && ValidMaps(ents0, cols0, next0) && ValidMaps(ents, cols, next)
    && Grows(ents0, cols0, next0, ents, cols, next)
    && Confined(ents0, cols0, ents, cols, CollectionRef(c))
    && c in cols && cols[c] == reset.(deletedIndices := Unmatched(matched, |stored|))
    && MembersSynced(ents0, ents, stored, matched)
    && (forall j :: |matched| <= j < |stored| ==> stored[j] in ents0 && stored[j] in ents && ents[stored[j]] == ents0[stored[j]])
  }

  /** The next stored member to match is still as it was before the sync. */
  lemma StageCurrent(ents0: map<nat, EntityState>, cols0: map<nat, CollectionState>, next0: nat,
                     ents: map<nat, EntityState>, cols: map<nat, CollectionState>, next: nat,
                     c: nat, reset: CollectionState, matched: seq<Option<Value>>)
    requires Stage(ents0, cols0, next0, ents, cols, next, c, reset, matched) && |matched| < |reset.storedEntities|
    ensures var m := reset.storedEntities[|matched|];
            && c in cols && cols[c].definition == reset.definition
            && |matched| < |cols[c].storedEntities| && cols[c].storedEntities[|matched|] == m
            && m in ents && Pvs(ents0, reset.storedEntities)[|matched|] == PrimaryValue(ents[m])
  {
  }

  /** A stored member no element matches keeps its tombstone and its record. */
  lemma NoMatchStage(ents0: map<nat, EntityState>, cols0: map<nat, CollectionState>, next0: nat,
                     ents: map<nat, EntityState>, cols: map<nat, CollectionState>, next: nat,
                     c: nat, reset: CollectionState, matched: seq<Option<Value>>)
    requires Stage(ents0, cols0, next0, ents, cols, next, c, reset, matched) && |matched| < |reset.storedEntities|
    ensures Stage(ents0, cols0, next0, ents, cols, next, c, reset, matched + [None])
  {
    UnmatchedStep(matched, Undefined, |reset.storedEntities|);
    var matched' := matched + [None];
    forall i | 0 <= i < |matched'| ensures MemberSynced(ents0, ents, reset.storedEntities[i], matched'[i]) {
      if i < |matched| {
        assert MemberSynced(ents0, ents, reset.storedEntities[i], matched[i]);
      }
    }
  }

  /** A matched stored member re-synced with its element then loses its tombstone. */
  lemma MatchStage(ents0: map<nat, EntityState>, cols0: map<nat, CollectionState>, next0: nat,
                   ents1: map<nat, EntityState>, cols1: map<nat, CollectionState>, next1: nat,
                   ents2: map<nat, EntityState>, cols2: map<nat, CollectionState>, next2: nat,
                   c: nat, reset: CollectionState, matched: seq<Option<Value>>, index: nat, d: Value, ok: bool)
    requires Stage(ents0, cols0, next0, ents1, cols1, next1, c, reset, matched) && index == |matched| < |reset.storedEntities|
    requires ValidMaps(ents2, cols2, next2) && Grows(ents1, cols1, next1, ents2, cols2, next2)
    requires var m := reset.storedEntities[|matched|];
             && m in ents1 && Confined(ents1, cols1, ents2, cols2, EntityRef(m))
             && m in ents2 && (ok ==> EntitySynced(ents1[m].storedProperties, ents2[m], d))
    ensures Grows(ents0, cols0, next0, ents2, cols2, next2)
    ensures Confined(ents0, cols0, ents2, cols2, CollectionRef(c))
    ensures c in cols2
    ensures ok ==>
              var cols3 := cols2[c := cols2[c].(deletedIndices := cols2[c].deletedIndices - {index})];
              Stage(ents0, cols0, next0, ents2, cols3, next2, c, reset, matched + [Some(d)])
  {
    var stored := reset.storedEntities;
    MatchedStep(ents0, cols0, next0, ents1, cols1, next1, ents2, cols2, next2, c, stored, matched, |matched|, d, ok);
    if ok {
      UnmatchedStep(matched, d, |stored|);
      var updated := cols2[c].(deletedIndices := cols2[c].deletedIndices - {|matched|});
      ListsStep(ents0, cols0, next0, ents2, cols2, next2, c, updated);
    }
  }

  /** Marking stored position `|matched|` as matched or unmatched. */
  lemma UnmatchedStep(matched: seq<Option<Value>>, d: Value, n: nat)
    ensures Unmatched(matched + [Some(d)], n) == Unmatched(matched, n) - {|matched|}
    ensures Unmatched(matched + [None], n) == Unmatched(matched, n)
  {
  }

  /**
   * Lines 49-51: `collection.add` for every leftover element, in order. The
   * new list starts empty after the reset.
   */
  method AddLeftover(s: Store, c: nat, leftover: seq<Value>) returns (r: Result<bool>, ghost added: seq<nat>)
    requires s.Valid() && c in s.collections && s.collections[c].newEntities == []
    modifies s
    decreases CollectionHeight(s.collections[c]), 1
    ensures s.Valid()
    ensures Grows(old(s.entities), old(s.collections), old(s.next), s.entities, s.collections, s.next)
    ensures Confined(old(s.entities), old(s.collections), s.entities, s.collections, CollectionRef(c))
    ensures c in s.collections
    ensures forall x :: x in old(s.entities) ==> x in s.entities && s.entities[x] == old(s.entities)[x]
    ensures (exists j :: 0 <= j < |leftover| && HasReservedName(leftover[j])) ==> r.Err?
    ensures r.Ok? ==>
              && r == Ok(true)
              && s.collections[c] == old(s.collections)[c].(newEntities := added)
              && AddedSynced(old(s.entities), s.entities, added, leftover)
  {
    ghost var ents0, cols0, next0 := s.entities, s.collections, s.next;
    ghost var rec0 := s.collections[c];
    added := [];
    ConfinedByFrame(ents0, cols0, ents0, cols0, CollectionRef(c));
    var k := 0;
    while k < |leftover|
      invariant 0 <= k <= |leftover| && |added| == k
      invariant s.Valid() && Adding(ents0, cols0, next0, s.entities, s.collections, s.next, c, rec0, added, leftover[..k])
    {
      ghost var ents1, cols1, next1 := s.entities, s.collections, s.next;
      var n := Add(s, c, leftover[k]);
      AddedStep(ents0, cols0, next0, ents1, cols1, next1, s.entities, s.collections, s.next, c, rec0, added, leftover, k, n);
      if n.Err? {
        return Err(n.error), added;
      }
      added := added + [n.value];
      k := k + 1;
    }
    assert leftover[..k] == leftover;
    r := Ok(true);
  }

  /**
   * The state of the loop of lines 49-51 in collection `c`, whose record was
   * `rec0`: the members `added` so far were created for the elements `done`.
   */
  ghost predicate Adding(ents0: map<nat, EntityState>, cols0: map<nat, CollectionState>, next0: nat,
                         ents: map<nat, EntityState>, cols: map<nat, CollectionState>, next: nat,
                         c: nat, rec0: CollectionState, added: seq<nat>, done: seq<Value>) {
    && ValidMaps(ents0, cols0, next0)
    && Grows(ents0, cols0, next0, ents, cols, next)
    && Confined(ents0, cols0, ents, cols, CollectionRef(c))
    && c in cols && cols[c] == rec0.(newEntities := added)
    && (forall x :: x in ents0 ==> x in ents && ents[x] == ents0[x])
    && AddedSynced(ents0, ents, added, done)
    && (forall j :: 0 <= j < |done| ==> !HasReservedName(done[j]))
  }

  /** The members synced by the matching loop stay synced while the leftover elements are added. */
  lemma LaterSynced(ents0: map<nat, EntityState>, ents1: map<nat, EntityState>, ents2: map<nat, EntityState>,
                    stored: seq<nat>, matched: seq<Option<Value>>, added: seq<nat>, leftover: seq<Value>)
    requires forall x :: x in ents0 ==> x in ents1
    requires forall x :: x in ents1 ==> x in ents2 && ents2[x] == ents1[x]
    requires MembersSynced(ents0, ents1, stored, matched)
    requires AddedSynced(ents1, ents2, added, leftover)
    ensures MembersSynced(ents0, ents2, stored, matched)
    ensures AddedSynced(ents0, ents2, added, leftover)
  {
    forall i | 0 <= i < |matched| ensures MemberSynced(ents0, ents2, stored[i], matched[i]) {
      assert MemberSynced(ents0, ents1, stored[i], matched[i]);
    }
    forall j | 0 <= j < |added| ensures AddedOne(ents0, ents2, added[j], leftover[j]) {
      assert AddedOne(ents1, ents2, added[j], leftover[j]);
    }
  }

  /**
   * Rewriting the lists of `c` (its tombstones, or dropping its new members)
   * keeps the store valid and growing and stays in the frame of `c`.
   */
  lemma ListsStep(ents0: map<nat, EntityState>, cols0: map<nat, CollectionState>, next0: nat,
                  ents: map<nat, EntityState>, cols: map<nat, CollectionState>, next: nat, c: nat, r: CollectionState)
    requires ValidMaps(ents0, cols0, next0) && ValidMaps(ents, cols, next) && c in cols
    requires Grows(ents0, cols0, next0, ents, cols, next) && Confined(ents0, cols0, ents, cols, CollectionRef(c))
    requires r.definition == cols[c].definition && r.root == cols[c].root && r.parent == cols[c].parent
    requires r.storedEntities == cols[c].storedEntities && (r.newEntities == cols[c].newEntities || r.newEntities == [])
    requires TombstonesInRange(r)
    ensures ValidMaps(ents, cols[c := r], next)
    ensures Grows(ents0, cols0, next0, ents, cols[c := r], next)
    ensures Confined(ents0, cols0, ents, cols[c := r], CollectionRef(c))
  {
    ListsValid(ents, cols, next, c, r);
    ConfinedByFrame(ents, cols, ents, cols[c := r], CollectionRef(c));
    ConfinedStep(ents0, cols0, next0, ents, cols, next, ents, cols[c := r], CollectionRef(c), CollectionRef(c));
  }

  /** The validity half of `ListsStep`. */
  lemma ListsValid(ents: map<nat, EntityState>, cols: map<nat, CollectionState>, next: nat, c: nat, r: CollectionState)
    requires ValidMaps(ents, cols, next) && c in cols
    requires r.definition == cols[c].definition && r.root == cols[c].root && r.parent == cols[c].parent
    requires r.storedEntities == cols[c].storedEntities && (r.newEntities == cols[c].newEntities || r.newEntities == [])
    requires TombstonesInRange(r)
    ensures ValidMaps(ents, cols[c := r], next)
  {
    var rec := cols[c];
    assert CollectionOk(ents, cols, c);
    if r.newEntities == [] {
      DistinctStored(rec.storedEntities, rec.newEntities);
      assert r.storedEntities + r.newEntities == rec.storedEntities;
    }
    CollectionUpdateValid(ents, cols, next, c, r);
  }

  /** Dropping the new members keeps the stored ones listed once. */
  lemma DistinctStored(stored: seq<nat>, added: seq<nat>)
    requires Distinct(stored + added)
    ensures Distinct(stored)
  {
    forall i, j | 0 <= i < j < |stored| ensures stored[i] != stored[j] {
      assert (stored + added)[i] == stored[i] && (stored + added)[j] == stored[j];
    }
  }

  /** The bookkeeping of one matched member: the frame and the synced members so far. */
  lemma MatchedStep(ents0: map<nat, EntityState>, cols0: map<nat, CollectionState>, next0: nat,
                    ents1: map<nat, EntityState>, cols1: map<nat, CollectionState>, next1: nat,
                    ents2: map<nat, EntityState>, cols2: map<nat, CollectionState>, next2: nat,
                    c: nat, stored: seq<nat>, matched: seq<Option<Value>>, index: nat, d: Value, ok: bool)
    requires ValidMaps(ents0, cols0, next0) && ValidMaps(ents1, cols1, next1)
    requires Grows(ents0, cols0, next0, ents1, cols1, next1) && Grows(ents1, cols1, next1, ents2, cols2, next2)
    requires Confined(ents0, cols0, ents1, cols1, CollectionRef(c))
    requires c in cols1 && cols1[c].storedEntities == stored && index < |stored| == |cols1[c].storedEntities| && |matched| == index
    requires MembersSynced(ents0, ents1, stored, matched)
    requires forall j :: index <= j < |stored| ==> stored[j] in ents0 && stored[j] in ents1 && ents1[stored[j]] == ents0[stored[j]]
    requires stored[index] in ents1 && Confined(ents1, cols1, ents2, cols2, EntityRef(stored[index]))
    requires stored[index] in ents2 && (ok ==> EntitySynced(ents1[stored[index]].storedProperties, ents2[stored[index]], d))
    ensures Grows(ents0, cols0, next0, ents2, cols2, next2)
    ensures Confined(ents0, cols0, ents2, cols2, CollectionRef(c))
    ensures c in cols2 && cols2[c] == cols1[c]
    ensures MembersSynced(ents0, ents2, stored, matched)
    ensures ok ==> MembersSynced(ents0, ents2, stored, matched + [Some(d)])
    ensures forall j :: index + 1 <= j < |stored| ==> stored[j] in ents0 && stored[j] in ents2 && ents2[stored[j]] == ents0[stored[j]]
  {
    var m := stored[index];
    assert CollectionOk(ents1, cols1, c);
    assert ents1[m].parent == Some(c);
    ChildDescends(ents1, cols1, next1, EntityRef(m), CollectionRef(c));
    ConfinedStep(ents0, cols0, next0, ents1, cols1, next1, ents2, cols2, CollectionRef(c), EntityRef(m));
    AncestorKept(ents1, cols1, next1, ents2, cols2, EntityRef(m), CollectionRef(c));
    forall j | 0 <= j < |stored| && j != index
      ensures stored[j] in ents2 && ents2[stored[j]] == ents1[stored[j]]
    {
      assert stored[j] != m by {
        assert (cols1[c].storedEntities + cols1[c].newEntities)[j] == stored[j];
        assert (cols1[c].storedEntities + cols1[c].newEntities)[index] == m;
      }
      assert ents1[stored[j]].parent == Some(c);
      SiblingKept(ents1, cols1, next1, ents2, cols2, EntityRef(stored[j]), EntityRef(m));
    }
    MembersExtend(ents0, ents1, ents2, stored, matched, d, ok);
  }

  /** The members synced so far stay synced when only the next one changes, and it joins them once synced. */
  lemma MembersExtend(ents0: map<nat, EntityState>, ents1: map<nat, EntityState>, ents2: map<nat, EntityState>,
                      stored: seq<nat>, matched: seq<Option<Value>>, d: Value, ok: bool)
    requires |matched| < |stored| && MembersSynced(ents0, ents1, stored, matched)
    requires forall j :: 0 <= j < |stored| && j != |matched| ==> stored[j] in ents1 && stored[j] in ents2 && ents2[stored[j]] == ents1[stored[j]]
    requires var m := stored[|matched|];
             m in ents0 && m in ents1 && ents1[m] == ents0[m] && m in ents2
             && (ok ==> EntitySynced(ents1[m].storedProperties, ents2[m], d))
    ensures MembersSynced(ents0, ents2, stored, matched)
    ensures ok ==> MembersSynced(ents0, ents2, stored, matched + [Some(d)])
  {
    forall i | 0 <= i < |matched| ensures MemberSynced(ents0, ents2, stored[i], matched[i]) {
      assert MemberSynced(ents0, ents1, stored[i], matched[i]);
    }
    if ok {
      var matched' := matched + [Some(d)];
      forall i | 0 <= i < |matched'| ensures MemberSynced(ents0, ents2, stored[i], matched'[i]) {
        if i < |matched| {
          assert MemberSynced(ents0, ents2, stored[i], matched[i]);
        }
      }
    }
  }

  /** The bookkeeping of one added element: the frame and the synced members so far. */
  lemma AddedStep(ents0: map<nat, EntityState>, cols0: map<nat, CollectionState>, next0: nat,
                  ents1: map<nat, EntityState>, cols1: map<nat, CollectionState>, next1: nat,
                  ents2: map<nat, EntityState>, cols2: map<nat, CollectionState>, next2: nat,
                  c: nat, rec0: CollectionState, added: seq<nat>, leftover: seq<Value>, k: nat, n: Result<nat>)
    requires k < |leftover| && Adding(ents0, cols0, next0, ents1, cols1, next1, c, rec0, added, leftover[..k])
    requires Grows(ents1, cols1, next1, ents2, cols2, next2)
    requires forall x :: x in ents1 ==> x in ents2 && ents2[x] == ents1[x]
    requires forall x :: x in cols1 && x != c ==> x in cols2 && cols2[x] == cols1[x]
    requires c in cols2 && (n.Err? ==> cols2[c] == cols1[c])
    requires HasReservedName(leftover[k]) ==> n.Err?
    requires n.Ok? ==>
               && AddedOne(ents1, ents2, n.value, leftover[k])
               && cols2[c] == cols1[c].(newEntities := cols1[c].newEntities + [n.value])
    ensures Grows(ents0, cols0, next0, ents2, cols2, next2)
    ensures Confined(ents0, cols0, ents2, cols2, CollectionRef(c))
    ensures forall x :: x in ents0 ==> x in ents2 && ents2[x] == ents0[x]
    ensures n.Ok? ==> Adding(ents0, cols0, next0, ents2, cols2, next2, c, rec0, added + [n.value], leftover[..k + 1])
  {
    ConfinedByFrame(ents1, cols1, ents2, cols2, CollectionRef(c));
    ConfinedStep(ents0, cols0, next0, ents1, cols1, next1, ents2, cols2, CollectionRef(c), CollectionRef(c));
    if n.Ok? {
      assert leftover[..k + 1] == leftover[..k] + [leftover[k]];
      AddedExtend(ents0, ents1, ents2, added, leftover[..k], n.value, leftover[k]);
    }
  }

  /** One more member created for one more element. */
  lemma AddedExtend(ents0: map<nat, EntityState>, ents1: map<nat, EntityState>, ents2: map<nat, EntityState>,
                    added: seq<nat>, done: seq<Value>, m: nat, d: Value)
    requires AddedSynced(ents0, ents1, added, done) && forall j :: 0 <= j < |done| ==> !HasReservedName(done[j])
    requires forall x :: x in ents0 ==> x in ents1
    requires forall x :: x in ents1 ==> x in ents2 && ents2[x] == ents1[x]
    requires AddedOne(ents1, ents2, m, d) && !HasReservedName(d)
    ensures AddedSynced(ents0, ents2, added + [m], done + [d])
    ensures forall j :: 0 <= j < |done + [d]| ==> !HasReservedName((done + [d])[j])
  {
    var added', done' := added + [m], done + [d];
    forall j | 0 <= j < |added'| ensures AddedOne(ents0, ents2, added'[j], done'[j]) {
      if j < |added| {
        assert AddedOne(ents0, ents1, added[j], done[j]);
      }
    }
  }

  /**
   * `collection.add(value)` for a plain value (lines 97-104): create a member,
   * sync it with the value, append it to the new members.
   */
  method Add(s: Store, c: nat, value: Value) returns (r: Result<nat>)
    requires s.Valid() && c in s.collections
    modifies s
    decreases CollectionHeight(s.collections[c]), 0
    ensures s.Valid()
    ensures Grows(old(s.entities), old(s.collections), old(s.next), s.entities, s.collections, s.next)
    ensures forall x :: x in old(s.entities) ==> x in s.entities && s.entities[x] == old(s.entities)[x]
    ensures forall x :: x in old(s.collections) && x != c ==> x in s.collections && s.collections[x] == old(s.collections)[x]
    ensures c in s.collections
    ensures HasReservedName(value) ==> r.Err?
    ensures r.Err? ==> s.collections[c] == old(s.collections)[c]
    ensures r.Ok? ==>
              && AddedOne(old(s.entities), s.entities, r.value, value)
              && s.collections[c] == old(s.collections)[c].(newEntities := old(s.collections)[c].newEntities + [r.value])
  {
    ghost var ents0, cols0, next0 := s.entities, s.collections, s.next;
    var n := s.Create(c);
    ghost var ents1, cols1, next1 := s.entities, s.collections, s.next;
    var synced := SyncEntity(s, n, value);
    AddStep(ents0, cols0, next0, ents1, cols1, next1, s.entities, s.collections, s.next, c, n);
    if synced.Err? {
      return Err(synced.error);
    }
    var rec := s.collections[c];
    s.collections := s.collections[c := rec.(newEntities := rec.newEntities + [n])];
    r := Ok(n);
  }

  /** The bookkeeping of `Add`: creating and syncing `n` leaves the rest of the store alone. */
  lemma AddStep(ents0: map<nat, EntityState>, cols0: map<nat, CollectionState>, next0: nat,
                ents1: map<nat, EntityState>, cols1: map<nat, CollectionState>, next1: nat,
                ents2: map<nat, EntityState>, cols2: map<nat, CollectionState>, next2: nat, c: nat, n: nat)
    requires ValidMaps(ents0, cols0, next0) && ValidMaps(ents2, cols2, next2) && c in cols0
    requires Grows(ents0, cols0, next0, ents1, cols1, next1) && UnchangedFrom(ents0, cols0, ents1, cols1)
    requires n !in ents0 && n in ents1 && c in cols1 && cols1[c] == cols0[c]
    requires ents1[n].definition == cols1[c].definition && ents1[n].parent == Some(c)
    requires n !in cols1[c].storedEntities && n !in cols1[c].newEntities
    requires Grows(ents1, cols1, next1, ents2, cols2, next2) && Confined(ents1, cols1, ents2, cols2, EntityRef(n))
    requires n in ents2
    ensures Grows(ents0, cols0, next0, ents2, cols2, next2)
    ensures forall x :: x in ents0 ==> x in ents2 && ents2[x] == ents0[x]
    ensures forall x :: x in cols0 ==> x in cols2 && cols2[x] == cols0[x]
    ensures var cols' := cols2[c := cols2[c].(newEntities := cols2[c].newEntities + [n])];
            ValidMaps(ents2, cols', next2) && Grows(ents0, cols0, next0, ents2, cols', next2)
  {
    FreshFrame(ents0, cols0, next0, ents1, cols1, next1, ents2, cols2, EntityRef(n));
    GrowsTrans(ents0, cols0, next0, ents1, cols1, next1, ents2, cols2, next2);
    assert cols2[c] == cols0[c];
    assert ents2[n].definition == ents1[n].definition && ents2[n].parent == ents1[n].parent;
    PushValid(ents0, cols0, next0, ents2, cols2, next2, c, n);
  }

  /** Appending a fresh member of `c` to its new members keeps the store valid and growing. */
  lemma PushValid(ents0: map<nat, EntityState>, cols0: map<nat, CollectionState>, next0: nat,
                  ents: map<nat, EntityState>, cols: map<nat, CollectionState>, next: nat, c: nat, n: nat)
    requires ValidMaps(ents, cols, next) && c in cols && n in ents
    requires Grows(ents0, cols0, next0, ents, cols, next)
    requires ents[n].definition == cols[c].definition && ents[n].parent == Some(c)
    requires n !in cols[c].storedEntities && n !in cols[c].newEntities
    ensures var cols' := cols[c := cols[c].(newEntities := cols[c].newEntities + [n])];
            ValidMaps(ents, cols', next) && Grows(ents0, cols0, next0, ents, cols', next)
  {
    var rec := cols[c];
    var updated := rec.(newEntities := rec.newEntities + [n]);
    assert CollectionOk(ents, cols, c);
    assert Distinct(updated.storedEntities + updated.newEntities) by {
      var xs := rec.storedEntities + rec.newEntities;
      assert updated.storedEntities + updated.newEntities == xs + [n];
      assert n !in xs;
    }
    CollectionUpdateValid(ents, cols, next, c, updated);
  }

  // ---------------------------------------------------------------------------
  // The entity branch of `entitySyncData` (lines 8-20)

  /**
   * Lines 8-20: write undefined through every name the entity owns (its
   * declared keys, then its child names, then its details), then, for data
   * of object type, write every name the data carries. A write the trap
   * refuses throws.
   */
  method SyncEntity(s: Store, e: nat, data: Value) returns (r: Result<bool>)
    requires s.Valid() && e in s.entities
    modifies s
    decreases EntityHeight(s.entities[e]), 4
    ensures s.Valid()
    ensures Grows(old(s.entities), old(s.collections), old(s.next), s.entities, s.collections, s.next)
    ensures Confined(old(s.entities), old(s.collections), s.entities, s.collections, EntityRef(e))
    ensures e in s.entities
    ensures HasReservedName(data) ==> r.Err?
    ensures r.Ok? ==>
              && r == Ok(true)
              && EntitySynced(old(s.entities)[e].storedProperties, s.entities[e], data)
              && ChildrenSynced(old(s.entities), old(s.collections), s.collections, old(s.entities)[e], data)
  {
    ghost var ents0, cols0, next0 := s.entities, s.collections, s.next;
    var rec0 := s.entities[e];
    r := ClearKeys(s, e);
    ghost var ents1, cols1, next1 := s.entities, s.collections, s.next;
    ExactUpdateConfined(ents0, cols0, next0, ents1, cols1, next1, e);
    if r.Err? {
      return;
    }
    r := ClearChildren(s, e);
    ghost var ents2, cols2, next2 := s.entities, s.collections, s.next;
    ConfinedStep(ents0, cols0, next0, ents1, cols1, next1, ents2, cols2, EntityRef(e), EntityRef(e));
    GrowsTrans(ents0, cols0, next0, ents1, cols1, next1, ents2, cols2, next2);
    if r.Err? {
      return;
    }
    r := ClearDetails(s, e);
    ghost var ents3, cols3, next3 := s.entities, s.collections, s.next;
    ExactUpdateConfined(ents2, cols2, next2, ents3, cols3, next3, e);
    ConfinedStep(ents0, cols0, next0, ents2, cols2, next2, ents3, cols3, EntityRef(e), EntityRef(e));
    GrowsTrans(ents0, cols0, next0, ents2, cols2, next2, ents3, cols3, next3);
    if r.Err? {
      return;
    }
    r := AssignEntries(s, e, data);
    ConfinedStep(ents0, cols0, next0, ents3, cols3, next3, s.entities, s.collections, EntityRef(e), EntityRef(e));
    GrowsTrans(ents0, cols0, next0, ents3, cols3, next3, s.entities, s.collections, s.next);
    if r.Ok? {
      ChildrenCompose(ents0, cols0, next0, ents3, cols3, next3, s.entities, s.collections, rec0, data);
    }
  }

  /** A phase that rewrote the non-structural fields of `e` alone stayed in the frame of `e`. */
  lemma ExactUpdateConfined(ents0: map<nat, EntityState>, cols0: map<nat, CollectionState>, next0: nat,
                            ents1: map<nat, EntityState>, cols1: map<nat, CollectionState>, next1: nat, e: nat)
    requires e in ents0 && e in ents1 && ents1 == ents0[e := ents1[e]] && cols1 == cols0 && next1 == next0
    requires SameShape(ents0[e], ents1[e])
    ensures Grows(ents0, cols0, next0, ents1, cols1, next1)
    ensures Confined(ents0, cols0, ents1, cols1, EntityRef(e))
  {
    ConfinedByFrame(ents0, cols0, ents1, cols1, EntityRef(e));
  }

  /** The child collections after the reset of lines 9-11 and the writes of lines 14-16. */
  lemma ChildrenCompose(ents0: map<nat, EntityState>, cols0: map<nat, CollectionState>, next0: nat,
                        ents3: map<nat, EntityState>, cols3: map<nat, CollectionState>, next3: nat,
                        ents: map<nat, EntityState>, cols: map<nat, CollectionState>, r0: EntityState, data: Value)
    requires Grows(ents0, cols0, next0, ents3, cols3, next3)
    requires |r0.children| <= |ChildNames(r0.definition)|
    requires forall i :: 0 <= i < |r0.children| ==> r0.children[i] in cols0
    requires cols3 == ResetAll(cols0, r0.children)
    requires ChildrenAssigned(ents3, cols3, cols, r0, Entries(data))
    ensures ChildrenSynced(ents0, cols0, cols, r0, data)
  {
    var names := ChildNames(r0.definition);
    forall i | 0 <= i < |r0.children|
      ensures ChildOutcome(ents0, cols0[r0.children[i]], cols[r0.children[i]], Entry(data, names[i]))
    {
      var c := r0.children[i];
      assert cols3[c] == Reset(cols0[c]);
      assert ChildAssigned(ents3, cols3[c], cols[c], Entries(data), names[i]);
    }
  }

  /** Each collection numbered in `cs` reset, in turn. */
  function ResetAll(cols: map<nat, CollectionState>, cs: seq<nat>): (r: map<nat, CollectionState>)
    requires forall i :: 0 <= i < |cs| ==> cs[i] in cols
    ensures r.Keys == cols.Keys
    ensures forall x :: x in cols && x !in cs ==> r[x] == cols[x]
    ensures forall i :: 0 <= i < |cs| ==> r[cs[i]] == Reset(cols[cs[i]])
    decreases |cs|
  {
    if cs == [] then cols
    else
      var init := cs[..|cs| - 1];
      assert forall x :: x in init ==> x in cs;
      var prev := ResetAll(cols, init);
      assert forall i :: 0 <= i < |init| ==> init[i] == cs[i];
      prev[cs[|cs| - 1] := Reset(prev[cs[|cs| - 1]])]
  }

  /** What the write of one name of the data leaves in the child collection named `name`. */
  ghost predicate ChildAssigned(ents0: map<nat, EntityState>, r0: CollectionState, r: CollectionState,
                                m: map<string, Value>, name: string) {
    if name in m then ChildOutcome(ents0, r0, r, m[name]) else r == r0
  }

  ghost predicate ChildrenAssigned(ents0: map<nat, EntityState>, cols0: map<nat, CollectionState>,
                                   cols: map<nat, CollectionState>, r0: EntityState, m: map<string, Value>) {
    |r0.children| <= |ChildNames(r0.definition)|
    && forall i :: 0 <= i < |r0.children| ==>
         r0.children[i] in cols0 && r0.children[i] in cols
         && ChildAssigned(ents0, cols0[r0.children[i]], cols[r0.children[i]], m, ChildNames(r0.definition)[i])
  }

  /** Line 10 for the declared keys: each reads undefined afterwards. */
  method ClearKeys(s: Store, e: nat) returns (r: Result<bool>)
    requires s.Valid() && e in s.entities
    modifies s
    decreases EntityHeight(s.entities[e]), 2
    ensures s.Valid() && s.collections == old(s.collections) && s.next == old(s.next)
    ensures e in s.entities && s.entities == old(s.entities)[e := s.entities[e]]
    ensures s.entities[e] == old(s.entities)[e].(changedProperties := s.entities[e].changedProperties)
    ensures r.Ok? ==> r == Ok(true) && AssignedFrom(old(s.entities)[e].storedProperties, s.entities[e].(details := map[]), map[])
  {
    ghost var ents0 := s.entities;
    var rec0 := s.entities[e];
    var keys := Keys(rec0.definition);
    var i := 0;
    while i < |keys|
      invariant 0 <= i <= |keys|
      invariant s.Valid() && s.collections == old(s.collections) && s.next == old(s.next)
      invariant e in s.entities && s.entities == ents0[e := s.entities[e]]
      invariant s.entities[e] == rec0.(changedProperties := s.entities[e].changedProperties)
      invariant KeysCleared(rec0, s.entities[e], keys[..i])
    {
      ghost var cur, ents1 := s.entities[e], s.entities;
      assert IsKey(cur, keys[i]);
      var ok := SetProperty(s, e, keys[i], Undefined);
      if ok != Ok(true) {
        return Err(TypeError);
      }
      assert keys[i] != FlagSkip && keys[i] != FlagRaw;
      assert s.entities == ents1[e := WriteKey(cur, keys[i], Undefined)];
      assert s.entities == ents0[e := WriteKey(cur, keys[i], Undefined)];
      ClearKeyStep(rec0, cur, keys, i);
      i := i + 1;
    }
    ClearKeysDone(rec0, s.entities[e], keys);
    r := Ok(true);
  }

  /** Every key of `ks` reads undefined in `cur` and is changed exactly where `r0` stored a value. */
  ghost predicate KeysCleared(r0: EntityState, cur: EntityState, ks: seq<string>) {
    forall k :: k in ks ==>
      Effective(cur, k) == Undefined && (k in cur.changedProperties <==> Field(r0.storedProperties, k) != Undefined)
  }

  lemma ClearKeyStep(r0: EntityState, cur: EntityState, keys: seq<string>, i: nat)
    requires i < |keys| && cur == r0.(changedProperties := cur.changedProperties)
    requires KeysCleared(r0, cur, keys[..i])
    ensures var w := WriteKey(cur, keys[i], Undefined);
            w == r0.(changedProperties := w.changedProperties) && KeysCleared(r0, w, keys[..i + 1])
  {
    assert keys[..i + 1] == keys[..i] + [keys[i]];
  }

  lemma ClearKeysDone(r0: EntityState, cur: EntityState, keys: seq<string>)
    requires keys == Keys(r0.definition) && cur == r0.(changedProperties := cur.changedProperties)
    requires KeysCleared(r0, cur, keys[..|keys|])
    ensures AssignedFrom(r0.storedProperties, cur.(details := map[]), map[])
  {
    assert keys[..|keys|] == keys;
  }

  /** Line 10 for the child names: each child collection is reset. */
  method ClearChildren(s: Store, e: nat) returns (r: Result<bool>)
    requires s.Valid() && e in s.entities
    modifies s
    decreases EntityHeight(s.entities[e]), 2
    ensures s.Valid()
    ensures Grows(old(s.entities), old(s.collections), old(s.next), s.entities, s.collections, s.next)
    ensures Confined(old(s.entities), old(s.collections), s.entities, s.collections, EntityRef(e))
    ensures s.entities == old(s.entities) && s.next == old(s.next)
    ensures |old(s.entities)[e].children| == |ChildNames(old(s.entities)[e].definition)|
    ensures forall i :: 0 <= i < |old(s.entities)[e].children| ==> old(s.entities)[e].children[i] in old(s.collections)
    ensures r.Ok? ==> r == Ok(true) && s.collections == ResetAll(old(s.collections), old(s.entities)[e].children)
  {
    ghost var ents0, cols0, next0 := s.entities, s.collections, s.next;
    var rec := s.entities[e];
    assert EntityOk(ents0, cols0, e);
    var names := ChildNames(rec.definition);
    var j := 0;
    while j < |names|
      invariant 0 <= j <= |names|
      invariant s.Valid() && s.entities == ents0 && s.next == next0
      invariant |rec.children| == |names|
      invariant s.collections == ResetAll(cols0, rec.children[..j])
    {
      assert !IsKey(rec, names[j]);
      assert ChildSlot(rec, names[j]) == j by {
        var k := ChildSlot(rec, names[j]);
        assert names[k] == names[j];
      }
      ghost var cols1 := s.collections;
      var ok := SetProperty(s, e, names[j], Undefined);
      if ok != Ok(true) {
        ResetAllConfined(ents0, cols0, next0, e, j);
        return Err(TypeError);
      }
      assert names[j] != FlagSkip && names[j] != FlagRaw;
      assert IsChild(rec, names[j]);
      assert s.collections == cols1[rec.children[j] := Reset(cols1[rec.children[j]])];
      ResetAllSnoc(cols0, rec.children, j);
      j := j + 1;
    }
    assert rec.children[..j] == rec.children;
    ResetAllConfined(ents0, cols0, next0, e, j);
    r := Ok(true);
  }

  lemma ResetAllSnoc(cols: map<nat, CollectionState>, cs: seq<nat>, j: nat)
    requires j < |cs| && forall i :: 0 <= i < |cs| ==> cs[i] in cols
    ensures var prev := ResetAll(cols, cs[..j]);
            ResetAll(cols, cs[..j + 1]) == prev[cs[j] := Reset(prev[cs[j]])]
  {
    assert cs[..j + 1][..j] == cs[..j];
  }

  /** Resetting the child collections of `e` stays in the frame of `e`. */
  lemma ResetAllConfined(ents: map<nat, EntityState>, cols: map<nat, CollectionState>, next: nat, e: nat, j: nat)
    requires ValidMaps(ents, cols, next) && e in ents && j <= |ents[e].children|
    ensures forall i :: 0 <= i < j ==> ents[e].children[..j][i] in cols
    ensures Grows(ents, cols, next, ents, ResetAll(cols, ents[e].children[..j]), next)
    ensures Confined(ents, cols, ents, ResetAll(cols, ents[e].children[..j]), EntityRef(e))
  {
    assert EntityOk(ents, cols, e);
    var cs := ents[e].children[..j];
    var cols' := ResetAll(cols, cs);
    forall x | !Descends(ents, cols, x, EntityRef(e)) ensures Untouched(ents, cols, ents, cols', x) {
      if x.CollectionRef? && x.collection in cs {
        ChildDescends(ents, cols, next, x, EntityRef(e));
      }
    }
  }

  /** Line 10 for the details: every detail is deleted. */
  method ClearDetails(s: Store, e: nat) returns (r: Result<bool>)
    requires s.Valid() && e in s.entities
    modifies s
    decreases EntityHeight(s.entities[e]), 2
    ensures s.Valid() && s.collections == old(s.collections) && s.next == old(s.next)
    ensures e in s.entities && s.entities == old(s.entities)[e := old(s.entities)[e].(details := map[])]
    ensures r == Ok(true)
  {
    ghost var ents0 := s.entities;
    var rec0 := s.entities[e];
    assert EntityOk(s.entities, s.collections, e);
    var names := rec0.details.Keys;
    while names != {}
      invariant names <= rec0.details.Keys
      invariant s.Valid() && s.collections == old(s.collections) && s.next == old(s.next)
      invariant e in s.entities && s.entities == ents0[e := s.entities[e]]
      invariant s.entities[e] == rec0.(details := s.entities[e].details)
      invariant forall k :: k in s.entities[e].details ==> k in names
      decreases names
    {
      var k :| k in names;
      assert IsDetailName(rec0.definition, k);
      ghost var cur := s.entities[e];
      assert !IsKey(cur, k) && !IsChild(cur, k);
      var _ := SetProperty(s, e, k, Undefined);
      assert s.entities == ents0[e := WriteDetail(cur, k, Undefined)];
      names := names - {k};
    }
    assert s.entities[e].details == map[];
    r := Ok(true);
  }

  /** The names of `entries` written so far. */
  function Done(entries: map<string, Value>, todo: set<string>): (m: map<string, Value>)
    ensures forall k :: k in m <==> k in entries && k !in todo
    ensures forall k :: k in m ==> m[k] == entries[k]
  {
    map k | k in entries && k !in todo :: entries[k]
  }

  /** Lines 13-17: every name of data of object type is written through the `set` trap. */
  method AssignEntries(s: Store, e: nat, data: Value) returns (r: Result<bool>)
    requires s.Valid() && e in s.entities
    requires AssignedFrom(s.entities[e].storedProperties, s.entities[e], map[])
    modifies s
    decreases EntityHeight(s.entities[e]), 3
    ensures s.Valid()
    ensures Grows(old(s.entities), old(s.collections), old(s.next), s.entities, s.collections, s.next)
    ensures Confined(old(s.entities), old(s.collections), s.entities, s.collections, EntityRef(e))
    ensures e in s.entities
    ensures HasReservedName(data) ==> r.Err?
    ensures r.Ok? ==>
              && r == Ok(true)
              && EntitySynced(old(s.entities)[e].storedProperties, s.entities[e], data)
              && ChildrenAssigned(old(s.entities), old(s.collections), s.collections, old(s.entities)[e], Entries(data))
  {
    ghost var ents0, cols0, next0 := s.entities, s.collections, s.next;
    var rec0 := s.entities[e];
    var entries := Entries(data);
    var todo := if IsObjectType(data) then entries.Keys else {};
    AssignStart(ents0, cols0, next0, e, entries, todo);
    while todo != {}
      invariant todo <= entries.Keys
      invariant s.Valid() && Assigning(ents0, cols0, next0, s.entities, s.collections, s.next, e, rec0, entries, todo)
      decreases todo
    {
      var k :| k in todo;
      var ok := AssignName(s, e, ents0, cols0, next0, rec0, entries, todo, k);
      if ok.Err? {
        return Err(ok.error);
      } else if !ok.value {
        return Err(TypeError);
      }
      todo := todo - {k};
    }
    AssignedAll(ents0, cols0, next0, s.entities, s.collections, s.next, e, rec0, entries);
    r := Ok(true);
  }

  /**
   * The state of the loop of lines 13-17 from the entity `e` whose record was
   * `rec0`, with the names `todo` of `entries` still to write.
   */
  ghost predicate Assigning(ents0: map<nat, EntityState>, cols0: map<nat, CollectionState>, next0: nat,
                            ents: map<nat, EntityState>, cols: map<nat, CollectionState>, next: nat,
                            e: nat, rec0: EntityState, entries: map<string, Value>, todo: set<string>) {
    && ValidMaps(ents0, cols0, next0) && e in ents0 && ents0[e] == rec0
    && Grows(ents0, cols0, next0, ents, cols, next)
    && Confined(ents0, cols0, ents, cols, EntityRef(e))
    && e in ents && ents[e].definition == rec0.definition
    && AssignedFrom(rec0.storedProperties, ents[e], Done(entries, todo))
    && ChildrenAssigned(ents0, cols0, cols, rec0, Done(entries, todo))
    && FlagSkip !in Done(entries, todo) && FlagRaw !in Done(entries, todo)
  }

  /** Line 15: one write of the loop, through the `set` trap. */
  method AssignName(s: Store, e: nat, ghost ents0: map<nat, EntityState>, ghost cols0: map<nat, CollectionState>, ghost next0: nat,
                    rec0: EntityState, entries: map<string, Value>, ghost todo: set<string>, k: string) returns (ok: Result<bool>)
    requires s.Valid() && Assigning(ents0, cols0, next0, s.entities, s.collections, s.next, e, rec0, entries, todo)
    requires k in todo && k in entries
    modifies s
    decreases EntityHeight(s.entities[e]), 2
    ensures s.Valid()
    ensures Grows(ents0, cols0, next0, s.entities, s.collections, s.next)
    ensures Confined(ents0, cols0, s.entities, s.collections, EntityRef(e))
    ensures e in s.entities
    ensures k == FlagSkip || k == FlagRaw ==> ok == Ok(false)
    ensures ok == Ok(true) ==> Assigning(ents0, cols0, next0, s.entities, s.collections, s.next, e, rec0, entries, todo - {k})
  {
    ghost var ents1, cols1, next1 := s.entities, s.collections, s.next;
    ok := SetProperty(s, e, k, entries[k]);
    GrowsTrans(ents0, cols0, next0, ents1, cols1, next1, s.entities, s.collections, s.next);
    ConfinedStep(ents0, cols0, next0, ents1, cols1, next1, s.entities, s.collections, EntityRef(e), EntityRef(e));
    if ok == Ok(true) {
      AssignStep(ents0, cols0, next0, ents1, cols1, next1, s.entities, s.collections, s.next, e, rec0, entries, todo, k);
      DoneStep(entries, todo, k);
    }
  }

  /** The bookkeeping of one write of lines 14-16. */
  lemma AssignStep(ents0: map<nat, EntityState>, cols0: map<nat, CollectionState>, next0: nat,
                   ents1: map<nat, EntityState>, cols1: map<nat, CollectionState>, next1: nat,
                   ents2: map<nat, EntityState>, cols2: map<nat, CollectionState>, next2: nat,
                   e: nat, rec0: EntityState, entries: map<string, Value>, todo: set<string>, k: string)
    requires ValidMaps(ents0, cols0, next0) && ValidMaps(ents1, cols1, next1) && e in ents0 && ents0[e] == rec0
    requires Grows(ents0, cols0, next0, ents1, cols1, next1) && Grows(ents1, cols1, next1, ents2, cols2, next2)
    requires Confined(ents0, cols0, ents1, cols1, EntityRef(e))
    requires e in ents1 && ents1[e].definition == rec0.definition
    requires AssignedFrom(rec0.storedProperties, ents1[e], Done(entries, todo))
    requires ChildrenAssigned(ents0, cols0, cols1, rec0, Done(entries, todo))
    requires k in todo && k in entries && k != FlagSkip && k != FlagRaw
    requires Confined(ents1, cols1, ents2, cols2, EntityRef(e))
    requires IsKey(ents1[e], k) ==>
               cols2 == cols1 && ents2 == ents1[e := WriteKey(ents1[e], k, entries[k])]
    requires !IsKey(ents1[e], k) && IsChild(ents1[e], k) ==>
               var c := ents1[e].children[ChildSlot(ents1[e], k)];
               && c in cols1 && c in cols2 && e in ents2 && ents2[e] == ents1[e]
               && Confined(ents1, cols1, ents2, cols2, CollectionRef(c))
               && CollectionSynced(ents1, cols1[c], ents2, cols2[c], entries[k])
               && (!entries[k].Arr? ==> ents2 == ents1 && cols2 == cols1[c := Reset(cols1[c])])
    requires !IsKey(ents1[e], k) && !IsChild(ents1[e], k) ==>
               cols2 == cols1 && ents2 == ents1[e := WriteDetail(ents1[e], k, entries[k])]
    ensures e in ents2 && ents2[e].definition == rec0.definition
    ensures AssignedFrom(rec0.storedProperties, ents2[e], Done(entries, todo - {k}))
    ensures ChildrenAssigned(ents0, cols0, cols2, rec0, Done(entries, todo - {k}))
  {
    var before, after := Done(entries, todo), Done(entries, todo - {k});
    DoneStep(entries, todo, k);
    var r1 := ents1[e];
    var names := ChildNames(rec0.definition);
    assert EntityOk(ents1, cols1, e);
    if IsKey(r1, k) {
      KeyAssigned(rec0.storedProperties, r1, before, k, entries[k]);
      ChildrenUnchanged(ents0, cols0, cols1, rec0, before, after, k);
    } else if IsChild(r1, k) {
      ChildNameAssigned(rec0.storedProperties, r1, before, k, entries[k]);
      ChildWritten(ents0, cols0, ents1, cols1, next1, ents2, cols2, e, rec0, before, k, entries[k]);
    } else {
      assert k !in names;
      assert IsDetailName(rec0.definition, k);
      DetailAssigned(rec0.storedProperties, r1, before, k, entries[k]);
      ChildrenUnchanged(ents0, cols0, cols1, rec0, before, after, k);
    }
  }

  /** Before the first write nothing is assigned yet. */
  lemma AssignStart(ents0: map<nat, EntityState>, cols0: map<nat, CollectionState>, next0: nat,
                    e: nat, entries: map<string, Value>, todo: set<string>)
    requires ValidMaps(ents0, cols0, next0) && e in ents0
    requires AssignedFrom(ents0[e].storedProperties, ents0[e], map[])
    requires todo == entries.Keys || entries == map[]
    ensures Assigning(ents0, cols0, next0, ents0, cols0, next0, e, ents0[e], entries, todo)
  {
    assert EntityOk(ents0, cols0, e);
    assert Done(entries, todo) == map[];
  }

  /** Once every name is written, the record and its children are assigned from all of `entries`. */
  lemma AssignedAll(ents0: map<nat, EntityState>, cols0: map<nat, CollectionState>, next0: nat,
                    ents: map<nat, EntityState>, cols: map<nat, CollectionState>, next: nat,
                    e: nat, rec0: EntityState, entries: map<string, Value>)
    requires Assigning(ents0, cols0, next0, ents, cols, next, e, rec0, entries, {})
    ensures Grows(ents0, cols0, next0, ents, cols, next)
    ensures Confined(ents0, cols0, ents, cols, EntityRef(e))
    ensures e in ents
    ensures AssignedFrom(rec0.storedProperties, ents[e], entries)
    ensures ChildrenAssigned(ents0, cols0, cols, rec0, entries)
    ensures FlagSkip !in entries && FlagRaw !in entries
  {
    assert Done(entries, {}) == entries;
  }

  lemma DoneStep(entries: map<string, Value>, todo: set<string>, k: string)
    requires k in todo && k in entries
    ensures Done(entries, todo - {k}) == Done(entries, todo)[k := entries[k]]
    ensures Done(entries, todo - {k}).Keys == Done(entries, todo).Keys + {k}
  {
  }

  /** Writing a child name leaves the record itself as assigned from the names so far. */
  lemma ChildNameAssigned(stored0: map<string, Value>, r: EntityState, m: map<string, Value>, k: string, v: Value)
    requires AssignedFrom(stored0, r, m) && k !in Keys(r.definition) && k in ChildNames(r.definition)
    ensures AssignedFrom(stored0, r, m[k := v])
  {
    assert SyncedDetails(r.definition, m[k := v]) == SyncedDetails(r.definition, m);
  }

  /** Writing a declared key extends the names the record is assigned from. */
  lemma KeyAssigned(stored0: map<string, Value>, r: EntityState, m: map<string, Value>, k: string, v: Value)
    requires AssignedFrom(stored0, r, m) && k in Keys(r.definition)
    ensures AssignedFrom(stored0, WriteKey(r, k, v), m[k := v])
  {
    assert SyncedDetails(r.definition, m[k := v]) == SyncedDetails(r.definition, m);
  }

  /** Writing a detail name extends the names the record is assigned from. */
  lemma DetailAssigned(stored0: map<string, Value>, r: EntityState, m: map<string, Value>, k: string, v: Value)
    requires AssignedFrom(stored0, r, m) && IsDetailName(r.definition, k)
    ensures AssignedFrom(stored0, WriteDetail(r, k, v), m[k := v])
  {
    var w := WriteDetail(r, k, v);
    assert w.details == SyncedDetails(r.definition, m[k := v]);
  }

  /** Writing a name that is no child's leaves the child collections as they were. */
  lemma ChildrenUnchanged(ents0: map<nat, EntityState>, cols0: map<nat, CollectionState>, cols: map<nat, CollectionState>,
                          r0: EntityState, before: map<string, Value>, after: map<string, Value>, k: string)
    requires ChildrenAssigned(ents0, cols0, cols, r0, before)
    requires k !in ChildNames(r0.definition)
    requires forall n :: n != k ==> (n in after <==> n in before) && (n in after ==> after[n] == before[n])
    ensures ChildrenAssigned(ents0, cols0, cols, r0, after)
  {
    var names := ChildNames(r0.definition);
    forall i | 0 <= i < |r0.children|
      ensures ChildAssigned(ents0, cols0[r0.children[i]], cols[r0.children[i]], after, names[i])
    {
      assert ChildAssigned(ents0, cols0[r0.children[i]], cols[r0.children[i]], before, names[i]);
    }
  }

  /** Writing a child name syncs that child and leaves its siblings alone. */
  lemma ChildWritten(ents0: map<nat, EntityState>, cols0: map<nat, CollectionState>,
                     ents1: map<nat, EntityState>, cols1: map<nat, CollectionState>, next1: nat,
                     ents2: map<nat, EntityState>, cols2: map<nat, CollectionState>,
                     e: nat, rec0: EntityState, before: map<string, Value>, k: string, v: Value)
    requires ValidMaps(ents1, cols1, next1) && e in ents1 && ents1[e].definition == rec0.definition
    requires ents1[e].children == rec0.children
    requires forall x :: x in ents0 ==> x in ents1
    requires ChildrenAssigned(ents0, cols0, cols1, rec0, before) && k !in before
    requires k in ChildNames(rec0.definition) && ChildSlot(ents1[e], k) < |rec0.children|
    requires Confined(ents1, cols1, ents2, cols2, CollectionRef(rec0.children[ChildSlot(ents1[e], k)]))
    requires var c := rec0.children[ChildSlot(ents1[e], k)];
             && c in cols2
             && CollectionSynced(ents1, cols1[c], ents2, cols2[c], v)
             && (!v.Arr? ==> cols2 == cols1[c := Reset(cols1[c])])
    ensures ChildrenAssigned(ents0, cols0, cols2, rec0, before[k := v])
  {
    var names := ChildNames(rec0.definition);
    var slot := ChildSlot(ents1[e], k);
    var c := rec0.children[slot];
    assert EntityOk(ents1, cols1, e);
    forall i | 0 <= i < |rec0.children|
      ensures rec0.children[i] in cols2
      ensures ChildAssigned(ents0, cols0[rec0.children[i]], cols2[rec0.children[i]], before[k := v], names[i])
    {
      var ci := rec0.children[i];
      assert ChildAssigned(ents0, cols0[ci], cols1[ci], before, names[i]);
      if i == slot {
        assert cols1[c] == cols0[c];
        SyncedChildOutcome(ents1, cols1[c], ents2, cols2[c], v);
      } else {
        assert names[i] != k by {
          assert names[slot] == k;
        }
        assert ci != c by {
          assert cols1[ci].definition == Children(rec0.definition)[i];
          assert cols1[c].definition == Children(rec0.definition)[slot];
        }
        SiblingKept(ents1, cols1, next1, ents2, cols2, CollectionRef(ci), CollectionRef(c));
      }
    }
  }

  // ---------------------------------------------------------------------------
  // The collection `set` trap and the dispatcher

  /**
   * The member a collection's `set` trap writes through for `name`: the one
   * at a canonical index name within the public view. "length" is no index,
   * and names the view array inherits (its methods) hold no entity, so a
   * write through them is refused like any other name.
   */
  function IndexedMember(r: CollectionState, name: string): (m: Option<nat>)
    ensures m.Some? <==> ParseIndex(name).Some? && ParseIndex(name).value < |View(r)|
    ensures m.Some? ==> m.value in View(r)
  {
    match ParseIndex(name)
    case Some(i) => if i < |View(r)| then Some(View(r)[i]) else None
    case None => None
  }

  /** Position `i` of the view is reached under the name `String(i)`, and "length" reaches nothing. */
  lemma IndexedMemberAt(r: CollectionState, i: nat)
    requires i < |View(r)|
    ensures IndexedMember(r, NatToString(i)) == Some(View(r)[i])
    ensures IndexedMember(r, "length") == None
  {
    ParseIndexRoundTrip(i);
    assert !IsDigit("length"[0]);
  }

  /**
   * The collection `set` trap (entity-collection.js:59-68): a value of
   * object type (null included) written under the index of a view member
   * syncs that member with it and returns what the sync returns; any other
   * write is refused (false) and changes nothing.
   */
  method SetIndex(s: Store, c: nat, name: string, value: Value) returns (r: Result<bool>)
    requires s.Valid() && c in s.collections
    modifies s
    ensures s.Valid()
    ensures Grows(old(s.entities), old(s.collections), old(s.next), s.entities, s.collections, s.next)
    ensures var m := IndexedMember(old(s.collections)[c], name);
            if IsObjectType(value) && m.Some? then
              && m.value in old(s.entities) && m.value in s.entities
              && Confined(old(s.entities), old(s.collections), s.entities, s.collections, EntityRef(m.value))
              && (HasReservedName(value) ==> r.Err?)
              && (r.Ok? ==>
                    && r == Ok(true)
                    && EntitySynced(old(s.entities)[m.value].storedProperties, s.entities[m.value], value)
                    && ChildrenSynced(old(s.entities), old(s.collections), s.collections, old(s.entities)[m.value], value))
            else
              r == Ok(false) && s.entities == old(s.entities) && s.collections == old(s.collections) && s.next == old(s.next)
  {
    var m := IndexedMember(s.collections[c], name);
    if IsObjectType(value) && m.Some? {
      ViewMember(s.entities, s.collections, s.next, c, m.value);
      r := SyncEntity(s, m.value, value);
    } else {
      r := Ok(false);
    }
  }

  /** A view member is an entity of the store. */
  lemma ViewMember(ents: map<nat, EntityState>, cols: map<nat, CollectionState>, next: nat, c: nat, m: nat)
    requires ValidMaps(ents, cols, next) && c in cols && m in View(cols[c])
    ensures m in ents
  {
    MemberBelow(ents, cols, next, c, m);
  }

  /**
   * `entitySyncData(value, data)`: an entity is synced and a collection is
   * synced, each returning true unless a write throws; anything else
   * (`None` stands for a value that is neither proxy) returns false and
   * changes nothing. Only the tree below the synced node changes.
   */
  method Sync(s: Store, x: Option<Handle>, data: Value) returns (r: Result<bool>)
    requires s.Valid() && (x.Some? ==> Exists(s.entities, s.collections, x.value))
    modifies s
    ensures s.Valid()
    ensures Grows(old(s.entities), old(s.collections), old(s.next), s.entities, s.collections, s.next)
    ensures x.None? ==> r == Ok(false) && s.entities == old(s.entities) && s.collections == old(s.collections) && s.next == old(s.next)
    ensures x.Some? ==> Confined(old(s.entities), old(s.collections), s.entities, s.collections, x.value) && r != Ok(false)
    ensures x.Some? && x.value.EntityRef? && r.Ok? ==>
              var e := x.value.entity;
              && e in s.entities
              && EntitySynced(old(s.entities)[e].storedProperties, s.entities[e], data)
              && ChildrenSynced(old(s.entities), old(s.collections), s.collections, old(s.entities)[e], data)
    ensures x.Some? && x.value.CollectionRef? && r.Ok? ==>
              var c := x.value.collection;
              && c in s.collections
              && CollectionSynced(old(s.entities), old(s.collections)[c], s.entities, s.collections[c], data)
  {
    match x
    case None =>
      r := Ok(false);
    case Some(EntityRef(e)) =>
      r := SyncEntity(s, e, data);
    case Some(CollectionRef(c)) =>
      r := SyncCollection(s, c, data);
  }
}
