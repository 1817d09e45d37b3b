/**
 * The stateful half of composable/entity/save.js: `entitySave`, which sends
 * the planned batch, writes what the server answered back into the entities
 * the answers are addressed to (`assignResponseDataToEntity`), consolidates
 * the saved tree, moves a saved new entity behind the stored members of the
 * collection holding it and syncs the entity it was cloned from.
 *
 * The batch round trip (`requestBatch`) is a parameter: the responses the
 * server sent back, or the error the request was rejected with.
 */
module Save {
  import opened JsValues
  import opened Definitions
  import opened Records
  import opened Entities
  import opened Ownership
  import opened Passes
  import opened Data
  import opened SyncData
  import opened Consolidate
  import opened SyncState
  import opened SavePlan

  /** One part of the batch response: the id of the request it answers and its parsed body. */
  datatype Response = Response(id: string, body: Value)

  // ---------------------------------------------------------------------------
  // What a response writes

  /**
   * `{ ...v }`: the own enumerable properties of `v`. An object gives its
   * fields, an array its elements and a string its characters, each under
   * its index name; anything else gives nothing.
   */
  function Spread(v: Value): (m: map<string, Value>)
    ensures v.Obj? ==> m == v.fields
    ensures v.Str? ==> forall i :: 0 <= i < |v.s| ==> NatToString(i) in m && m[NatToString(i)] == Str([v.s[i]])
    ensures v.Str? || v.Arr? ==> forall k :: k in m ==> ParseIndex(k).Some?
    ensures !v.Obj? && !v.Arr? && !v.Str? ==> m == map[]
  {
    match v
    case Str(s) =>
      var m := map k | k in IndexNames(|s|) :: Str([s[ParseIndex(k).value]]);
      assert forall i :: 0 <= i < |s| ==> ParseIndex(NatToString(i)) == Some(i) by {
        forall i | 0 <= i < |s| ensures ParseIndex(NatToString(i)) == Some(i) {
          ParseIndexRoundTrip(i);
        }
      }
      m
    case Arr(items) =>
      ArrayEntries(items);
      Entries(v)
    case _ => Entries(v)
  }

  /** `{ ...body, ...details }`: what is synced into an entity an answer is addressed to. */
  function ResponseValues(body: Value, details: map<string, Value>): (v: Value)
    ensures v.Obj? && v.fields.Keys == Spread(body).Keys + details.Keys
  {
    Obj(Spread(body) + details)
  }

  /** Syncing the values of an answer into an entity adopts the body's value for every declared key. */
  lemma ResponseAdoptsKeys(stored0: map<string, Value>, r: EntityState, body: Value, details: map<string, Value>)
    requires forall k :: k in details ==> IsDetailName(r.definition, k)
    requires EntitySynced(stored0, r, ResponseValues(body, details))
    ensures forall k :: k in Keys(r.definition) ==> Effective(r, k) == Field(Spread(body), k)
  {
    var m := Spread(body) + details;
    assert Entries(ResponseValues(body, details)) == m;
    assert forall k :: k in Keys(r.definition) ==> k !in details;
  }

  /**
   * Every detail the entity held with a defined value survives the sync of an
   * answer: the details win over body fields of the same name. Any other
   * detail comes from the body.
   */
  lemma ResponseKeepsDetails(stored0: map<string, Value>, r: EntityState, body: Value, details: map<string, Value>)
    requires forall k :: k in details ==> IsDetailName(r.definition, k)
    requires EntitySynced(stored0, r, ResponseValues(body, details))
    ensures forall k :: k in details && details[k] != Undefined ==> k in r.details && r.details[k] == details[k]
    ensures forall k :: k in r.details ==> k in details || k in Spread(body)
  {
    var m := Spread(body) + details;
    assert Entries(ResponseValues(body, details)) == m;
    assert r.details == SyncedDetails(r.definition, m);
  }

  // ---------------------------------------------------------------------------
  // Where a response goes

  /**
   * The record an answer with id `id` is addressed to, walking from the saved
   * entity `e`: an id without a verb suffix throws (destructuring null), a
   * walk that fails throws, and a walk that ends on a plain value throws when
   * its internal state is read.
   */
  function ResponseTarget(ents: map<nat, EntityState>, cols: map<nat, CollectionState>, next: nat,
                          e: nat, id: string): (r: Result<Handle>)
    requires ValidMaps(ents, cols, next) && e in ents
    ensures r.Ok? ==> Exists(ents, cols, r.value)
    ensures IdPath(id).None? ==> r == Err(TypeError)
  {
    match IdPath(id)
    case None => Err(TypeError)
    case Some(path) =>
      match Traverse(ents, cols, next, Node(EntityRef(e)), path)
      case Err(x) => Err(x)
      case Ok(Node(h)) => Ok(h)
      case Ok(Plain(_)) => Err(TypeError)
  }

  /** A read through a proxy that yields a proxy yields a record whose parent is the record read. */
  lemma MemberDescends(ents: map<nat, EntityState>, cols: map<nat, CollectionState>, next: nat, t: Target, name: string)
    requires ValidMaps(ents, cols, next) && TargetOk(ents, cols, t)
    ensures var r := Member(ents, cols, next, t, name);
            r.Ok? && r.value.Node? ==> t.Node? && ParentOf(ents, cols, r.value.handle) == Some(t.handle)
  {
    var r := Member(ents, cols, next, t, name);
    if r.Ok? && r.value.Node? {
      match t
      case Node(EntityRef(e)) =>
        assert EntityOk(ents, cols, e);
      case Node(CollectionRef(c)) =>
        assert CollectionOk(ents, cols, c);
        var m := r.value.handle.entity;
        assert m in View(cols[c]);
        assert m in cols[c].storedEntities || m in cols[c].newEntities;
    }
  }

  /** A walk from a plain value only meets plain values. */
  lemma {:induction false} PlainStaysPlain(ents: map<nat, EntityState>, cols: map<nat, CollectionState>, next: nat,
                                           t: Target, path: string)
    requires ValidMaps(ents, cols, next) && t.Plain?
    ensures var r := Traverse(ents, cols, next, t, path);
            r.Ok? ==> r.value.Plain?
    decreases |path|
  {
    if path != "" {
      match SplitStep(path)
      case None =>
      case Some(Step(navigation, index, rest)) =>
        var m1 := Member(ents, cols, next, t, navigation);
        if m1.Ok? {
          var m2 := Member(ents, cols, next, m1.value, index);
          if m2.Ok? {
            PlainStaysPlain(ents, cols, next, m2.value, rest);
          }
        }
    }
  }

  /** A walk that ends on a proxy ends below where it started. */
  lemma {:induction false} TraverseDescends(ents: map<nat, EntityState>, cols: map<nat, CollectionState>, next: nat,
                                            t: Target, path: string)
    requires ValidMaps(ents, cols, next) && TargetOk(ents, cols, t)
    ensures var r := Traverse(ents, cols, next, t, path);
            r.Ok? && r.value.Node? && t.Node? ==> Descends(ents, cols, r.value.handle, t.handle)
    decreases |path|
  {
    if path != "" {
      match SplitStep(path)
      case None =>
      case Some(Step(navigation, index, rest)) =>
        var m1 := Member(ents, cols, next, t, navigation);
        if m1.Ok? {
          var m2 := Member(ents, cols, next, m1.value, index);
          if m2.Ok? {
            TraverseDescends(ents, cols, next, m2.value, rest);
            var r := Traverse(ents, cols, next, m2.value, rest);
            assert Traverse(ents, cols, next, t, path) == r;
            if m2.value.Plain? {
              PlainStaysPlain(ents, cols, next, m2.value, rest);
            } else if r.Ok? && r.value.Node? && t.Node? {
              MemberDescends(ents, cols, next, t, navigation);
              MemberDescends(ents, cols, next, m1.value, index);
              ChildDescends(ents, cols, next, m2.value.handle, m1.value.handle);
              ChildDescends(ents, cols, next, m1.value.handle, t.handle);
              DescendsTrans(ents, cols, m2.value.handle, m1.value.handle, t.handle);
              DescendsTrans(ents, cols, r.value.handle, m2.value.handle, t.handle);
            }
          }
        }
    }
  }

  /** An answer is addressed to a record below the saved entity. */
  lemma ResponseTargetBelow(ents: map<nat, EntityState>, cols: map<nat, CollectionState>, next: nat, e: nat, id: string)
    requires ValidMaps(ents, cols, next) && e in ents
    ensures var r := ResponseTarget(ents, cols, next, e, id);
            r.Ok? ==> Descends(ents, cols, r.value, EntityRef(e))
  {
    if IdPath(id).Some? {
      TraverseDescends(ents, cols, next, Node(EntityRef(e)), IdPath(id).value);
    }
  }

  /**
   * The answer to a POST or PATCH of the plan is addressed to the entity that
   * planned that request (child names permitting).
   */
  lemma PlannedResponseTarget(ents: map<nat, EntityState>, cols: map<nat, CollectionState>, next: nat, e: nat, q: Request)
    requires ValidMaps(ents, cols, next) && e in ents && PathSafe(ents[e].definition)
    requires q in EntityRequests(ents, cols, next, e, "") && q.verb != DELETE
    ensures var t := ResponseTarget(ents, cols, next, e, q.id);
            && t.Ok? && t.value.EntityRef? && t.value.entity in ents
            && q in OwnRequests(ents, cols, next, t.value.entity, IdPath(q.id).value)
  {
    EntityPlanLeadsBack(ents, cols, next, e, "");
    LeadsBackTarget(ents, cols, next, e, q);
  }

  /** A request that leads back from the saved entity is answered at the entity it leads to. */
  lemma LeadsBackTarget(ents: map<nat, EntityState>, cols: map<nat, CollectionState>, next: nat, e: nat, q: Request)
    requires ValidMaps(ents, cols, next) && e in ents && LeadsBack(ents, cols, next, e, "", q)
    ensures var t := ResponseTarget(ents, cols, next, e, q.id);
            && t.Ok? && t.value.EntityRef? && t.value.entity in ents
            && q in OwnRequests(ents, cols, next, t.value.entity, IdPath(q.id).value)
  {
    var path := IdPath(q.id).value;
    assert path[|""|..] == path;
    var t := Traverse(ents, cols, next, Node(EntityRef(e)), path);
    assert ResponseTarget(ents, cols, next, e, q.id) == Ok(t.value.handle);
  }

  // ---------------------------------------------------------------------------
  // A saved new entity joins the stored members

  /**
   * Lines 21-29: when the collection lists the entity among its new members,
   * the entity is spliced out of them and pushed onto the stored ones.
   */
  function PromoteSaved(r: CollectionState, e: nat): (w: CollectionState)
    ensures e !in r.newEntities ==> w == r
    ensures e in r.newEntities ==>
              var j := IndexOf(r.newEntities, e);
              w == r.(storedEntities := r.storedEntities + [e], newEntities := r.newEntities[..j] + r.newEntities[j + 1..])
  {
    var j := IndexOf(r.newEntities, e);
    if j < 0 then r
    else r.(storedEntities := r.storedEntities + [e], newEntities := r.newEntities[..j] + r.newEntities[j + 1..])
  }

  /** Appending a member behind the stored list: it is kept unless its position is tombstoned. */
  lemma {:induction false} KeptSnoc(stored: seq<nat>, deleted: set<nat>, lo: nat, x: nat)
    requires lo <= |stored| && |stored| !in deleted
    ensures Kept(stored + [x], deleted, lo) == Kept(stored, deleted, lo) + [x]
    decreases |stored| - lo
  {
    if lo < |stored| {
      KeptSnoc(stored, deleted, lo + 1, x);
      assert (stored + [x])[lo] == stored[lo];
    } else {
      assert Kept(stored + [x], deleted, lo + 1) == [];
    }
  }

  /**
   * The saved entity moves from the new members to just behind the remaining
   * stored ones: the public view keeps its members, the entity is now
   * stored, and the store invariant of the collection is kept.
   */
  lemma PromoteSavedView(r: CollectionState, e: nat)
    requires TombstonesInRange(r) && e in r.newEntities
    ensures var w, j := PromoteSaved(r, e), IndexOf(r.newEntities, e);
            && View(w) == Remaining(r.storedEntities, r.deletedIndices) + [e] + (r.newEntities[..j] + r.newEntities[j + 1..])
            && multiset(View(w)) == multiset(View(r))
            && TombstonesInRange(w)
  {
    var j := IndexOf(r.newEntities, e);
    var kept, rest := Remaining(r.storedEntities, r.deletedIndices), r.newEntities[..j] + r.newEntities[j + 1..];
    var w := r.(storedEntities := r.storedEntities + [e], newEntities := rest);
    assert PromoteSaved(r, e) == w;
    KeptSnoc(r.storedEntities, r.deletedIndices, 0, e);
    assert Remaining(w.storedEntities, w.deletedIndices) == kept + [e];
    SpliceMultiset(r.newEntities, j);
    assert View(r) == kept + r.newEntities;
    assert multiset(View(w)) == multiset(kept) + multiset{e} + multiset(rest);
  }

  /** Cutting one member out of a list removes exactly that member from its multiset. */
  lemma SpliceMultiset(xs: seq<nat>, j: nat)
    requires j < |xs|
    ensures multiset(xs[..j] + xs[j + 1..]) + multiset{xs[j]} == multiset(xs)
  {
    assert xs == xs[..j] + [xs[j]] + xs[j + 1..];
  }

  /** Moving a new member to the end of the stored list keeps every member listed once. */
  lemma DistinctMove(stored: seq<nat>, added: seq<nat>, j: nat)
    requires Distinct(stored + added) && j < |added|
    ensures Distinct((stored + [added[j]]) + (added[..j] + added[j + 1..]))
  {
    var xs, ys := stored + added, (stored + [added[j]]) + (added[..j] + added[j + 1..]);
    var n := |stored|;
    forall a, b | 0 <= a < b < |ys| ensures ys[a] != ys[b] {
      var a' := if a < n then a else if a == n then n + j else if a - n - 1 < j then a - 1 else a;
      var b' := if b < n then b else if b == n then n + j else if b - n - 1 < j then b - 1 else b;
      assert ys[a] == xs[a'] && ys[b] == xs[b'];
      assert a' != b';
    }
  }

  /**
   * Lines 19-29: the collection holding the saved entity, if any, moves it
   * from its new members behind its stored ones. Only that collection's
   * record changes.
   */
  method PromoteInParent(s: Store, e: nat)
    requires s.Valid() && e in s.entities
    modifies s
    ensures s.Valid()
    ensures s.entities == old(s.entities) && s.next == old(s.next)
    ensures old(s.entities)[e].parent.None? ==> s.collections == old(s.collections)
    ensures old(s.entities)[e].parent.Some? ==>
              var c := old(s.entities)[e].parent.value;
              c in old(s.collections) && s.collections == old(s.collections)[c := PromoteSaved(old(s.collections)[c], e)]
  {
    assert EntityOk(s.entities, s.collections, e);
    var parent := s.entities[e].parent;
    if parent.Some? {
      var c := parent.value;
      var r := s.collections[c];
      if IndexOf(r.newEntities, e) >= 0 {
        PromoteSavedValid(s.entities, s.collections, s.next, c, e);
        s.collections := s.collections[c := PromoteSaved(r, e)];
      }
    }
  }

  lemma PromoteSavedValid(ents: map<nat, EntityState>, cols: map<nat, CollectionState>, next: nat, c: nat, e: nat)
    requires ValidMaps(ents, cols, next) && c in cols && e in cols[c].newEntities
    ensures ValidMaps(ents, cols[c := PromoteSaved(cols[c], e)], next)
  {
    var r := cols[c];
    var j := IndexOf(r.newEntities, e);
    assert CollectionOk(ents, cols, c);
    var rest := r.newEntities[..j] + r.newEntities[j + 1..];
    var w := r.(storedEntities := r.storedEntities + [e], newEntities := rest);
    assert PromoteSaved(r, e) == w;
    PromoteSavedView(r, e);
    DistinctMove(r.storedEntities, r.newEntities, j);
    assert forall m :: m in rest ==> m in r.newEntities;
    assert forall m :: m in w.storedEntities ==> m in r.storedEntities || m in r.newEntities;
    CollectionUpdateValid(ents, cols, next, c, w);
  }

  // ---------------------------------------------------------------------------
  // Writing the answers back

  /**
   * What one answer does to the arena (`ents0`, `cols0`, `next0` before it,
   * `ents`, `cols`, `next` after it), `r` being its outcome: an answer
   * without a truthy body is skipped and an id that does not walk throws,
   * both changing nothing; otherwise the entity the id names has its stored
   * values and its child collections synced with the body (its details
   * written over it), or the collection it names is synced with the spread
   * body.
   */
  ghost predicate Answered(ents0: map<nat, EntityState>, cols0: map<nat, CollectionState>, next0: nat,
                           ents: map<nat, EntityState>, cols: map<nat, CollectionState>, next: nat,
                           e: nat, response: Response, r: Result<bool>)
  {
    && ValidMaps(ents0, cols0, next0) && e in ents0
    && var target := ResponseTarget(ents0, cols0, next0, e, response.id);
       && (!Truthy(response.body) || target.Err? ==>
             && r == (if !Truthy(response.body) then Ok(false) else Err(target.error))
             && ents == ents0 && cols == cols0 && next == next0)
       && (Truthy(response.body) && target.Ok? ==> r != Ok(false))
       && (Truthy(response.body) && r.Ok? && target.Ok? ==>
             match target.value
             case EntityRef(m) =>
               && m in ents
               && EntitySynced(ents0[m].storedProperties, ents[m], ResponseValues(response.body, ents0[m].details))
               && ChildrenSynced(ents0, cols0, cols, ents0[m], ResponseValues(response.body, ents0[m].details))
             case CollectionRef(c) =>
               && c in cols
               && CollectionSynced(ents0, cols0[c], ents, cols[c], Obj(Spread(response.body))))
  }

  /**
   * One turn of the loop of lines 100-110: an answer without a truthy body is
   * skipped; otherwise the record it is addressed to is found (or the walk
   * throws and nothing changes), and synced with the body, an entity's
   * details written over it.
   */
  method AssignResponse(s: Store, e: nat, response: Response) returns (r: Result<bool>)
    requires s.Valid() && e in s.entities
    modifies s
    ensures s.Valid()
    ensures Grows(old(s.entities), old(s.collections), old(s.next), s.entities, s.collections, s.next)
    ensures Confined(old(s.entities), old(s.collections), s.entities, s.collections, EntityRef(e))
    ensures Answered(old(s.entities), old(s.collections), old(s.next), s.entities, s.collections, s.next, e, response, r)
  {
    if !Truthy(response.body) {
      Unconfined(s.entities, s.collections, EntityRef(e));
      return Ok(false);
    }
    var target := ResponseTarget(s.entities, s.collections, s.next, e, response.id);
    if target.Err? {
      Unconfined(s.entities, s.collections, EntityRef(e));
      return Err(target.error);
    }
    ResponseTargetBelow(s.entities, s.collections, s.next, e, response.id);
    ghost var ents0, cols0 := s.entities, s.collections;
    match target.value
    case EntityRef(m) =>
      var values := ResponseValues(response.body, s.entities[m].details);
      r := Sync(s, Some(EntityRef(m)), values);
      ConfinedWiden(ents0, cols0, s.entities, s.collections, EntityRef(m), EntityRef(e));
    case CollectionRef(c) =>
      r := Sync(s, Some(CollectionRef(c)), Obj(Spread(response.body)));
      ConfinedWiden(ents0, cols0, s.entities, s.collections, CollectionRef(c), EntityRef(e));
  }

  /** Changing nothing stays within every frame. */
  lemma Unconfined(ents: map<nat, EntityState>, cols: map<nat, CollectionState>, self: Handle)
    ensures Confined(ents, cols, ents, cols, self)
  {
    forall x ensures Untouched(ents, cols, ents, cols, x) {
    }
  }

  /** The arena at one moment: its entity records, its collection records and the next free number. */
  type Snapshot = (map<nat, EntityState>, map<nat, CollectionState>, nat)

  /**
   * `trace[j]` is the arena before answer `j` and `trace[j + 1]` after it,
   * `answers[j]` that answer's outcome: the last answer taken did what
   * `Answered` says, after the ones before it, which all went through.
   */
  ghost predicate Replayed(trace: seq<Snapshot>, answers: seq<Result<bool>>, e: nat, responses: seq<Response>)
    decreases |answers|
  {
    && |trace| == |answers| + 1 && |answers| <= |responses|
    && (|answers| > 0 ==>
          var n := |answers| - 1;
          && Replayed(trace[..n + 1], answers[..n], e, responses)
          && (forall j :: 0 <= j < n ==> answers[j].Ok?)
          && Answered(trace[n].0, trace[n].1, trace[n].2, trace[n + 1].0, trace[n + 1].1, trace[n + 1].2,
                      e, responses[n], answers[n]))
  }

  /** Every answer in a replay, not only the last one, did what `Answered` says. */
  lemma {:induction false} ReplayedAt(trace: seq<Snapshot>, answers: seq<Result<bool>>, e: nat, responses: seq<Response>, j: nat)
    requires Replayed(trace, answers, e, responses) && j < |answers|
    ensures Answered(trace[j].0, trace[j].1, trace[j].2, trace[j + 1].0, trace[j + 1].1, trace[j + 1].2,
                     e, responses[j], answers[j])
    decreases |answers|
  {
    var n := |answers| - 1;
    if j < n {
      ReplayedAt(trace[..n + 1], answers[..n], e, responses, j);
    }
  }

  /** One more answer taken, after answers that all went through. */
  lemma ReplayedStep(trace: seq<Snapshot>, answers: seq<Result<bool>>, e: nat, responses: seq<Response>,
                     after: Snapshot, step: Result<bool>)
    requires Replayed(trace, answers, e, responses) && |answers| < |responses|
    requires forall j :: 0 <= j < |answers| ==> answers[j].Ok?
    requires Answered(trace[|answers|].0, trace[|answers|].1, trace[|answers|].2, after.0, after.1, after.2,
                      e, responses[|answers|], step)
    ensures Replayed(trace + [after], answers + [step], e, responses)
    ensures (trace + [after])[0] == trace[0]
  {
    var t, a := trace + [after], answers + [step];
    assert t[..|answers| + 1] == trace && a[..|answers|] == answers;
  }

  /** Answers without a truthy body all go through and leave the arena as it was. */
  lemma {:induction false} ReplayedSilent(trace: seq<Snapshot>, answers: seq<Result<bool>>, e: nat, responses: seq<Response>)
    requires Replayed(trace, answers, e, responses)
    requires forall j :: 0 <= j < |answers| ==> !Truthy(responses[j].body)
    ensures forall j :: 0 <= j < |answers| ==> answers[j] == Ok(false)
    ensures trace[|answers|] == trace[0]
    decreases |answers|
  {
    if |answers| > 0 {
      var n := |answers| - 1;
      ReplayedSilent(trace[..n + 1], answers[..n], e, responses);
    }
  }

  /**
   * `assignResponseDataToEntity(entity, responses)`: the answers in order; the
   * first one that throws ends the loop, leaving the earlier writes in place.
   * Only records below the saved entity change, and answers without a body
   * change nothing. `trace` and `answers` record what each answer taken did.
   */
  method AssignResponses(s: Store, e: nat, responses: seq<Response>)
    returns (r: Result<()>, ghost trace: seq<Snapshot>, ghost answers: seq<Result<bool>>)
    requires s.Valid() && e in s.entities
    modifies s
    ensures s.Valid() && e in s.entities
    ensures Grows(old(s.entities), old(s.collections), old(s.next), s.entities, s.collections, s.next)
    ensures Confined(old(s.entities), old(s.collections), s.entities, s.collections, EntityRef(e))
    ensures (forall i :: 0 <= i < |responses| ==> !Truthy(responses[i].body)) ==>
              r == Ok(()) && s.entities == old(s.entities) && s.collections == old(s.collections) && s.next == old(s.next)
    ensures Replayed(trace, answers, e, responses)
    ensures trace[0] == (old(s.entities), old(s.collections), old(s.next))
    ensures trace[|answers|] == (s.entities, s.collections, s.next)
    ensures r.Ok? <==> |answers| == |responses| && forall j :: 0 <= j < |answers| ==> answers[j].Ok?
    ensures r.Err? ==> 0 < |answers| && answers[|answers| - 1] == Err(r.error)
  {
    Unconfined(s.entities, s.collections, EntityRef(e));
    trace, answers := [(s.entities, s.collections, s.next)], [];
    var i := 0;
    while i < |responses|
      invariant i <= |responses|
      invariant s.Valid() && e in s.entities
      invariant Grows(old(s.entities), old(s.collections), old(s.next), s.entities, s.collections, s.next)
      invariant Confined(old(s.entities), old(s.collections), s.entities, s.collections, EntityRef(e))
      invariant |answers| == i && Replayed(trace, answers, e, responses)
      invariant forall j :: 0 <= j < i ==> answers[j].Ok?
      invariant trace[0] == (old(s.entities), old(s.collections), old(s.next))
      invariant trace[i] == (s.entities, s.collections, s.next)
    {
      ghost var ents1, cols1, next1 := s.entities, s.collections, s.next;
      var step := AssignResponse(s, e, responses[i]);
      ConfinedStep(old(s.entities), old(s.collections), old(s.next), ents1, cols1, next1, s.entities, s.collections,
                   EntityRef(e), EntityRef(e));
      ReplayedStep(trace, answers, e, responses, (s.entities, s.collections, s.next), step);
      trace, answers := trace + [(s.entities, s.collections, s.next)], answers + [step];
      if step.Err? {
        if forall j :: 0 <= j < |responses| ==> !Truthy(responses[j].body) {
          ReplayedSilent(trace, answers, e, responses);
        }
        return Err(step.error), trace, answers;
      }
      i := i + 1;
    }
    if forall j :: 0 <= j < |responses| ==> !Truthy(responses[j].body) {
      ReplayedSilent(trace, answers, e, responses);
    }
    return Ok(()), trace, answers;
  }

  // ---------------------------------------------------------------------------
  // Saving

  /**
   * What settling `responses` for entity `e` does, from the arena `ents0`,
   * `cols0`, `next0` to `ents`, `cols`, `next`, `trace` and `answers` being
   * the answers' write-back (`Replayed`). An answer that throws ends it
   * there, with that error. Otherwise every answer went through and:
   * `e`'s record is the commit of what the answers left (its changes are
   * now its stored values); its parent collection, unless the sync below
   * rewrites it, lists `e` among its stored members; and an entity `e` was
   * cloned from, with the same definition, now holds `e`'s stored values,
   * no changes, and `e`'s details over its own.
   */
  ghost predicate Settled(ents0: map<nat, EntityState>, cols0: map<nat, CollectionState>, next0: nat,
                          ents: map<nat, EntityState>, cols: map<nat, CollectionState>, next: nat,
                          e: nat, responses: seq<Response>, trace: seq<Snapshot>, answers: seq<Result<bool>>,
                          r: Result<bool>)
  {
    && e in ents0
    && Replayed(trace, answers, e, responses)
    && trace[0] == (ents0, cols0, next0)
    && (r.Ok? <==> |answers| == |responses| && forall j :: 0 <= j < |answers| ==> answers[j].Ok?)
    && (r.Err? ==> 0 < |answers| && answers[|answers| - 1] == Err(r.error) && trace[|answers|] == (ents, cols, next))
    && (r.Ok? ==>
          var written := trace[|answers|].0;
          && r == Ok(true)
          && e in written && e in ents && ents[e] == Commit(written[e])
          && var p, b := ents0[e].parent, ents0[e].base;
             && (p.Some? && (b.None? || (b.value in ents0 && p.value !in ents0[b.value].children)) ==>
                   p.value in cols0 && p.value in cols && cols[p.value] == PromoteSaved(cols0[p.value], e))
             && (b.Some? && b.value in ents0 && ents0[b.value].definition == ents0[e].definition ==>
                   && b.value in ents
                   && ents[b.value].storedProperties == ents[e].storedProperties
                   && ents[b.value].changedProperties == map[]
                   && forall k :: k in ents[e].details ==> k in ents[b.value].details && ents[b.value].details[k] == ents[e].details[k]))
  }

  /**
   * Lines 15-33 after the batch came back: the answers are written back, the
   * tree is consolidated, the entity joins the stored members of its
   * collection and the entity it was cloned from is synced with it. An answer
   * that throws ends the save there.
   */
  method Settle(s: Store, e: nat, responses: seq<Response>)
    returns (r: Result<bool>, ghost trace: seq<Snapshot>, ghost answers: seq<Result<bool>>)
    requires s.Valid() && e in s.entities
    modifies s
    ensures s.Valid()
    ensures Settled(old(s.entities), old(s.collections), old(s.next), s.entities, s.collections, s.next,
                    e, responses, trace, answers, r)
  {
    ghost var ents0, cols0, next0 := s.entities, s.collections, s.next;
    var written;
    written, trace, answers := AssignResponses(s, e, responses);
    if written.Err? {
      return Err(written.error), trace, answers;
    }
    ghost var ents1, cols1, next1 := s.entities, s.collections, s.next;
    assert EntityOk(ents0, cols0, e);
    if ents0[e].parent.Some? {
      AncestorKept(ents0, cols0, next0, ents1, cols1, EntityRef(e), CollectionRef(ents0[e].parent.value));
    }
    Finish(s, e);
    SettledFromFinished(ents0, cols0, next0, ents1, cols1, next1, s.entities, s.collections, s.next,
                        e, responses, trace, answers);
    return Ok(true), trace, answers;
  }

  /**
   * What lines 19-33 do to the arena `ents1`, `cols1` once the answers are
   * written back, ending with `ents`, `cols`: `e`'s record is committed; its
   * parent collection, unless it is one the sync below rewrites, has `e`
   * promoted to its stored members; and an entity `e` was cloned from, with
   * the same definition, holds `e`'s stored values, no changes, and `e`'s
   * details over its own.
   */
  ghost predicate Finished(ents1: map<nat, EntityState>, cols1: map<nat, CollectionState>,
                           ents: map<nat, EntityState>, cols: map<nat, CollectionState>, e: nat)
  {
    && e in ents1 && e in ents && ents[e] == Commit(ents1[e])
    && var p, b := ents1[e].parent, ents1[e].base;
       && (p.Some? && (b.None? || (b.value in ents1 && p.value !in ents1[b.value].children)) ==>
             p.value in cols1 && p.value in cols && cols[p.value] == PromoteSaved(cols1[p.value], e))
       && (b.Some? && b.value in ents1 && ents1[b.value].definition == ents1[e].definition ==>
             && b.value in ents
             && ents[b.value].storedProperties == ents[e].storedProperties
             && ents[b.value].changedProperties == map[]
             && forall k :: k in ents[e].details ==> k in ents[b.value].details && ents[b.value].details[k] == ents[e].details[k])
  }

  /** Lines 19-33: consolidate the entity, promote it in its collection, sync the entity it was cloned from. */
  method Finish(s: Store, e: nat)
    requires s.Valid() && e in s.entities
    modifies s
    ensures s.Valid()
    ensures Finished(old(s.entities), old(s.collections), s.entities, s.collections, e)
  {
    ghost var ents1, cols1, next1 := s.entities, s.collections, s.next;
    ConsolidateEntity(s, e);
    assert s.entities[e] == Commit(ents1[e]);
    ghost var ents2, cols2, next2 := s.entities, s.collections, s.next;
    assert EntityOk(ents1, cols1, e);
    var parent := s.entities[e].parent;
    if parent.Some? {
      AncestorKept(ents1, cols1, next1, ents2, cols2, EntityRef(e), CollectionRef(parent.value));
    }
    PromoteInParent(s, e);
    assert EntityOk(s.entities, s.collections, e);
    ghost var ents3, cols3 := s.entities, s.collections;
    var base := s.entities[e].base;
    if base.Some? {
      var _ := SyncTarget(s, Some(EntityRef(base.value)), Some(EntityRef(e)));
    }
    FinishedAfterSync(ents1, cols1, ents3, cols3, s.entities, s.collections, e);
  }

  /** The last step of `Finish`: the entity it was cloned from, if any, synced with the committed entity. */
  lemma FinishedAfterSync(ents1: map<nat, EntityState>, cols1: map<nat, CollectionState>,
                          ents3: map<nat, EntityState>, cols3: map<nat, CollectionState>,
                          ents: map<nat, EntityState>, cols: map<nat, CollectionState>, e: nat)
    requires e in ents1 && e in ents3 && ents3[e] == Commit(ents1[e])
    requires var p := ents1[e].parent;
             p.Some? ==> p.value in cols1 && p.value in cols3 && cols3[p.value] == PromoteSaved(cols1[p.value], e)
    requires var b := ents1[e].base;
             b.Some? ==> b.value in ents1 && b.value in ents3 && b.value != e && SameShape(ents1[b.value], ents3[b.value])
    requires var b := ents1[e].base;
             b.None? || ents3[b.value].definition != ents3[e].definition ==> ents == ents3 && cols == cols3
    requires var b := ents1[e].base;
             b.Some? && ents3[b.value].definition == ents3[e].definition ==>
               && b.value in ents && ents[b.value] == CopiedRecord(ents3[b.value], ents3[e])
               && (forall x :: x in ents3 && x != b.value ==> x in ents && ents[x] == ents3[x])
               && (forall c :: c in cols3 && c !in ents3[b.value].children ==> c in cols && cols[c] == cols3[c])
    ensures Finished(ents1, cols1, ents, cols, e)
  {
    assert e in ents && ents[e] == ents3[e];
  }

  /** The write-back followed by `Finish` is what `Settled` says. */
  lemma SettledFromFinished(ents0: map<nat, EntityState>, cols0: map<nat, CollectionState>, next0: nat,
                            ents1: map<nat, EntityState>, cols1: map<nat, CollectionState>, next1: nat,
                            ents: map<nat, EntityState>, cols: map<nat, CollectionState>, next: nat,
                            e: nat, responses: seq<Response>, trace: seq<Snapshot>, answers: seq<Result<bool>>)
    requires e in ents0 && EntityOk(ents0, cols0, e)
    requires Grows(ents0, cols0, next0, ents1, cols1, next1)
    requires Replayed(trace, answers, e, responses) && trace[0] == (ents0, cols0, next0)
    requires |answers| == |responses| && (forall j :: 0 <= j < |answers| ==> answers[j].Ok?)
    requires trace[|answers|] == (ents1, cols1, next1)
    requires var p := ents0[e].parent; p.Some? ==> p.value in cols1 && cols1[p.value] == cols0[p.value]
    requires Finished(ents1, cols1, ents, cols, e)
    ensures Settled(ents0, cols0, next0, ents, cols, next, e, responses, trace, answers, Ok(true))
  {
    assert SameShape(ents0[e], ents1[e]);
    var b := ents0[e].base;
    if b.Some? {
      assert SameShape(ents0[b.value], ents1[b.value]);
    }
  }

  /**
   * `entitySave(entity)`: anything but an entity proxy (`None` or a
   * collection here) answers false. For an entity the batch is planned; an
   * empty plan answers true at once; a rejected batch throws before anything
   * changes; otherwise the answers are settled and the answer is true.
   * `sent` is the batch handed to `requestBatch`, `batch` what it resolved
   * or rejected with.
   */
  method Save(s: Store, x: Option<Handle>, batch: Result<seq<Response>>)
    returns (sent: seq<Request>, r: Result<bool>, ghost trace: seq<Snapshot>, ghost answers: seq<Result<bool>>)
    requires s.Valid() && (x.Some? ==> Exists(s.entities, s.collections, x.value))
    modifies s
    ensures s.Valid()
    ensures x.None? || x.value.CollectionRef? ==>
              sent == [] && r == Ok(false)
              && s.entities == old(s.entities) && s.collections == old(s.collections) && s.next == old(s.next)
    ensures x.Some? && x.value.EntityRef? ==>
              sent == EntityRequests(old(s.entities), old(s.collections), old(s.next), x.value.entity, "") && r != Ok(false)
    ensures x.Some? && x.value.EntityRef? && (sent == [] || batch.Err?) ==>
              && r == (if sent == [] then Ok(true) else Err(batch.error))
              && s.entities == old(s.entities) && s.collections == old(s.collections) && s.next == old(s.next)
    ensures x.Some? && x.value.EntityRef? && sent != [] && batch.Ok? ==>
              Settled(old(s.entities), old(s.collections), old(s.next), s.entities, s.collections, s.next,
                      x.value.entity, batch.value, trace, answers, r)
  {
    trace, answers := [(s.entities, s.collections, s.next)], [];
    if x.None? || x.value.CollectionRef? {
      return [], Ok(false), trace, answers;
    }
    var e := x.value.entity;
    sent := EntityRequests(s.entities, s.collections, s.next, e, "");
    if sent == [] {
      return sent, Ok(true), trace, answers;
    }
    if batch.Err? {
      return sent, Err(batch.error), trace, answers;
    }
    r, trace, answers := Settle(s, e, batch.value);
  }
}
