/**
 * The pure half of composable/entity/save.js: `entityBatchRequests`, the
 * plan of OData batch requests (section 11.7 of OData Version 4.0 Part 1:
 * Protocol) that saves an entity tree, and `traverseEntity`, which follows
 * the path inside a request id back to the entity the request was planned
 * for.
 *
 * An entity without a primary value is inserted whole (one POST of its
 * snapshot without details, its children nested); a persisted one is
 * patched with its changed values, if any, and its child collections are
 * planned in turn. A collection plans one DELETE per tombstoned stored
 * member, then the requests of its public members. Ids are built from
 * `/name` and `[index]` segments.
 */
module SavePlan {
  import opened JsValues
  import opened Definitions
  import opened Records
  import opened Entities
  import opened Data

  datatype Method = POST | PATCH | DELETE

  /** One request of the batch: `{ atomicityGroup, id, method, url, body }`. */
  datatype Request = Request(atomicityGroup: string, id: string, verb: Method, url: string, body: Option<Value>)

  const Group := "entitySave"

  /** `${entityName}(${primaryValue})`. */
  function KeyUrl(d: Definition, pv: Value): string {
    d.entityName + "(" + ToStr(pv) + ")"
  }

  /** The `[index]` segment of member `i`. */
  function IndexSegment(i: nat): string {
    "[" + NatToString(i) + "]"
  }

  // ---------------------------------------------------------------------------
  // The plan

  /**
   * The requests an entity plans for itself at `prefix`: a POST of its
   * snapshot without details when its primary value is null or undefined,
   * else a PATCH of a copy of its changed values when there are any.
   */
  function OwnRequests(ents: map<nat, EntityState>, cols: map<nat, CollectionState>, next: nat,
                       e: nat, prefix: string): (qs: seq<Request>)
    requires ValidMaps(ents, cols, next) && e in ents
    ensures |qs| <= 1
    ensures forall q :: q in qs ==> q.atomicityGroup == Group && q.verb != DELETE
    ensures forall q :: q in qs ==> q.id == prefix + "/create" || q.id == prefix + "/update"
  {
    var r := ents[e];
    var pv := PrimaryValue(r);
    if IsNullish(pv) then
      [Request(Group, prefix + "/create", POST, r.definition.entityName,
               Some(EntityData(ents, cols, next, e, DataOptions(None, true, false), 0)))]
    else if |r.changedProperties| > 0 then
      [Request(Group, prefix + "/update", PATCH, KeyUrl(r.definition, pv), Some(Obj(r.changedProperties)))]
    else []
  }

  /** `entityBatchRequests(entity, prefix)` for an entity. */
  function EntityRequests(ents: map<nat, EntityState>, cols: map<nat, CollectionState>, next: nat,
                          e: nat, prefix: string): (qs: seq<Request>)
    requires ValidMaps(ents, cols, next) && e in ents
    ensures forall q :: q in qs ==> q.atomicityGroup == Group
    ensures forall q :: q in qs ==> StartsWith(q.id, prefix) && |q.id| > |prefix| && q.id[|prefix|] == '/'
    decreases EntityHeight(ents[e]), 1, 0
  {
    OwnRequests(ents, cols, next, e, prefix)
    + if IsNullish(PrimaryValue(ents[e])) then [] else ChildRequests(ents, cols, next, e, prefix, 0)
  }

  /** The requests of child collections `i` and later, each under `prefix/name`. */
  function ChildRequests(ents: map<nat, EntityState>, cols: map<nat, CollectionState>, next: nat,
                         e: nat, prefix: string, i: nat): (qs: seq<Request>)
    requires ValidMaps(ents, cols, next) && e in ents
    ensures forall q :: q in qs ==> q.atomicityGroup == Group
    ensures forall q :: q in qs ==>
              StartsWith(q.id, prefix) && |q.id| > |prefix| && q.id[|prefix|] == '/'
              && q.id != prefix + "/create" && q.id != prefix + "/update"
    decreases EntityHeight(ents[e]), 0, |ents[e].children| - i
  {
    var r := ents[e];
    ChildrenBelow(ents, cols, next, e);
    if i >= |r.children| then []
    else
      var name := ChildNames(r.definition)[i];
      var here := CollectionRequests(ents, cols, next, r.children[i], prefix + "/" + name);
      ChildIdsApart(prefix, name, here);
      here + ChildRequests(ents, cols, next, e, prefix, i + 1)
  }

  /** An id below `prefix/name` that goes on with `(` or `[` is none of the entity's own ids. */
  lemma ChildIdsApart(prefix: string, name: string, qs: seq<Request>)
    requires forall q :: q in qs ==>
               StartsWith(q.id, prefix + "/" + name) && |q.id| > |prefix + "/" + name|
               && (q.id[|prefix + "/" + name|] == '(' || q.id[|prefix + "/" + name|] == '[')
    ensures forall q :: q in qs ==>
              StartsWith(q.id, prefix) && |q.id| > |prefix| && q.id[|prefix|] == '/'
              && q.id != prefix + "/create" && q.id != prefix + "/update"
  {
    forall q | q in qs
      ensures StartsWith(q.id, prefix) && |q.id| > |prefix| && q.id[|prefix|] == '/'
      ensures q.id != prefix + "/create" && q.id != prefix + "/update"
    {
      var p := prefix + "/" + name;
      assert q.id[..|prefix|] == p[..|prefix|];
      assert q.id[|prefix|] == p[|prefix|];
      OwnIdApart(prefix, name, q.id, "/create");
      OwnIdApart(prefix, name, q.id, "/update");
    }
  }

  lemma OwnIdApart(prefix: string, name: string, id: string, own: string)
    requires own == "/create" || own == "/update"
    requires StartsWith(id, prefix + "/" + name) && |id| > |prefix + "/" + name|
    requires id[|prefix + "/" + name|] == '(' || id[|prefix + "/" + name|] == '['
    ensures id != prefix + own
  {

  }

  /** `entityBatchRequests(collection, prefix)`: the tombstones' DELETEs, then the view members' requests. */
  function CollectionRequests(ents: map<nat, EntityState>, cols: map<nat, CollectionState>, next: nat,
                              c: nat, prefix: string): (qs: seq<Request>)
    requires ValidMaps(ents, cols, next) && c in cols
    ensures forall q :: q in qs ==> q.atomicityGroup == Group
    ensures forall q :: q in qs ==>
              StartsWith(q.id, prefix) && |q.id| > |prefix| && (q.id[|prefix|] == '(' || q.id[|prefix|] == '[')
    decreases CollectionHeight(cols[c]), 1, 0
  {
    DeleteRequests(ents, cols, next, c, prefix) + MemberRequests(ents, cols, next, c, prefix, 0)
  }

  /** The DELETE of stored member `index`, keyed by its primary value. */
  function DeleteRequest(ents: map<nat, EntityState>, cols: map<nat, CollectionState>, next: nat,
                         c: nat, prefix: string, index: nat): (q: Request)
    requires ValidMaps(ents, cols, next) && c in cols && index < |cols[c].storedEntities|
    ensures q.atomicityGroup == Group && q.verb == DELETE && q.body == None
    ensures StartsWith(q.id, prefix + "(") && EndsWith(q.id, ")/delete")
  {
    var r := cols[c];
    assert CollectionOk(ents, cols, c);
    var pv := PrimaryValue(ents[r.storedEntities[index]]);
    var id := prefix + "(" + ToStr(pv) + ")/delete";
    assert id[..|prefix + "("|] == prefix + "(";
    assert id[|id| - |")/delete"|..] == ")/delete";
    Request(Group, id, DELETE, KeyUrl(r.definition, pv), None)
  }

  /**
   * The tombstoned positions from `lo` on below `n`, ascending. The model
   * visits tombstones in ascending order; the source visits them in the
   * order they were added to the set.
   */
  function Tombstones(n: nat, deleted: set<nat>, lo: nat): (ts: seq<nat>)
    ensures forall j :: 0 <= j < |ts| ==> lo <= ts[j] < n && ts[j] in deleted
    decreases n - lo
  {
    if lo >= n then [] else (if lo in deleted then [lo] else []) + Tombstones(n, deleted, lo + 1)
  }

  /** The tombstones at `lo` or above. */
  function Above(deleted: set<nat>, lo: nat): set<nat> {
    set d | d in deleted && lo <= d
  }

  /** Below `n`, every tombstone from `lo` on is visited, once. */
  lemma {:induction false} TombstonesCover(n: nat, deleted: set<nat>, lo: nat)
    requires forall d :: d in deleted ==> d < n
    ensures |Tombstones(n, deleted, lo)| == |Above(deleted, lo)|
    ensures forall d :: d in deleted && lo <= d ==> d in Tombstones(n, deleted, lo)
    decreases n - lo
  {
    if lo >= n {
      assert forall d :: d in Above(deleted, lo) ==> d < n;
      assert Above(deleted, lo) == {};
    } else {
      TombstonesCover(n, deleted, lo + 1);
      var ts := Tombstones(n, deleted, lo);
      var rest := Tombstones(n, deleted, lo + 1);
      if lo in deleted {
        assert ts == [lo] + rest;
        assert Above(deleted, lo) == Above(deleted, lo + 1) + {lo};
        assert lo !in Above(deleted, lo + 1);
      } else {
        assert ts == rest;
        assert Above(deleted, lo) == Above(deleted, lo + 1);
      }
    }
  }

  /** `for (const index of state.deletedIndices)`: one DELETE per tombstone. */
  function DeleteRequests(ents: map<nat, EntityState>, cols: map<nat, CollectionState>, next: nat,
                          c: nat, prefix: string): (qs: seq<Request>)
    requires ValidMaps(ents, cols, next) && c in cols
    ensures forall q :: q in qs ==> q.atomicityGroup == Group && q.verb == DELETE
    ensures forall q :: q in qs ==> StartsWith(q.id, prefix) && |q.id| > |prefix| && q.id[|prefix|] == '('
  {
    var ts := Tombstones(|cols[c].storedEntities|, cols[c].deletedIndices, 0);
    var qs := seq(|ts|, j requires 0 <= j < |ts| => DeleteRequest(ents, cols, next, c, prefix, ts[j]));
    assert forall q :: q in qs ==> q.id[..|prefix + "("|] == prefix + "(";
    qs
  }

  /** The requests of view members `i` and later, each under `prefix[i]`. */
  function MemberRequests(ents: map<nat, EntityState>, cols: map<nat, CollectionState>, next: nat,
                          c: nat, prefix: string, i: nat): (qs: seq<Request>)
    requires ValidMaps(ents, cols, next) && c in cols
    ensures forall q :: q in qs ==> q.atomicityGroup == Group
    ensures forall q :: q in qs ==> StartsWith(q.id, prefix) && |q.id| > |prefix| && q.id[|prefix|] == '['
    decreases CollectionHeight(cols[c]), 0, |View(cols[c])| - i
  {
    var view := View(cols[c]);
    ViewBelow(ents, cols, next, c);
    if i >= |view| then []
    else
      var p := prefix + IndexSegment(i);
      var here := EntityRequests(ents, cols, next, view[i], p);
      assert forall q :: q in here ==> q.id[..|prefix|] == p[..|prefix|] && q.id[|prefix|] == p[|prefix|];
      here + MemberRequests(ents, cols, next, c, prefix, i + 1)
  }

  // ---------------------------------------------------------------------------
  // What the plan promises

  /**
   * An entity without a primary value plans exactly one POST, at
   * `prefix/create`, to its entity set; its body carries every declared key
   * with its current value and every child collection's snapshot, and no
   * detail.
   */
  lemma NewEntityPlan(ents: map<nat, EntityState>, cols: map<nat, CollectionState>, next: nat, e: nat, prefix: string)
    requires ValidMaps(ents, cols, next) && e in ents && IsNullish(PrimaryValue(ents[e]))
    ensures var qs, r := EntityRequests(ents, cols, next, e, prefix), ents[e];
            && |qs| == 1 && qs[0].verb == POST && qs[0].id == prefix + "/create"
            && qs[0].url == r.definition.entityName
            && qs[0].body.Some? && qs[0].body.value.Obj?
            && (forall k :: k in Keys(r.definition) ==> k in qs[0].body.value.fields && qs[0].body.value.fields[k] == Effective(r, k))
            && (forall k :: k in ChildNames(r.definition) ==> k in qs[0].body.value.fields)
            && (forall k :: k in r.details ==> k !in qs[0].body.value.fields)
  {
    var opts := DataOptions(None, true, false);
    EntityDataKeys(ents, cols, next, e, opts, 0);
    EntityDataDetails(ents, cols, next, e, opts, 0);
    EntityDataChildren(ents, cols, next, e, opts, 0);
    var r := ents[e];
    var f := EntityData(ents, cols, next, e, opts, 0).fields;
    forall k | k in ChildNames(r.definition) ensures k in f {
      var i :| 0 <= i < |ChildNames(r.definition)| && ChildNames(r.definition)[i] == k;
    }
  }

  /** For a persisted entity, its own requests (a PATCH or nothing) come first, then its children's. */
  lemma PersistedParts(ents: map<nat, EntityState>, cols: map<nat, CollectionState>, next: nat, e: nat, prefix: string)
    requires ValidMaps(ents, cols, next) && e in ents && !IsNullish(PrimaryValue(ents[e]))
    ensures var r := ents[e];
            EntityRequests(ents, cols, next, e, prefix)
            == (if |r.changedProperties| > 0
                then [Request(Group, prefix + "/update", PATCH, KeyUrl(r.definition, PrimaryValue(r)), Some(Obj(r.changedProperties)))]
                else [])
               + ChildRequests(ents, cols, next, e, prefix, 0)
  {
  }

  /**
   * A persisted entity with changed values plans first a PATCH at
   * `prefix/update`, addressed by its primary value, whose body is a copy of
   * exactly those values.
   */
  lemma PatchPlanned(ents: map<nat, EntityState>, cols: map<nat, CollectionState>, next: nat, e: nat, prefix: string)
    requires ValidMaps(ents, cols, next) && e in ents && !IsNullish(PrimaryValue(ents[e]))
    requires |ents[e].changedProperties| > 0
    ensures var qs, r := EntityRequests(ents, cols, next, e, prefix), ents[e];
            |qs| > 0 && qs[0] == Request(Group, prefix + "/update", PATCH, KeyUrl(r.definition, PrimaryValue(r)), Some(Obj(r.changedProperties)))
  {
    PersistedParts(ents, cols, next, e, prefix);
  }

  /**
   * A persisted entity plans a request at `prefix/update` only when it has
   * changed values, and never a request at `prefix/create`.
   */
  lemma PatchOnlyWhenChanged(ents: map<nat, EntityState>, cols: map<nat, CollectionState>, next: nat, e: nat, prefix: string)
    requires ValidMaps(ents, cols, next) && e in ents && !IsNullish(PrimaryValue(ents[e]))
    ensures var qs := EntityRequests(ents, cols, next, e, prefix);
            && (|ents[e].changedProperties| == 0 ==> forall q :: q in qs ==> q.id != prefix + "/update")
            && (forall q :: q in qs ==> q.id != prefix + "/create")
  {
    PersistedParts(ents, cols, next, e, prefix);
  }

  /**
   * A collection plans its DELETEs first, one per tombstone, each for the
   * stored member at that position, and then its public members' requests.
   */
  lemma CollectionPlan(ents: map<nat, EntityState>, cols: map<nat, CollectionState>, next: nat, c: nat, prefix: string)
    requires ValidMaps(ents, cols, next) && c in cols
    ensures var qs, r := CollectionRequests(ents, cols, next, c, prefix), cols[c];
            && |r.deletedIndices| <= |qs|
            && (forall j :: 0 <= j < |r.deletedIndices| ==> qs[j].verb == DELETE)
            && (forall d :: d in r.deletedIndices ==>
                  d < |r.storedEntities| && DeleteRequest(ents, cols, next, c, prefix, d) in qs[..|r.deletedIndices|])
            && qs[|r.deletedIndices|..] == MemberRequests(ents, cols, next, c, prefix, 0)
  {
    var ds := DeleteRequests(ents, cols, next, c, prefix);
    DeletesCover(ents, cols, next, c, prefix);
    var qs := CollectionRequests(ents, cols, next, c, prefix);
    assert qs[..|ds|] == ds;
  }

  /** One DELETE per tombstone, and a DELETE for every tombstone. */
  lemma DeletesCover(ents: map<nat, EntityState>, cols: map<nat, CollectionState>, next: nat, c: nat, prefix: string)
    requires ValidMaps(ents, cols, next) && c in cols
    ensures var ds, r := DeleteRequests(ents, cols, next, c, prefix), cols[c];
            && |ds| == |r.deletedIndices|
            && (forall j :: 0 <= j < |ds| ==> ds[j].verb == DELETE)
            && (forall d :: d in r.deletedIndices ==>
                  d < |r.storedEntities| && DeleteRequest(ents, cols, next, c, prefix, d) in ds)
  {
    var r := cols[c];
    assert CollectionOk(ents, cols, c);
    var ts := Tombstones(|r.storedEntities|, r.deletedIndices, 0);
    TombstonesCover(|r.storedEntities|, r.deletedIndices, 0);
    assert Above(r.deletedIndices, 0) == r.deletedIndices;
    var ds := DeleteRequests(ents, cols, next, c, prefix);
    forall d | d in r.deletedIndices
      ensures DeleteRequest(ents, cols, next, c, prefix, d) in ds
    {
      var j :| 0 <= j < |ts| && ts[j] == d;
      assert ds[j] == DeleteRequest(ents, cols, next, c, prefix, d);
    }
  }

  // ---------------------------------------------------------------------------
  // Following an id back: `traverseEntity`

  /** What a step of the walk holds: an entity or collection proxy, or a plain value. */
  datatype Target = Node(handle: Handle) | Plain(value: Value)

  predicate TargetOk(ents: map<nat, EntityState>, cols: map<nat, CollectionState>, t: Target) {
    t.Node? ==> (t.handle.EntityRef? ==> t.handle.entity in ents) && (t.handle.CollectionRef? ==> t.handle.collection in cols)
  }

  /**
   * A read through the collection proxy's `get` trap: a view member by
   * index name, the view's length, the Vue skip flag; any other name reads
   * undefined (the array and collection methods are not modelled).
   */
  function CollectionGet(r: CollectionState, name: string): (t: Target)
    ensures t.Node? <==> ParseIndex(name).Some? && ParseIndex(name).value < |View(r)|
    ensures t.Node? ==> t.handle == EntityRef(View(r)[ParseIndex(name).value])
  {
    match ParseIndex(name)
    case Some(i) => if i < |View(r)| then Node(EntityRef(View(r)[i])) else Plain(Undefined)
    case None =>
      if name == "length" then Plain(Num(|View(r)|))
      else if name == FlagSkip then Plain(Bool(true))
      else Plain(Undefined)
  }

  /** `t[name]`: through the entity or collection proxy, or a plain property read. */
  function Member(ents: map<nat, EntityState>, cols: map<nat, CollectionState>, next: nat, t: Target, name: string): (r: Result<Target>)
    requires ValidMaps(ents, cols, next) && TargetOk(ents, cols, t)
    ensures r.Ok? ==> TargetOk(ents, cols, r.value)
    ensures r.Err? <==> t.Plain? && IsNullish(t.value)
  {
    match t
    case Node(EntityRef(e)) =>
      (match Read(ents[e], name)
       case Coll(c) =>
         assert EntityOk(ents, cols, e);
         Ok(Node(CollectionRef(c)))
       case Val(v) => Ok(Plain(v)))
    case Node(CollectionRef(c)) =>
      ViewBelow(ents, cols, next, c);
      Ok(CollectionGet(cols[c], name))
    case Plain(v) =>
      (match Get(v, name)
       case Err(x) => Err(x)
       case Ok(w) => Ok(Plain(w)))
  }

  /** The first position from `j` on that holds `[`, or the length. */
  function NavigationEnd(path: string, j: nat): (k: nat)
    requires j <= |path|
    ensures j <= k <= |path|
    ensures forall i :: j <= i < k ==> path[i] != '['
    ensures k < |path| ==> path[k] == '['
    decreases |path| - j
  {
    if j == |path| || path[j] == '[' then j else NavigationEnd(path, j + 1)
  }

  /** The first position from `j` on that holds no digit, or the length. */
  function DigitsEnd(path: string, j: nat): (k: nat)
    requires j <= |path|
    ensures j <= k <= |path|
    ensures forall i :: j <= i < k ==> IsDigit(path[i])
    ensures k < |path| ==> !IsDigit(path[k])
    decreases |path| - j
  {
    if j == |path| || !IsDigit(path[j]) then j else DigitsEnd(path, j + 1)
  }

  /** A step of a path, as `/^\/([^[]+)\[(\d+)]/` splits it: navigation, index, and what follows. */
  datatype Step = Step(navigation: string, index: string, rest: string)

  function SplitStep(path: string): (s: Option<Step>)
    ensures s.Some? ==> |s.value.rest| < |path|
  {
    if |path| == 0 || path[0] != '/' then None
    else
      var j := NavigationEnd(path, 1);
      if j == 1 || j == |path| then None
      else
        var k := DigitsEnd(path, j + 1);
        if k == j + 1 || k == |path| || path[k] != ']' then None
        else Some(Step(path[1..j], path[j + 1..k], path[k + 1..]))
  }

  /**
   * `traverseEntity(entity, path)`: an empty path ends the walk; otherwise
   * a step that does not match throws (destructuring null), and
   * `entity[navigation][index]` is read and the walk goes on with the rest.
   */
  function Traverse(ents: map<nat, EntityState>, cols: map<nat, CollectionState>, next: nat, t: Target, path: string): (r: Result<Target>)
    requires ValidMaps(ents, cols, next) && TargetOk(ents, cols, t)
    ensures r.Ok? ==> TargetOk(ents, cols, r.value)
    ensures path == "" ==> r == Ok(t)
    decreases |path|
  {
    if path == "" then Ok(t)
    else
      match SplitStep(path)
      case None => Err(TypeError)
      case Some(Step(navigation, index, rest)) =>
        match Member(ents, cols, next, t, navigation)
        case Err(x) => Err(x)
        case Ok(t1) =>
          match Member(ents, cols, next, t1, index)
          case Err(x) => Err(x)
          case Ok(t2) => Traverse(ents, cols, next, t2, rest)
  }

  /** The line terminators `.` does not match. */
  predicate IsLineTerminator(ch: char) {
    ch == '\n' || ch == '\r' || ch == '\U{2028}' || ch == '\U{2029}'
  }

  /** `id.match(/^(.*)\/(?:create|update|delete)$/)[1]`: the id without its verb, if it has one. */
  function IdPath(id: string): (p: Option<string>)
    ensures p.Some? ==> |id| >= 7 && p.value == id[..|id| - 7]
    ensures p.Some? <==>
              && (EndsWith(id, "/create") || EndsWith(id, "/update") || EndsWith(id, "/delete"))
              && forall i :: 0 <= i < |id| - 7 ==> !IsLineTerminator(id[i])
  {
    if |id| >= 7 && (EndsWith(id, "/create") || EndsWith(id, "/update") || EndsWith(id, "/delete"))
       && forall i :: 0 <= i < |id| - 7 ==> !IsLineTerminator(id[i])
    then Some(id[..|id| - 7])
    else None
  }

  // ---------------------------------------------------------------------------
  // Ids lead back to the entity they were planned for

  /** A child name an id segment can carry and the entity proxy resolves: non-empty, no `[`, no line break, no Vue flag. */
  predicate SegmentName(name: string) {
    && |name| > 0 && name != FlagSkip && name != FlagRaw
    && forall i :: 0 <= i < |name| ==> name[i] != '[' && !IsLineTerminator(name[i])
  }

  /** Every child name in the definition tree is a segment name. */
  predicate PathSafe(d: Definition) {
    && (forall i :: 0 <= i < |ChildNames(d)| ==> SegmentName(ChildNames(d)[i]))
    && (forall i :: 0 <= i < |Children(d)| ==> PathSafe(Children(d)[i]))
  }

  /** A path made of segments carries no line break. */
  predicate NoLineBreak(s: string) {
    forall i :: 0 <= i < |s| ==> !IsLineTerminator(s[i])
  }

  /** The step `/name[i]` splits into its navigation, its index and the rest. */
  lemma SplitSegment(name: string, i: nat, rest: string)
    requires SegmentName(name)
    ensures SplitStep("/" + name + IndexSegment(i) + rest) == Some(Step(name, NatToString(i), rest))
  {
    var path := "/" + name + IndexSegment(i) + rest;
    var digits := NatToString(i);
    var j := 1 + |name|;
    assert path[1..j] == name;
    assert path[j] == '[';
    assert NavigationEnd(path, 1) == j by {
      NavigationEndAt(path, 1, j);
    }
    var k := j + 1 + |digits|;
    assert path[j + 1..k] == digits;
    assert path[k] == ']';
    assert DigitsEnd(path, j + 1) == k by {
      DigitsEndAt(path, j + 1, k);
    }
    assert path[k + 1..] == rest;
  }

  lemma {:induction false} NavigationEndAt(path: string, j: nat, k: nat)
    requires j <= k < |path| && path[k] == '[' && forall i :: j <= i < k ==> path[i] != '['
    ensures NavigationEnd(path, j) == k
    decreases k - j
  {
    if j < k {
      NavigationEndAt(path, j + 1, k);
    }
  }

  lemma {:induction false} DigitsEndAt(path: string, j: nat, k: nat)
    requires j <= k < |path| && !IsDigit(path[k]) && forall i :: j <= i < k ==> IsDigit(path[i])
    ensures DigitsEnd(path, j) == k
    decreases k - j
  {
    if j < k {
      DigitsEndAt(path, j + 1, k);
    }
  }

  /**
   * From an entity, `/name[i]` reaches member `i` of the public view of the
   * child collection `name`.
   */
  lemma TraverseSegment(ents: map<nat, EntityState>, cols: map<nat, CollectionState>, next: nat,
                        e: nat, k: nat, i: nat, rest: string)
    requires ValidMaps(ents, cols, next) && e in ents && k < |ents[e].children| && k < |ChildNames(ents[e].definition)|
    requires SegmentName(ChildNames(ents[e].definition)[k])
    requires ents[e].children[k] in cols && i < |View(cols[ents[e].children[k]])|
    requires View(cols[ents[e].children[k]])[i] in ents
    ensures Traverse(ents, cols, next, Node(EntityRef(e)), "/" + ChildNames(ents[e].definition)[k] + IndexSegment(i) + rest)
         == Traverse(ents, cols, next, Node(EntityRef(View(cols[ents[e].children[k]])[i])), rest)
  {
    SplitSegment(ChildNames(ents[e].definition)[k], i, rest);
    ChildRead(ents, cols, next, e, k);
    ParseIndexRoundTrip(i);
  }

  /** Reading a child collection's name from an entity yields that collection. */
  lemma ChildRead(ents: map<nat, EntityState>, cols: map<nat, CollectionState>, next: nat, e: nat, k: nat)
    requires ValidMaps(ents, cols, next) && e in ents && k < |ents[e].children| && k < |ChildNames(ents[e].definition)|
    requires ChildNames(ents[e].definition)[k] != FlagSkip && ChildNames(ents[e].definition)[k] != FlagRaw
    ensures Read(ents[e], ChildNames(ents[e].definition)[k]) == Coll(ents[e].children[k])
  {
    var r := ents[e];
    var names := ChildNames(r.definition);
    assert EntityOk(ents, cols, e);
    assert PositionOf(names, names[k]) == k;
    assert !IsKey(r, names[k]);
  }

  /** The requests an entity plans, read off their ids: each own request's path leads back to its entity. */
  ghost predicate LeadsBack(ents: map<nat, EntityState>, cols: map<nat, CollectionState>, next: nat,
                            e: nat, prefix: string, q: Request)
    requires ValidMaps(ents, cols, next) && e in ents
  {
    && IdPath(q.id).Some? && StartsWith(IdPath(q.id).value, prefix)
    && var t := Traverse(ents, cols, next, Node(EntityRef(e)), IdPath(q.id).value[|prefix|..]);
       && t.Ok? && t.value.Node? && t.value.handle.EntityRef? && t.value.handle.entity in ents
       && q in OwnRequests(ents, cols, next, t.value.handle.entity, IdPath(q.id).value)
  }

  /**
   * Every POST and PATCH an entity plans at a line-break-free prefix carries
   * an id whose path, walked from the entity by `traverseEntity`, reaches
   * the entity that planned it (child names permitting).
   */
  lemma {:induction false} EntityPlanLeadsBack(ents: map<nat, EntityState>, cols: map<nat, CollectionState>, next: nat,
                                               e: nat, prefix: string)
    requires ValidMaps(ents, cols, next) && e in ents && PathSafe(ents[e].definition) && NoLineBreak(prefix)
    ensures forall q :: q in EntityRequests(ents, cols, next, e, prefix) && q.verb != DELETE ==>
              LeadsBack(ents, cols, next, e, prefix, q)
    decreases EntityHeight(ents[e]), 1, 0
  {
    var own := OwnRequests(ents, cols, next, e, prefix);
    forall q | q in own ensures LeadsBack(ents, cols, next, e, prefix, q) {
      assert IdPath(q.id) == Some(prefix);
      assert prefix[|prefix|..] == "";
    }
    if !IsNullish(PrimaryValue(ents[e])) {
      ChildPlanLeadsBack(ents, cols, next, e, prefix, 0);
    }
  }

  lemma {:induction false} ChildPlanLeadsBack(ents: map<nat, EntityState>, cols: map<nat, CollectionState>, next: nat,
                                              e: nat, prefix: string, i: nat)
    requires ValidMaps(ents, cols, next) && e in ents && PathSafe(ents[e].definition) && NoLineBreak(prefix)
    ensures forall q :: q in ChildRequests(ents, cols, next, e, prefix, i) && q.verb != DELETE ==>
              LeadsBack(ents, cols, next, e, prefix, q)
    decreases EntityHeight(ents[e]), 0, |ents[e].children| - i
  {
    if i < |ents[e].children| {
      UpdatesOfChild(ents, cols, next, e, prefix, i);
      MemberPlanLeadsBack(ents, cols, next, e, i, prefix, 0);
      ChildPlanLeadsBack(ents, cols, next, e, prefix, i + 1);
    }
  }

  /** The requests planned from child `i` on that are no DELETE: those of its members, then those of the next children. */
  lemma UpdatesOfChild(ents: map<nat, EntityState>, cols: map<nat, CollectionState>, next: nat, e: nat, prefix: string, i: nat)
    requires ValidMaps(ents, cols, next) && e in ents && i < |ents[e].children|
    ensures |ents[e].children| == |ChildNames(ents[e].definition)| && ents[e].children[i] in cols
    ensures CollectionHeight(cols[ents[e].children[i]]) < EntityHeight(ents[e])
    ensures cols[ents[e].children[i]].definition == Children(ents[e].definition)[i]
    ensures var c, p := ents[e].children[i], prefix + "/" + ChildNames(ents[e].definition)[i];
            forall q :: q in ChildRequests(ents, cols, next, e, prefix, i) && q.verb != DELETE ==>
              q in MemberRequests(ents, cols, next, c, p, 0) || q in ChildRequests(ents, cols, next, e, prefix, i + 1)
  {
    ChildrenBelow(ents, cols, next, e);
    assert EntityOk(ents, cols, e);
    var c, p := ents[e].children[i], prefix + "/" + ChildNames(ents[e].definition)[i];
    DeletesCover(ents, cols, next, c, p);
    assert ChildRequests(ents, cols, next, e, prefix, i)
        == CollectionRequests(ents, cols, next, c, p) + ChildRequests(ents, cols, next, e, prefix, i + 1);
  }

  lemma {:induction false} MemberPlanLeadsBack(ents: map<nat, EntityState>, cols: map<nat, CollectionState>, next: nat,
                                               e: nat, k: nat, prefix: string, i: nat)
    requires ValidMaps(ents, cols, next) && e in ents && PathSafe(ents[e].definition) && NoLineBreak(prefix)
    requires k < |ents[e].children| && k < |ChildNames(ents[e].definition)| && ents[e].children[k] in cols
    requires CollectionHeight(cols[ents[e].children[k]]) < EntityHeight(ents[e])
    requires cols[ents[e].children[k]].definition == Children(ents[e].definition)[k]
    ensures var c, name := ents[e].children[k], ChildNames(ents[e].definition)[k];
            forall q :: q in MemberRequests(ents, cols, next, c, prefix + "/" + name, i) && q.verb != DELETE ==>
              LeadsBack(ents, cols, next, e, prefix, q)
    decreases CollectionHeight(cols[ents[e].children[k]]), 0, |View(cols[ents[e].children[k]])| - i
  {
    var c := ents[e].children[k];
    var name := ChildNames(ents[e].definition)[k];
    var view := View(cols[c]);
    var p := prefix + "/" + name;
    ViewBelow(ents, cols, next, c);
    if i < |view| {
      var m := view[i];
      var pm := p + IndexSegment(i);
      assert CollectionOk(ents, cols, c);
      assert ents[m].definition == cols[c].definition;
      assert PathSafe(ents[m].definition);
      assert NoLineBreak(pm) by {
        SegmentNoLineBreak(prefix, name, i);
      }
      assert MemberRequests(ents, cols, next, c, p, i)
          == EntityRequests(ents, cols, next, m, pm) + MemberRequests(ents, cols, next, c, p, i + 1);
      EntityPlanLeadsBack(ents, cols, next, m, pm);
      MemberLeadsUp(ents, cols, next, e, k, prefix, i);
      MemberPlanLeadsBack(ents, cols, next, e, k, prefix, i + 1);
    }
  }

  /** What the requests of a child collection's member lead back to, they lead back to from the entity too. */
  lemma MemberLeadsUp(ents: map<nat, EntityState>, cols: map<nat, CollectionState>, next: nat,
                      e: nat, k: nat, prefix: string, i: nat)
    requires ValidMaps(ents, cols, next) && e in ents && PathSafe(ents[e].definition)
    requires k < |ents[e].children| && k < |ChildNames(ents[e].definition)| && ents[e].children[k] in cols
    requires i < |View(cols[ents[e].children[k]])| && View(cols[ents[e].children[k]])[i] in ents
    requires var m, pm := View(cols[ents[e].children[k]])[i], prefix + "/" + ChildNames(ents[e].definition)[k] + IndexSegment(i);
             forall q :: q in EntityRequests(ents, cols, next, m, pm) && q.verb != DELETE ==> LeadsBack(ents, cols, next, m, pm, q)
    ensures var m, pm := View(cols[ents[e].children[k]])[i], prefix + "/" + ChildNames(ents[e].definition)[k] + IndexSegment(i);
            forall q :: q in EntityRequests(ents, cols, next, m, pm) && q.verb != DELETE ==> LeadsBack(ents, cols, next, e, prefix, q)
  {
    var m, pm := View(cols[ents[e].children[k]])[i], prefix + "/" + ChildNames(ents[e].definition)[k] + IndexSegment(i);
    forall q | q in EntityRequests(ents, cols, next, m, pm) && q.verb != DELETE
      ensures LeadsBack(ents, cols, next, e, prefix, q)
    {
      StepDown(ents, cols, next, e, k, prefix, i, IdPath(q.id).value);
      LeadsBackUp(ents, cols, next, e, m, prefix, pm, q);
    }
  }

  /**
   * Walking one `/name[index]` segment down from an entity reaches the
   * member at `index` of its child collection `name`, so a path below that
   * member is, seen from the entity, the segment followed by the same path.
   */
  lemma StepDown(ents: map<nat, EntityState>, cols: map<nat, CollectionState>, next: nat,
                 e: nat, k: nat, prefix: string, i: nat, path: string)
    requires ValidMaps(ents, cols, next) && e in ents && PathSafe(ents[e].definition)
    requires k < |ents[e].children| && k < |ChildNames(ents[e].definition)| && ents[e].children[k] in cols
    requires i < |View(cols[ents[e].children[k]])| && View(cols[ents[e].children[k]])[i] in ents
    requires StartsWith(path, prefix + "/" + ChildNames(ents[e].definition)[k] + IndexSegment(i))
    ensures StartsWith(path, prefix)
    ensures var pm := prefix + "/" + ChildNames(ents[e].definition)[k] + IndexSegment(i);
              Traverse(ents, cols, next, Node(EntityRef(e)), path[|prefix|..])
              == Traverse(ents, cols, next, Node(EntityRef(View(cols[ents[e].children[k]])[i])), path[|pm|..])
  {
    var mid := "/" + ChildNames(ents[e].definition)[k] + IndexSegment(i);
    var pm := prefix + mid;
    DropPrefix(path, prefix, mid);
    var rest := path[|pm|..];
    assert path[|prefix|..] == mid + rest;
    TraverseSegment(ents, cols, next, e, k, i, rest);
    assert pm == prefix + "/" + ChildNames(ents[e].definition)[k] + IndexSegment(i);
  }

  /** A request that leads back to an entity reached from `e` by a walk leads back to `e`. */
  lemma LeadsBackUp(ents: map<nat, EntityState>, cols: map<nat, CollectionState>, next: nat,
                    e: nat, m: nat, prefix: string, pm: string, q: Request)
    requires ValidMaps(ents, cols, next) && e in ents && m in ents
    requires LeadsBack(ents, cols, next, m, pm, q)
    requires StartsWith(IdPath(q.id).value, prefix)
    requires Traverse(ents, cols, next, Node(EntityRef(e)), IdPath(q.id).value[|prefix|..])
          == Traverse(ents, cols, next, Node(EntityRef(m)), IdPath(q.id).value[|pm|..])
    ensures LeadsBack(ents, cols, next, e, prefix, q)
  {
  }

  lemma DropPrefix(path: string, prefix: string, mid: string)
    requires StartsWith(path, prefix + mid)
    ensures StartsWith(path, prefix) && path[|prefix|..] == mid + path[|prefix| + |mid|..]
  {
    var n := |prefix + mid|;
    assert path[..n][..|prefix|] == prefix;
    assert path[|prefix|..n] == path[..n][|prefix|..] == mid;
    assert path[|prefix|..] == path[|prefix|..n] + path[n..];
  }

  lemma SegmentNoLineBreak(prefix: string, name: string, i: nat)
    requires NoLineBreak(prefix) && SegmentName(name)
    ensures NoLineBreak(prefix + "/" + name + IndexSegment(i))
  {
    var digits := NatToString(i);
    assert forall j :: 0 <= j < |digits| ==> IsDigit(digits[j]);
  }
}
