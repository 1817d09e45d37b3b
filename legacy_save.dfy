/**
 * Saving in the first-generation entity composable (`composable/entity.js`):
 * the body of a new entity (`getRequestData`) and the batch of requests a
 * save sends (`getSaveRequests`).
 */
module LegacySave {
  import opened JsValues
  import opened Definitions
  import opened LegacyEntity
  import Data
  import Save

  // ---------------------------------------------------------------------------
  // getRequestData

  /** Some container of the structure holds a live child. */
  predicate HasLiveChildren(n: Node) {
    n.child.Table? && exists j :: 0 <= j < |n.child.slots| && n.child.slots[j].container.entities != []
  }

  /**
   * `getRequestData(entity, { removePrimaryKey })` as written: a copy of the
   * data with an array per child name, and the primary key set to undefined
   * when asked. The children are rendered by `getRequestData(childEntity)`,
   * without the options object the function destructures, so `options`
   * `None` throws, and so does any live child.
   */
  function RequestDataAsWritten(n: Node, options: Option<bool>): (r: Result<Value>)
    ensures r.Err? ==> r.error == TypeError
    ensures r.Ok? <==> options.Some? && !HasLiveChildren(n)
    ensures r.Ok? ==> r.value == RequestData(n, options.value)
  {
    if options.None? then Err(TypeError)
    else
      var fields :- match n.child
                    case NoTable => Ok(Save.Spread(n.data))
                    case Table(slots) => EmptySlotsData(slots, Save.Spread(n.data));
      assert n.child.Table? ==> EmptySlotsData(n.child.slots, Save.Spread(n.data)) == Ok(SlotsData(n.child.slots, Save.Spread(n.data), options.value)) by {
        if n.child.Table? && !HasLiveChildren(n) {
          EmptySlotsDataAgree(n.child.slots, Save.Spread(n.data), options.value);
        }
      }
      Ok(Obj(if options.value then fields[n.definition.primaryKey := Undefined] else fields))
  }

  /** The child arrays as written: each name gets `[]`, and a live child throws. */
  function EmptySlotsData(slots: seq<Slot>, fields: map<string, Value>): (r: Result<map<string, Value>>)
    ensures r.Err? ==> r.error == TypeError
    ensures r.Ok? <==> forall j :: 0 <= j < |slots| ==> slots[j].container.entities == []
  {
    if slots == [] then Ok(fields)
    else if slots[0].container.entities != [] then Err(TypeError)
    else
      assert forall j :: 1 <= j < |slots| ==> slots[j] == slots[1..][j - 1];
      EmptySlotsData(slots[1..], fields[slots[0].name := Arr([])])
  }

  lemma {:induction false} EmptySlotsDataAgree(slots: seq<Slot>, fields: map<string, Value>, removePrimaryKey: bool)
    requires forall j :: 0 <= j < |slots| ==> slots[j].container.entities == []
    ensures EmptySlotsData(slots, fields) == Ok(SlotsData(slots, fields, removePrimaryKey))
  {
    if slots != [] {
      assert forall j :: 0 <= j < |slots[1..]| ==> slots[1..][j] == slots[j + 1];
      EmptySlotsDataAgree(slots[1..], fields[slots[0].name := Arr([])], removePrimaryKey);
    }
  }

  /**
   * `getRequestData` passing the options down to the children: the data's
   * own properties, then one array per child name holding the bodies of
   * the live children in order, then the primary key undefined when
   * `removePrimaryKey`.
   */
  function RequestData(n: Node, removePrimaryKey: bool): (r: Value)
    ensures r.Obj?
    ensures removePrimaryKey ==> n.definition.primaryKey in r.fields && r.fields[n.definition.primaryKey] == Undefined
    decreases n, 2
  {
    var fields := BodyFields(n, removePrimaryKey);
    Obj(if removePrimaryKey then fields[n.definition.primaryKey := Undefined] else fields)
  }

  /** The containers of a structure, none when its table is null. */
  function SlotList(n: Node): seq<Slot> {
    match n.child
    case NoTable => []
    case Table(slots) => slots
  }

  predicate IsSlotName(n: Node, k: string) {
    exists j :: 0 <= j < |SlotList(n)| && SlotList(n)[j].name == k
  }

  /** `data[name] = [bodies of the live children]`, container by container. */
  function SlotsData(slots: seq<Slot>, fields: map<string, Value>, removePrimaryKey: bool): (r: map<string, Value>)
    ensures forall k :: k in fields && (forall j :: 0 <= j < |slots| ==> slots[j].name != k) ==> k in r && r[k] == fields[k]
    ensures forall j :: 0 <= j < |slots| ==> slots[j].name in r && r[slots[j].name].Arr?
    ensures forall k :: k in r ==> k in fields || exists j :: 0 <= j < |slots| && slots[j].name == k
    decreases slots, 1
  {
    if slots == [] then fields
    else
      var c := slots[0].container;
      assert forall j :: 1 <= j < |slots| ==> slots[j] == slots[1..][j - 1];
      SlotsData(slots[1..], fields[slots[0].name := Arr(ListData(c.entities, removePrimaryKey))], removePrimaryKey)
  }

  /** The array a body keeps for a container is the bodies of its live children. */
  lemma {:induction false} SlotsDataLast(slots: seq<Slot>, fields: map<string, Value>, removePrimaryKey: bool, j: nat)
    requires j < |slots| && LastNamed(slots, j)
    ensures SlotsData(slots, fields, removePrimaryKey)[slots[j].name]
            == Arr(ListData(slots[j].container.entities, removePrimaryKey))
  {
    var next := fields[slots[0].name := Arr(ListData(slots[0].container.entities, removePrimaryKey))];
    if j > 0 {
      assert LastNamed(slots[1..], j - 1) by {
        assert forall i :: j - 1 < i < |slots[1..]| ==> slots[1..][i] == slots[i + 1];
      }
      SlotsDataLast(slots[1..], next, removePrimaryKey, j - 1);
    } else {
      assert forall i :: 0 <= i < |slots[1..]| ==> slots[1..][i].name != slots[0].name by {
        assert forall i :: 0 <= i < |slots[1..]| ==> slots[1..][i] == slots[i + 1];
      }
    }
  }

  /** No later container has the name of container `j`, so its array is the one the body keeps. */
  predicate LastNamed(slots: seq<Slot>, j: nat)
    requires j < |slots|
  {
    forall i :: j < i < |slots| ==> slots[i].name != slots[j].name
  }

  /** The bodies of the live children, in order. */
  function ListData(nodes: seq<Node>, removePrimaryKey: bool): (r: seq<Value>)
    ensures |r| == |nodes|
    ensures forall k :: 0 <= k < |nodes| ==> r[k] == RequestData(nodes[k], removePrimaryKey)
    decreases nodes, 0
  {
    if nodes == [] then []
    else
      assert forall k :: 1 <= k < |nodes| ==> nodes[k] == nodes[1..][k - 1];
      [RequestData(nodes[0], removePrimaryKey)] + ListData(nodes[1..], removePrimaryKey)
  }

  /** The fields of a body before the primary key is removed. */
  function BodyFields(n: Node, removePrimaryKey: bool): map<string, Value>
    decreases n, 1
  {
    match n.child
    case NoTable => Save.Spread(n.data)
    case Table(slots) => SlotsData(slots, Save.Spread(n.data), removePrimaryKey)
  }

  /**
   * The body keeps every own property of the data that is neither a child
   * name nor a removed primary key.
   */
  lemma RequestDataKeeps(n: Node, removePrimaryKey: bool, k: string)
    requires k in Save.Spread(n.data) && !IsSlotName(n, k) && !(removePrimaryKey && k == n.definition.primaryKey)
    ensures k in RequestData(n, removePrimaryKey).fields
    ensures RequestData(n, removePrimaryKey).fields[k] == Save.Spread(n.data)[k]
  {
    var fields := BodyFields(n, removePrimaryKey);
    assert RequestData(n, removePrimaryKey).fields == if removePrimaryKey then fields[n.definition.primaryKey := Undefined] else fields;
    assert forall j :: 0 <= j < |SlotList(n)| ==> SlotList(n)[j].name != k;
    if n.child.Table? {
      assert SlotList(n) == n.child.slots;
    }
  }

  /** The body holds an array under every child name (unless the name is the removed primary key). */
  lemma RequestDataArrays(n: Node, removePrimaryKey: bool, j: nat)
    requires j < |SlotList(n)| && !(removePrimaryKey && SlotList(n)[j].name == n.definition.primaryKey)
    ensures SlotList(n)[j].name in RequestData(n, removePrimaryKey).fields
    ensures RequestData(n, removePrimaryKey).fields[SlotList(n)[j].name].Arr?
  {
    var fields := BodyFields(n, removePrimaryKey);
    assert RequestData(n, removePrimaryKey).fields == if removePrimaryKey then fields[n.definition.primaryKey := Undefined] else fields;
  }

  /**
   * The body holds, under each child name, the bodies of that name's live
   * children in order (unless the name is the removed primary key).
   */
  lemma RequestDataChildren(n: Node, removePrimaryKey: bool, j: nat)
    requires j < |SlotList(n)| && LastNamed(SlotList(n), j)
    requires !(removePrimaryKey && SlotList(n)[j].name == n.definition.primaryKey)
    ensures SlotList(n)[j].name in RequestData(n, removePrimaryKey).fields
    ensures RequestData(n, removePrimaryKey).fields[SlotList(n)[j].name]
            == Arr(ListData(SlotList(n)[j].container.entities, removePrimaryKey))
  {
    var fields := BodyFields(n, removePrimaryKey);
    assert RequestData(n, removePrimaryKey).fields == if removePrimaryKey then fields[n.definition.primaryKey := Undefined] else fields;
    SlotsDataLast(n.child.slots, Save.Spread(n.data), removePrimaryKey, j);
  }

  /** A body without its primary key sends no primary key: JSON leaves undefined properties out. */
  lemma SentWithoutPrimaryKey(n: Node)
    ensures Data.JsonCopy(RequestData(n, true)).Obj?
    ensures n.definition.primaryKey !in Data.JsonCopy(RequestData(n, true)).fields
  {
  }

  /**
   * As written, the body of a new entity with a live child cannot be built,
   * so such an entity cannot be saved.
   */
  lemma NewEntityWithChildFails(n: Node, j: nat)
    requires n.child.Table? && j < |n.child.slots| && n.child.slots[j].container.entities != []
    ensures RequestDataAsWritten(n, Some(true)) == Err(TypeError)
  {
  }

  // ---------------------------------------------------------------------------
  // getSaveRequests

  datatype HttpMethod = MethodPost | MethodPut | MethodDelete

  /** One request of the `saveEntity` batch. */
  datatype Request = Request(id: string, verb: HttpMethod, url: string, body: Option<Value>)

  /** `${definition.entityName}(${id})`: a structure's step in request ids. */
  function EntityKey(n: Node): string {
    n.definition.entityName + "(" + ToStr(n.id) + ")"
  }

  /** The path of a structure in request ids: its parent's path, then its own step. */
  function RequestPath(n: Node, prefix: Option<string>): string {
    if prefix.Some? then prefix.value + "/" + EntityKey(n) else EntityKey(n)
  }

  /** The request id of a structure's own request. */
  function OwnId(n: Node, prefix: Option<string>, action: string): string {
    "saveEntity/" + RequestPath(n, prefix) + "-" + action
  }

  /** Whether a request id lies strictly below a path: `saveEntity/path/…`. */
  predicate Below(id: string, path: string) {
    StartsWith(id, "saveEntity/" + path + "/")
  }

  /**
   * `getSaveRequests(entity, prefix)`: a new entity is one POST of its body
   * (children included); otherwise an updated entity PUTs a copy of its
   * data, and then, container by container, every deleted child is a DELETE
   * and every live child adds its own requests. Reading the primary value
   * of an entity with null data throws.
   */
  function SaveRequests(n: Node, prefix: Option<string>): (r: Result<seq<Request>>)
    ensures r.Err? ==> r.error == TypeError
    ensures n.state == Create ==>
              r == Ok([Request(OwnId(n, prefix, "create"), MethodPost, n.definition.entityName, Some(RequestData(n, true)))])
    ensures n.state != Create && IsNullish(n.data) ==> r.Err?
    ensures r.Ok? && n.state == Update ==>
              |r.value| > 0 && r.value[0] == Request(OwnId(n, prefix, "update"), MethodPut,
                                                     n.definition.entityName + "(" + ToStr(PrimaryValue(n).value) + ")",
                                                     Some(Obj(Save.Spread(n.data))))
    ensures r.Ok? ==> forall q :: q in r.value ==> StartsWith(q.id, "saveEntity/" + RequestPath(n, prefix))
    ensures r.Ok? && n.state == Read ==> forall q :: q in r.value ==> Below(q.id, RequestPath(n, prefix))
    ensures n.state != Create && !IsNullish(n.data) ==>
              (r.Err? <==> n.child.Table? && exists j :: 0 <= j < |n.child.slots| &&
                                                       ContainerRequests(n.child.slots[j], RequestPath(n, prefix)).Err?)
    ensures r.Ok? && n.state != Create && n.child.Table? ==>
              forall j :: 0 <= j < |n.child.slots| ==>
                ContainerRequests(n.child.slots[j], RequestPath(n, prefix)).Ok? &&
                Run(ContainerRequests(n.child.slots[j], RequestPath(n, prefix)).value, r.value)
    decreases n, 3
  {
    var path := RequestPath(n, prefix);
    if n.state == Create then
      Ok([Request(OwnId(n, prefix, "create"), MethodPost, n.definition.entityName, Some(RequestData(n, true)))])
    else
      var key :- PrimaryValue(n);
      var own := if n.state == Update
                 then [Request(OwnId(n, prefix, "update"), MethodPut, n.definition.entityName + "(" + ToStr(key) + ")",
                               Some(Obj(Save.Spread(n.data))))]
                 else [];
      var rest :- match n.child
                  case NoTable => Ok([])
                  case Table(slots) => SlotRequests(slots, path);
      assert SlotList(n) == (match n.child case NoTable => [] case Table(slots) => slots);
      OwnAndBelow(own, rest, n, prefix);
      RunsAfter(own, rest);
      Ok(own + rest)
  }

  /** The requests of the containers, in order: the deleted children, then the live ones. */
  function SlotRequests(slots: seq<Slot>, path: string): (r: Result<seq<Request>>)
    ensures r.Err? ==> r.error == TypeError
    ensures r.Ok? ==> forall q :: q in r.value ==> Below(q.id, path)
    ensures r.Err? <==> exists j :: 0 <= j < |slots| && ContainerRequests(slots[j], path).Err?
    ensures r.Ok? ==> forall j :: 0 <= j < |slots| ==>
                        ContainerRequests(slots[j], path).Ok? && Run(ContainerRequests(slots[j], path).value, r.value)
    decreases slots, 2
  {
    if slots == [] then Ok([])
    else
      var h := ContainerRequests(slots[0], path);
      if h.Err? then Err(h.error)
      else
        var t := SlotRequests(slots[1..], path);
        assert forall j :: 1 <= j < |slots| ==> slots[j] == slots[1..][j - 1];
        if t.Err? then Err(t.error)
        else
          RunHead(h.value, t.value);
          RunsAfter(h.value, t.value);
          Ok(h.value + t.value)
  }

  /** One container: a DELETE per deleted child, then the requests of every live child. */
  function ContainerRequests(slot: Slot, path: string): (r: Result<seq<Request>>)
    ensures r.Err? ==> r.error == TypeError
    ensures r.Ok? ==> forall q :: q in r.value ==> Below(q.id, path)
    ensures r.Err? <==> (exists k :: 0 <= k < |slot.container.deletedEntities| && IsNullish(slot.container.deletedEntities[k].data))
                        || (exists k :: 0 <= k < |slot.container.entities| &&
                                       SaveRequests(slot.container.entities[k], Some(path + "/e-" + slot.name)).Err?)
    ensures r.Ok? ==> DeletesThenLives(slot, path, r.value)
    decreases slot, 1
  {
    var step := "e-" + slot.name;
    assert path + "/" + step == path + "/e-" + slot.name;
    var ds := DeleteRequests(slot.container.deletedEntities, path, slot.name);
    if ds.Err? then Err(ds.error)
    else
      var ls := ListRequests(slot.container.entities, path + "/" + step);
      if ls.Err? then Err(ls.error)
      else
        var deletes, lives := ds.value, ls.value;
        BelowBoth(deletes, lives, path, step);
        assert (deletes + lives)[|deletes|..] == lives;
        assert forall k :: 0 <= k < |deletes| ==> (deletes + lives)[k] == deletes[k];
        Ok(deletes + lives)
  }

  /**
   * The requests of one container, from the start of `qs`: the DELETE of
   * every deleted child in order, and after them, as a run each, the
   * requests of every live child.
   */
  predicate DeletesThenLives(slot: Slot, path: string, qs: seq<Request>)
    decreases slot, 0
  {
    var dels := slot.container.deletedEntities;
    var lives := slot.container.entities;
    && |dels| <= |qs|
    && (forall k :: 0 <= k < |dels| ==> DeleteRequest(dels[k], path, slot.name) == Ok(qs[k]))
    && (forall k :: 0 <= k < |lives| ==>
          SaveRequests(lives[k], Some(path + "/e-" + slot.name)).Ok? &&
          Run(SaveRequests(lives[k], Some(path + "/e-" + slot.name)).value, qs[|dels|..]))
  }

  /** `xs` occurs in `ys` as a run of consecutive requests. */
  predicate Run(xs: seq<Request>, ys: seq<Request>) {
    exists o :: 0 <= o <= |ys| && xs <= ys[o..]
  }

  lemma RunMembers(xs: seq<Request>, ys: seq<Request>)
    requires Run(xs, ys)
    ensures forall q :: q in xs ==> q in ys
  {
    var o :| 0 <= o <= |ys| && xs <= ys[o..];
    forall q | q in xs ensures q in ys {
      var i :| 0 <= i < |xs| && xs[i] == q;
      assert ys[o..][i] == q;
    }
  }

  lemma RunHead(xs: seq<Request>, ys: seq<Request>)
    ensures Run(xs, xs + ys)
  {
    assert xs <= (xs + ys)[0..];
  }

  /** Runs inside `ys` stay runs behind any prefix. */
  lemma RunsAfter(xs: seq<Request>, ys: seq<Request>)
    ensures forall zs :: Run(zs, ys) ==> Run(zs, xs + ys)
  {
    forall zs | Run(zs, ys) ensures Run(zs, xs + ys) {
      var o :| 0 <= o <= |ys| && zs <= ys[o..];
      assert (xs + ys)[|xs| + o..] == ys[o..];
    }
  }

  /** A run keeps its place inside a longer sequence. */
  lemma RunExtends(xs: seq<Request>, ys: seq<Request>, zs: seq<Request>)
    requires Run(xs, ys)
    ensures Run(xs, ys + zs)
  {
    var o :| 0 <= o <= |ys| && xs <= ys[o..];
    assert (ys + zs)[o..] == ys[o..] + zs;
  }

  lemma OwnAndBelow(own: seq<Request>, rest: seq<Request>, n: Node, prefix: Option<string>)
    requires forall q :: q in own ==> q.id == OwnId(n, prefix, "update")
    requires forall q :: q in rest ==> Below(q.id, RequestPath(n, prefix))
    ensures forall q :: q in own + rest ==> StartsWith(q.id, "saveEntity/" + RequestPath(n, prefix))
  {
    var p := "saveEntity/" + RequestPath(n, prefix);
    assert OwnId(n, prefix, "update")[..|p|] == p;
    forall q | q in rest ensures StartsWith(q.id, p) {
      assert q.id[..|p + "/"|][..|p|] == q.id[..|p|];
    }
  }

  lemma BelowBoth(deletes: seq<Request>, lives: seq<Request>, path: string, step: string)
    requires forall q :: q in deletes ==> Below(q.id, path)
    requires forall q :: q in lives ==> Below(q.id, path + "/" + step)
    ensures forall q :: q in deletes + lives ==> Below(q.id, path)
  {
    BelowLonger(lives, path, step);
  }

  /** Requests below a longer path are below the shorter one. */
  lemma BelowLonger(qs: seq<Request>, path: string, step: string)
    requires forall q :: q in qs ==> Below(q.id, path + "/" + step)
    ensures forall q :: q in qs ==> Below(q.id, path)
  {
    forall q | q in qs ensures Below(q.id, path) {
      var long := "saveEntity/" + (path + "/" + step) + "/";
      var short := "saveEntity/" + path + "/";
      assert long[..|short|] == short;
      assert q.id[..|long|][..|short|] == q.id[..|short|];
    }
  }

  /** The id of the DELETE of a deleted child: `saveEntity/path/d-name/EntityName(id)-delete`. */
  function DeleteId(n: Node, path: string, name: string): (id: string)
    ensures Below(id, path)
  {
    var id := "saveEntity/" + path + "/" + ("d-" + name + "/" + EntityKey(n) + "-delete");
    assert id[..|"saveEntity/" + path + "/"|] == "saveEntity/" + path + "/";
    id
  }

  /** The DELETE of one deleted child, addressed by its primary value. */
  function DeleteRequest(n: Node, path: string, name: string): (r: Result<Request>)
    ensures r.Err? <==> IsNullish(n.data)
    ensures r.Err? ==> r.error == TypeError
    ensures r.Ok? ==> r.value == Request(DeleteId(n, path, name), MethodDelete,
                                         n.definition.entityName + "(" + ToStr(PrimaryValue(n).value) + ")", None)
  {
    var key :- PrimaryValue(n);
    Ok(Request(DeleteId(n, path, name), MethodDelete, n.definition.entityName + "(" + ToStr(key) + ")", None))
  }

  /** A DELETE per deleted child, in order. */
  function DeleteRequests(nodes: seq<Node>, path: string, name: string): (r: Result<seq<Request>>)
    ensures r.Err? ==> r.error == TypeError
    ensures r.Err? <==> exists k :: 0 <= k < |nodes| && IsNullish(nodes[k].data)
    ensures r.Ok? ==> |r.value| == |nodes|
    ensures r.Ok? ==> forall k :: 0 <= k < |nodes| ==> DeleteRequest(nodes[k], path, name) == Ok(r.value[k])
    ensures r.Ok? ==> forall q :: q in r.value ==> Below(q.id, path)
  {
    if nodes == [] then Ok([])
    else
      var head :- DeleteRequest(nodes[0], path, name);
      var rest :- DeleteRequests(nodes[1..], path, name);
      assert forall k :: 1 <= k < |nodes| ==> nodes[k] == nodes[1..][k - 1];
      Ok([head] + rest)
  }

  /** The requests of the live children, in order, each below `path`. */
  function ListRequests(nodes: seq<Node>, path: string): (r: Result<seq<Request>>)
    ensures r.Err? ==> r.error == TypeError
    ensures r.Ok? ==> forall q :: q in r.value ==> Below(q.id, path)
    ensures r.Err? <==> exists k :: 0 <= k < |nodes| && SaveRequests(nodes[k], Some(path)).Err?
    ensures r.Ok? ==> forall k :: 0 <= k < |nodes| ==>
                        SaveRequests(nodes[k], Some(path)).Ok? && Run(SaveRequests(nodes[k], Some(path)).value, r.value)
    decreases nodes, 0
  {
    if nodes == [] then Ok([])
    else
      var head :- SaveRequests(nodes[0], Some(path));
      var rest :- ListRequests(nodes[1..], path);
      OwnRequestsBelow(nodes[0], path, head);
      assert forall k :: 1 <= k < |nodes| ==> nodes[k] == nodes[1..][k - 1];
      RunHead(head, rest);
      RunsAfter(head, rest);
      Ok(head + rest)
  }

  /** Every request of a child, its own included, lies below its parent's path. */
  lemma OwnRequestsBelow(n: Node, path: string, qs: seq<Request>)
    requires forall q :: q in qs ==> StartsWith(q.id, "saveEntity/" + RequestPath(n, Some(path)))
    ensures forall q :: q in qs ==> Below(q.id, path)
  {
    var whole := "saveEntity/" + RequestPath(n, Some(path));
    var short := "saveEntity/" + path + "/";
    assert whole == short + EntityKey(n);
    forall q | q in qs ensures Below(q.id, path) {
      assert q.id[..|whole|][..|short|] == q.id[..|short|];
    }
  }

  /**
   * The children in a save of a saved structure: under each child name,
   * every deleted child is sent its DELETE, every live child's own
   * requests are all sent, and the DELETEs of the name come before the
   * requests of its live children.
   */
  lemma SaveRequestsChildren(n: Node, prefix: Option<string>, j: nat)
    requires n.state != Create && SaveRequests(n, prefix).Ok?
    requires n.child.Table? && j < |n.child.slots|
    ensures var r, slot := SaveRequests(n, prefix).value, n.child.slots[j];
            forall k :: 0 <= k < |slot.container.deletedEntities| ==>
              DeleteRequest(slot.container.deletedEntities[k], RequestPath(n, prefix), slot.name).Ok? &&
              DeleteRequest(slot.container.deletedEntities[k], RequestPath(n, prefix), slot.name).value in r
    ensures var r, slot := SaveRequests(n, prefix).value, n.child.slots[j];
            forall k :: 0 <= k < |slot.container.entities| ==>
              var own := SaveRequests(slot.container.entities[k], Some(RequestPath(n, prefix) + "/e-" + slot.name));
              own.Ok? && forall q :: q in own.value ==> q in r
    ensures var r := SaveRequests(n, prefix).value;
            exists o :: 0 <= o <= |r| && DeletesThenLives(n.child.slots[j], RequestPath(n, prefix), r[o..])
  {
    var r, slot, path := SaveRequests(n, prefix).value, n.child.slots[j], RequestPath(n, prefix);
    var c := ContainerRequests(slot, path).value;
    var o :| 0 <= o <= |r| && c <= r[o..];
    DeletesThenLivesLonger(slot, path, c, r[o..]);
    ContainerSent(slot, path, r, o);
  }

  lemma ContainerSent(slot: Slot, path: string, r: seq<Request>, o: nat)
    requires o <= |r| && DeletesThenLives(slot, path, r[o..])
    ensures forall k :: 0 <= k < |slot.container.deletedEntities| ==>
              DeleteRequest(slot.container.deletedEntities[k], path, slot.name).Ok? &&
              DeleteRequest(slot.container.deletedEntities[k], path, slot.name).value in r
    ensures forall k :: 0 <= k < |slot.container.entities| ==>
              var own := SaveRequests(slot.container.entities[k], Some(path + "/e-" + slot.name));
              own.Ok? && forall q :: q in own.value ==> q in r
  {
    var qs := r[o..];
    var dels := slot.container.deletedEntities;
    forall k | 0 <= k < |dels|
      ensures DeleteRequest(dels[k], path, slot.name).Ok? && DeleteRequest(dels[k], path, slot.name).value in r
    {
      assert qs[k] == r[o + k];
    }
    assert forall q :: q in qs[|dels|..] ==> q in r by {
      assert qs[|dels|..] == r[o + |dels|..];
    }
    forall k | 0 <= k < |slot.container.entities|
      ensures var own := SaveRequests(slot.container.entities[k], Some(path + "/e-" + slot.name));
              own.Ok? && forall q :: q in own.value ==> q in r
    {
      RunMembers(SaveRequests(slot.container.entities[k], Some(path + "/e-" + slot.name)).value, qs[|dels|..]);
    }
  }

  /** What a container's requests satisfy from their start still holds with more requests after them. */
  lemma DeletesThenLivesLonger(slot: Slot, path: string, qs: seq<Request>, longer: seq<Request>)
    requires DeletesThenLives(slot, path, qs) && qs <= longer
    ensures DeletesThenLives(slot, path, longer)
  {
    var dels := slot.container.deletedEntities;
    var tail := longer[|dels|..];
    assert tail == qs[|dels|..] + longer[|qs|..];
    forall k | 0 <= k < |slot.container.entities|
      ensures Run(SaveRequests(slot.container.entities[k], Some(path + "/e-" + slot.name)).value, tail)
    {
      RunExtends(SaveRequests(slot.container.entities[k], Some(path + "/e-" + slot.name)).value, qs[|dels|..], longer[|qs|..]);
    }
  }

  /**
   * Nothing to save: the structure is read, its data can be keyed, and so,
   * recursively, are its live children, and no container holds a deleted
   * child.
   */
  predicate Quiet(n: Node)
    decreases n, 3
  {
    && n.state == Read && !IsNullish(n.data)
    && match n.child
       case NoTable => true
       case Table(slots) => SlotsQuiet(slots)
  }

  predicate SlotsQuiet(slots: seq<Slot>)
    decreases slots, 2
  {
    forall j :: 0 <= j < |slots| ==> ContainerQuiet(slots[j])
  }

  predicate ContainerQuiet(slot: Slot)
    decreases slot, 1
  {
    slot.container.deletedEntities == [] && ListQuiet(slot.container.entities)
  }

  predicate ListQuiet(nodes: seq<Node>)
    decreases nodes, 0
  {
    forall k :: 0 <= k < |nodes| ==> Quiet(nodes[k])
  }

  /** A save sends nothing exactly when there is nothing to save. */
  lemma {:induction false} SaveNothingIff(n: Node, prefix: Option<string>)
    ensures SaveRequests(n, prefix) == Ok([]) <==> Quiet(n)
    decreases n, 3
  {
    if n.state != Create && !IsNullish(n.data) {
      match n.child
      case NoTable =>
      case Table(slots) => SlotsNothingIff(slots, RequestPath(n, prefix));
    }
  }

  lemma {:induction false} SlotsNothingIff(slots: seq<Slot>, path: string)
    ensures SlotRequests(slots, path) == Ok([]) <==> SlotsQuiet(slots)
    decreases slots, 2
  {
    if slots != [] {
      ContainerNothingIff(slots[0], path);
      SlotsNothingIff(slots[1..], path);
      assert SlotsQuiet(slots) <==> ContainerQuiet(slots[0]) && SlotsQuiet(slots[1..]) by {
        assert forall j :: 1 <= j < |slots| ==> slots[j] == slots[1..][j - 1];
      }
    }
  }

  lemma {:induction false} ContainerNothingIff(slot: Slot, path: string)
    ensures ContainerRequests(slot, path) == Ok([]) <==> ContainerQuiet(slot)
    decreases slot, 1
  {
    ListNothingIff(slot.container.entities, path + "/" + ("e-" + slot.name));
  }

  lemma {:induction false} ListNothingIff(nodes: seq<Node>, path: string)
    ensures ListRequests(nodes, path) == Ok([]) <==> ListQuiet(nodes)
    decreases nodes, 0
  {
    if nodes != [] {
      SaveNothingIff(nodes[0], Some(path));
      ListNothingIff(nodes[1..], path);
      assert ListQuiet(nodes) <==> Quiet(nodes[0]) && ListQuiet(nodes[1..]) by {
        assert forall k :: 1 <= k < |nodes| ==> nodes[k] == nodes[1..][k - 1];
      }
    }
  }
}
