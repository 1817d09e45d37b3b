/**
 * The first-generation entity composable (`composable/entity.js`). An entity
 * is a plain structure: its definition, its id, its data, a table of child
 * containers (`{ nextId, entities, deletedEntities }` per child name), a table
 * of details, a state (`create`, `read` or `update`) and links to its parent,
 * its root and the structure it was cloned from.
 *
 * The model keeps a structure as a value. Every structure carries a `uid`;
 * the links `$parent`, `$root` and `$base` are the uid of the structure they
 * point to, and new structures take their uids from a counter passed in and
 * handed back. An operation returns the updated structure where the source
 * changes it in place.
 */
module LegacyEntity {
  import opened JsValues
  import opened Definitions
  import Data
  import Save

  /** `entity.state`. */
  datatype Phase = Create | Read | Update

  /** `{ nextId, entities, deletedEntities }`: the live and the removed children under one name. */
  datatype Container = Container(nextId: nat, entities: seq<Node>, deletedEntities: seq<Node>)

  datatype Slot = Slot(name: string, container: Container)

  /** `entity.child`: null, or one container per child name, in the order of `definition.children`. */
  datatype ChildTable = NoTable | Table(slots: seq<Slot>)

  datatype Node = Node(
    uid: nat,
    definition: Definition,
    id: Value,
    data: Value,
    child: ChildTable,
    detail: Option<map<string, Value>>,
    state: Phase,
    parent: Option<nat>,
    root: Option<nat>,
    base: Option<nat>)

  /** The `primaryValue` getter: `data[definition.primaryKey]`. */
  function PrimaryValue(n: Node): Result<Value> {
    Get(n.data, n.definition.primaryKey)
  }

  // ---------------------------------------------------------------------------
  // createEntityStructure

  const FreshContainer := Container(1, [], [])

  /** The child table of a new structure: an empty container per child definition, or null. */
  function FreshTable(d: Definition): (t: ChildTable)
    ensures t.Table? <==> d.children.Listed?
    ensures t.Table? ==> |t.slots| == |Children(d)|
    ensures t.Table? ==> forall i :: 0 <= i < |t.slots| ==> t.slots[i] == Slot(ChildName(Children(d)[i]), FreshContainer)
  {
    if d.children.Listed? then
      Table(seq(|Children(d)|, i requires 0 <= i < |Children(d)| => Slot(ChildName(Children(d)[i]), FreshContainer)))
    else NoTable
  }

  /** The detail table of a new structure: every detail name holding null, or null. */
  function NullDetails(d: Definition): (t: Option<map<string, Value>>)
    ensures t.Some? <==> d.details.Listed?
    ensures t.Some? ==> forall k :: k in t.value <==> k in NamesOf(Details(d))
    ensures t.Some? ==> forall k :: k in t.value ==> t.value[k] == Null
  {
    if d.details.Listed? then Some(map k | k in NamesOf(Details(d)) :: Null) else None
  }

  /** `createEntityStructure` without a `detail` argument and without `$base`. */
  function NewStructure(uid: nat, d: Definition, id: Value, data: Value, state: Phase,
                        parent: Option<nat>, root: Option<nat>): Node
  {
    Node(uid, d, id, data, FreshTable(d), NullDetails(d), state, parent, root, None)
  }

  // ---------------------------------------------------------------------------
  // Links

  /**
   * Every structure kept below `n`, live or deleted, names `n` as its parent
   * and `top` as its root, and so on down the tree.
   */
  predicate LinkedBelow(n: Node, top: Option<nat>)
    decreases n, 2
  {
    match n.child
    case NoTable => true
    case Table(slots) => SlotsLinked(slots, n.uid, top)
  }

  predicate SlotsLinked(slots: seq<Slot>, owner: nat, top: Option<nat>)
    decreases slots, 1
  {
    forall i :: 0 <= i < |slots| ==>
      ListLinked(slots[i].container.entities, owner, top) && ListLinked(slots[i].container.deletedEntities, owner, top)
  }

  predicate ListLinked(nodes: seq<Node>, owner: nat, top: Option<nat>)
    decreases nodes, 0
  {
    forall k :: 0 <= k < |nodes| ==> nodes[k].parent == Some(owner) && nodes[k].root == top && LinkedBelow(nodes[k], top)
  }

  /** A structure whose whole tree agrees with its own `$root`. */
  predicate Linked(n: Node) {
    LinkedBelow(n, n.root)
  }

  /** The structure with every `$parent` and `$root` link in its tree cleared. */
  function Unlinked(n: Node): (r: Node)
    decreases n, 2
  {
    var child := match n.child
      case NoTable => NoTable
      case Table(slots) => Table(UnlinkedSlots(slots));
    n.(child := child, parent := None, root := None)
  }

  function UnlinkedSlots(slots: seq<Slot>): (r: seq<Slot>)
    ensures |r| == |slots|
    decreases slots, 1
  {
    if slots == [] then []
    else
      var c := slots[0].container;
      [Slot(slots[0].name, Container(c.nextId, UnlinkedList(c.entities), UnlinkedList(c.deletedEntities)))]
      + UnlinkedSlots(slots[1..])
  }

  function UnlinkedList(nodes: seq<Node>): (r: seq<Node>)
    ensures |r| == |nodes|
    decreases nodes, 0
  {
    if nodes == [] then [] else [Unlinked(nodes[0])] + UnlinkedList(nodes[1..])
  }

  /**
   * `replant`: the structure hung under the structure `parent`, whose root is
   * `top`; every structure below it is re-linked to its owner and to `top`.
   * Nothing but the links changes.
   */
  function Replant(n: Node, parent: nat, top: Option<nat>): (r: Node)
    ensures r.parent == Some(parent) && r.root == top
    ensures LinkedBelow(r, top)
    ensures Unlinked(r) == Unlinked(n)
    ensures r.uid == n.uid
    decreases n, 2
  {
    match n.child
    case NoTable => n.(parent := Some(parent), root := top)
    case Table(slots) => n.(child := Table(ReplantSlots(slots, n.uid, top)), parent := Some(parent), root := top)
  }

  function ReplantSlots(slots: seq<Slot>, owner: nat, top: Option<nat>): (r: seq<Slot>)
    ensures |r| == |slots|
    ensures SlotsLinked(r, owner, top)
    ensures UnlinkedSlots(r) == UnlinkedSlots(slots)
    ensures forall i :: 0 <= i < |slots| ==> r[i].name == slots[i].name
    decreases slots, 1
  {
    if slots == [] then []
    else
      var c := slots[0].container;
      var head := Slot(slots[0].name, Container(c.nextId, ReplantList(c.entities, owner, top), ReplantList(c.deletedEntities, owner, top)));
      var rest := ReplantSlots(slots[1..], owner, top);
      assert ([head] + rest)[1..] == rest;
      [head] + rest
  }

  function ReplantList(nodes: seq<Node>, owner: nat, top: Option<nat>): (r: seq<Node>)
    ensures |r| == |nodes|
    ensures ListLinked(r, owner, top)
    ensures UnlinkedList(r) == UnlinkedList(nodes)
    ensures forall k :: 0 <= k < |nodes| ==> r[k].uid == nodes[k].uid
    decreases nodes, 0
  {
    if nodes == [] then []
    else
      var head := Replant(nodes[0], owner, top);
      var rest := ReplantList(nodes[1..], owner, top);
      assert ([head] + rest)[1..] == rest;
      [head] + rest
  }

  // ---------------------------------------------------------------------------
  // cloneEntityStructure

  /**
   * `c` is a copy of `s`: same definition, id and state, a JSON copy of the
   * data, and a child table with the same names and counters whose every
   * structure, live or deleted, is a copy of the one at the same place and
   * names it as its base.
   */
  predicate Copies(c: Node, s: Node)
    decreases s, 2
  {
    && c.definition == s.definition && c.id == s.id && c.state == s.state
    && c.data == Data.JsonCopy(s.data)
    && match s.child
       case NoTable => c.child.NoTable?
       case Table(slots) => c.child.Table? && SlotsCopy(c.child.slots, slots)
  }

  predicate SlotsCopy(cs: seq<Slot>, ss: seq<Slot>)
    decreases ss, 1
  {
    |cs| == |ss| &&
    forall i :: 0 <= i < |ss| ==>
      && cs[i].name == ss[i].name
      && cs[i].container.nextId == ss[i].container.nextId
      && ListCopy(cs[i].container.entities, ss[i].container.entities)
      && ListCopy(cs[i].container.deletedEntities, ss[i].container.deletedEntities)
  }

  predicate ListCopy(cs: seq<Node>, ss: seq<Node>)
    decreases ss, 0
  {
    |cs| == |ss| && forall k :: 0 <= k < |ss| ==> cs[k].base == Some(ss[k].uid) && Copies(cs[k], ss[k])
  }

  /**
   * The detail table a clone gets as written: `detail ?? Array.isArray(details) ? … : null`
   * parses as `(detail ?? Array.isArray(details)) ? … : null`, so a copied
   * table, always truthy, selects the branch that builds a table of nulls,
   * which throws when the definition lists no details.
   */
  function ClonedDetailAsWritten(source: Node): (r: Result<Option<map<string, Value>>>)
    ensures r.Err? <==> source.detail.Some? && !source.definition.details.Listed?
    ensures r.Ok? ==> r.value == NullDetails(source.definition)
  {
    if source.detail.Some? && !source.definition.details.Listed? then Err(TypeError)
    else Ok(NullDetails(source.definition))
  }

  /** The detail table a clone is meant to get: a JSON copy of the source's, or a fresh one when it has none. */
  function ClonedDetail(source: Node): Option<map<string, Value>>
  {
    match source.detail
    case Some(m) => Some(Data.JsonCopy(Obj(m)).fields)
    case None => NullDetails(source.definition)
  }

  /**
   * A detail the source holds as text: the intended clone copies it, while
   * the clone as written either throws or gets a table without it.
   */
  lemma ClonedDetailLost(source: Node, k: string)
    requires source.detail.Some? && k in source.detail.value && source.detail.value[k].Str?
    ensures ClonedDetail(source).Some? && k in ClonedDetail(source).value
    ensures ClonedDetail(source).value[k] == source.detail.value[k]
    ensures ClonedDetailAsWritten(source).Ok? ==> ClonedDetailAsWritten(source).value != ClonedDetail(source)
  {
    var m := source.detail.value;
    assert Data.JsonCopy(Obj(m)).fields[k] == Data.JsonCopy(m[k]) == m[k];
  }

  /**
   * `cloneEntityStructure(source, { $parent, $root, $base })`: a deep copy
   * under the uid `counter`, its own root when `root` is null, with every
   * structure below it cloned under it. `asWritten` selects the detail table
   * of the source as written (line 49) instead of the intended one. The data
   * goes through `JSON.parse(JSON.stringify(…))`, which throws a SyntaxError
   * for undefined data.
   */
  function CloneTree(source: Node, parent: Option<nat>, root: Option<nat>, base: Option<nat>,
                     counter: nat, asWritten: bool): (r: Result<(Node, nat)>)
    ensures r.Ok? ==> counter < r.value.1
    ensures r.Ok? ==> Copies(r.value.0, source)
    ensures r.Ok? ==> r.value.0.uid == counter && r.value.0.parent == parent && r.value.0.base == base
    ensures r.Ok? ==> r.value.0.root == Some(root.GetOr(counter)) && LinkedBelow(r.value.0, Some(root.GetOr(counter)))
    ensures r.Ok? && asWritten ==> r.value.0.detail == NullDetails(source.definition)
    ensures r.Ok? && !asWritten ==> r.value.0.detail == ClonedDetail(source)
    decreases source, 2
  {
    if source.data.Undefined? then Err(SyntaxError)
    else
      var detail :- if asWritten then ClonedDetailAsWritten(source) else Ok(ClonedDetail(source));
      var top := root.GetOr(counter);
      match source.child
      case NoTable =>
        Ok((Node(counter, source.definition, source.id, Data.JsonCopy(source.data), NoTable, detail,
                 source.state, parent, Some(top), base), counter + 1))
      case Table(slots) =>
        var cloned :- CloneSlots(slots, counter, top, counter + 1, asWritten);
        Ok((Node(counter, source.definition, source.id, Data.JsonCopy(source.data), Table(cloned.0), detail,
                 source.state, parent, Some(top), base), cloned.1))
  }

  function CloneSlots(slots: seq<Slot>, owner: nat, top: nat, counter: nat, asWritten: bool): (r: Result<(seq<Slot>, nat)>)
    ensures r.Ok? ==> counter <= r.value.1
    ensures r.Ok? ==> SlotsCopy(r.value.0, slots) && SlotsLinked(r.value.0, owner, Some(top))
    decreases slots, 1
  {
    if slots == [] then Ok(([], counter))
    else
      var c := slots[0].container;
      var live :- CloneList(c.entities, owner, top, counter, asWritten);
      var gone :- CloneList(c.deletedEntities, owner, top, live.1, asWritten);
      var rest :- CloneSlots(slots[1..], owner, top, gone.1, asWritten);
      var head := Slot(slots[0].name, Container(c.nextId, live.0, gone.0));
      assert ([head] + rest.0)[1..] == rest.0;
      Ok(([head] + rest.0, rest.1))
  }

  function CloneList(nodes: seq<Node>, owner: nat, top: nat, counter: nat, asWritten: bool): (r: Result<(seq<Node>, nat)>)
    ensures r.Ok? ==> counter <= r.value.1
    ensures r.Ok? ==> ListCopy(r.value.0, nodes) && ListLinked(r.value.0, owner, Some(top))
    decreases nodes, 0
  {
    if nodes == [] then Ok(([], counter))
    else
      var head :- CloneTree(nodes[0], Some(owner), Some(top), Some(nodes[0].uid), counter, asWritten);
      var rest :- CloneList(nodes[1..], owner, top, head.1, asWritten);
      assert ([head.0] + rest.0)[1..] == rest.0;
      Ok(([head.0] + rest.0, rest.1))
  }

  // ---------------------------------------------------------------------------
  // Lookups

  /** The position of the first slot named `name`, or the number of slots. */
  function FirstSlot(slots: seq<Slot>, name: string): (i: nat)
    ensures i <= |slots|
    ensures i < |slots| ==> slots[i].name == name
    ensures forall j :: 0 <= j < i ==> slots[j].name != name
  {
    if slots == [] then 0
    else if slots[0].name == name then 0
    else 1 + FirstSlot(slots[1..], name)
  }

  /**
   * `entity.child[name]`: the place of the container named `name`; a
   * TypeError when the table is null or has no container of that name.
   */
  function SlotOf(n: Node, name: string): (r: Result<nat>)
    ensures r.Err? ==> r.error == TypeError
    ensures r.Err? <==> n.child.NoTable? || forall j :: 0 <= j < |n.child.slots| ==> n.child.slots[j].name != name
    ensures r.Ok? ==> r.value < |n.child.slots| && n.child.slots[r.value].name == name
  {
    if n.child.NoTable? then Err(TypeError)
    else
      var i := FirstSlot(n.child.slots, name);
      if i < |n.child.slots| then Ok(i) else Err(TypeError)
  }

  /** The container at a place of the table. */
  function At(n: Node, i: nat): Container
    requires n.child.Table? && i < |n.child.slots|
  {
    n.child.slots[i].container
  }

  /** The structure with the container at place `i` replaced. */
  function WithContainer(n: Node, i: nat, c: Container): (r: Node)
    requires n.child.Table? && i < |n.child.slots|
    ensures r.child.Table? && |r.child.slots| == |n.child.slots| && At(r, i) == c
    ensures forall j :: 0 <= j < |n.child.slots| ==> r.child.slots[j].name == n.child.slots[j].name
    ensures forall j :: 0 <= j < |n.child.slots| && j != i ==> r.child.slots[j] == n.child.slots[j]
  {
    n.(child := Table(n.child.slots[i := Slot(n.child.slots[i].name, c)]))
  }

  /** `entities.findIndex(e => e.id === id)`, with the number of entities standing for -1. */
  function FindById(nodes: seq<Node>, id: Value): (k: nat)
    ensures k <= |nodes|
    ensures k < |nodes| ==> nodes[k].id == id
    ensures forall j :: 0 <= j < k ==> nodes[j].id != id
  {
    if nodes == [] then 0
    else if nodes[0].id == id then 0
    else 1 + FindById(nodes[1..], id)
  }

  /** Whether a child definition answers to `name`: by its navigation key or by its entity name. */
  predicate Answers(c: Definition, name: string) {
    (c.navigationKey != "" && c.navigationKey == name) || c.entityName == name
  }

  /** The position of the first definition answering to `name`, or the number of definitions. */
  function FirstAnswering(defs: seq<Definition>, name: string): (i: nat)
    ensures i <= |defs|
    ensures i < |defs| ==> Answers(defs[i], name)
    ensures forall j :: 0 <= j < i ==> !Answers(defs[j], name)
  {
    if defs == [] then 0
    else if Answers(defs[0], name) then 0
    else 1 + FirstAnswering(defs[1..], name)
  }

  /**
   * `definition.children.find(c => c.navigationKey === name || c.entityName === name)`,
   * with the TypeError of using what it does not find (or of calling `find`
   * on a missing list).
   */
  function FindChildDefinition(d: Definition, name: string): (r: Result<Definition>)
    ensures r.Err? ==> r.error == TypeError
    ensures r.Err? <==> !d.children.Listed? || forall j :: 0 <= j < |Children(d)| ==> !Answers(Children(d)[j], name)
    ensures r.Ok? ==> r.value in Children(d) && Answers(r.value, name)
  {
    if !d.children.Listed? then Err(TypeError)
    else
      var i := FirstAnswering(Children(d), name);
      if i < |Children(d)| then Ok(Children(d)[i]) else Err(TypeError)
  }

  /** `getChild(name, id)`: the live child under `name` with that id, or null. */
  function GetChild(n: Node, name: string, id: Value): (r: Result<Option<Node>>)
    ensures r.Err? <==> SlotOf(n, name).Err?
    ensures r.Ok? && r.value.Some? ==> r.value.value in At(n, SlotOf(n, name).value).entities && r.value.value.id == id
    ensures r.Ok? && r.value.None? ==> forall k :: 0 <= k < |At(n, SlotOf(n, name).value).entities| ==> At(n, SlotOf(n, name).value).entities[k].id != id
  {
    var i :- SlotOf(n, name);
    var live := At(n, i).entities;
    var k := FindById(live, id);
    if k < |live| then Ok(Some(live[k])) else Ok(None)
  }

  // ---------------------------------------------------------------------------
  // Child ids

  /** An id handed out by a container whose counter has reached `next`. */
  predicate IssuedBelow(id: Value, next: nat) {
    id.Num? && 1 <= id.n < next
  }

  /** Every child holds an id the counter has already handed out. */
  predicate AllIssued(nodes: seq<Node>, next: nat) {
    forall k :: 0 <= k < |nodes| ==> IssuedBelow(nodes[k].id, next)
  }

  /** No two children hold the same id. */
  predicate DistinctIds(nodes: seq<Node>) {
    forall j, k :: 0 <= j < k < |nodes| ==> nodes[j].id != nodes[k].id
  }

  /** No child of one list holds the id of a child of the other. */
  predicate ApartIds(a: seq<Node>, b: seq<Node>) {
    forall j, k :: 0 <= j < |a| && 0 <= k < |b| ==> a[j].id != b[k].id
  }

  /**
   * The ids of a container: its counter starts at 1, every child, live or
   * deleted, holds an id the counter has already handed out, and no two hold
   * the same one.
   */
  predicate Numbered(c: Container) {
    && 1 <= c.nextId
    && AllIssued(c.entities, c.nextId) && AllIssued(c.deletedEntities, c.nextId)
    && DistinctIds(c.entities) && DistinctIds(c.deletedEntities)
    && ApartIds(c.entities, c.deletedEntities)
  }

  /** Every container of the structure is numbered. */
  predicate TableNumbered(n: Node) {
    n.child.Table? ==> forall i :: 0 <= i < |n.child.slots| ==> Numbered(n.child.slots[i].container)
  }

  // ---------------------------------------------------------------------------
  // markAsUpdated and assignForeignKey

  /** `markAsUpdated`: a read entity becomes updated; a new one stays new. */
  function MarkAsUpdated(n: Node): (r: Node)
    ensures r.state == (if n.state == Create then Create else Update)
    ensures r == n.(state := r.state)
  {
    if n.state != Create then n.(state := Update) else n
  }

  /**
   * `assignForeignKey(parent, name, data)`: a shallow copy of `data` with the
   * child definition's foreign key holding the parent's primary value, when
   * both keys are named. A TypeError when no child definition answers to
   * `name`, or when the parent's primary value cannot be read.
   */
  function AssignForeignKey(parent: Node, name: string, data: Value): (r: Result<Value>)
    ensures r.Err? ==> r.error == TypeError
    ensures r.Err? <==> (|| FindChildDefinition(parent.definition, name).Err?
                         || (var c := FindChildDefinition(parent.definition, name).value;
                             c.foreingKey != "" && parent.definition.primaryKey != "" && IsNullish(parent.data)))
    ensures r.Ok? ==> r.value.Obj?
    ensures r.Ok? ==> var c := FindChildDefinition(parent.definition, name).value;
                      var linked := c.foreingKey != "" && parent.definition.primaryKey != "";
                      && (forall k :: !(linked && k == c.foreingKey) ==> Field(r.value.fields, k) == Field(Save.Spread(data), k))
                      && (linked ==> Field(r.value.fields, c.foreingKey) == PrimaryValue(parent).value)
  {
    var c :- FindChildDefinition(parent.definition, name);
    var copy := Save.Spread(data);
    if c.foreingKey != "" && parent.definition.primaryKey != "" then
      var key :- PrimaryValue(parent);
      Ok(Obj(copy[c.foreingKey := key]))
    else Ok(Obj(copy))
  }

  // ---------------------------------------------------------------------------
  // Managing the children of an entity

  /** The first definition whose entity name is `name`, as `createChildData` looks it up. */
  function FindByEntityName(d: Definition, name: string): (r: Result<Definition>)
    ensures r.Err? ==> r.error == TypeError
    ensures r.Err? <==> !d.children.Listed? || forall j :: 0 <= j < |Children(d)| ==> Children(d)[j].entityName != name
    ensures r.Ok? ==> r.value in Children(d) && r.value.entityName == name
  {
    if !d.children.Listed? then Err(TypeError)
    else if exists j :: 0 <= j < |Children(d)| && Children(d)[j].entityName == name then
      var j := FirstEntityNamed(Children(d), name);
      Ok(Children(d)[j])
    else Err(TypeError)
  }

  function FirstEntityNamed(defs: seq<Definition>, name: string): (i: nat)
    requires exists j :: 0 <= j < |defs| && defs[j].entityName == name
    ensures i < |defs| && defs[i].entityName == name
  {
    if defs[0].entityName == name then 0
    else
      assert exists j :: 0 <= j < |defs[1..]| && defs[1..][j].entityName == name by {
        var j :| 0 <= j < |defs| && defs[j].entityName == name;
        assert defs[1..][j - 1] == defs[j];
      }
      1 + FirstEntityNamed(defs[1..], name)
  }

  /** The container with `child` pushed under the id its counter hands out, and the counter advanced. */
  function Issued(c: Container, child: Node): (r: Container)
  {
    Container(c.nextId + 1, c.entities + [child.(id := Num(c.nextId))], c.deletedEntities)
  }

  /** Handing out the next id keeps a container numbered. */
  lemma IssuedNumbered(c: Container, child: Node)
    requires Numbered(c)
    ensures Numbered(Issued(c, child))
  {
    var r := Issued(c, child);
    var m := |c.entities|;
    assert forall k :: 0 <= k < m ==> r.entities[k] == c.entities[k];
    assert r.entities[m].id == Num(c.nextId);
    assert AllIssued(r.entities, r.nextId) by {
      forall k | 0 <= k < |r.entities| ensures IssuedBelow(r.entities[k].id, r.nextId) {
        if k < m {
          assert IssuedBelow(c.entities[k].id, c.nextId);
        }
      }
    }
    assert AllIssued(r.deletedEntities, r.nextId) by {
      forall k | 0 <= k < |r.deletedEntities| ensures IssuedBelow(r.deletedEntities[k].id, r.nextId) {
        assert IssuedBelow(c.deletedEntities[k].id, c.nextId);
      }
    }
    assert DistinctIds(r.entities) by {
      forall j, k | 0 <= j < k < |r.entities| ensures r.entities[j].id != r.entities[k].id {
        assert IssuedBelow(c.entities[j].id, c.nextId);
      }
    }
    assert ApartIds(r.entities, r.deletedEntities) by {
      forall j, k | 0 <= j < |r.entities| && 0 <= k < |r.deletedEntities|
        ensures r.entities[j].id != r.deletedEntities[k].id
      {
        assert IssuedBelow(c.deletedEntities[k].id, c.nextId);
      }
    }
  }

  /** The new children of a container are pushed last, with the ids its counter hands out. */
  predicate Pushed(c0: Container, c: Container, child: Node) {
    && c.nextId == c0.nextId + 1
    && c.deletedEntities == c0.deletedEntities
    && |c.entities| == |c0.entities| + 1
    && c.entities[..|c0.entities|] == c0.entities
    && c.entities[|c0.entities|] == child.(id := Num(c0.nextId))
  }

  /** What a container-changing operation leaves alone: every other container and every other field. */
  predicate OnlyContainer(r: Node, n: Node, i: nat)
    requires n.child.Table? && i < |n.child.slots|
  {
    && r.child.Table? && |r.child.slots| == |n.child.slots|
    && r.child.slots[i].name == n.child.slots[i].name
    && (forall j :: 0 <= j < |n.child.slots| && j != i ==> r.child.slots[j] == n.child.slots[j])
    && r.(child := n.child) == n
  }

  /**
   * `createChildData(name, data)` as written: the child definition is looked
   * up by entity name only, while the container is looked up by the name the
   * table uses, the navigation key when there is one.
   */
  function CreateChildDataAsWritten(n: Node, name: string, data: Value, uid: nat): (r: Result<Node>)
    ensures r.Err? ==> r.error == TypeError
    ensures FindByEntityName(n.definition, name).Err? ==> r.Err?
  {
    var i :- SlotOf(n, name);
    var d :- FindByEntityName(n.definition, name);
    var childData :- AssignForeignKey(n, name, data);
    var child := NewStructure(uid, d, Null, childData, Create, Some(n.uid), n.root);
    Ok(WithContainer(n, i, Issued(At(n, i), child)))
  }

  /**
   * `createChildData(name, data)` with the child definition looked up as the
   * rest of the composable does: a new child under `name`, holding the next
   * id of its container, in state `create`, below this entity and its root,
   * whose data is `data` with the foreign key assigned.
   */
  function CreateChildData(n: Node, name: string, data: Value, uid: nat): (r: Result<Node>)
    ensures r.Err? ==> r.error == TypeError
    ensures r.Err? <==> SlotOf(n, name).Err? || AssignForeignKey(n, name, data).Err?
    ensures r.Ok? ==> var i := SlotOf(n, name).value;
                      var d := FindChildDefinition(n.definition, name).value;
                      && OnlyContainer(r.value, n, i)
                      && Pushed(At(n, i), At(r.value, i),
                                NewStructure(uid, d, Null, AssignForeignKey(n, name, data).value, Create, Some(n.uid), n.root))
  {
    var i :- SlotOf(n, name);
    var d :- FindChildDefinition(n.definition, name);
    var childData :- AssignForeignKey(n, name, data);
    var child := NewStructure(uid, d, Null, childData, Create, Some(n.uid), n.root);
    Ok(WithContainer(n, i, Issued(At(n, i), child)))
  }

  /**
   * A child collection named by its navigation key, which is no child's
   * entity name: the intended `createChildData` adds a child, while as
   * written the definition lookup finds nothing and the call throws.
   */
  lemma CreateByNavigationKeyFails(n: Node, name: string, data: Value, uid: nat)
    requires CreateChildData(n, name, data, uid).Ok?
    requires forall j :: 0 <= j < |Children(n.definition)| ==> Children(n.definition)[j].entityName != name
    ensures CreateChildDataAsWritten(n, name, data, uid) == Err(TypeError)
  {
  }

  /** A created child is what `getChild` finds under its id, and the container stays numbered. */
  lemma CreatedChildFound(n: Node, name: string, data: Value, uid: nat)
    requires CreateChildData(n, name, data, uid).Ok?
    requires Numbered(At(n, SlotOf(n, name).value))
    ensures var r := CreateChildData(n, name, data, uid).value;
            var c0 := At(n, SlotOf(n, name).value);
            && Numbered(At(r, SlotOf(n, name).value))
            && GetChild(r, name, Num(c0.nextId)).Ok?
            && GetChild(r, name, Num(c0.nextId)).value.Some?
            && GetChild(r, name, Num(c0.nextId)).value.value.state == Create
  {
    var r := CreateChildData(n, name, data, uid).value;
    var i := SlotOf(n, name).value;
    var c0 := At(n, i);
    var c := At(r, i);
    IssuedNumbered(c0, NewStructure(uid, FindChildDefinition(n.definition, name).value,
                                    Null, AssignForeignKey(n, name, data).value, Create, Some(n.uid), n.root));
    assert SlotOf(r, name) == Ok(i) by {
      assert FirstSlot(r.child.slots, name) == FirstSlot(n.child.slots, name) by {
        FirstSlotOfSameNames(r.child.slots, n.child.slots, name);
      }
    }
    assert forall k :: 0 <= k < |c0.entities| ==> c.entities[k] == c0.entities[k] && IssuedBelow(c0.entities[k].id, c0.nextId) by {
      forall k | 0 <= k < |c0.entities| ensures c.entities[k] == c0.entities[k] && IssuedBelow(c0.entities[k].id, c0.nextId) {
        assert c.entities[..|c0.entities|][k] == c.entities[k];
      }
    }
    assert FindById(c.entities, Num(c0.nextId)) == |c0.entities| by {
      FindByIdAt(c.entities, |c0.entities|);
    }
  }

  /** Containers with the same names in the same order are found at the same place. */
  lemma {:induction false} FirstSlotOfSameNames(a: seq<Slot>, b: seq<Slot>, name: string)
    requires |a| == |b| && forall j :: 0 <= j < |a| ==> a[j].name == b[j].name
    ensures FirstSlot(a, name) == FirstSlot(b, name)
  {
    if a != [] && a[0].name != name {
      FirstSlotOfSameNames(a[1..], b[1..], name);
    }
  }

  /** The one entity holding an id is the one `findIndex` returns. */
  lemma {:induction false} FindByIdAt(nodes: seq<Node>, k: nat)
    requires k < |nodes| && forall j :: 0 <= j < |nodes| && j != k ==> nodes[j].id != nodes[k].id
    ensures FindById(nodes, nodes[k].id) == k
  {
    if k > 0 {
      assert forall j :: 0 <= j < |nodes[1..]| && j != k - 1 ==> nodes[1..][j].id != nodes[1..][k - 1].id by {
        forall j | 0 <= j < |nodes[1..]| && j != k - 1 ensures nodes[1..][j].id != nodes[1..][k - 1].id {
          assert nodes[1..][j] == nodes[j + 1];
        }
      }
      FindByIdAt(nodes[1..], k - 1);
    }
  }

  /** Changing a container without changing its counter, its deleted children or its children's ids keeps it numbered. */
  lemma SameIdsNumbered(c0: Container, c: Container)
    requires Numbered(c0)
    requires c.nextId == c0.nextId && c.deletedEntities == c0.deletedEntities && |c.entities| == |c0.entities|
    requires forall j :: 0 <= j < |c0.entities| ==> c.entities[j].id == c0.entities[j].id
    ensures Numbered(c)
  {
  }

  /** Replacing a container by one whose children all hang below the entity and its root keeps the entity linked. */
  lemma ContainerLinked(n: Node, i: nat, c: Container)
    requires n.child.Table? && i < |n.child.slots| && Linked(n)
    requires ListLinked(c.entities, n.uid, n.root) && ListLinked(c.deletedEntities, n.uid, n.root)
    ensures Linked(WithContainer(n, i, c))
  {
    var r := WithContainer(n, i, c);
    assert SlotsLinked(n.child.slots, n.uid, n.root);
    forall j | 0 <= j < |r.child.slots|
      ensures ListLinked(r.child.slots[j].container.entities, r.uid, r.root)
      ensures ListLinked(r.child.slots[j].container.deletedEntities, r.uid, r.root)
    {
      if j != i {
        assert r.child.slots[j] == n.child.slots[j];
      }
    }
  }

  /** A created child hangs below the entity and its root, so a linked entity stays linked. */
  lemma CreatedChildLinked(n: Node, name: string, data: Value, uid: nat)
    requires CreateChildData(n, name, data, uid).Ok? && Linked(n)
    ensures Linked(CreateChildData(n, name, data, uid).value)
  {
    var i := SlotOf(n, name).value;
    var d := FindChildDefinition(n.definition, name).value;
    var child := NewStructure(uid, d, Null, AssignForeignKey(n, name, data).value, Create, Some(n.uid), n.root);
    var c0 := At(n, i);
    var c := Issued(c0, child);
    assert SlotsLinked(n.child.slots, n.uid, n.root);
    assert ListLinked(c0.entities, n.uid, n.root);
    assert LinkedBelow(child.(id := Num(c0.nextId)), n.root) by {
      var t := FreshTable(d);
      if t.Table? {
        assert forall j :: 0 <= j < |t.slots| ==> t.slots[j].container == FreshContainer;
      }
    }
    assert ListLinked(c.entities, n.uid, n.root) by {
      forall k | 0 <= k < |c.entities|
        ensures c.entities[k].parent == Some(n.uid) && c.entities[k].root == n.root && LinkedBelow(c.entities[k], n.root)
      {
        if k < |c0.entities| {
          assert c.entities[k] == c0.entities[k];
        }
      }
    }
    ContainerLinked(n, i, c);
  }

  /**
   * `updateChildData(name, id, data)`: the live child with that id takes
   * `data` with the foreign key assigned and is marked as updated; a
   * TypeError when there is no such child.
   */
  function UpdateChildData(n: Node, name: string, id: Value, data: Value): (r: Result<Node>)
    ensures r.Err? ==> r.error == TypeError
    ensures r.Err? <==> (|| SlotOf(n, name).Err?
                         || FindById(At(n, SlotOf(n, name).value).entities, id) == |At(n, SlotOf(n, name).value).entities|
                         || AssignForeignKey(n, name, data).Err?)
    ensures r.Ok? ==> var i := SlotOf(n, name).value;
                      var c0 := At(n, i);
                      var k := FindById(c0.entities, id);
                      && OnlyContainer(r.value, n, i)
                      && (var c := At(r.value, i);
                          && c.nextId == c0.nextId && c.deletedEntities == c0.deletedEntities
                          && |c.entities| == |c0.entities|
                          && (forall j :: 0 <= j < |c0.entities| && j != k ==> c.entities[j] == c0.entities[j])
                          && c.entities[k].id == id
                          && c.entities[k].data == AssignForeignKey(n, name, data).value
                          && c.entities[k] == MarkAsUpdated(c0.entities[k].(data := c.entities[k].data)))
  {
    var i :- SlotOf(n, name);
    var c0 := At(n, i);
    var k := FindById(c0.entities, id);
    if k == |c0.entities| then Err(TypeError)
    else
      var childData :- AssignForeignKey(n, name, data);
      Ok(WithContainer(n, i, c0.(entities := c0.entities[k := MarkAsUpdated(c0.entities[k].(data := childData))])))
  }

  /** An update keeps the ids, so a numbered container stays numbered and the child is found with its new data. */
  lemma UpdatedChildFound(n: Node, name: string, id: Value, data: Value)
    requires UpdateChildData(n, name, id, data).Ok?
    requires Numbered(At(n, SlotOf(n, name).value))
    ensures var r := UpdateChildData(n, name, id, data).value;
            && Numbered(At(r, SlotOf(n, name).value))
            && GetChild(r, name, id).Ok? && GetChild(r, name, id).value.Some?
            && GetChild(r, name, id).value.value.data == AssignForeignKey(n, name, data).value
            && GetChild(r, name, id).value.value.state != Read
  {
    var r := UpdateChildData(n, name, id, data).value;
    var i := SlotOf(n, name).value;
    var c0 := At(n, i);
    var c := At(r, i);
    var k := FindById(c0.entities, id);
    SameIdsNumbered(c0, c);
    FirstSlotOfSameNames(r.child.slots, n.child.slots, name);
    assert SlotOf(r, name) == Ok(i);
    FindByIdAt(c.entities, k);
  }

  /** The container with the live child at `k` taken out and, unless it was never saved, kept among the deleted ones. */
  function Removed(c: Container, k: nat): Container
    requires k < |c.entities|
  {
    var child := c.entities[k];
    Container(c.nextId, Without(c.entities, k),
              if child.state != Create then c.deletedEntities + [child] else c.deletedEntities)
  }

  /** The children with the one at `k` taken out, the others in order. */
  function Without(e: seq<Node>, k: nat): (w: seq<Node>)
    requires k < |e|
    ensures |w| == |e| - 1
    ensures forall j :: 0 <= j < |w| ==> w[j] == (if j < k then e[j] else e[j + 1])
  {
    e[..k] + e[k + 1..]
  }

  /** Taking a live child out keeps the live ids issued and distinct, and none of them is the one taken out. */
  lemma WithoutIds(e: seq<Node>, k: nat, next: nat)
    requires k < |e| && AllIssued(e, next) && DistinctIds(e)
    ensures AllIssued(Without(e, k), next) && DistinctIds(Without(e, k))
    ensures forall j :: 0 <= j < |Without(e, k)| ==> Without(e, k)[j].id != e[k].id
  {
    var w := Without(e, k);
    assert forall j :: 0 <= j < |w| ==> w[j] == e[if j < k then j else j + 1];
  }

  /** The deleted children with one more whose id no other child holds. */
  lemma FiledIds(e: seq<Node>, d: seq<Node>, x: Node, next: nat)
    requires AllIssued(d, next) && DistinctIds(d) && ApartIds(e, d)
    requires IssuedBelow(x.id, next)
    requires forall j :: 0 <= j < |d| ==> d[j].id != x.id
    requires forall j :: 0 <= j < |e| ==> e[j].id != x.id
    ensures AllIssued(d + [x], next) && DistinctIds(d + [x]) && ApartIds(e, d + [x])
  {
    var d' := d + [x];
    assert forall j :: 0 <= j < |d| ==> d'[j] == d[j];
    assert d'[|d|] == x;
  }

  /** A live child taken out of a numbered container holds an id no other child holds. */
  lemma TakenOutApart(c: Container, k: nat)
    requires Numbered(c) && k < |c.entities|
    ensures ApartIds(Without(c.entities, k), c.deletedEntities)
    ensures forall j :: 0 <= j < |c.deletedEntities| ==> c.deletedEntities[j].id != c.entities[k].id
  {
    var w := Without(c.entities, k);
    assert forall j :: 0 <= j < |w| ==> w[j] == c.entities[if j < k then j else j + 1];
  }

  /** Taking a child out keeps the container numbered, and leaves no live child with its id. */
  lemma RemovedNumbered(c: Container, k: nat)
    requires Numbered(c) && k < |c.entities|
    ensures Numbered(Removed(c, k))
    ensures forall j :: 0 <= j < |Removed(c, k).entities| ==> Removed(c, k).entities[j].id != c.entities[k].id
  {
    WithoutIds(c.entities, k, c.nextId);
    TakenOutApart(c, k);
    if c.entities[k].state != Create {
      FiledIds(Without(c.entities, k), c.deletedEntities, c.entities[k], c.nextId);
    }
  }

  /** Taking a child out loses no child but a new one. */
  lemma RemovedKeeps(c: Container, k: nat)
    requires k < |c.entities|
    ensures multiset(Removed(c, k).entities + Removed(c, k).deletedEntities)
            == multiset(c.entities + c.deletedEntities)
               - (if c.entities[k].state == Create then multiset{c.entities[k]} else multiset{})
  {
    var e := c.entities;
    assert e == e[..k] + [e[k]] + e[k + 1..];
    assert multiset(e) == multiset(e[..k]) + multiset{e[k]} + multiset(e[k + 1..]);
  }

  /**
   * `deleteChildData(name, id)` as written: `findIndex` gives -1 when no live
   * child has the id, and `splice(-1, 1)` then takes out the last child (or
   * nothing, and reading the state of nothing throws).
   */
  function DeleteChildDataAsWritten(n: Node, name: string, id: Value): (r: Result<Node>)
    ensures r.Err? ==> r.error == TypeError
  {
    var i :- SlotOf(n, name);
    var c := At(n, i);
    var k := FindById(c.entities, id);
    if k < |c.entities| then Ok(WithContainer(n, i, Removed(c, k)))
    else if c.entities == [] then Err(TypeError)
    else Ok(WithContainer(n, i, Removed(c, |c.entities| - 1)))
  }

  /**
   * An id no live child holds: the intended `deleteChildData` changes
   * nothing, while as written `splice(-1, 1)` takes the last live child out.
   */
  lemma DeleteMissingIdTakesLast(n: Node, name: string, id: Value)
    requires SlotOf(n, name).Ok?
    requires var c := At(n, SlotOf(n, name).value); c.entities != [] && FindById(c.entities, id) == |c.entities|
    ensures DeleteChildData(n, name, id) == Ok(n)
    ensures var i := SlotOf(n, name).value;
            var c := At(n, i);
            && DeleteChildDataAsWritten(n, name, id).Ok?
            && At(DeleteChildDataAsWritten(n, name, id).value, i).entities == c.entities[..|c.entities| - 1]
  {
  }

  /**
   * `deleteChildData(name, id)` as intended: the live child with that id
   * leaves the container, and is kept among the deleted children unless it
   * was never saved; nothing changes when there is no such child.
   */
  function DeleteChildData(n: Node, name: string, id: Value): (r: Result<Node>)
    ensures r.Err? ==> r.error == TypeError
    ensures r.Err? <==> SlotOf(n, name).Err?
    ensures r.Ok? && FindById(At(n, SlotOf(n, name).value).entities, id) == |At(n, SlotOf(n, name).value).entities| ==> r.value == n
    ensures r.Ok? && FindById(At(n, SlotOf(n, name).value).entities, id) < |At(n, SlotOf(n, name).value).entities| ==>
              var i := SlotOf(n, name).value;
              var c0 := At(n, i);
              var k := FindById(c0.entities, id);
              && OnlyContainer(r.value, n, i)
              && At(r.value, i).nextId == c0.nextId
              && At(r.value, i).entities == c0.entities[..k] + c0.entities[k + 1..]
              && At(r.value, i).deletedEntities == c0.deletedEntities + (if c0.entities[k].state != Create then [c0.entities[k]] else [])
  {
    var i :- SlotOf(n, name);
    var c := At(n, i);
    var k := FindById(c.entities, id);
    if k < |c.entities| then Ok(WithContainer(n, i, Removed(c, k))) else Ok(n)
  }

  /** After a delete no live child holds the id, the container stays numbered, and only a new child is lost. */
  lemma DeletedChildGone(n: Node, name: string, id: Value)
    requires DeleteChildData(n, name, id).Ok?
    requires Numbered(At(n, SlotOf(n, name).value))
    ensures var r := DeleteChildData(n, name, id).value;
            var c0 := At(n, SlotOf(n, name).value);
            var c := At(r, SlotOf(n, name).value);
            var k := FindById(c0.entities, id);
            && Numbered(c)
            && GetChild(r, name, id) == Ok(None)
            && (k < |c0.entities| ==>
                  multiset(c.entities + c.deletedEntities)
                  == multiset(c0.entities + c0.deletedEntities)
                     - (if c0.entities[k].state == Create then multiset{c0.entities[k]} else multiset{}))
  {
    var r := DeleteChildData(n, name, id).value;
    var i := SlotOf(n, name).value;
    var c0 := At(n, i);
    var k := FindById(c0.entities, id);
    if k < |c0.entities| {
      RemovedNumbered(c0, k);
      RemovedKeeps(c0, k);
      FirstSlotOfSameNames(r.child.slots, n.child.slots, name);
      assert At(r, i) == Removed(c0, k);
    }
  }

  /**
   * `createNewChild(name)`: a detached new child for `name`, in state
   * `create` with a null id, whose parent is this entity but whose root is
   * itself, holding only the foreign key.
   */
  function CreateNewChild(n: Node, name: string, uid: nat): (r: Result<Node>)
    ensures r.Err? ==> r.error == TypeError
    ensures r.Err? <==> AssignForeignKey(n, name, Obj(map[])).Err?
    ensures r.Ok? ==> && r.value.uid == uid && r.value.root == Some(uid) && r.value.parent == Some(n.uid)
                      && r.value.state == Create && r.value.id == Null && r.value.base == None
                      && r.value.definition == FindChildDefinition(n.definition, name).value
                      && r.value.data == AssignForeignKey(n, name, Obj(map[])).value
  {
    var d :- FindChildDefinition(n.definition, name);
    var data :- AssignForeignKey(n, name, Obj(map[]));
    Ok(NewStructure(uid, d, Null, data, Create, Some(n.uid), Some(uid)))
  }

  /**
   * `addNewChild(name, child)`: the child pushed under `name` with the next
   * id of the container; its other fields, its root link included, are kept.
   */
  function AddNewChild(n: Node, name: string, child: Node): (r: Result<Node>)
    ensures r.Err? ==> r.error == TypeError
    ensures r.Err? <==> SlotOf(n, name).Err?
    ensures r.Ok? ==> var i := SlotOf(n, name).value;
                      OnlyContainer(r.value, n, i) && Pushed(At(n, i), At(r.value, i), child)
  {
    var i :- SlotOf(n, name);
    Ok(WithContainer(n, i, Issued(At(n, i), child)))
  }

  /**
   * `createNewChild` followed by `addNewChild` stores what `createChildData`
   * with empty data stores, except that the added child's root link still
   * points at the child itself.
   */
  lemma NewChildThenAdd(n: Node, name: string, uid: nat)
    requires CreateNewChild(n, name, uid).Ok? && SlotOf(n, name).Ok?
    ensures var child := CreateNewChild(n, name, uid).value;
            && CreateChildData(n, name, Obj(map[]), uid).Ok?
            && AddNewChild(n, name, child.(root := n.root)) == CreateChildData(n, name, Obj(map[]), uid)
  {
  }

  /**
   * `createChildClone(name, id)`: a copy of the live child with that id,
   * detached (no parent, its own root) and based on that child; null when
   * there is none.
   */
  function CreateChildClone(n: Node, name: string, id: Value, counter: nat): (r: Result<Option<(Node, nat)>>)
    ensures r.Err? <==> (|| SlotOf(n, name).Err?
                         || (var live := At(n, SlotOf(n, name).value).entities;
                             var k := FindById(live, id);
                             k < |live| && CloneTree(live[k], None, None, Some(live[k].uid), counter, false).Err?))
    ensures r.Ok? && r.value.Some? ==>
              var live := At(n, SlotOf(n, name).value).entities;
              var k := FindById(live, id);
              var c := r.value.value.0;
              && k < |live| && Copies(c, live[k]) && c.id == id
              && c.parent == None && c.root == Some(c.uid) && c.base == Some(live[k].uid)
              && Linked(c)
    ensures r.Ok? && r.value.None? ==> FindById(At(n, SlotOf(n, name).value).entities, id) == |At(n, SlotOf(n, name).value).entities|
  {
    var i :- SlotOf(n, name);
    var live := At(n, i).entities;
    var k := FindById(live, id);
    if k == |live| then Ok(None)
    else
      var cloned :- CloneTree(live[k], None, None, Some(live[k].uid), counter, false);
      Ok(Some(cloned))
  }

  /**
   * `applyChildClone(name, id, clone)`: the clone, replanted below this
   * entity and its root, takes the place of the live child with that id;
   * nothing changes when there is none.
   */
  function ApplyChildClone(n: Node, name: string, id: Value, clone: Node): (r: Result<Node>)
    ensures r.Err? ==> r.error == TypeError
    ensures r.Err? <==> SlotOf(n, name).Err?
    ensures r.Ok? ==> var i := SlotOf(n, name).value;
                      var c0 := At(n, i);
                      var k := FindById(c0.entities, id);
                      && (k == |c0.entities| ==> r.value == n)
                      && (k < |c0.entities| ==>
                            && OnlyContainer(r.value, n, i)
                            && At(r.value, i) == c0.(entities := c0.entities[k := Replant(clone, n.uid, n.root)]))
  {
    var i :- SlotOf(n, name);
    var c0 := At(n, i);
    var k := FindById(c0.entities, id);
    if k == |c0.entities| then Ok(n)
    else Ok(WithContainer(n, i, c0.(entities := c0.entities[k := Replant(clone, n.uid, n.root)])))
  }

  /**
   * Applying a clone keeps a linked entity linked, and keeps its container
   * numbered when the clone holds the id of the child it replaces.
   */
  lemma AppliedCloneLinked(n: Node, name: string, id: Value, clone: Node)
    requires ApplyChildClone(n, name, id, clone).Ok? && Linked(n)
    ensures Linked(ApplyChildClone(n, name, id, clone).value)
    ensures clone.id == id && Numbered(At(n, SlotOf(n, name).value)) ==>
              Numbered(At(ApplyChildClone(n, name, id, clone).value, SlotOf(n, name).value))
  {
    var i := SlotOf(n, name).value;
    var c0 := At(n, i);
    var k := FindById(c0.entities, id);
    if k < |c0.entities| {
      var c := c0.(entities := c0.entities[k := Replant(clone, n.uid, n.root)]);
      assert SlotsLinked(n.child.slots, n.uid, n.root);
      assert ListLinked(c0.entities, n.uid, n.root) && ListLinked(c0.deletedEntities, n.uid, n.root);
      assert ListLinked(c.entities, n.uid, n.root) by {
        forall j | 0 <= j < |c.entities|
          ensures c.entities[j].parent == Some(n.uid) && c.entities[j].root == n.root && LinkedBelow(c.entities[j], n.root)
        {
          if j != k {
            assert c.entities[j] == c0.entities[j];
          }
        }
      }
      ContainerLinked(n, i, c);
      if clone.id == id && Numbered(c0) {
        SameIdsNumbered(c0, c);
      }
    }
  }

  // ---------------------------------------------------------------------------
  // setLoadedData

  /**
   * `delete v[k]` in strict code: a TypeError on null or undefined and on the
   * read-only `length` and characters of a string or the `length` of an
   * array; an object loses the field, an array element becomes a hole (read
   * as undefined); anything else is unchanged.
   */
  function Delete(v: Value, k: string): (r: Result<Value>)
    ensures r.Err? ==> r.error == TypeError
    ensures v.Obj? ==> r == Ok(Obj(v.fields - {k}))
    ensures r.Ok? ==> Get(r.value, k).Ok? && (!v.Arr? ==> !Truthy(Get(r.value, k).value))
  {
    match v
    case Undefined => Err(TypeError)
    case Null => Err(TypeError)
    case Obj(f) => Ok(Obj(f - {k}))
    case Arr(items) =>
      if k == "length" then Err(TypeError)
      else (match ParseIndex(k)
            case Some(i) => if i < |items| then Ok(Arr(items[i := Undefined])) else Ok(v)
            case None => Ok(v))
    case Str(s) =>
      if k == "length" || (ParseIndex(k).Some? && ParseIndex(k).value < |s|) then Err(TypeError) else Ok(v)
    case _ => Ok(v)
  }

  /**
   * The values `for (const current of x || [])` visits: none for a falsy
   * value, the elements of an array, the characters of a non-empty string;
   * any other value is not iterable.
   */
  function Iterated(x: Value): (r: Result<seq<Value>>)
    ensures r.Err? ==> r.error == TypeError
    ensures !Truthy(x) ==> r == Ok([])
    ensures x.Arr? ==> r == Ok(x.items)
    ensures r.Err? <==> Truthy(x) && !x.Arr? && !x.Str?
  {
    if !Truthy(x) then Ok([])
    else match x
      case Arr(items) => Ok(items)
      case Str(s) => Ok(Characters(s))
      case _ => Err(TypeError)
  }

  /** The one-character strings a string iterates over. */
  function Characters(s: string): (r: seq<Value>)
    ensures |r| == |s| && forall i :: 0 <= i < |s| ==> r[i] == Str([s[i]])
  {
    if s == [] then [] else [Str([s[0]])] + Characters(s[1..])
  }

  /** Every live structure of the tree is in state `read`. */
  predicate Settled(n: Node)
    decreases n, 2
  {
    n.state == Read && match n.child
      case NoTable => true
      case Table(slots) => SlotsSettled(slots)
  }

  predicate SlotsSettled(slots: seq<Slot>)
    decreases slots, 1
  {
    forall i :: 0 <= i < |slots| ==> ListSettled(slots[i].container.entities)
  }

  predicate ListSettled(nodes: seq<Node>)
    decreases nodes, 0
  {
    forall k :: 0 <= k < |nodes| ==> Settled(nodes[k])
  }

  /**
   * A structure loaded from `data`, and so on down its tree: it is read and
   * shaped after its definition; an object's fields other than the child
   * and detail names are its data (nullish data is kept as it is); and, for
   * an object and a well-formed definition, every container holds one live
   * child per element of the array (or string) under its name, in order,
   * each loaded from its element.
   */
  predicate LoadedFrom(m: Node, data: Value)
    decreases m, 2
  {
    && m.state == Read
    && Shaped(m)
    && (data.Obj? ==> m.data == Obj(data.fields - NamesFrom(Children(m.definition), 0) - NamesFrom(Details(m.definition), 0)))
    && (IsNullish(data) ==> m.data == data)
    && (data.Obj? && WellFormed(m.definition) && m.child.Table? ==> SlotsLoadedFrom(m.child.slots, data.fields))
  }

  predicate SlotsLoadedFrom(slots: seq<Slot>, fields: map<string, Value>)
    decreases slots, 1
  {
    forall j :: 0 <= j < |slots| ==>
      && Iterated(Field(fields, slots[j].name)).Ok?
      && ListLoadedFrom(slots[j].container.entities, Iterated(Field(fields, slots[j].name)).value)
  }

  predicate ListLoadedFrom(nodes: seq<Node>, items: seq<Value>)
    decreases nodes, 0
  {
    |nodes| == |items| && forall k :: 0 <= k < |nodes| ==> LoadedFrom(nodes[k], items[k])
  }

  /** The container that `n` has under `name` is, in `r`, loaded from the elements under `name` in `fields`. */
  predicate ContainerLoadedFrom(n: Node, r: Node, name: string, fields: map<string, Value>) {
    && SlotOf(n, name).Ok?
    && r.child.Table? && |r.child.slots| == |n.child.slots|
    && Iterated(Field(fields, name)).Ok?
    && ListLoadedFrom(At(r, SlotOf(n, name).value).entities, Iterated(Field(fields, name)).value)
  }

  /**
   * A container whose live children were replaced by loaded ones: the
   * deleted children are kept, the new children hold consecutive ids the
   * counter has handed out since, and they hang below `owner` and `top`
   * (and are all read, when `settled`).
   */
  predicate Reloaded(c0: Container, c: Container, owner: nat, top: Option<nat>, settled: bool) {
    && c.deletedEntities == c0.deletedEntities
    && c0.nextId + |c.entities| <= c.nextId
    && (forall k :: 0 <= k < |c.entities| ==> c.entities[k].id == Num(c.nextId - |c.entities| + k))
    && ListLinked(c.entities, owner, top)
    && (settled ==> ListSettled(c.entities))
  }

  /** The table of `r` is the one of `n`, each container either untouched or reloaded. */
  predicate TableReloaded(n: Node, r: Node, settled: bool) {
    && (n.child.NoTable? <==> r.child.NoTable?)
    && (n.child.Table? ==>
          && |r.child.slots| == |n.child.slots|
          && forall j :: 0 <= j < |n.child.slots| ==>
               && r.child.slots[j].name == n.child.slots[j].name
               && (|| r.child.slots[j].container == n.child.slots[j].container
                   || Reloaded(n.child.slots[j].container, r.child.slots[j].container, n.uid, n.root, settled)))
  }

  /** The names of the sub-entities from position `from` on. */
  function NamesFrom(defs: seq<Definition>, from: nat): set<string> {
    set f | from <= f < |defs| :: ChildName(defs[f])
  }

  /** A fresh structure hangs nothing below it. */
  lemma NewStructureLinked(uid: nat, d: Definition, id: Value, data: Value, state: Phase, parent: Option<nat>, root: Option<nat>, top: Option<nat>)
    ensures LinkedBelow(NewStructure(uid, d, id, data, state, parent, root), top)
  {
    var t := FreshTable(d);
    if t.Table? {
      assert forall j :: 0 <= j < |t.slots| ==> t.slots[j].container == FreshContainer;
    }
  }

  /**
   * `setLoadedData(entity, data)`: for every child definition in order, the
   * array under its navigation name becomes the live children of its
   * container (each a new structure holding the next id of the container,
   * loaded recursively) and leaves the data; then every detail's value moves
   * from the data to the detail table; the rest of the data becomes the
   * entity's data and the entity is read. The deleted children are kept.
   */
  function LoadInto(n: Node, data: Value, counter: nat): (r: Result<(Node, nat)>)
    ensures r.Err? ==> r.error == TypeError
    ensures r.Ok? ==> counter <= r.value.1
    ensures r.Ok? ==> var m := r.value.0;
                      && m.state == Read
                      && m.uid == n.uid && m.definition == n.definition && m.id == n.id
                      && m.parent == n.parent && m.root == n.root && m.base == n.base
                      && TableReloaded(n, m, WellFormed(n.definition))
    ensures r.Ok? ==> forall f :: 0 <= f < |Children(n.definition)| ==> ChildLoaded(n, r.value.0, ChildName(Children(n.definition)[f]))
    ensures r.Ok? && data.Obj? ==>
              r.value.0.data == Obj(data.fields - NamesFrom(Children(n.definition), 0) - NamesFrom(Details(n.definition), 0))
    ensures r.Ok? && IsNullish(data) ==> r.value.0.data == data
    ensures r.Ok? && Shaped(n) && WellFormed(n.definition) ==> LoadedFrom(r.value.0, data)
    decreases n.definition, 3
  {
    var children :- LoadChildren(n, data, 0, counter);
    var details :- LoadDetails(children.0, children.1, 0);
    var m := details.0.(data := details.1, state := Read);
    if Shaped(n) && WellFormed(n.definition) then
      ShapedLoadedFrom(n, m, data);
      Ok((m, children.2))
    else Ok((m, children.2))
  }

  /** A shaped structure whose containers were each loaded from their part of `data` is loaded from `data`. */
  lemma ShapedLoadedFrom(n: Node, m: Node, data: Value)
    requires Shaped(n) && WellFormed(n.definition)
    requires m.state == Read && m.definition == n.definition && TableReloaded(n, m, WellFormed(n.definition))
    requires data.Obj? ==> m.data == Obj(data.fields - NamesFrom(Children(n.definition), 0) - NamesFrom(Details(n.definition), 0))
    requires IsNullish(data) ==> m.data == data
    requires data.Obj? ==> forall f :: 0 <= f < |Children(n.definition)| ==>
               ContainerLoadedFrom(n, m, ChildName(Children(n.definition)[f]), data.fields)
    ensures LoadedFrom(m, data)
  {
    if data.Obj? && m.child.Table? {
      var slots := m.child.slots;
      forall j | 0 <= j < |slots|
        ensures && Iterated(Field(data.fields, slots[j].name)).Ok?
                && ListLoadedFrom(slots[j].container.entities, Iterated(Field(data.fields, slots[j].name)).value)
      {
        assert ContainerLoadedFrom(n, m, ChildName(Children(n.definition)[j]), data.fields);
        FirstSlotOfDistinct(n.child.slots, j);
      }
    }
  }

  /** The child table has one container per child definition, in order, and only then. */
  predicate Shaped(n: Node) {
    && (n.child.Table? <==> n.definition.children.Listed?)
    && (n.child.Table? ==>
          && |n.child.slots| == |ChildNames(n.definition)|
          && forall j :: 0 <= j < |n.child.slots| ==> n.child.slots[j].name == ChildNames(n.definition)[j])
  }

  /** A new structure is shaped after its definition. */
  lemma NewStructureShaped(uid: nat, d: Definition, id: Value, data: Value, state: Phase, parent: Option<nat>, root: Option<nat>)
    ensures Shaped(NewStructure(uid, d, id, data, state, parent, root))
  {
  }

  /** With distinct names, the container found under the `j`-th name is the `j`-th one. */
  lemma {:induction false} FirstSlotOfDistinct(slots: seq<Slot>, j: nat)
    requires j < |slots| && forall a, b :: 0 <= a < b < |slots| ==> slots[a].name != slots[b].name
    ensures FirstSlot(slots, slots[j].name) == j
  {
    if j > 0 {
      assert slots[0].name != slots[j].name;
      FirstSlotOfDistinct(slots[1..], j - 1);
    }
  }

  /**
   * Loading a shaped structure of a well-formed definition leaves every live
   * structure of its tree read.
   */
  lemma LoadedSettled(n: Node, data: Value, counter: nat)
    requires Shaped(n) && WellFormed(n.definition) && LoadInto(n, data, counter).Ok?
    ensures Settled(LoadInto(n, data, counter).value.0)
  {
    var m := LoadInto(n, data, counter).value.0;
    if n.child.Table? {
      var slots := n.child.slots;
      forall j | 0 <= j < |m.child.slots|
        ensures ListSettled(m.child.slots[j].container.entities)
      {
        assert ChildLoaded(n, m, ChildName(Children(n.definition)[j]));
        FirstSlotOfDistinct(slots, j);
      }
    }
  }

  /** Loaded children hold ids the container has handed out, apart from the deleted ones. */
  lemma ReloadedNumbered(c0: Container, c: Container, owner: nat, top: Option<nat>, settled: bool)
    requires Numbered(c0) && Reloaded(c0, c, owner, top, settled)
    ensures Numbered(c)
  {
  }

  /** Loading keeps a structure's ids and links sound. */
  lemma LoadedKeeps(n: Node, data: Value, counter: nat)
    requires LoadInto(n, data, counter).Ok?
    ensures TableNumbered(n) ==> TableNumbered(LoadInto(n, data, counter).value.0)
    ensures Linked(n) ==> Linked(LoadInto(n, data, counter).value.0)
  {
    var m := LoadInto(n, data, counter).value.0;
    var s := WellFormed(n.definition);
    if TableNumbered(n) && n.child.Table? {
      forall i | 0 <= i < |m.child.slots|
        ensures Numbered(m.child.slots[i].container)
      {
        if m.child.slots[i].container != n.child.slots[i].container {
          ReloadedNumbered(At(n, i), At(m, i), n.uid, n.root, s);
        }
      }
    }
    if Linked(n) {
      ReloadedLinked(n, m, s);
    }
  }

  /** Reloading containers keeps a tree linked. */
  lemma ReloadedLinked(n: Node, m: Node, settled: bool)
    requires LinkedBelow(n, n.root) && TableReloaded(n, m, settled) && m.uid == n.uid && m.root == n.root
    ensures LinkedBelow(m, m.root)
  {
  }

  /** A new structure whose containers were all reloaded with read children is settled once read. */
  lemma ReloadedFreshSettled(n: Node, m: Node)
    requires n.child == FreshTable(n.definition) && TableReloaded(n, m, true) && m.state == Read
    ensures Settled(m)
  {
  }

  /** The child definitions from position `from` on. */
  function LoadChildren(n: Node, data: Value, from: nat, counter: nat): (r: Result<(Node, Value, nat)>)
    ensures r.Err? ==> r.error == TypeError
    ensures r.Ok? ==> counter <= r.value.2
    ensures r.Ok? ==> r.value.0.(child := n.child) == n && TableReloaded(n, r.value.0, WellFormed(n.definition))
    ensures r.Ok? ==> forall f :: from <= f < |Children(n.definition)| ==> ChildLoaded(n, r.value.0, ChildName(Children(n.definition)[f]))
    ensures r.Ok? && data.Obj? ==> r.value.1 == Obj(data.fields - NamesFrom(Children(n.definition), from))
    ensures r.Ok? && IsNullish(data) ==> r.value.1 == data
    ensures r.Ok? && n.child.Table? ==>
              forall j :: 0 <= j < |n.child.slots| && n.child.slots[j].name !in NamesFrom(Children(n.definition), from) ==>
                r.value.0.child.slots[j] == n.child.slots[j]
    ensures r.Ok? && data.Obj? && WellFormed(n.definition) ==>
              forall f :: from <= f < |Children(n.definition)| ==>
                ContainerLoadedFrom(n, r.value.0, ChildName(Children(n.definition)[f]), data.fields)
    decreases n.definition, 2, |Children(n.definition)| - from + 1
  {
    if from >= |Children(n.definition)| then Ok((n, data, counter))
    else
      var step :- LoadChild(n, data, from, counter);
      var r := LoadChildren(step.0, step.1, from + 1, step.2);
      if r.Ok? then
        LoadChildrenStep(n, step.0, r.value.0, from);
        NamesFromStep(data, Children(n.definition), from);
        LoadChildrenKeeps(n, step.0, r.value.0, from);
        if data.Obj? && WellFormed(n.definition) then
          LoadChildrenDataStep(n, data, step.0, step.1, r.value.0, from);
          r
        else r
      else r
  }

  /** Slots not named by the child definitions from `from` on are left alone. */
  lemma LoadChildrenKeeps(n: Node, m: Node, r: Node, from: nat)
    requires from < |Children(n.definition)| && n.child.Table?
    requires SlotOf(n, ChildName(Children(n.definition)[from])).Ok?
    requires m.child.Table? && |m.child.slots| == |n.child.slots|
    requires m == WithContainer(n, SlotOf(n, ChildName(Children(n.definition)[from])).value,
                                At(m, SlotOf(n, ChildName(Children(n.definition)[from])).value))
    requires r.child.Table? && |r.child.slots| == |m.child.slots|
    requires forall j :: 0 <= j < |m.child.slots| && m.child.slots[j].name !in NamesFrom(Children(m.definition), from + 1) ==>
               r.child.slots[j] == m.child.slots[j]
    ensures forall j :: 0 <= j < |n.child.slots| && n.child.slots[j].name !in NamesFrom(Children(n.definition), from) ==>
              r.child.slots[j] == n.child.slots[j]
  {
    var name := ChildName(Children(n.definition)[from]);
    assert name in NamesFrom(Children(n.definition), from);
  }

  /**
   * A step of `LoadChildren` followed by the remaining steps, for the data:
   * the container the step loaded is not touched again, and the later
   * containers read the same elements from the object less the step's name.
   */
  lemma LoadChildrenDataStep(n: Node, data: Value, m: Node, rest: Value, r: Node, from: nat)
    requires from < |Children(n.definition)| && data.Obj? && WellFormed(n.definition)
    requires ContainerLoadedFrom(n, m, ChildName(Children(n.definition)[from]), data.fields)
    requires m == WithContainer(n, SlotOf(n, ChildName(Children(n.definition)[from])).value,
                                At(m, SlotOf(n, ChildName(Children(n.definition)[from])).value))
    requires rest == Obj(data.fields - {ChildName(Children(n.definition)[from])})
    requires r.child.Table? && |r.child.slots| == |m.child.slots|
    requires forall j :: 0 <= j < |m.child.slots| && m.child.slots[j].name !in NamesFrom(Children(m.definition), from + 1) ==>
               r.child.slots[j] == m.child.slots[j]
    requires forall f :: from + 1 <= f < |Children(m.definition)| ==>
               ContainerLoadedFrom(m, r, ChildName(Children(m.definition)[f]), rest.fields)
    ensures forall f :: from <= f < |Children(n.definition)| ==>
              ContainerLoadedFrom(n, r, ChildName(Children(n.definition)[f]), data.fields)
  {
    var names := ChildNames(n.definition);
    var name := names[from];
    var i := SlotOf(n, name).value;
    forall f | from <= f < |Children(n.definition)|
      ensures ContainerLoadedFrom(n, r, ChildName(Children(n.definition)[f]), data.fields)
    {
      if f == from {
        assert name !in NamesFrom(Children(n.definition), from + 1) by {
          forall g | from + 1 <= g < |Children(n.definition)| ensures ChildName(Children(n.definition)[g]) != name {
            assert names[from] != names[g];
          }
        }
        assert r.child.slots[i] == m.child.slots[i];
      } else {
        var other := names[f];
        assert other != name by {
          assert names[from] != names[f];
        }
        assert Field(rest.fields, other) == Field(data.fields, other);
        assert ContainerLoadedFrom(m, r, other, rest.fields);
        FirstSlotOfSameNames(n.child.slots, m.child.slots, other);
      }
    }
  }

  /** The container under `name` was reloaded below `n`. */
  predicate ChildLoaded(n: Node, r: Node, name: string) {
    && SlotOf(n, name).Ok?
    && r.child.Table? && |r.child.slots| == |n.child.slots|
    && Reloaded(At(n, SlotOf(n, name).value), At(r, SlotOf(n, name).value), n.uid, n.root, WellFormed(n.definition))
  }

  /** Taking out the name at `from`, then the later ones, takes out all from `from` on. */
  lemma NamesFromStep(data: Value, defs: seq<Definition>, from: nat)
    requires from < |defs|
    ensures data.Obj? ==> data.fields - {ChildName(defs[from])} - NamesFrom(defs, from + 1) == data.fields - NamesFrom(defs, from)
  {
    assert NamesFrom(defs, from) == {ChildName(defs[from])} + NamesFrom(defs, from + 1);
  }

  /** One child definition: its array becomes the live children of its container. */
  function LoadChild(n: Node, data: Value, from: nat, counter: nat): (r: Result<(Node, Value, nat)>)
    requires from < |Children(n.definition)|
    ensures r.Err? ==> r.error == TypeError
    ensures r.Ok? ==> counter <= r.value.2
    ensures r.Ok? ==> var name := ChildName(Children(n.definition)[from]);
                      && ChildLoaded(n, r.value.0, name)
                      && r.value.0 == WithContainer(n, SlotOf(n, name).value, At(r.value.0, SlotOf(n, name).value))
    ensures r.Ok? && data.Obj? ==> r.value.1 == Obj(data.fields - {ChildName(Children(n.definition)[from])})
    ensures r.Ok? && data.Obj? && WellFormed(n.definition) ==>
              ContainerLoadedFrom(n, r.value.0, ChildName(Children(n.definition)[from]), data.fields)
    decreases n.definition, 2, 0
  {
    var nav := ChildName(Children(n.definition)[from]);
    var childData :- Get(data, nav);
    var rest :- Delete(data, nav);
    var i :- SlotOf(n, nav);
    var def :- FindChildDefinition(n.definition, nav);
    var items :- Iterated(childData);
    var c0 := At(n, i);
    var loaded :- LoadItems(n, def, items, c0.nextId, counter);
    var c := Container(c0.nextId + |items|, loaded.0, c0.deletedEntities);
    ItemsReloaded(n, def, c0, c);
    if WellFormed(n.definition) then
      ChildOfWellFormed(n.definition, def);
      Ok((WithContainer(n, i, c), rest, loaded.1))
    else Ok((WithContainer(n, i, c), rest, loaded.1))
  }

  /** The loaded items make a reloaded container. */
  lemma ItemsReloaded(n: Node, def: Definition, c0: Container, c: Container)
    requires def in Children(n.definition)
    requires c.deletedEntities == c0.deletedEntities && c.nextId == c0.nextId + |c.entities|
    requires forall k :: 0 <= k < |c.entities| ==> c.entities[k].id == Num(c0.nextId + k)
    requires ListLinked(c.entities, n.uid, n.root)
    requires WellFormed(def) ==> ListSettled(c.entities)
    ensures Reloaded(c0, c, n.uid, n.root, WellFormed(n.definition))
  {
    if WellFormed(n.definition) {
      ChildOfWellFormed(n.definition, def);
    }
  }

  lemma ChildOfWellFormed(d: Definition, c: Definition)
    requires WellFormed(d) && c in Children(d)
    ensures WellFormed(c)
  {
    var i :| 0 <= i < |Children(d)| && Children(d)[i] == c;
  }

  /** Reloading twice is reloading. */
  lemma ReloadedTwice(c0: Container, c1: Container, c2: Container, owner: nat, top: Option<nat>, settled: bool)
    requires Reloaded(c0, c1, owner, top, settled) && Reloaded(c1, c2, owner, top, settled)
    ensures Reloaded(c0, c2, owner, top, settled)
  {
  }

  /** A step of `LoadChildren` followed by the remaining steps. */
  lemma LoadChildrenStep(n: Node, m: Node, r: Node, from: nat)
    requires from < |Children(n.definition)|
    requires ChildLoaded(n, m, ChildName(Children(n.definition)[from]))
    requires m == WithContainer(n, SlotOf(n, ChildName(Children(n.definition)[from])).value,
                                At(m, SlotOf(n, ChildName(Children(n.definition)[from])).value))
    requires r.(child := m.child) == m && TableReloaded(m, r, WellFormed(m.definition))
    requires forall f :: from + 1 <= f < |Children(m.definition)| ==> ChildLoaded(m, r, ChildName(Children(m.definition)[f]))
    ensures r.(child := n.child) == n && TableReloaded(n, r, WellFormed(n.definition))
    ensures forall f :: from <= f < |Children(n.definition)| ==> ChildLoaded(n, r, ChildName(Children(n.definition)[f]))
  {
    var name := ChildName(Children(n.definition)[from]);
    var i := SlotOf(n, name).value;
    var s := WellFormed(n.definition);
    forall j | 0 <= j < |n.child.slots|
      ensures || r.child.slots[j].container == n.child.slots[j].container
              || Reloaded(n.child.slots[j].container, r.child.slots[j].container, n.uid, n.root, s)
    {
      if j == i && r.child.slots[j].container != n.child.slots[j].container
         && r.child.slots[j].container != m.child.slots[j].container {
        ReloadedTwice(At(n, i), At(m, i), At(r, i), n.uid, n.root, s);
      }
    }
    forall f | from <= f < |Children(n.definition)|
      ensures ChildLoaded(n, r, ChildName(Children(n.definition)[f]))
    {
      var other := ChildName(Children(n.definition)[f]);
      if f == from || SlotOf(n, other).value == i {
        if At(r, i) != At(m, i) {
          ReloadedTwice(At(n, i), At(m, i), At(r, i), n.uid, n.root, s);
        }
      } else {
        assert ChildLoaded(m, r, other);
        FirstSlotOfSameNames(n.child.slots, m.child.slots, other);
      }
    }
  }

  /**
   * The elements of a child array, in order: each a new child in state
   * `create` holding the next id, below `owner` and its root, then loaded
   * with the element.
   */
  function LoadItems(owner: Node, def: Definition, items: seq<Value>, next: nat, counter: nat): (r: Result<(seq<Node>, nat)>)
    requires def in Children(owner.definition)
    ensures r.Err? ==> r.error == TypeError
    ensures r.Ok? ==> counter <= r.value.1 && |r.value.0| == |items|
    ensures r.Ok? ==> forall k :: 0 <= k < |items| ==> r.value.0[k].id == Num(next + k)
    ensures r.Ok? ==> ListLinked(r.value.0, owner.uid, owner.root)
    ensures r.Ok? && WellFormed(def) ==> ListSettled(r.value.0)
    ensures r.Ok? && WellFormed(def) ==> ListLoadedFrom(r.value.0, items)
    decreases owner.definition, 1, |items|
  {
    if items == [] then Ok(([], counter))
    else
      var child := NewStructure(counter, def, Num(next), Obj(map[]), Create, Some(owner.uid), owner.root);
      var head :- LoadInto(child, items[0], counter + 1);
      var rest :- LoadItems(owner, def, items[1..], next + 1, head.1);
      NewStructureLinked(counter, def, Num(next), Obj(map[]), Create, Some(owner.uid), owner.root, owner.root);
      ReloadedLinked(child, head.0, WellFormed(def));
      if WellFormed(def) then
        ReloadedFreshSettled(child, head.0);
        NewStructureShaped(counter, def, Num(next), Obj(map[]), Create, Some(owner.uid), owner.root);
        assert ([head.0] + rest.0)[1..] == rest.0;
        Ok(([head.0] + rest.0, rest.1))
      else Ok(([head.0] + rest.0, rest.1))
  }

  /** The detail definitions from position `from` on. */
  function LoadDetails(n: Node, data: Value, from: nat): (r: Result<(Node, Value)>)
    ensures r.Err? ==> r.error == TypeError
    ensures r.Ok? ==> r.value.0.(detail := n.detail) == n
    ensures r.Ok? && data.Obj? ==> r.value.1 == Obj(data.fields - NamesFrom(Details(n.definition), from))
    ensures r.Ok? && IsNullish(data) ==> r.value.1 == data
    decreases |Details(n.definition)| - from
  {
    if from >= |Details(n.definition)| then Ok((n, data))
    else if n.detail.None? then Err(TypeError)
    else
      var nav := ChildName(Details(n.definition)[from]);
      var x :- Get(data, nav);
      var rest :- Delete(data, nav);
      LoadDetails(n.(detail := Some(n.detail.value[nav := x])), rest, from + 1)
  }

  /**
   * With distinct detail names, loading the details copies the value of
   * every detail name from the data into the detail table and leaves the
   * other entries of the table alone.
   */
  lemma {:induction false} LoadedDetails(n: Node, data: Value, from: nat)
    requires data.Obj? && n.detail.Some?
    requires forall a, b :: 0 <= a < b < |Details(n.definition)| ==> ChildName(Details(n.definition)[a]) != ChildName(Details(n.definition)[b])
    requires LoadDetails(n, data, from).Ok?
    ensures var t := LoadDetails(n, data, from).value.0.detail;
            && t.Some?
            && (forall f :: from <= f < |Details(n.definition)| ==>
                  var k := ChildName(Details(n.definition)[f]); k in t.value && t.value[k] == Field(data.fields, k))
            && (forall k :: k in n.detail.value && k !in NamesFrom(Details(n.definition), from) ==>
                  k in t.value && t.value[k] == n.detail.value[k])
    decreases |Details(n.definition)| - from
  {
    var ds := Details(n.definition);
    if from < |ds| {
      var nav := ChildName(ds[from]);
      var n' := n.(detail := Some(n.detail.value[nav := Field(data.fields, nav)]));
      var rest := Obj(data.fields - {nav});
      LoadedDetails(n', rest, from + 1);
      var t := LoadDetails(n, data, from).value.0.detail;
      assert nav !in NamesFrom(ds, from + 1);
      forall f | from < f < |ds|
        ensures t.value[ChildName(ds[f])] == Field(data.fields, ChildName(ds[f]))
      {
        assert ChildName(ds[f]) != nav;
      }
      forall k | k in n.detail.value && k !in NamesFrom(ds, from)
        ensures k in t.value && t.value[k] == n.detail.value[k]
      {
        assert k != nav && k !in NamesFrom(ds, from + 1);
      }
    }
  }
}
