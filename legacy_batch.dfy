/**
 * Applying the answers of a batch save in the first-generation entity
 * composable (`composable/entity.js`): the request ids that `getSaveRequests`
 * builds are parsed back, `traverseBatchRequestPath` follows their path down
 * the structure, and `assignDownloadedBatchDataToEntity` writes each answer.
 */
module LegacyBatch {
  import opened JsValues
  import opened LegacyEntity
  import LegacySave
  import Save

  // ---------------------------------------------------------------------------
  // Places in the structure

  /** One step down: the container at place `slot`, its deleted list when `deleted`, and a position in that list. */
  datatype Step = Step(slot: nat, deleted: bool, index: nat)

  /** What a traversal reaches: the entity, and the steps that lead to it from the root. */
  datatype Found = Found(entity: Node, route: seq<Step>)

  /** `entities` or `deletedEntities` of a container. */
  function ListOf(c: Container, deleted: bool): seq<Node> {
    if deleted then c.deletedEntities else c.entities
  }

  /** The container with one of its two lists replaced. */
  function WithList(c: Container, deleted: bool, l: seq<Node>): (r: Container)
    ensures ListOf(r, deleted) == l && ListOf(r, !deleted) == ListOf(c, !deleted) && r.nextId == c.nextId
  {
    if deleted then c.(deletedEntities := l) else c.(entities := l)
  }

  /** Whether a step can be taken from `n`. */
  predicate Leads(n: Node, s: Step) {
    n.child.Table? && s.slot < |n.child.slots| && s.index < |ListOf(At(n, s.slot), s.deleted)|
  }

  /** The entity one step below `n`. */
  function Down(n: Node, s: Step): Node
    requires Leads(n, s)
  {
    ListOf(At(n, s.slot), s.deleted)[s.index]
  }

  /** The entity a route leads to from `n`, if every step can be taken. */
  function NodeAt(n: Node, route: seq<Step>): (r: Option<Node>)
    ensures route == [] ==> r == Some(n)
    decreases |route|
  {
    if route == [] then Some(n)
    else if Leads(n, route[0]) then NodeAt(Down(n, route[0]), route[1..])
    else None
  }

  /** A route extended by one step leads one step further down. */
  lemma {:induction false} NodeAtExtended(n: Node, route: seq<Step>, s: Step)
    requires NodeAt(n, route).Some? && Leads(NodeAt(n, route).value, s)
    ensures NodeAt(n, route + [s]) == Some(Down(NodeAt(n, route).value, s))
    decreases |route|
  {
    if route != [] {
      assert (route + [s])[1..] == route[1..] + [s];
      NodeAtExtended(Down(n, route[0]), route[1..], s);
    }
  }

  /** The structure with the entity the route leads to replaced by `m`. */
  function ReplaceAt(n: Node, route: seq<Step>, m: Node): (r: Node)
    requires NodeAt(n, route).Some?
    ensures NodeAt(r, route) == Some(m)
    ensures route != [] ==> r == n.(child := r.child)
    decreases |route|
  {
    if route == [] then m
    else
      var s := route[0];
      var c := At(n, s.slot);
      var l := ListOf(c, s.deleted);
      var r := WithContainer(n, s.slot, WithList(c, s.deleted, l[s.index := ReplaceAt(l[s.index], route[1..], m)]));
      assert Down(r, s) == ReplaceAt(l[s.index], route[1..], m);
      r
  }

  /** Putting back the entity a route leads to changes nothing. */
  lemma {:induction false} ReplaceAtSame(n: Node, route: seq<Step>)
    requires NodeAt(n, route).Some?
    ensures ReplaceAt(n, route, NodeAt(n, route).value) == n
    decreases |route|
  {
    if route != [] {
      var s := route[0];
      ReplaceAtSame(Down(n, s), route[1..]);
      var c := At(n, s.slot);
      var l := ListOf(c, s.deleted);
      assert l[s.index := l[s.index]] == l;
      assert WithList(c, s.deleted, l) == c;
      assert n.child.slots[s.slot := Slot(n.child.slots[s.slot].name, c)] == n.child.slots;
    }
  }

  /** `n` with the entity at step `s` taken out of its list, the others kept in order. */
  function Pruned(n: Node, s: Step): (r: Node)
    requires Leads(n, s)
    ensures r == n.(child := r.child) && r.child.Table? && |r.child.slots| == |n.child.slots|
    ensures ListOf(At(r, s.slot), s.deleted) == Without(ListOf(At(n, s.slot), s.deleted), s.index)
    ensures ListOf(At(r, s.slot), !s.deleted) == ListOf(At(n, s.slot), !s.deleted)
    ensures forall j :: 0 <= j < |n.child.slots| && j != s.slot ==> r.child.slots[j] == n.child.slots[j]
  {
    var c := At(n, s.slot);
    WithContainer(n, s.slot, WithList(c, s.deleted, Without(ListOf(c, s.deleted), s.index)))
  }

  /** The structure with the entity a non-empty route leads to taken out of its list. */
  function RemoveAt(n: Node, route: seq<Step>): (r: Node)
    requires route != [] && NodeAt(n, route).Some?
    ensures var up := route[..|route| - 1];
            NodeAt(n, up).Some? && Leads(NodeAt(n, up).value, route[|route| - 1]) &&
            NodeAt(r, up) == Some(Pruned(NodeAt(n, up).value, route[|route| - 1]))
    decreases |route|
  {
    var s := route[0];
    if |route| == 1 then Pruned(n, s)
    else
      var c := At(n, s.slot);
      var l := ListOf(c, s.deleted);
      var below := RemoveAt(l[s.index], route[1..]);
      var r := WithContainer(n, s.slot, WithList(c, s.deleted, l[s.index := below]));
      var up := route[..|route| - 1];
      assert up[0] == s && up[1..] == route[1..][..|route[1..]| - 1];
      assert Leads(r, s) && Down(r, s) == below;
      assert NodeAt(r, up) == NodeAt(below, up[1..]);
      assert NodeAt(n, up) == NodeAt(l[s.index], up[1..]);
      r
  }

  // ---------------------------------------------------------------------------
  // The patterns of the path

  /** `\w`: an ASCII letter, digit or underscore. */
  predicate IsWordChar(c: char) {
    ('A' <= c <= 'Z') || ('a' <= c <= 'z') || ('0' <= c <= '9') || c == '_'
  }

  /** A non-empty run of word characters. */
  predicate IsWord(s: string) {
    |s| > 0 && forall i :: 0 <= i < |s| ==> IsWordChar(s[i])
  }

  /** The length of the longest run of word characters starting at `from`. */
  function WordRun(s: string, from: nat): (w: nat)
    requires from <= |s|
    ensures from + w <= |s|
    ensures forall i :: from <= i < from + w ==> IsWordChar(s[i])
    ensures from + w < |s| ==> !IsWordChar(s[from + w])
    decreases |s| - from
  {
    if from < |s| && IsWordChar(s[from]) then 1 + WordRun(s, from + 1) else 0
  }

  /** The length of the longest run of decimal digits starting at `from`. */
  function DigitRun(s: string, from: nat): (w: nat)
    requires from <= |s|
    ensures from + w <= |s|
    ensures forall i :: from <= i < from + w ==> IsDigit(s[i])
    ensures from + w < |s| ==> !IsDigit(s[from + w])
    decreases |s| - from
  {
    if from < |s| && IsDigit(s[from]) then 1 + DigitRun(s, from + 1) else 0
  }

  /** A run followed by a character outside it is the longest run. */
  lemma WordRunOf(s: string, from: nat, word: string)
    requires from + |word| < |s| && s[from..from + |word|] == word
    requires forall i :: 0 <= i < |word| ==> IsWordChar(word[i])
    requires !IsWordChar(s[from + |word|])
    ensures WordRun(s, from) == |word|
  {
    assert forall j :: 0 <= j < |word| ==> s[from + j] == word[j];
  }

  lemma DigitRunOf(s: string, from: nat, digits: string)
    requires from + |digits| < |s| && s[from..from + |digits|] == digits
    requires forall i :: 0 <= i < |digits| ==> IsDigit(digits[i])
    requires !IsDigit(s[from + |digits|])
    ensures DigitRun(s, from) == |digits|
  {
    assert forall j :: 0 <= j < |digits| ==> s[from + j] == digits[j];
  }

  /** The text of a container step, `e-name` or `d-name`. */
  function StepText(deleted: bool, name: string): string {
    (if deleted then "d-" else "e-") + name
  }

  /**
   * `/^(e|d)-(\w+)\//`: whether the step goes into the deleted list, the
   * container name, and the length of the match.
   */
  function ContainerStep(s: string): (r: Option<(bool, string, nat)>)
    ensures r.Some? ==> IsWord(r.value.1) && r.value.2 == |r.value.1| + 3 <= |s|
    ensures r.Some? ==> s[..r.value.2] == StepText(r.value.0, r.value.1) + "/"
  {
    if 2 <= |s| && (s[0] == 'e' || s[0] == 'd') && s[1] == '-' then
      var w := WordRun(s, 2);
      if 0 < w && 2 + w < |s| && s[2 + w] == '/' then
        var name := s[2..2 + w];
        assert s[..3 + w] == [s[0], '-'] + name + "/";
        Some((s[0] == 'd', name, 3 + w))
      else None
    else None
  }

  /** A step written out as `e-name/` or `d-name/` is read back as it was written. */
  lemma ContainerStepOf(deleted: bool, name: string, rest: string)
    requires IsWord(name)
    ensures ContainerStep(StepText(deleted, name) + "/" + rest) == Some((deleted, name, |name| + 3))
  {
    var s := StepText(deleted, name) + "/" + rest;
    assert s[2..2 + |name|] == name;
    WordRunOf(s, 2, name);
  }

  /** `/^\w+\((\d+)\)/`: the digits between the parentheses that follow a word. */
  function KeyDigits(s: string): (r: Option<string>)
    ensures r.Some? ==> |r.value| > 0 && forall i :: 0 <= i < |r.value| ==> IsDigit(r.value[i])
  {
    var w := WordRun(s, 0);
    if 0 < w && w < |s| && s[w] == '(' then
      var d := DigitRun(s, w + 1);
      if 0 < d && w + 1 + d < |s| && s[w + 1 + d] == ')' then Some(s[w + 1..w + 1 + d]) else None
    else None
  }

  /** The key of an entity whose name is a word and whose id is a natural number yields that number's digits. */
  lemma KeyDigitsOf(name: string, id: nat, rest: string)
    requires IsWord(name)
    ensures KeyDigits(name + "(" + NatToString(id) + ")" + rest) == Some(NatToString(id))
  {
    var digits := NatToString(id);
    var s := name + "(" + digits + ")" + rest;
    assert s[0..|name|] == name;
    WordRunOf(s, 0, name);
    assert s[|name| + 1..|name| + 1 + |digits|] == digits;
    DigitRunOf(s, |name| + 1, digits);
  }

  /** `container.find(child => String(child.id) === text)`, with the length of the list standing for not found. */
  function FindByText(nodes: seq<Node>, text: string): (k: nat)
    ensures k <= |nodes|
    ensures k < |nodes| ==> ToStr(nodes[k].id) == text
    ensures forall j :: 0 <= j < k ==> ToStr(nodes[j].id) != text
  {
    if nodes == [] then 0
    else if ToStr(nodes[0].id) == text then 0
    else 1 + FindByText(nodes[1..], text)
  }

  /** Distinct natural numbers are written differently. */
  lemma NatToStringInjective(a: nat, b: nat)
    requires NatToString(a) == NatToString(b)
    ensures a == b
  {
    DigitsValueOfNatToString(a);
    DigitsValueOfNatToString(b);
  }

  /** In a list of distinct issued ids, looking a child up by the text of its id finds that child. */
  lemma FindByTextOfId(nodes: seq<Node>, next: nat, k: nat)
    requires AllIssued(nodes, next) && DistinctIds(nodes) && k < |nodes|
    ensures FindByText(nodes, ToStr(nodes[k].id)) == k
  {
    var j := FindByText(nodes, ToStr(nodes[k].id));
    if j < k {
      NatToStringInjective(nodes[j].id.n, nodes[k].id.n);
    }
  }

  // ---------------------------------------------------------------------------
  // traverseBatchRequestPath

  /**
   * `traverseBatchRequestPath`, from the entity `e` with `current` left to
   * read: the rest is the entity's own key, or starts with that key and a
   * slash, or with a container step followed by the key of a child, which is
   * looked up by the text of its id. An empty rest and a rest that fits none
   * of these are invalid paths; a missing container or a child key without
   * digits is a TypeError, and so is a child that is not found, at the next
   * round, which reads the definition of undefined.
   */
  function Walk(e: Option<Node>, current: string, route: seq<Step>): (r: Result<Found>)
    ensures r.Err? ==> r.error == TypeError || r.error == InvalidPath
    decreases |current|
  {
    if current == "" then Err(InvalidPath)
    else if e.None? then Err(TypeError)
    else
      var n := e.value;
      var key := LegacySave.EntityKey(n);
      if current == key then Ok(Found(n, route))
      else if StartsWith(current, key + "/") then Walk(e, current[|key| + 1..], route)
      else
        match ContainerStep(current)
        case None => Err(InvalidPath)
        case Some(step) =>
          var next :- Descend(n, current, step);
          Walk(next.0, next.1, route + [next.2])
  }

  /**
   * One container step from `n`: the container named in the step (a
   * TypeError when there is none), the rest of the path after the step, and
   * the child of that container whose id is written as the digits of the
   * key that follows (none when no child has that id; a TypeError when the
   * key has no digits).
   */
  function Descend(n: Node, current: string, step: (bool, string, nat)): (r: Result<(Option<Node>, string, Step)>)
    requires ContainerStep(current) == Some(step)
    ensures r.Err? ==> r.error == TypeError
    ensures r.Ok? ==> r.value.1 == current[step.2..] && |r.value.1| < |current|
    ensures r.Ok? ==> r.value.2.deleted == step.0 && n.child.Table? && r.value.2.slot < |n.child.slots|
                      && n.child.slots[r.value.2.slot].name == step.1
    ensures r.Ok? && r.value.0.Some? ==> Leads(n, r.value.2) && r.value.0.value == Down(n, r.value.2)
    ensures r.Ok? ==> KeyDigits(r.value.1).Some?
    ensures r.Ok? && r.value.0.Some? ==> ToStr(r.value.0.value.id) == KeyDigits(r.value.1).value
  {
    var i :- SlotOf(n, step.1);
    var list := ListOf(At(n, i), step.0);
    var after := current[step.2..];
    var digits :- if KeyDigits(after).Some? then Ok(KeyDigits(after).value) else Err(TypeError);
    var k := FindByText(list, digits);
    Ok((if k < |list| then Some(list[k]) else None, after, Step(i, step.0, k)))
  }

  /** The loop of `traverseBatchRequestPath`, proved to follow `Walk`. */
  method Traverse(root: Node, path: string) returns (r: Result<Found>)
    ensures r == Walk(Some(root), path, [])
  {
    var entity: Option<Node> := Some(root);
    var current := path;
    var route: seq<Step> := [];
    while current != ""
      invariant Walk(entity, current, route) == Walk(Some(root), path, [])
      decreases |current|
    {
      if entity.None? {
        return Err(TypeError);
      }
      var exit;
      exit, entity, current, route := Round(entity.value, current, route);
      if exit.Some? {
        return exit.value;
      }
    }
    return Err(InvalidPath);
  }

  /**
   * One round of the loop from the entity `n`: it ends the traversal with
   * the entity or an error, or moves on to a shorter rest of the path.
   */
  method Round(n: Node, current: string, route: seq<Step>)
    returns (exit: Option<Result<Found>>, entity: Option<Node>, rest: string, route': seq<Step>)
    requires current != ""
    ensures exit.Some? ==> exit.value == Walk(Some(n), current, route)
    ensures exit.None? ==> |rest| < |current| && Walk(entity, rest, route') == Walk(Some(n), current, route)
  {
    entity, rest, route' := Some(n), current, route;
    var key := LegacySave.EntityKey(n);
    if current == key {
      return Some(Ok(Found(n, route))), entity, rest, route';
    } else if StartsWith(current, key + "/") {
      WalkPast(n, current, route);
      rest := current[|key| + 1..];
      return None, entity, rest, route';
    }
    var step := ContainerStep(current);
    if step.None? {
      return Some(Err(InvalidPath)), entity, rest, route';
    }
    var next := Descend(n, current, step.value);
    if next.Err? {
      return Some(Err(next.error)), entity, rest, route';
    }
    WalkDescends(n, current, route);
    return None, next.value.0, next.value.1, route + [next.value.2];
  }

  /** Past the entity's own key and a slash, the walk goes on from the same entity. */
  lemma {:induction false} WalkPast(n: Node, current: string, route: seq<Step>)
    requires current != LegacySave.EntityKey(n) && StartsWith(current, LegacySave.EntityKey(n) + "/")
    ensures Walk(Some(n), current, route) == Walk(Some(n), current[|LegacySave.EntityKey(n)| + 1..], route)
  {
  }

  /** After a container step the walk goes on from the child found, with the step added to the route. */
  lemma {:induction false} WalkDescends(n: Node, current: string, route: seq<Step>)
    requires current != LegacySave.EntityKey(n) && !StartsWith(current, LegacySave.EntityKey(n) + "/")
    requires ContainerStep(current).Some? && Descend(n, current, ContainerStep(current).value).Ok?
    ensures var next := Descend(n, current, ContainerStep(current).value).value;
            Walk(Some(n), current, route) == Walk(next.0, next.1, route + [next.2])
  {
  }

  /** What a traversal finds is where its route leads. */
  lemma {:induction false} WalkLeads(root: Node, e: Option<Node>, current: string, route: seq<Step>)
    requires e.Some? ==> NodeAt(root, route) == e
    ensures Walk(e, current, route).Ok? ==>
              NodeAt(root, Walk(e, current, route).value.route) == Some(Walk(e, current, route).value.entity)
    decreases |current|
  {
    if current != "" && e.Some? {
      var n := e.value;
      var key := LegacySave.EntityKey(n);
      if current == key {
      } else if StartsWith(current, key + "/") {
        WalkPast(n, current, route);
        WalkLeads(root, e, current[|key| + 1..], route);
      } else if ContainerStep(current).Some? {
        var next := Descend(n, current, ContainerStep(current).value);
        if next.Ok? {
          WalkDescends(n, current, route);
          if next.value.0.Some? {
            NodeAtExtended(root, route, next.value.2);
          }
          WalkLeads(root, next.value.0, next.value.1, route + [next.value.2]);
        }
      }
    }
  }

  /** A key with no slash and no line break in it. */
  predicate PlainKey(key: string) {
    forall i :: 0 <= i < |key| ==> key[i] != '/' && !IsLineBreak(key[i])
  }

  /**
   * The path a save request gives a child, `Root(1)/e-Lines/Line(3)` (or
   * `d-Lines` for a deleted one), leads back to that child: the root's key is
   * plain, the container name and the child's entity name are words, and
   * the container's ids are numbered.
   */
  lemma {:induction false} WalkChild(root: Node, deleted: bool, name: string, i: nat, k: nat)
    requires PlainKey(LegacySave.EntityKey(root))
    requires IsWord(name) && SlotOf(root, name) == Ok(i)
    requires Numbered(At(root, i)) && k < |ListOf(At(root, i), deleted)|
    requires IsWord(ListOf(At(root, i), deleted)[k].definition.entityName)
    ensures var child := ListOf(At(root, i), deleted)[k];
            Walk(Some(root), ChildPath(root, deleted, name, child), []) == Ok(Found(child, [Step(i, deleted, k)]))
  {
    var child := ListOf(At(root, i), deleted)[k];
    var key := LegacySave.EntityKey(root);
    var rest := StepText(deleted, name) + "/" + LegacySave.EntityKey(child);
    calc {
      Walk(Some(root), ChildPath(root, deleted, name, child), []);
      Walk(Some(root), key + "/" + rest, []);
      { WalkPastKey(root, rest, []); }
      Walk(Some(root), rest, []);
      { WalkIntoChild(root, deleted, name, i, k, []);
        assert [] + [Step(i, deleted, k)] == [Step(i, deleted, k)]; }
      Ok(Found(child, [Step(i, deleted, k)]));
    }
  }

  /** A path that starts with the entity's own key and a slash goes on with what follows. */
  lemma {:induction false} WalkPastKey(n: Node, rest: string, route: seq<Step>)
    ensures Walk(Some(n), LegacySave.EntityKey(n) + "/" + rest, route) == Walk(Some(n), rest, route)
  {
    var key := LegacySave.EntityKey(n);
    var path := key + "/" + rest;
    assert path[..|key| + 1] == key + "/" && path[|key| + 1..] == rest;
  }

  /** A container step followed by a child's key moves to that child. */
  lemma {:induction false} WalkIntoChild(n: Node, deleted: bool, name: string, i: nat, k: nat, route: seq<Step>)
    requires PlainKey(LegacySave.EntityKey(n))
    requires IsWord(name) && SlotOf(n, name) == Ok(i)
    requires Numbered(At(n, i)) && k < |ListOf(At(n, i), deleted)|
    requires IsWord(ListOf(At(n, i), deleted)[k].definition.entityName)
    ensures var child := ListOf(At(n, i), deleted)[k];
            Walk(Some(n), StepText(deleted, name) + "/" + LegacySave.EntityKey(child), route)
            == Ok(Found(child, route + [Step(i, deleted, k)]))
  {
    var child := ListOf(At(n, i), deleted)[k];
    var step := StepText(deleted, name);
    var childKey := LegacySave.EntityKey(child);
    assert step[|step| - 1] == name[|name| - 1];
    KeyNotStep(LegacySave.EntityKey(n), step, childKey);
    ContainerStepOf(deleted, name, childKey);
    DescendToChild(n, deleted, name, i, k);
  }

  /** Descending by a container step and a child's key finds that child. */
  lemma {:induction false} DescendToChild(n: Node, deleted: bool, name: string, i: nat, k: nat)
    requires IsWord(name) && SlotOf(n, name) == Ok(i)
    requires Numbered(At(n, i)) && k < |ListOf(At(n, i), deleted)|
    requires IsWord(ListOf(At(n, i), deleted)[k].definition.entityName)
    ensures var child := ListOf(At(n, i), deleted)[k];
            var current := StepText(deleted, name) + "/" + LegacySave.EntityKey(child);
            ContainerStep(current) == Some((deleted, name, |name| + 3)) &&
            Descend(n, current, (deleted, name, |name| + 3)) == Ok((Some(child), LegacySave.EntityKey(child), Step(i, deleted, k)))
  {
    var list := ListOf(At(n, i), deleted);
    var child := list[k];
    var childKey := LegacySave.EntityKey(child);
    var current := StepText(deleted, name) + "/" + childKey;
    ContainerStepOf(deleted, name, childKey);
    assert current[|name| + 3..] == childKey;
    var id := child.id.n;
    assert ToStr(child.id) == NatToString(id);
    KeyDigitsOf(child.definition.entityName, id, "");
    assert childKey == child.definition.entityName + "(" + NatToString(id) + ")" + "";
    FindByTextOfId(list, At(n, i).nextId, k);
  }

  /**
   * A plain key ending in `)` is neither a container step with its rest nor
   * a prefix of one: the step has no slash before its own and does not end
   * in `)`.
   */
  lemma KeyNotStep(key: string, step: string, tail: string)
    requires PlainKey(key) && |key| > 0 && key[|key| - 1] == ')'
    requires |step| > 0 && step[|step| - 1] != ')' && forall j :: 0 <= j < |step| ==> step[j] != '/'
    ensures var t := step + "/" + tail; t != key && !StartsWith(t, key + "/")
  {
    var t := step + "/" + tail;
    var k := key + "/";
    assert t[|step|] == '/';
    if |key| < |t| {
      var p := t[..|key| + 1];
      if |key| < |step| {
        assert p[|key|] == step[|key|] && k[|key|] == '/';
      } else if |key| == |step| {
        assert p[|key| - 1] == step[|step| - 1] && k[|key| - 1] == ')';
      } else {
        assert p[|step|] == '/' && k[|step|] == key[|step|];
      }
    }
  }

  /** The traversal path of a child's own request: the root's key, the container step, the child's key. */
  function ChildPath(root: Node, deleted: bool, name: string, child: Node): string {
    LegacySave.EntityKey(root) + "/" + (StepText(deleted, name) + "/" + LegacySave.EntityKey(child))
  }

  // ---------------------------------------------------------------------------
  // Response ids

  /** What a batch answer reports. */
  datatype Action = Created | Updated | Deleted

  /** `\n`, `\r`, U+2028 and U+2029, which `.` does not match. */
  predicate IsLineBreak(c: char) {
    c == '\n' || c == '\r' || c == '\U{2028}' || c == '\U{2029}'
  }

  /** A text with no line break, which is what `.*` matches. */
  predicate SingleLine(s: string) {
    forall i :: 0 <= i < |s| ==> !IsLineBreak(s[i])
  }

  /** The action a suffix `-create`, `-update` or `-delete` names. */
  function ActionOf(suffix: string): (r: Option<Action>)
    ensures r.Some? ==> suffix == "-" + ActionText(r.value)
  {
    if suffix == "-create" then Some(Created)
    else if suffix == "-update" then Some(Updated)
    else if suffix == "-delete" then Some(Deleted)
    else None
  }

  /** The word each action is written with in a request id. */
  function ActionText(a: Action): string {
    match a
    case Created => "create"
    case Updated => "update"
    case Deleted => "delete"
  }

  /**
   * `id.match(/^saveEntity\/(.*)-(create|update|delete)$/)`: the path and
   * the action of an answer; an id that does not match throws a TypeError
   * when the missing match is destructured.
   */
  function ParseResponseId(id: string): (r: Result<(string, Action)>)
    ensures r.Err? ==> r.error == TypeError
    ensures r.Ok? ==> id == "saveEntity/" + r.value.0 + "-" + ActionText(r.value.1) && SingleLine(r.value.0)
  {
    if StartsWith(id, "saveEntity/") && 18 <= |id| && ActionOf(id[|id| - 7..]).Some? && SingleLine(id[11..|id| - 7])
    then
      var path := id[11..|id| - 7];
      var a := ActionOf(id[|id| - 7..]).value;
      assert id == id[..11] + path + id[|id| - 7..];
      Ok((path, a))
    else Err(TypeError)
  }

  /** An id written by a save request is read back into its path and its action. */
  lemma ParseResponseIdOf(path: string, a: Action)
    requires SingleLine(path)
    ensures ParseResponseId("saveEntity/" + path + "-" + ActionText(a)) == Ok((path, a))
  {
    var id := "saveEntity/" + path + "-" + ActionText(a);
    assert id[..11] == "saveEntity/";
    assert id[11..|id| - 7] == path;
    assert id[|id| - 7..] == "-" + ActionText(a);
    ActionOfText(a);
  }

  /** Each action's suffix is read back as that action. */
  lemma ActionOfText(a: Action)
    ensures ActionOf("-" + ActionText(a)) == Some(a)
  {
    assert "-update"[1] != "-create"[1];
    assert "-delete"[1] != "-create"[1] && "-delete"[1] != "-update"[1];
    assert "-" + ActionText(a) == match a case Created => "-create" case Updated => "-update" case Deleted => "-delete";
  }

  // ---------------------------------------------------------------------------
  // Writing the answers

  /**
   * One answer of `assignDownloadedBatchDataToEntity` as written. The
   * traversal answers `{ entity, container }` but the answer is read as
   * `{ target = entity, container }`, so the target is always the root. A
   * delete then looks the root up in the container last entered, which is
   * null (a TypeError) when the path names the root itself and otherwise
   * does not hold the root, and `splice(index, 0)` removes nothing anyway;
   * any other answer loads a truthy body into the root and marks the root
   * as read.
   */
  function AssignOneAsWritten(root: Node, response: Save.Response, counter: nat): (r: Result<(Node, nat)>)
    ensures r.Err? ==> r.error == TypeError || r.error == InvalidPath
    ensures r.Ok? ==> r.value.0.uid == root.uid && r.value.0.definition == root.definition && r.value.0.id == root.id
    ensures r.Ok? ==> r.value.0 == root || r.value.0.state == Read
  {
    var parsed :- ParseResponseId(response.id);
    var found :- Walk(Some(root), parsed.0, []);
    if parsed.1 == Deleted then
      if found.route == [] then Err(TypeError) else Ok((root, counter))
    else
      var loaded :- if Truthy(response.body) then LoadInto(root, response.body, counter) else Ok((root, counter));
      Ok((loaded.0.(state := Read), loaded.1))
  }

  /**
   * One answer as intended: the entity the path leads to is the target. A
   * deleted entity is taken out of the list that holds it (the path of the
   * root alone has no container: a TypeError); any other answer loads a
   * truthy body into the target and marks the target as read, in place.
   */
  function AssignOne(root: Node, response: Save.Response, counter: nat): (r: Result<(Node, nat)>)
    ensures r.Err? ==> r.error == TypeError || r.error == InvalidPath
    ensures r.Ok? ==> r.value.0.uid == root.uid && r.value.0.definition == root.definition && r.value.0.id == root.id
    ensures r.Ok? ==> counter <= r.value.1
    ensures r.Ok? ==> ParseResponseId(response.id).Ok? && Walk(Some(root), ParseResponseId(response.id).value.0, []).Ok?
  {
    var parsed :- ParseResponseId(response.id);
    var found :- Walk(Some(root), parsed.0, []);
    WalkLeads(root, Some(root), parsed.0, []);
    if parsed.1 == Deleted then
      if found.route == [] then Err(TypeError) else Ok((RemoveAt(root, found.route), counter))
    else
      var loaded :- if Truthy(response.body) then LoadInto(found.entity, response.body, counter) else Ok((found.entity, counter));
      Ok((ReplaceAt(root, found.route, loaded.0.(state := Read)), loaded.1))
  }

  /**
   * What an answer written as intended does: a deleted entity is gone from
   * the list of its parent, which keeps the rest in order; any other target
   * is still where its path leads, and is read.
   */
  lemma AssignOneReaches(root: Node, response: Save.Response, counter: nat)
    requires AssignOne(root, response, counter).Ok?
    ensures var parsed := ParseResponseId(response.id).value;
            var found := Walk(Some(root), parsed.0, []).value;
            var m := AssignOne(root, response, counter).value.0;
            if parsed.1 == Deleted then
              var up := found.route[..|found.route| - 1];
              var s := found.route[|found.route| - 1];
              found.route != [] && NodeAt(root, up).Some? && Leads(NodeAt(root, up).value, s) &&
              NodeAt(m, up) == Some(Pruned(NodeAt(root, up).value, s))
            else
              NodeAt(m, found.route).Some? && NodeAt(m, found.route).value.state == Read &&
              NodeAt(m, found.route).value.uid == found.entity.uid
  {
    var parsed := ParseResponseId(response.id).value;
    WalkLeads(root, Some(root), parsed.0, []);
  }

  /** One answer, with the path followed by the loop of `traverseBatchRequestPath`. */
  method Assign(root: Node, response: Save.Response, counter: nat) returns (r: Result<(Node, nat)>)
    ensures r == AssignOne(root, response, counter)
  {
    var parsed := ParseResponseId(response.id);
    if parsed.Err? {
      return Err(parsed.error);
    }
    var path, action := parsed.value.0, parsed.value.1;
    var found := Traverse(root, path);
    if found.Err? {
      return Err(found.error);
    }
    var route := found.value.route;
    WalkLeads(root, Some(root), path, []);
    if action == Deleted {
      if route == [] {
        return Err(TypeError);
      }
      return Ok((RemoveAt(root, route), counter));
    }
    var target, next := found.value.entity, counter;
    if Truthy(response.body) {
      var loaded := LoadInto(target, response.body, counter);
      if loaded.Err? {
        return Err(loaded.error);
      }
      target, next := loaded.value.0, loaded.value.1;
    }
    return Ok((ReplaceAt(root, route, target.(state := Read)), next));
  }

  /** What a batch of answers leaves: the structure, the next uid, and the error that stopped the loop, if any. */
  datatype Outcome = Outcome(root: Node, counter: nat, error: Option<Error>)

  /**
   * The answers written one after the other; the first that throws stops
   * the loop, and the answers before it stay written.
   */
  function AssignAll(root: Node, responses: seq<Save.Response>, counter: nat): (o: Outcome)
    ensures o.error.Some? ==> o.error.value == TypeError || o.error.value == InvalidPath
    ensures o.root.uid == root.uid && o.root.definition == root.definition && o.root.id == root.id
    ensures counter <= o.counter
    decreases |responses|
  {
    if responses == [] then Outcome(root, counter, None)
    else
      match AssignOne(root, responses[0], counter)
      case Err(e) => Outcome(root, counter, Some(e))
      case Ok(next) => AssignAll(next.0, responses[1..], next.1)
  }

  /** A batch split in two is written as the first part and then, unless it threw, the second. */
  lemma {:induction false} AssignAllAppend(root: Node, first: seq<Save.Response>, second: seq<Save.Response>, counter: nat)
    ensures var o := AssignAll(root, first, counter);
            AssignAll(root, first + second, counter) == if o.error.Some? then o else AssignAll(o.root, second, o.counter)
    decreases |first|
  {
    if first != [] {
      assert (first + second)[0] == first[0] && (first + second)[1..] == first[1..] + second;
      var r := AssignOne(root, first[0], counter);
      if r.Ok? {
        AssignAllAppend(r.value.0, first[1..], second, r.value.1);
      }
    } else {
      assert first + second == second;
    }
  }

  /** The loop of `assignDownloadedBatchDataToEntity`. */
  method AssignBatch(root: Node, responses: seq<Save.Response>, counter: nat) returns (o: Outcome)
    ensures o == AssignAll(root, responses, counter)
  {
    var entity, next := root, counter;
    for i := 0 to |responses|
      invariant AssignAll(entity, responses[i..], next) == AssignAll(root, responses, counter)
    {
      assert responses[i..][0] == responses[i] && responses[i..][1..] == responses[i + 1..];
      var r := Assign(entity, responses[i], next);
      if r.Err? {
        return Outcome(entity, next, Some(r.error));
      }
      entity, next := r.value.0, r.value.1;
    }
    assert responses[|responses|..] == [];
    return Outcome(entity, next, None);
  }

  // ---------------------------------------------------------------------------
  // The answers to a child's own requests

  /** The path of a child's request has no line break. */
  lemma ChildPathSingleLine(root: Node, deleted: bool, name: string, child: Node)
    requires PlainKey(LegacySave.EntityKey(root)) && IsWord(name) && IsWord(child.definition.entityName)
    requires child.id.Num? && child.id.n >= 0
    ensures SingleLine(ChildPath(root, deleted, name, child))
  {
    var digits := NatToString(child.id.n);
    assert ToStr(child.id) == digits;
    var key := LegacySave.EntityKey(child);
    assert key == child.definition.entityName + "(" + digits + ")";
    assert SingleLine(key) by {
      forall j | 0 <= j < |key| ensures !IsLineBreak(key[j]) {
        var e := |child.definition.entityName|;
        if j < e {
          assert key[j] == child.definition.entityName[j];
        } else if e < j < e + 1 + |digits| {
          assert key[j] == digits[j - e - 1];
        }
      }
    }
    var step := StepText(deleted, name);
    assert forall j :: 0 <= j < |step| ==> step[j] == '-' || step[j] == 'e' || step[j] == 'd' || IsWordChar(step[j]);
  }

  /** The id of a child's update request is its path and `-update`. */
  lemma UpdateIdIsChildPath(root: Node, name: string, child: Node)
    ensures LegacySave.OwnId(child, Some(LegacySave.EntityKey(root) + "/" + ("e-" + name)), "update")
            == "saveEntity/" + ChildPath(root, false, name, child) + "-" + ActionText(Updated)
  {
  }

  /** The id of a child's delete request is its path and `-delete`. */
  lemma DeleteIdIsChildPath(root: Node, name: string, child: Node)
    ensures LegacySave.DeleteId(child, LegacySave.EntityKey(root), name)
            == "saveEntity/" + ChildPath(root, true, name, child) + "-" + ActionText(Deleted)
  {
  }

  /** The answer to a child's own request is found where the request came from. */
  lemma ChildAnswerFound(root: Node, deleted: bool, name: string, i: nat, k: nat, a: Action)
    requires PlainKey(LegacySave.EntityKey(root))
    requires IsWord(name) && SlotOf(root, name) == Ok(i)
    requires Numbered(At(root, i)) && k < |ListOf(At(root, i), deleted)|
    requires IsWord(ListOf(At(root, i), deleted)[k].definition.entityName)
    ensures var child := ListOf(At(root, i), deleted)[k];
            var path := ChildPath(root, deleted, name, child);
            ParseResponseId("saveEntity/" + path + "-" + ActionText(a)) == Ok((path, a)) &&
            Walk(Some(root), path, []) == Ok(Found(child, [Step(i, deleted, k)]))
  {
    var child := ListOf(At(root, i), deleted)[k];
    assert IssuedBelow(child.id, At(root, i).nextId);
    ChildPathSingleLine(root, deleted, name, child);
    ParseResponseIdOf(ChildPath(root, deleted, name, child), a);
    WalkChild(root, deleted, name, i, k);
  }

  /** As written, an update answer with an empty body that finds its path marks the root as read, whatever the path found. */
  lemma EmptyAnswerAsWritten(root: Node, response: Save.Response, counter: nat)
    requires ParseResponseId(response.id).Ok? && ParseResponseId(response.id).value.1 != Deleted
    requires Walk(Some(root), ParseResponseId(response.id).value.0, []).Ok? && !Truthy(response.body)
    ensures AssignOneAsWritten(root, response, counter) == Ok((root.(state := Read), counter))
  {
  }

  /** As intended, an update answer with an empty body marks the entity its path finds as read. */
  lemma EmptyAnswer(root: Node, response: Save.Response, counter: nat)
    requires ParseResponseId(response.id).Ok? && ParseResponseId(response.id).value.1 != Deleted
    requires Walk(Some(root), ParseResponseId(response.id).value.0, []).Ok? && !Truthy(response.body)
    ensures var found := Walk(Some(root), ParseResponseId(response.id).value.0, []).value;
            NodeAt(root, found.route) == Some(found.entity) &&
            AssignOne(root, response, counter) == Ok((ReplaceAt(root, found.route, found.entity.(state := Read)), counter))
  {
    WalkLeads(root, Some(root), ParseResponseId(response.id).value.0, []);
  }

  /**
   * As written, the answer to a child's update with an empty body marks the
   * root as read and leaves the child as it was, still updated.
   */
  lemma UpdateAnswerMissesChild(root: Node, name: string, i: nat, k: nat, counter: nat)
    requires PlainKey(LegacySave.EntityKey(root))
    requires IsWord(name) && SlotOf(root, name) == Ok(i)
    requires Numbered(At(root, i)) && k < |At(root, i).entities|
    requires IsWord(At(root, i).entities[k].definition.entityName)
    requires At(root, i).entities[k].state == Update
    ensures var child := At(root, i).entities[k];
            var id := LegacySave.OwnId(child, Some(LegacySave.EntityKey(root) + "/" + ("e-" + name)), "update");
            var r := AssignOneAsWritten(root, Save.Response(id, Null), counter);
            r == Ok((root.(state := Read), counter)) &&
            NodeAt(r.value.0, [Step(i, false, k)]) == Some(child) && child.state != Read
  {
    var child := At(root, i).entities[k];
    UpdateIdIsChildPath(root, name, child);
    ChildAnswerFound(root, false, name, i, k, Updated);
    var id := LegacySave.OwnId(child, Some(LegacySave.EntityKey(root) + "/" + ("e-" + name)), "update");
    var path := ChildPath(root, false, name, child);
    assert ParseResponseId(id) == Ok((path, Updated));
    assert Walk(Some(root), path, []) == Ok(Found(child, [Step(i, false, k)]));
    EmptyAnswerAsWritten(root, Save.Response(id, Null), counter);
    assert Leads(root.(state := Read), Step(i, false, k));
  }

  /** As intended, the same answer marks the child as read and leaves the root's own state alone. */
  lemma UpdateAnswerReadsChild(root: Node, name: string, i: nat, k: nat, counter: nat)
    requires PlainKey(LegacySave.EntityKey(root))
    requires IsWord(name) && SlotOf(root, name) == Ok(i)
    requires Numbered(At(root, i)) && k < |At(root, i).entities|
    requires IsWord(At(root, i).entities[k].definition.entityName)
    ensures var child := At(root, i).entities[k];
            var id := LegacySave.OwnId(child, Some(LegacySave.EntityKey(root) + "/" + ("e-" + name)), "update");
            var r := AssignOne(root, Save.Response(id, Null), counter);
            r.Ok? && r.value.0.state == root.state &&
            NodeAt(r.value.0, [Step(i, false, k)]) == Some(child.(state := Read))
  {
    var child := At(root, i).entities[k];
    UpdateIdIsChildPath(root, name, child);
    ChildAnswerFound(root, false, name, i, k, Updated);
    var id := LegacySave.OwnId(child, Some(LegacySave.EntityKey(root) + "/" + ("e-" + name)), "update");
    var path := ChildPath(root, false, name, child);
    assert ParseResponseId(id) == Ok((path, Updated));
    assert Walk(Some(root), path, []) == Ok(Found(child, [Step(i, false, k)]));
    EmptyAnswer(root, Save.Response(id, Null), counter);
  }

  /** As written, the answer to a child's delete leaves the structure as it was: the tombstone stays. */
  lemma DeleteAnswerKeepsChild(root: Node, name: string, i: nat, k: nat, counter: nat)
    requires PlainKey(LegacySave.EntityKey(root))
    requires IsWord(name) && SlotOf(root, name) == Ok(i)
    requires Numbered(At(root, i)) && k < |At(root, i).deletedEntities|
    requires IsWord(At(root, i).deletedEntities[k].definition.entityName)
    ensures var child := At(root, i).deletedEntities[k];
            var id := LegacySave.DeleteId(child, LegacySave.EntityKey(root), name);
            AssignOneAsWritten(root, Save.Response(id, Null), counter) == Ok((root, counter))
  {
    var child := At(root, i).deletedEntities[k];
    DeleteIdIsChildPath(root, name, child);
    ChildAnswerFound(root, true, name, i, k, Deleted);
  }

  /** As intended, the answer to a child's delete takes the tombstone out of the deleted list and keeps the rest. */
  lemma DeleteAnswerDropsChild(root: Node, name: string, i: nat, k: nat, counter: nat)
    requires PlainKey(LegacySave.EntityKey(root))
    requires IsWord(name) && SlotOf(root, name) == Ok(i)
    requires Numbered(At(root, i)) && k < |At(root, i).deletedEntities|
    requires IsWord(At(root, i).deletedEntities[k].definition.entityName)
    ensures var child := At(root, i).deletedEntities[k];
            var id := LegacySave.DeleteId(child, LegacySave.EntityKey(root), name);
            var m := Pruned(root, Step(i, true, k));
            AssignOne(root, Save.Response(id, Null), counter) == Ok((m, counter)) &&
            At(m, i).deletedEntities == Without(At(root, i).deletedEntities, k) && At(m, i).entities == At(root, i).entities
  {
    var child := At(root, i).deletedEntities[k];
    var path := ChildPath(root, true, name, child);
    var id := LegacySave.DeleteId(child, LegacySave.EntityKey(root), name);
    DeleteIdIsChildPath(root, name, child);
    ChildAnswerFound(root, true, name, i, k, Deleted);
    assert ParseResponseId(id) == Ok((path, Deleted));
    assert RemoveAt(root, [Step(i, true, k)]) == Pruned(root, Step(i, true, k));
  }
}
