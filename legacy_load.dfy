/**
 * Loading in the first-generation entity composable (`composable/entity.js`):
 * the `$expand` query of a definition, the conversion of date keys, the
 * request `load` sends and what becomes of its answer, and `importData`.
 */
module LegacyLoad {
  import opened JsValues
  import opened Definitions
  import opened LegacyEntity
  import Data
  import Load
  import ODataUrl

  // ---------------------------------------------------------------------------
  // getExpandQuery

  /** Some detail, here or in a child that is expanded, has no `keys` array to select. */
  predicate Unselectable(d: Definition)
    decreases d
  {
    || (exists i :: 0 <= i < |Details(d)| && Details(d)[i].keys.None?)
    || (exists i :: 0 <= i < |Children(d)| && Unselectable(Children(d)[i]))
  }

  /**
   * `getExpandQuery(definition)`: one entry per child, `name($expand=…)` when
   * the child has children or details of its own and the bare name
   * otherwise, then `name($select=keys)` per detail, joined with commas;
   * undefined when there is no entry. A detail without `keys` throws.
   */
  function ExpandQuery(d: Definition): (r: Result<Option<string>>)
    ensures r.Err? ==> r.error == TypeError
    ensures r == Ok(None) <==> !Load.Nested(d)
    ensures r.Err? <==> Unselectable(d)
    decreases d, 2
  {
    var children :- ChildEntries(d, Children(d));
    var details :- DetailEntries(Details(d));
    var expands := children + details;
    if expands == [] then Ok(None) else Ok(Some(Join(expands, ",")))
  }

  /** The entries of the children in `subs`, in order. */
  function ChildEntries(d: Definition, subs: seq<Definition>): (r: Result<seq<string>>)
    requires forall i :: 0 <= i < |subs| ==> subs[i] < d
    ensures r.Err? ==> r.error == TypeError
    ensures r.Ok? ==> |r.value| == |subs|
    ensures r.Err? <==> exists i :: 0 <= i < |subs| && Unselectable(subs[i])
    decreases d, 1, |subs|
  {
    if subs == [] then Ok([])
    else
      var entry :- ChildEntry(subs[0]);
      var rest :- ChildEntries(d, subs[1..]);
      assert forall i :: 1 <= i < |subs| ==> subs[i] == subs[1..][i - 1];
      Ok([entry] + rest)
  }

  /** One child's entry: `name($expand=…)` when it nests something, else its bare name. */
  function ChildEntry(c: Definition): (r: Result<string>)
    ensures r.Err? ==> r.error == TypeError
    ensures r.Err? <==> Unselectable(c)
    decreases c, 3
  {
    if Load.Nested(c) then
      var q :- ExpandQuery(c);
      Ok(ChildName(c) + "($expand=" + q.GetOr("undefined") + ")")
    else
      assert !Unselectable(c) by { NotNestedSelectable(c); }
      Ok(ChildName(c))
  }

  /** A definition with no children and no details has nothing to select. */
  lemma NotNestedSelectable(c: Definition)
    requires !Load.Nested(c)
    ensures !Unselectable(c)
  {
  }

  /** `name($select=k1,k2,…)` per detail, in order. */
  function DetailEntries(details: seq<Definition>): (r: Result<seq<string>>)
    ensures r.Err? ==> r.error == TypeError
    ensures r.Ok? ==> |r.value| == |details|
    ensures r.Err? <==> exists i :: 0 <= i < |details| && details[i].keys.None?
  {
    if details == [] then Ok([])
    else
      var c := details[0];
      var keys :- if c.keys.Some? then Ok(c.keys.value) else Err(TypeError);
      var rest :- DetailEntries(details[1..]);
      assert forall i :: 1 <= i < |details| ==> details[i] == details[1..][i - 1];
      Ok([ChildName(c) + "($select=" + Join(keys, ",") + ")"] + rest)
  }

  /** A tree without details whose children select nothing of their own. */
  predicate PlainTree(d: Definition)
    decreases d
  {
    && Details(d) == []
    && forall i :: 0 <= i < |Children(d)| ==>
         && (Load.KeyList(Children(d)[i]).None? || Load.KeyList(Children(d)[i]).value == "")
         && PlainTree(Children(d)[i])
  }

  /**
   * For a tree without details and without `$select` lists below the top,
   * the first-generation query is the one the current engine builds.
   */
  lemma {:induction false} ExpandQueryAgrees(d: Definition)
    requires PlainTree(d)
    ensures ExpandQuery(d) == Ok(Load.ExpandQuery(d))
    decreases d, 2
  {
    ChildEntriesAgree(d, Children(d));
    assert Load.Subentities(d) == Children(d);
    assert DetailEntries(Details(d)) == Ok([]);
    var children := ChildEntries(d, Children(d)).value;
    assert children + [] == children;
  }

  lemma {:induction false} ChildEntriesAgree(d: Definition, subs: seq<Definition>)
    requires forall i :: 0 <= i < |subs| ==> subs[i] < d
    requires forall i :: 0 <= i < |subs| ==>
               (Load.KeyList(subs[i]).None? || Load.KeyList(subs[i]).value == "") && PlainTree(subs[i])
    ensures ChildEntries(d, subs) == Ok(Load.ExpandEntries(d, subs))
    decreases d, 1, |subs|
  {
    if subs != [] {
      ChildEntriesAgree(d, subs[1..]);
      ChildEntryAgrees(subs[0]);
    }
  }

  lemma {:induction false} ChildEntryAgrees(c: Definition)
    requires (Load.KeyList(c).None? || Load.KeyList(c).value == "") && PlainTree(c)
    ensures ChildEntry(c) == Ok(Load.Entry(c))
    decreases c, 3
  {
    PlainSubqueries(c);
    if Load.Nested(c) {
      ExpandQueryAgrees(c);
      ExpandEntryText(ChildName(c), Load.ExpandQuery(c).value);
    }
  }

  /** Below the top, a plain tree's only option is its `$expand`. */
  lemma PlainSubqueries(c: Definition)
    requires Load.KeyList(c).None? || Load.KeyList(c).value == ""
    ensures Load.Subqueries(c) == if Load.Nested(c) then ["$expand=" + Load.ExpandQuery(c).value] else []
  {
  }

  lemma ExpandEntryText(name: string, q: string)
    ensures name + "(" + Join(["$expand=" + q], ";") + ")" == name + "($expand=" + q + ")"
  {
    assert name + "(" + ("$expand=" + q) + ")" == name + "($expand=" + q + ")";
  }

  // ---------------------------------------------------------------------------
  // convertDates

  /**
   * One date key: a truthy value under `name` is replaced by the date it
   * denotes (`toDate` stands for `new Date(value)`). Reading through null or
   * undefined throws, and so does writing a character or the length of a
   * string, which are read-only.
   */
  function DateKey(v: Value, name: string, toDate: Value -> int): (r: Result<Value>)
    ensures r.Err? ==> r.error == TypeError
    ensures r.Err? <==> IsNullish(v) || (v.Str? && Truthy(Get(v, name).value))
    ensures v.Obj? ==> r == Ok(Obj(if Truthy(Field(v.fields, name)) then v.fields[name := DateValue(Field(v.fields, name), toDate)] else v.fields))
  {
    var x :- Get(v, name);
    if !Truthy(x) then Ok(v)
    else if Load.Slot(v, name) then Ok(Load.Replace(v, name, Date(toDate(x))))
    else if v.Str? then Err(TypeError)
    else Ok(v)
  }

  /** What a truthy date key becomes. */
  function DateValue(x: Value, toDate: Value -> int): Value {
    if Truthy(x) then Date(toDate(x)) else x
  }

  function DateKeys(v: Value, names: seq<string>, toDate: Value -> int): (r: Result<Value>)
    ensures r.Err? ==> r.error == TypeError
    ensures v.Obj? ==> r.Ok? && r.value.Obj? && r.value.fields.Keys == v.fields.Keys
    decreases |names|
  {
    if names == [] then Ok(v)
    else
      var w :- DateKey(v, names[0], toDate);
      DateKeys(w, names[1..], toDate)
  }

  /**
   * With distinct date keys, an object's truthy date keys hold dates
   * afterwards and every other field is unchanged.
   */
  lemma {:induction false} DateKeysObject(m: map<string, Value>, names: seq<string>, toDate: Value -> int)
    requires forall i, j :: 0 <= i < j < |names| ==> names[i] != names[j]
    ensures DateKeys(Obj(m), names, toDate).Ok?
    ensures forall k :: Field(DateKeys(Obj(m), names, toDate).value.fields, k) ==
                        if k in names then DateValue(Field(m, k), toDate) else Field(m, k)
    decreases |names|
  {
    if names != [] {
      var k0 := names[0];
      var rest := names[1..];
      var m1 := if Truthy(Field(m, k0)) then m[k0 := DateValue(Field(m, k0), toDate)] else m;
      assert DateKey(Obj(m), k0, toDate) == Ok(Obj(m1));
      forall i, j | 0 <= i < j < |rest| ensures rest[i] != rest[j] {
        assert rest[i] == names[i + 1] && rest[j] == names[j + 1];
      }
      DateKeysObject(m1, rest, toDate);
      assert k0 !in rest by {
        forall i | 0 <= i < |rest| ensures rest[i] != k0 {
          assert rest[i] == names[i + 1];
        }
      }
      var r := DateKeys(Obj(m), names, toDate).value.fields;
      forall k ensures Field(r, k) == if k in names then DateValue(Field(m, k), toDate) else Field(m, k) {
        assert k in names <==> k == k0 || k in rest;
      }
    }
  }

  /**
   * `convertDates(definition, data)` reading each child's array under
   * `name(child)`: the date keys first, then, for every child definition
   * whose name holds an array in the data, every element of it, recursively.
   * `navigationAware` chooses the name: `navigationKey || entityName` when
   * set, `entityName` alone when not.
   */
  function Converted(d: Definition, data: Value, toDate: Value -> int, navigationAware: bool): (r: Result<Value>)
    ensures r.Err? ==> r.error == TypeError
    ensures r.Ok? && data.Obj? ==> r.value.Obj? && r.value.fields.Keys == data.fields.Keys
    decreases d, 3
  {
    var keyed :- DateKeys(data, d.dateKeys.GetOr([]), toDate);
    ChildrenConverted(d, keyed, 0, toDate, navigationAware)
  }

  function ChildrenConverted(d: Definition, v: Value, from: nat, toDate: Value -> int, navigationAware: bool): (r: Result<Value>)
    ensures r.Err? ==> r.error == TypeError
    ensures r.Ok? && v.Obj? ==> r.value.Obj? && r.value.fields.Keys == v.fields.Keys
    decreases d, 2, |Children(d)| - from
  {
    if from >= |Children(d)| then Ok(v)
    else
      var c := Children(d)[from];
      var nav := if navigationAware then ChildName(c) else c.entityName;
      var x :- Get(v, nav);
      var w :- if x.Arr? then
                 var ys :- ItemsConverted(d, c, x.items, toDate, navigationAware);
                 Ok(Load.Replace(v, nav, Arr(ys)))
               else Ok(v);
      ChildrenConverted(d, w, from + 1, toDate, navigationAware)
  }

  function ItemsConverted(d: Definition, c: Definition, items: seq<Value>, toDate: Value -> int, navigationAware: bool): (r: Result<seq<Value>>)
    requires c < d
    ensures r.Err? ==> r.error == TypeError
    ensures r.Ok? ==> |r.value| == |items|
    ensures r.Ok? ==> forall k :: 0 <= k < |items| ==> Converted(c, items[k], toDate, navigationAware) == Ok(r.value[k])
    decreases d, 1, |items|
  {
    if items == [] then Ok([])
    else
      var head :- Converted(c, items[0], toDate, navigationAware);
      var rest :- ItemsConverted(d, c, items[1..], toDate, navigationAware);
      assert forall k :: 1 <= k < |items| ==> items[k] == items[1..][k - 1];
      Ok([head] + rest)
  }

  /** `convertDates` as written: the child's array is looked up under `definitionChild.navigation`, which no definition has. */
  function ConvertDatesAsWritten(d: Definition, data: Value, toDate: Value -> int): (r: Result<Value>)
    ensures r.Err? ==> r.error == TypeError
    ensures r.Ok? && data.Obj? ==> r.value.Obj?
  {
    Converted(d, data, toDate, false)
  }

  /** `convertDates` reading the child's array under its navigation name. */
  function ConvertDates(d: Definition, data: Value, toDate: Value -> int): (r: Result<Value>)
    ensures r.Err? ==> r.error == TypeError
    ensures r.Ok? && data.Obj? ==> r.value.Obj? && r.value.fields.Keys == data.fields.Keys
  {
    Converted(d, data, toDate, true)
  }

  /**
   * A child reached under a navigation key other than its entity name: as
   * written, the date of its row stays a string; with the navigation name it
   * becomes a date.
   */
  lemma NavigationChildDates(toDate: Value -> int)
    ensures var line := Definition("Line", "Id", "Lines", None, None, Some(["At"]), Missing, Missing, "");
            var order := Definition("Order", "Id", "", None, None, None, Listed([line]), Missing, "");
            var row := Obj(map["At" := Str("2024-01-01")]);
            var data := Obj(map["Lines" := Arr([row])]);
            && ConvertDatesAsWritten(order, data, toDate) == Ok(data)
            && ConvertDates(order, data, toDate) == Ok(Obj(map["Lines" := Arr([Obj(map["At" := Date(toDate(Str("2024-01-01")))])])]))
  {
    var line := Definition("Line", "Id", "Lines", None, None, Some(["At"]), Missing, Missing, "");
    var order := Definition("Order", "Id", "", None, None, None, Listed([line]), Missing, "");
    var row := Obj(map["At" := Str("2024-01-01")]);
    var data := Obj(map["Lines" := Arr([row])]);
    assert Children(order) == [line] && Children(order)[0] == line;
    assert Get(data, "Line") == Ok(Undefined);
    assert Get(data, "Lines") == Ok(Arr([row]));
    var dated := Obj(map["At" := Date(toDate(Str("2024-01-01")))]);
    assert row.fields["At" := Date(toDate(Str("2024-01-01")))] == dated.fields;
    assert DateKey(row, "At", toDate) == Ok(dated);
    assert DateKeys(row, ["At"], toDate) == Ok(dated);
    assert Converted(line, row, toDate, true) == Ok(dated);
    assert ItemsConverted(order, line, [row][1..], toDate, true) == Ok([]);
    assert [row][0] == row && [dated] + [] == [dated];
    assert ItemsConverted(order, line, [row], toDate, true) == Ok([dated]);
    var after := Obj(map["Lines" := Arr([dated])]);
    assert data.fields["Lines" := Arr([dated])] == after.fields;
    assert ChildrenConverted(order, after, 1, toDate, true) == Ok(after);
    assert ChildrenConverted(order, data, 0, toDate, true) == Ok(after);
    assert ChildrenConverted(order, data, 1, toDate, false) == Ok(data);
    assert ChildrenConverted(order, data, 0, toDate, false) == Ok(data);
  }

  // ---------------------------------------------------------------------------
  // load and importData

  /**
   * The request `load(id)` sends: `EntityName(id)` under the service root,
   * with the `$expand` query when there is one.
   */
  function LoadUrl(d: Definition, apiUrl: Option<string>, id: Value): (r: Result<ODataUrl.Url>)
    ensures r.Err? ==> r.error == TypeError
    ensures r.Ok? <==> apiUrl.Some? && !Unselectable(d)
    ensures r.Ok? ==> r.value.href == ODataUrl.JoinStep(apiUrl.value, Load.KeyPath(d, id))
    ensures r.Ok? ==> forall text :: ("$expand", text) in r.value.query <==> ExpandQuery(d) == Ok(Some(text))
  {
    var expand :- ExpandQuery(d);
    var params := [("$expand", Load.OptionValue(expand))];
    var parts := [apiUrl, Some(Load.KeyPath(d, id))];
    assert parts[1..] == [Some(Load.KeyPath(d, id))] && parts[1..][1..] == [];
    assert apiUrl.Some? ==> ODataUrl.Fold(apiUrl.value, parts[1..]) == ODataUrl.JoinStep(apiUrl.value, Load.KeyPath(d, id));
    forall text ensures ("$expand", text) in ODataUrl.QueryPairs(params) <==> expand == Some(text) {
      ODataUrl.UniqueParamAppended(params, 0, text);
    }
    ODataUrl.CreateUrl(ODataUrl.Parts(parts), params)
  }

  /**
   * `assignDownloadedDataToEntity(entity, response)`: a JSON copy of the
   * answer (undefined has no JSON text and fails to parse), without its
   * `@odata.context`, its dates converted, loaded into the structure.
   */
  function Downloaded(n: Node, response: Value, toDate: Value -> int, counter: nat): (r: Result<(Node, nat)>)
    ensures r.Ok? ==> !IsNullish(response)
    ensures r.Ok? ==> var m := r.value.0;
                      && m.state == Read && m.uid == n.uid && m.id == n.id
                      && m.parent == n.parent && m.root == n.root
    ensures r.Ok? && response.Obj? ==> r.value.0.data.Obj? && Load.ContextKey !in r.value.0.data.fields
    ensures r.Ok? && response.Obj? && Shaped(n) && WellFormed(n.definition) ==>
              && ConvertDates(n.definition, Answer(response), toDate).Ok?
              && LoadedFrom(r.value.0, ConvertDates(n.definition, Answer(response), toDate).value)
  {
    if response.Undefined? then Err(SyntaxError)
    else
      var copy := Data.JsonCopy(response);
      var dropped :- Load.DropContext(copy);
      var dated :- ConvertDates(n.definition, dropped, toDate);
      LoadInto(n, dated, counter)
  }

  /** An object answer as it is loaded, before its dates are converted: its JSON copy without `@odata.context`. */
  function Answer(response: Value): (r: Value)
    requires response.Obj?
    ensures r.Obj? && Load.ContextKey !in r.fields
    ensures forall k :: k != Load.ContextKey ==> Field(r.fields, k) == Field(Data.JsonCopy(response).fields, k)
  {
    Obj(Data.JsonCopy(response).fields - {Load.ContextKey})
  }

  /**
   * `load(id)` once the answer has arrived: the answer is loaded and the
   * entity's id becomes its primary value.
   */
  function Loaded(n: Node, response: Value, toDate: Value -> int, counter: nat): (r: Result<(Node, nat)>)
    ensures r.Ok? ==> r.value.0.state == Read && PrimaryValue(r.value.0) == Ok(r.value.0.id)
    ensures r.Ok? ==> counter <= r.value.1
    ensures r.Ok? && response.Obj? && Shaped(n) && WellFormed(n.definition) ==>
              && ConvertDates(n.definition, Answer(response), toDate).Ok?
              && LoadedFrom(r.value.0, ConvertDates(n.definition, Answer(response), toDate).value)
  {
    var loaded :- Downloaded(n, response, toDate, counter);
    var id :- PrimaryValue(loaded.0);
    if response.Obj? && Shaped(n) && WellFormed(n.definition) then
      LoadedFromAnyId(loaded.0, ConvertDates(n.definition, Answer(response), toDate).value, id);
      Ok((loaded.0.(id := id), loaded.1))
    else Ok((loaded.0.(id := id), loaded.1))
  }

  /**
   * The loaded entity's own data is the answer's: each field that names no
   * child, no detail and not `@odata.context` holds the JSON copy's value,
   * turned into a date when it is a truthy date key.
   */
  lemma DownloadedData(n: Node, response: Value, toDate: Value -> int, counter: nat, k: string)
    requires response.Obj? && Downloaded(n, response, toDate, counter).Ok?
    requires var names := n.definition.dateKeys.GetOr([]);
             forall i, j :: 0 <= i < j < |names| ==> names[i] != names[j]
    requires k != Load.ContextKey && k !in NamesFrom(Children(n.definition), 0) && k !in NamesFrom(Details(n.definition), 0)
    ensures Downloaded(n, response, toDate, counter).value.0.data.Obj?
    ensures var answer := Data.JsonCopy(response).fields;
            Field(Downloaded(n, response, toDate, counter).value.0.data.fields, k)
            == if k in n.definition.dateKeys.GetOr([]) then DateValue(Field(answer, k), toDate) else Field(answer, k)
  {
    var d := n.definition;
    var a := Answer(response);
    var names := d.dateKeys.GetOr([]);
    DateKeysObject(a.fields, names, toDate);
    var keyed := DateKeys(a, names, toDate).value;
    assert Converted(d, a, toDate, true) == ChildrenConverted(d, keyed, 0, toDate, true);
    ChildrenConvertedKeeps(d, keyed, 0, toDate, k);
  }

  /** Converting the children's dates changes no field other than the children's names. */
  lemma {:induction false} ChildrenConvertedKeeps(d: Definition, v: Value, from: nat, toDate: Value -> int, k: string)
    requires v.Obj? && ChildrenConverted(d, v, from, toDate, true).Ok?
    requires k !in NamesFrom(Children(d), from)
    ensures Field(ChildrenConverted(d, v, from, toDate, true).value.fields, k) == Field(v.fields, k)
    decreases |Children(d)| - from
  {
    if from < |Children(d)| {
      var c := Children(d)[from];
      var nav := ChildName(c);
      assert nav in NamesFrom(Children(d), from);
      assert NamesFrom(Children(d), from + 1) <= NamesFrom(Children(d), from);
      var x := Get(v, nav).value;
      if x.Arr? {
        var ys := ItemsConverted(d, c, x.items, toDate, true).value;
        var w := Load.Replace(v, nav, Arr(ys));
        assert w == Obj(v.fields[nav := Arr(ys)]);
        ChildrenConvertedKeeps(d, w, from + 1, toDate, k);
      } else {
        ChildrenConvertedKeeps(d, v, from + 1, toDate, k);
      }
    }
  }

  /** Being loaded from some data does not depend on the structure's id. */
  lemma LoadedFromAnyId(m: Node, data: Value, id: Value)
    requires LoadedFrom(m, data)
    ensures LoadedFrom(m.(id := id), data)
  {
  }

  /**
   * `importData(data, { state })`: the data is loaded, the entity's id
   * becomes the primary value left in it, and the state is the one given,
   * or `read`.
   */
  function ImportData(n: Node, data: Value, state: Option<Phase>, counter: nat): (r: Result<(Node, nat)>)
    ensures IsNullish(data) ==> r.Err?
    ensures r.Ok? ==> r.value.0.state == state.GetOr(Read)
    ensures r.Ok? && data.Obj? ==>
              var pk := n.definition.primaryKey;
              pk !in NamesFrom(Children(n.definition), 0) && pk !in NamesFrom(Details(n.definition), 0) ==>
                r.value.0.id == Field(data.fields, pk)
  {
    var loaded :- LoadInto(n, data, counter);
    var id :- Get(loaded.0.data, n.definition.primaryKey);
    Ok((loaded.0.(id := id, state := state.GetOr(Read)), loaded.1))
  }
}
