/**
 * Loading an entity or a collection from the OData service: the request an
 * entity definition gives rise to (`$select` from the keys that are not
 * ignored, `$expand` from the children and details, recursively), the
 * preparation of the answer (the `@odata.context` annotation removed, the
 * date keys turned into dates throughout the children), and the
 * clear / sync / consolidate sequence that follows.
 */
module Load {
  import opened JsValues
  import opened Definitions
  import opened Records
  import opened Entities
  import opened Ownership
  import opened Passes
  import opened SyncData
  import Clear
  import Consolidate
  import opened ODataUrl

  // ---------------------------------------------------------------------------
  // `$select`: getKeyList

  /** The keys in their declared order, without the ignored ones. */
  function Unignored(keys: seq<string>, ignored: seq<string>): (r: seq<string>)
    ensures forall k :: k in r <==> k in keys && k !in ignored
    ensures |r| <= |keys|
  {
    if keys == [] then []
    else (if keys[0] in ignored then [] else [keys[0]]) + Unignored(keys[1..], ignored)
  }

  /** Filtering keeps the order: it distributes over concatenation. */
  lemma {:induction false} UnignoredAppend(a: seq<string>, b: seq<string>, ignored: seq<string>)
    ensures Unignored(a + b, ignored) == Unignored(a, ignored) + Unignored(b, ignored)
    decreases |a|
  {
    if a == [] {
      assert a + b == b;
    } else {
      assert (a + b)[1..] == a[1..] + b;
      UnignoredAppend(a[1..], b, ignored);
    }
  }

  /** When no key is ignored the list is the keys themselves. */
  lemma {:induction false} UnignoredNone(keys: seq<string>, ignored: seq<string>)
    requires forall k :: k in keys ==> k !in ignored
    ensures Unignored(keys, ignored) == keys
    decreases |keys|
  {
    if keys != [] {
      assert keys[0] in keys;
      forall k | k in keys[1..] ensures k !in ignored {
        assert k in keys;
      }
      UnignoredNone(keys[1..], ignored);
      assert keys == [keys[0]] + keys[1..];
    }
  }

  /**
   * The `$select` list of a definition: there is one only when the keys and
   * the ignored keys are both non-empty arrays; it names the keys that are not
   * ignored, in order, separated by commas.
   */
  function KeyList(d: Definition): (r: Option<string>)
    ensures r.Some? <==> d.keys.Some? && |d.keys.value| > 0 && d.ignoredKeys.Some? && |d.ignoredKeys.value| > 0
    ensures r.Some? ==> r.value == Join(Unignored(d.keys.value, d.ignoredKeys.value), ",")
  {
    if d.keys.Some? && |d.keys.value| > 0 then
      if d.ignoredKeys.Some? && |d.ignoredKeys.value| > 0 then
        Some(Join(Unignored(d.keys.value, d.ignoredKeys.value), ","))
      else None
    else None
  }

  // ---------------------------------------------------------------------------
  // `$expand`: getExpandQuery

  /** The sub-entities a definition expands: its children, then its details. */
  function Subentities(d: Definition): (r: seq<Definition>)
    ensures |r| == |Children(d)| + |Details(d)|
    ensures forall i :: 0 <= i < |r| ==> r[i] < d
  {
    Children(d) + Details(d)
  }

  /** Whether a definition has something to expand. */
  predicate Nested(d: Definition) {
    |Children(d)| > 0 || |Details(d)| > 0
  }

  /** The `$expand` value of a definition: undefined when it has no sub-entities. */
  function ExpandQuery(d: Definition): (r: Option<string>)
    ensures r.None? <==> !Nested(d)
    decreases d, 2
  {
    var subs := Subentities(d);
    if subs == [] then None else Some(Join(ExpandEntries(d, subs), ","))
  }

  /** One expansion entry per sub-entity, in order. */
  function ExpandEntries(d: Definition, subs: seq<Definition>): (r: seq<string>)
    requires forall i :: 0 <= i < |subs| ==> subs[i] < d
    ensures |r| == |subs|
    ensures forall i :: 0 <= i < |subs| ==> r[i] == Entry(subs[i])
    decreases d, 1, |subs|
  {
    if subs == [] then [] else [Entry(subs[0])] + ExpandEntries(d, subs[1..])
  }

  /** The options inside a sub-entity's parentheses: its own `$select`, then its own `$expand`. */
  function Subqueries(sub: Definition): (r: seq<string>)
    ensures |r| <= 2
    decreases sub, 3
  {
    var kl := KeyList(sub);
    (if kl.Some? && kl.value != "" then ["$select=" + kl.value] else [])
    + (if Nested(sub) then ["$expand=" + ExpandQuery(sub).value] else [])
  }

  /** A sub-entity's entry: its navigation name, with its options in parentheses when it has any. */
  function Entry(sub: Definition): (r: string)
    decreases sub, 4
  {
    var subqueries := Subqueries(sub);
    if subqueries == [] then ChildName(sub)
    else ChildName(sub) + "(" + Join(subqueries, ";") + ")"
  }

  /**
   * An entry is the bare navigation name exactly when the sub-entity selects
   * nothing and expands nothing; otherwise it is the name followed by the
   * options in parentheses, `$select` first.
   */
  lemma EntryShape(sub: Definition)
    ensures var kl := KeyList(sub);
            var selects := kl.Some? && kl.value != "";
            && (Subqueries(sub) == [] <==> !selects && !Nested(sub))
            && (!selects && !Nested(sub) ==> Entry(sub) == ChildName(sub))
            && (selects || Nested(sub) ==>
                  Entry(sub) == ChildName(sub) + "(" + Join(Subqueries(sub), ";") + ")")
            && (selects ==> Subqueries(sub)[0] == "$select=" + kl.value)
            && (Nested(sub) ==> Subqueries(sub)[|Subqueries(sub)| - 1] == "$expand=" + ExpandQuery(sub).value)
  {
  }

  // ---------------------------------------------------------------------------
  // Dates: replaceDates

  /** Whether `v[key]` names a slot that can be written in place: an object field or an existing array element. */
  predicate Slot(v: Value, key: string) {
    v.Obj? || (v.Arr? && ParseIndex(key).Some? && ParseIndex(key).value < |v.items|)
  }

  /** The value with the slot `v[key]` holding `x`. */
  function Replace(v: Value, key: string, x: Value): (r: Value)
    requires Slot(v, key)
    ensures Get(r, key) == Ok(x)
  {
    if v.Obj? then Obj(v.fields[key := x]) else Arr(v.items[ParseIndex(key).value := x])
  }

  /**
   * One date key: a string under `key` becomes the date it denotes (`toDate`
   * stands for `new Date(text)`). Reading through null or undefined throws,
   * and so does writing a character of a string, which is read-only.
   */
  function DateKey(v: Value, key: string, toDate: string -> int): (r: Result<Value>)
    ensures r.Err? ==> r.error == TypeError
  {
    match Get(v, key)
    case Err(e) => Err(e)
    case Ok(x) =>
      if !x.Str? then Ok(v)
      else if v.Str? then Err(TypeError)
      else Ok(Replace(v, key, Date(toDate(x.s))))
  }

  /** The date keys, in order. */
  function DateKeys(v: Value, keys: seq<string>, toDate: string -> int): (r: Result<Value>)
    ensures r.Err? ==> r.error == TypeError
    decreases |keys|
  {
    if keys == [] then Ok(v)
    else match DateKey(v, keys[0], toDate)
      case Err(e) => Err(e)
      case Ok(w) => DateKeys(w, keys[1..], toDate)
  }

  /** The data of one entity with its date keys converted, then its children's, recursively. */
  function Dated(d: Definition, data: Value, toDate: string -> int): (r: Result<Value>)
    ensures r.Err? ==> r.error == TypeError
    decreases d, 2
  {
    var keyed := if d.dateKeys.Some? then DateKeys(data, d.dateKeys.value, toDate) else Ok(data);
    match keyed
    case Err(e) => Err(e)
    case Ok(v) => ChildrenDated(d, v, 0, toDate)
  }

  /** The children of `d` from the `from`-th on, in order. */
  function ChildrenDated(d: Definition, v: Value, from: nat, toDate: string -> int): (r: Result<Value>)
    ensures r.Err? ==> r.error == TypeError
    decreases d, 1, |Children(d)| - from
  {
    if from >= |Children(d)| then Ok(v)
    else match ChildDated(Children(d)[from], v, toDate)
      case Err(e) => Err(e)
      case Ok(w) => ChildrenDated(d, w, from + 1, toDate)
  }

  /**
   * One child: an array under its navigation name has every element converted;
   * any other object there (null included, whose keys cannot be read) is
   * converted itself; a primitive is left alone.
   */
  function ChildDated(c: Definition, v: Value, toDate: string -> int): (r: Result<Value>)
    ensures r.Err? ==> r.error == TypeError
    decreases c, 4
  {
    var nav := ChildName(c);
    match Get(v, nav)
    case Err(e) => Err(e)
    case Ok(x) =>
      if x.Arr? then
        match ItemsDated(c, x.items, toDate)
        case Err(e) => Err(e)
        case Ok(ys) => Ok(Replace(v, nav, Arr(ys)))
      else if IsObjectType(x) then
        match Dated(c, x, toDate)
        case Err(e) => Err(e)
        case Ok(y) => Ok(Replace(v, nav, y))
      else Ok(v)
  }

  /** Every element of an array of children, in order; the first failure stops the walk. */
  function ItemsDated(c: Definition, items: seq<Value>, toDate: string -> int): (r: Result<seq<Value>>)
    ensures r.Err? ==> r.error == TypeError
    ensures r.Err? <==> exists k :: 0 <= k < |items| && Dated(c, items[k], toDate).Err?
    ensures r.Ok? ==> |r.value| == |items| && forall k :: 0 <= k < |items| ==> Dated(c, items[k], toDate) == Ok(r.value[k])
    decreases c, 3, |items|
  {
    if items == [] then Ok([])
    else match Dated(c, items[0], toDate)
      case Err(e) => Err(e)
      case Ok(y) =>
        match ItemsDated(c, items[1..], toDate)
        case Err(e) => Err(e)
        case Ok(ys) => Ok([y] + ys)
  }

  /**
   * `replaceDates`: the date keys of `data` in order, then each child found
   * under its navigation name, recursively. The value model returns the
   * converted data where the source converts it in place.
   */
  method ReplaceDates(d: Definition, data: Value, toDate: string -> int) returns (r: Result<Value>)
    ensures r == Dated(d, data, toDate)
    decreases d, 0
  {
    var cur := data;
    if d.dateKeys.Some? {
      var keys := d.dateKeys.value;
      for i := 0 to |keys|
        invariant DateKeys(cur, keys[i..], toDate) == DateKeys(data, keys, toDate)
      {
        assert keys[i..][1..] == keys[i + 1..];
        var x := Get(cur, keys[i]);
        if x.Err? {
          return Err(x.error);
        }
        if x.value.Str? {
          if cur.Str? {
            return Err(TypeError);
          }
          cur := Replace(cur, keys[i], Date(toDate(x.value.s)));
        }
      }
      assert keys[|keys|..] == [];
    }
    var children := Children(d);
    for j := 0 to |children|
      invariant ChildrenDated(d, cur, j, toDate) == Dated(d, data, toDate)
    {
      var next := ReplaceChildDates(children[j], cur, toDate);
      if next.Err? {
        return next;
      }
      cur := next.value;
    }
    return Ok(cur);
  }

  /** One child of `replaceDates`: every element of an array under its name, or the object there. */
  method ReplaceChildDates(c: Definition, cur: Value, toDate: string -> int) returns (r: Result<Value>)
    ensures r == ChildDated(c, cur, toDate)
    decreases c, 2
  {
    var nav := ChildName(c);
    var x := Get(cur, nav);
    if x.Err? {
      return Err(x.error);
    }
    if x.value.Arr? {
      var converted := ReplaceItemsDates(c, x.value.items, toDate);
      if converted.Err? {
        return Err(converted.error);
      }
      return Ok(Replace(cur, nav, Arr(converted.value)));
    } else if IsObjectType(x.value) {
      var y := ReplaceDates(c, x.value, toDate);
      if y.Err? {
        return y;
      }
      return Ok(Replace(cur, nav, y.value));
    }
    return Ok(cur);
  }

  /** `for (const childData of data[navigation]) replaceDates(childDefinition, childData)`. */
  method ReplaceItemsDates(c: Definition, items: seq<Value>, toDate: string -> int) returns (r: Result<seq<Value>>)
    ensures r == ItemsDated(c, items, toDate)
    decreases c, 1
  {
    var converted := [];
    for k := 0 to |items|
      invariant |converted| == k
      invariant forall q :: 0 <= q < k ==> Dated(c, items[q], toDate) == Ok(converted[q])
    {
      var y := ReplaceDates(c, items[k], toDate);
      if y.Err? {
        return Err(y.error);
      }
      converted := converted + [y.value];
    }
    var all := ItemsDated(c, items, toDate);
    assert all.Ok? by {
      forall q | 0 <= q < |items| ensures Dated(c, items[q], toDate).Ok? {
      }
    }
    assert all.value == converted;
    return all;
  }

  /** The date keys of a definition, `[]` when it declares none. */
  function DateKeyList(d: Definition): seq<string> {
    d.dateKeys.GetOr([])
  }

  /** What the date keys `keys` make of the field `k` holding `x`. */
  function DateField(x: Value, k: string, keys: seq<string>, toDate: string -> int): Value {
    if k in keys && x.Str? then Date(toDate(x.s)) else x
  }

  /**
   * On an object the date keys keep its field names and turn exactly the
   * string fields named by a date key into dates, whatever the order or
   * repetition of the keys.
   */
  lemma {:induction false} DateKeysObject(m: map<string, Value>, keys: seq<string>, toDate: string -> int)
    ensures DateKeys(Obj(m), keys, toDate) == Ok(Obj(map k | k in m :: DateField(m[k], k, keys, toDate)))
    decreases |keys|
  {
    var want := map k | k in m :: DateField(m[k], k, keys, toDate);
    if keys == [] {
      assert want == m;
    } else {
      var k0 := keys[0];
      var m1 := if k0 in m && m[k0].Str? then m[k0 := Date(toDate(m[k0].s))] else m;
      assert DateKey(Obj(m), k0, toDate) == Ok(Obj(m1));
      DateKeysObject(m1, keys[1..], toDate);
      var got := map k | k in m1 :: DateField(m1[k], k, keys[1..], toDate);
      forall k | k in m
        ensures k in got && got[k] == want[k]
      {
        assert k in keys <==> k == k0 || k in keys[1..];
      }
      assert got == want;
    }
  }

  /** A child's conversion on an object leaves the object's field names as they are and touches only that child's field. */
  lemma ChildDatedObject(c: Definition, m: map<string, Value>, toDate: string -> int)
    requires ChildDated(c, Obj(m), toDate).Ok?
    ensures ChildDated(c, Obj(m), toDate).value.Obj?
    ensures var m' := ChildDated(c, Obj(m), toDate).value.fields;
            m'.Keys == m.Keys && forall k :: k in m && k != ChildName(c) ==> m'[k] == m[k]
  {
  }

  /** The children from the `from`-th on touch only their own fields of an object. */
  lemma {:induction false} ChildrenDatedObject(d: Definition, m: map<string, Value>, from: nat, toDate: string -> int)
    requires ChildrenDated(d, Obj(m), from, toDate).Ok?
    ensures ChildrenDated(d, Obj(m), from, toDate).value.Obj?
    ensures var m' := ChildrenDated(d, Obj(m), from, toDate).value.fields;
            m'.Keys == m.Keys && forall k :: k in m && k !in ChildNames(d) ==> m'[k] == m[k]
    decreases |Children(d)| - from
  {
    if from < |Children(d)| {
      var c := Children(d)[from];
      ChildDatedObject(c, m, toDate);
      var m1 := ChildDated(c, Obj(m), toDate).value.fields;
      ChildrenDatedObject(d, m1, from + 1, toDate);
      assert ChildName(c) == ChildNames(d)[from];
    }
  }

  /**
   * What conversion makes of an entity object: the same field names, and every
   * field that is not a child's navigation name is a date exactly when it is
   * a date key holding a string, and otherwise unchanged.
   */
  lemma DatedObject(d: Definition, m: map<string, Value>, toDate: string -> int)
    requires Dated(d, Obj(m), toDate).Ok?
    ensures Dated(d, Obj(m), toDate).value.Obj?
    ensures var m' := Dated(d, Obj(m), toDate).value.fields;
            && m'.Keys == m.Keys
            && forall k :: k in m && k !in ChildNames(d) ==> m'[k] == DateField(m[k], k, DateKeyList(d), toDate)
  {
    DateKeysObject(m, DateKeyList(d), toDate);
    var m1 := map k | k in m :: DateField(m[k], k, DateKeyList(d), toDate);
    if d.dateKeys.None? {
      assert m1 == m;
    }
    ChildrenDatedObject(d, m1, 0, toDate);
  }

  /**
   * Null or undefined data (a child object that is null, say) throws exactly
   * when the definition has a date key to read or a child to look up.
   */
  lemma DatedNullish(d: Definition, v: Value, toDate: string -> int)
    requires IsNullish(v)
    ensures Dated(d, v, toDate).Err? <==> |DateKeyList(d)| > 0 || |Children(d)| > 0
  {
    if |DateKeyList(d)| == 0 && |Children(d)| > 0 {
      assert ChildrenDated(d, v, 0, toDate).Err?;
    }
  }

  // ---------------------------------------------------------------------------
  // The requests

  /** An optional string as a query option value: undefined when there is none. */
  function OptionValue(o: Option<string>): (v: Value)
    ensures IsNullish(v) <==> o.None?
    ensures o.Some? ==> ToStr(v) == o.value
  {
    if o.Some? then Str(o.value) else Undefined
  }

  /** The options every load sends: `$select`, then `$expand`. */
  function LoadOptions(d: Definition): seq<(string, Value)> {
    [("$select", OptionValue(KeyList(d))), ("$expand", OptionValue(ExpandQuery(d)))]
  }

  /** The entity addressed by key: `EntityName(id)`. */
  function KeyPath(d: Definition, id: Value): string {
    d.entityName + "(" + ToStr(id) + ")"
  }

  /** `requestLoad`'s request: the keyed entity under the service root, with the load options. */
  function LoadRequest(d: Definition, apiUrl: Option<string>, id: Value): (r: Result<Url>)
    ensures r.Ok? <==> apiUrl.Some?
    ensures r.Ok? ==> r.value.href == JoinStep(apiUrl.value, KeyPath(d, id))
  {
    var parts := [apiUrl, Some(KeyPath(d, id))];
    var rest := parts[1..];
    assert rest == [Some(KeyPath(d, id))] && rest[1..] == [];
    assert apiUrl.Some? ==> Fold(apiUrl.value, rest) == JoinStep(apiUrl.value, KeyPath(d, id));
    CreateUrl(Parts(parts), LoadOptions(d))
  }

  /** The names of a list of options. */
  function Names(ps: seq<(string, Value)>): set<string> {
    set i | 0 <= i < |ps| :: ps[i].0
  }

  /** No name is listed twice, as in an object literal. */
  predicate UniqueNames(ps: seq<(string, Value)>) {
    forall i, j :: 0 <= i < j < |ps| ==> ps[i].0 != ps[j].0
  }

  /** The value listed under `n`, the first one when it repeats. */
  function Lookup(ps: seq<(string, Value)>, n: string): (r: Option<Value>)
    ensures r.Some? <==> n in Names(ps)
    decreases |ps|
  {
    if ps == [] then None
    else if ps[0].0 == n then Some(ps[0].1)
    else
      var r := Lookup(ps[1..], n);
      assert n in Names(ps) <==> n in Names(ps[1..]) by {
        assert forall i :: 0 < i < |ps| ==> ps[i] == ps[1..][i - 1];
        assert forall i :: 0 <= i < |ps[1..]| ==> ps[1..][i] == ps[i + 1];
      }
      r
  }

  /** A listed option is what `Lookup` finds under its name when names are unique. */
  lemma {:induction false} LookupAt(ps: seq<(string, Value)>, i: nat)
    requires UniqueNames(ps) && i < |ps|
    ensures Lookup(ps, ps[i].0) == Some(ps[i].1)
    decreases i
  {
    if i > 0 {
      assert ps[0].0 != ps[i].0;
      assert ps[1..][i - 1] == ps[i];
      LookupAt(ps[1..], i - 1);
    }
  }

  /**
   * The query of a request whose options have unique names: a name appears
   * with a text exactly when its option has a value and that is the value's
   * text.
   */
  lemma QueryOf(ps: seq<(string, Value)>, n: string, text: string)
    requires UniqueNames(ps)
    ensures (n, text) in QueryPairs(ps)
        <==> Lookup(ps, n).Some? && !IsNullish(Lookup(ps, n).value) && ToStr(Lookup(ps, n).value) == text
  {
    if n in Names(ps) {
      var i :| 0 <= i < |ps| && ps[i].0 == n;
      LookupAt(ps, i);
      UniqueParamAppended(ps, i, text);
    } else {
      QueryPairsMembership(ps, n, text);
    }
  }

  /** The entity request selects exactly the key list and expands exactly the expand query, when there are any. */
  lemma LoadRequestQuery(d: Definition, apiUrl: Option<string>, id: Value, text: string)
    requires LoadRequest(d, apiUrl, id).Ok?
    ensures var query := LoadRequest(d, apiUrl, id).value.query;
            && (("$select", text) in query <==> KeyList(d) == Some(text))
            && (("$expand", text) in query <==> ExpandQuery(d) == Some(text))
  {
    var ps := LoadOptions(d);
    QueryOf(ps, "$select", text);
    QueryOf(ps, "$expand", text);
    assert Lookup(ps, "$select") == Some(ps[0].1);
    assert Lookup(ps, "$expand") == Some(ps[1].1);
  }

  /**
   * `{ ...base, ...extra }` over names that are not array indices: the names
   * of `base` keep their places and take `extra`'s value when it has one; the
   * other names of `extra` follow in their order.
   */
  function Spread(base: seq<(string, Value)>, extra: seq<(string, Value)>): (r: seq<(string, Value)>)
  {
    Overridden(base, extra) + Appended(base, extra)
  }

  /** The options of `base`, each with `extra`'s value when `extra` names it. */
  function Overridden(base: seq<(string, Value)>, extra: seq<(string, Value)>): (r: seq<(string, Value)>)
    ensures |r| == |base|
    ensures forall i :: 0 <= i < |base| ==> r[i].0 == base[i].0
    ensures forall i :: 0 <= i < |base| ==> r[i].1 == Lookup(extra, base[i].0).GetOr(base[i].1)
    decreases |base|
  {
    if base == [] then []
    else [(base[0].0, Lookup(extra, base[0].0).GetOr(base[0].1))] + Overridden(base[1..], extra)
  }

  /** The options of `extra` whose names `base` does not have, in order. */
  function Appended(base: seq<(string, Value)>, extra: seq<(string, Value)>): (r: seq<(string, Value)>)
    ensures forall p :: p in r <==> p in extra && p.0 !in Names(base)
    decreases |extra|
  {
    if extra == [] then []
    else (if extra[0].0 in Names(base) then [] else [extra[0]]) + Appended(base, extra[1..])
  }

  /** Two lists with unique names and no name in common make one with unique names. */
  lemma UniqueConcat(a: seq<(string, Value)>, b: seq<(string, Value)>)
    requires UniqueNames(a) && UniqueNames(b) && Names(a) !! Names(b)
    ensures UniqueNames(a + b)
  {
    var ab := a + b;
    forall i, j | 0 <= i < j < |ab| ensures ab[i].0 != ab[j].0 {
      if i < |a| && j >= |a| {
        assert ab[i] == a[i] && ab[j] == b[j - |a|];
        assert a[i].0 in Names(a) && b[j - |a|].0 in Names(b);
      } else if i >= |a| {
        assert ab[i] == b[i - |a|] && ab[j] == b[j - |a|];
      } else {
        assert ab[i] == a[i] && ab[j] == a[j];
      }
    }
  }

  /** A name not in a list with unique names can head it. */
  lemma ConsUnique(p: (string, Value), rest: seq<(string, Value)>)
    requires UniqueNames(rest) && forall i :: 0 <= i < |rest| ==> rest[i].0 != p.0
    ensures UniqueNames([p] + rest)
  {
    var ps := [p] + rest;
    forall i, j | 0 <= i < j < |ps| ensures ps[i].0 != ps[j].0 {
      assert ps[j] == rest[j - 1];
      if i > 0 {
        assert ps[i] == rest[i - 1];
      }
    }
  }

  /** What is appended keeps `extra`'s names unique. */
  lemma {:induction false} AppendedUnique(base: seq<(string, Value)>, extra: seq<(string, Value)>)
    requires UniqueNames(extra)
    ensures UniqueNames(Appended(base, extra))
    decreases |extra|
  {
    if extra != [] {
      var tail := extra[1..];
      AppendedUnique(base, tail);
      var rest := Appended(base, tail);
      if extra[0].0 !in Names(base) {
        forall i | 0 <= i < |rest| ensures rest[i].0 != extra[0].0 {
          assert rest[i] in rest;
          var j :| 0 <= j < |tail| && tail[j] == rest[i];
          assert extra[j + 1] == tail[j];
        }
        ConsUnique(extra[0], rest);
      } else {
        assert Appended(base, extra) == rest;
      }
    }
  }

  /** Where an option only `extra` names sits among the appended ones. */
  lemma {:induction false} AppendedIndex(base: seq<(string, Value)>, extra: seq<(string, Value)>, j: nat) returns (k: nat)
    requires j < |extra| && extra[j].0 !in Names(base)
    ensures k < |Appended(base, extra)| && Appended(base, extra)[k] == extra[j]
    decreases j
  {
    var head: seq<(string, Value)> := if extra[0].0 in Names(base) then [] else [extra[0]];
    var rest := Appended(base, extra[1..]);
    assert Appended(base, extra) == head + rest;
    if j == 0 {
      k := 0;
    } else {
      assert extra[1..][j - 1] == extra[j];
      var i := AppendedIndex(base, extra[1..], j - 1);
      k := |head| + i;
      assert (head + rest)[k] == rest[i];
    }
  }

  /** No appended name is one of `base`'s. */
  lemma AppendedFresh(base: seq<(string, Value)>, extra: seq<(string, Value)>)
    ensures Names(Appended(base, extra)) !! Names(base)
  {
    var a := Appended(base, extra);
    forall n | n in Names(a) ensures n !in Names(base) {
      var i :| 0 <= i < |a| && a[i].0 == n;
      assert a[i] in a;
    }
  }

  /** The names of `Overridden` are the names of `base`, position by position. */
  lemma OverriddenNames(base: seq<(string, Value)>, extra: seq<(string, Value)>)
    requires UniqueNames(base)
    ensures UniqueNames(Overridden(base, extra)) && Names(Overridden(base, extra)) == Names(base)
  {
    var o := Overridden(base, extra);
    assert forall i :: 0 <= i < |o| ==> o[i].0 == base[i].0;
  }

  /** The names of a concatenation are the names of its parts. */
  lemma NamesConcat(a: seq<(string, Value)>, b: seq<(string, Value)>)
    ensures Names(a + b) == Names(a) + Names(b)
  {
    var ab := a + b;
    forall n | n in Names(ab) ensures n in Names(a) + Names(b) {
      var i :| 0 <= i < |ab| && ab[i].0 == n;
      if i < |a| { assert ab[i] == a[i]; } else { assert ab[i] == b[i - |a|]; }
    }
    forall n | n in Names(a) + Names(b) ensures n in Names(ab) {
      if n in Names(a) {
        var i :| 0 <= i < |a| && a[i].0 == n;
        assert ab[i] == a[i];
      } else {
        var i :| 0 <= i < |b| && b[i].0 == n;
        assert ab[|a| + i] == b[i];
      }
    }
  }

  /** Every appended name is one of `extra`'s. */
  lemma AppendedNames(base: seq<(string, Value)>, extra: seq<(string, Value)>)
    ensures Names(Appended(base, extra)) <= Names(extra)
  {
    var a := Appended(base, extra);
    forall n | n in Names(a) ensures n in Names(extra) {
      var i :| 0 <= i < |a| && a[i].0 == n;
      assert a[i] in a;
      var j :| 0 <= j < |extra| && extra[j] == a[i];
    }
  }

  /** The spread has unique names when both sides do. */
  lemma SpreadUnique(base: seq<(string, Value)>, extra: seq<(string, Value)>)
    requires UniqueNames(base) && UniqueNames(extra)
    ensures UniqueNames(Spread(base, extra))
  {
    OverriddenNames(base, extra);
    AppendedUnique(base, extra);
    AppendedFresh(base, extra);
    UniqueConcat(Overridden(base, extra), Appended(base, extra));
  }

  /**
   * The spread keeps names unique and lets `extra` win: a name takes its value
   * from `extra` when `extra` has it, else from `base`, and is absent when
   * neither has it.
   */
  lemma SpreadLookup(base: seq<(string, Value)>, extra: seq<(string, Value)>, n: string)
    requires UniqueNames(base) && UniqueNames(extra)
    ensures UniqueNames(Spread(base, extra))
    ensures Lookup(Spread(base, extra), n) == if Lookup(extra, n).Some? then Lookup(extra, n) else Lookup(base, n)
  {
    SpreadUnique(base, extra);
    if n in Names(base) {
      var i :| 0 <= i < |base| && base[i].0 == n;
      SpreadAtBase(base, extra, i);
    } else if n in Names(extra) {
      var j :| 0 <= j < |extra| && extra[j].0 == n;
      SpreadAtExtra(base, extra, j);
    } else {
      OverriddenNames(base, extra);
      AppendedNames(base, extra);
      NamesConcat(Overridden(base, extra), Appended(base, extra));
    }
  }

  /** A name of `base` keeps its place and takes `extra`'s value when there is one. */
  lemma SpreadAtBase(base: seq<(string, Value)>, extra: seq<(string, Value)>, i: nat)
    requires UniqueNames(Spread(base, extra)) && UniqueNames(base) && i < |base|
    ensures Lookup(Spread(base, extra), base[i].0) == Some(Lookup(extra, base[i].0).GetOr(base[i].1))
    ensures Lookup(base, base[i].0) == Some(base[i].1)
  {
    LookupAt(base, i);
    assert Spread(base, extra)[i] == Overridden(base, extra)[i];
    LookupAt(Spread(base, extra), i);
  }

  /** A name only `extra` has is found with `extra`'s value. */
  lemma SpreadAtExtra(base: seq<(string, Value)>, extra: seq<(string, Value)>, j: nat)
    requires UniqueNames(Spread(base, extra)) && UniqueNames(extra) && j < |extra| && extra[j].0 !in Names(base)
    ensures Lookup(Spread(base, extra), extra[j].0) == Some(extra[j].1)
    ensures Lookup(extra, extra[j].0) == Some(extra[j].1)
  {
    LookupAt(extra, j);
    var k := AppendedIndex(base, extra, j);
    LookupRight(Overridden(base, extra), Appended(base, extra), k);
  }

  /** An option of the second part of a list with unique names is found with its value. */
  lemma LookupRight(o: seq<(string, Value)>, a: seq<(string, Value)>, k: nat)
    requires UniqueNames(o + a) && k < |a|
    ensures Lookup(o + a, a[k].0) == Some(a[k].1)
  {
    assert (o + a)[|o| + k] == a[k];
    LookupAt(o + a, |o| + k);
  }

  /** `requestLoadCollection`'s request: the entity set under the service root, the load options overridden and extended by `getParams`. */
  function CollectionRequest(d: Definition, apiUrl: Option<string>, getParams: seq<(string, Value)>): (r: Result<Url>)
    ensures r.Ok? <==> apiUrl.Some?
  {
    CreateUrl(Parts([apiUrl, Some(d.entityName)]), Spread(LoadOptions(d), getParams))
  }

  /**
   * The query of a collection request: a parameter the caller passes wins over
   * the load option of the same name (a null one removes it), and any other
   * name is sent as the caller gave it.
   */
  lemma CollectionRequestQuery(d: Definition, apiUrl: Option<string>, getParams: seq<(string, Value)>, n: string, text: string)
    requires UniqueNames(getParams) && CollectionRequest(d, apiUrl, getParams).Ok?
    ensures var v := if Lookup(getParams, n).Some? then Lookup(getParams, n) else Lookup(LoadOptions(d), n);
            ((n, text) in CollectionRequest(d, apiUrl, getParams).value.query
             <==> v.Some? && !IsNullish(v.value) && ToStr(v.value) == text)
  {
    var base := LoadOptions(d);
    assert UniqueNames(base);
    SpreadLookup(base, getParams, n);
    QueryOf(Spread(base, getParams), n, text);
  }

  // ---------------------------------------------------------------------------
  // Preparing the answer

  /** The annotation OData puts on every answer. */
  const ContextKey: string := "@odata.context"

  /**
   * `delete response['@odata.context']`: throws on null or undefined, removes
   * the annotation from an object and leaves its other fields, does nothing
   * to any other value.
   */
  function DropContext(v: Value): (r: Result<Value>)
    ensures r.Err? <==> IsNullish(v)
    ensures r.Err? ==> r.error == TypeError
    ensures r.Ok? && v.Obj? ==> r.value.Obj? && ContextKey !in r.value.fields
    ensures r.Ok? && v.Obj? ==> forall k :: k != ContextKey ==> Field(r.value.fields, k) == Field(v.fields, k)
    ensures r.Ok? && !v.Obj? ==> r.value == v
  {
    if IsNullish(v) then Err(TypeError)
    else if v.Obj? then Ok(Obj(v.fields - {ContextKey}))
    else Ok(v)
  }

  /** `requestLoad` once the answer has arrived: the annotation removed, the dates converted. */
  function PreparedEntity(d: Definition, answer: Value, toDate: string -> int): (r: Result<Value>)
    ensures r.Err? ==> r.error == TypeError
    ensures r.Ok? ==> !IsNullish(answer)
  {
    match DropContext(answer)
    case Err(e) => Err(e)
    case Ok(v) => Dated(d, v, toDate)
  }

  /**
   * `requestLoadCollection` as written: `replaceDates` runs on the whole
   * answer, whose entities sit in its `value` array, so the date keys are
   * looked up on the wrapper instead of on each entity.
   */
  function PreparedCollectionAsWritten(d: Definition, answer: Value, toDate: string -> int): (r: Result<Value>)
    ensures r.Err? ==> r.error == TypeError
  {
    match DropContext(answer)
    case Err(e) => Err(e)
    case Ok(v) => Dated(d, v, toDate)
  }

  /** The entities of a collection answer with their dates converted, each by the collection's definition. */
  function ValueDated(d: Definition, v: Value, toDate: string -> int): (r: Result<Value>)
    requires !IsNullish(v)
    ensures r.Err? ==> r.error == TypeError
    ensures r.Ok? ==> !IsNullish(r.value)
  {
    match Get(v, "value")
    case Ok(x) =>
      if x.Arr? then
        match ItemsDated(d, x.items, toDate)
        case Err(e) => Err(e)
        case Ok(ys) => Ok(Replace(v, "value", Arr(ys)))
      else Ok(v)
  }

  /** `requestLoadCollection` as intended: the annotation removed, then every entity under `value` converted. */
  function PreparedCollection(d: Definition, answer: Value, toDate: string -> int): (r: Result<Value>)
    ensures r.Err? ==> r.error == TypeError
    ensures r.Ok? ==> !IsNullish(answer) && !IsNullish(r.value)
  {
    match DropContext(answer)
    case Err(e) => Err(e)
    case Ok(v) => ValueDated(d, v, toDate)
  }

  /**
   * As written, the entities of a collection answer come back untouched
   * whenever the definition has no date key or child named `value`: none of
   * their date strings is converted.
   */
  lemma WrapperLeavesEntities(d: Definition, m: map<string, Value>, toDate: string -> int)
    requires "value" in m && "value" !in DateKeyList(d) && "value" !in ChildNames(d)
    requires PreparedCollectionAsWritten(d, Obj(m), toDate).Ok?
    ensures var r := PreparedCollectionAsWritten(d, Obj(m), toDate).value;
            r.Obj? && "value" in r.fields && r.fields["value"] == m["value"]
  {
    var v := Obj(m - {ContextKey});
    assert DropContext(Obj(m)) == Ok(v);
    assert "value" in v.fields;
    DatedObject(d, v.fields, toDate);
  }

  /**
   * As intended, every entity of a collection answer is converted on its own:
   * an object entity keeps its field names and every field that is not a
   * child's name is a date exactly when it is a date key holding a string.
   */
  lemma EntitiesConverted(d: Definition, m: map<string, Value>, toDate: string -> int, k: nat)
    requires PreparedCollection(d, Obj(m), toDate).Ok?
    requires Field(m, "value").Arr? && k < |Field(m, "value").items| && Field(m, "value").items[k].Obj?
    ensures var r := PreparedCollection(d, Obj(m), toDate).value;
            var item := Field(m, "value").items[k].fields;
            && r.Obj? && "value" in r.fields && r.fields["value"].Arr?
            && |r.fields["value"].items| == |Field(m, "value").items|
            && r.fields["value"].items[k].Obj?
            && var converted := r.fields["value"].items[k].fields;
               && converted.Keys == item.Keys
               && forall f :: f in item && f !in ChildNames(d) ==> converted[f] == DateField(item[f], f, DateKeyList(d), toDate)
  {
    var v := Obj(m - {ContextKey});
    assert DropContext(Obj(m)) == Ok(v);
    assert Field(v.fields, "value") == Field(m, "value");
    var items := Field(m, "value").items;
    var ys := ItemsDated(d, items, toDate).value;
    assert Dated(d, items[k], toDate) == Ok(ys[k]);
    DatedObject(d, items[k].fields, toDate);
  }

  /** An order set whose `placed` key holds a date. */
  const Orders: Definition :=
    Definition("Order", "id", "", Some(["id", "placed"]), None, Some(["placed"]), Missing, Missing, "")

  /**
   * One collection answer, two preparations: as written the order's `placed`
   * stays the text the service sent; as intended it becomes a date.
   */
  lemma WrapperExample(toDate: string -> int)
    ensures var order := Obj(map["id" := Num(1), "placed" := Str("2024-05-01")]);
            var answer := Obj(map["value" := Arr([order])]);
            && PreparedCollectionAsWritten(Orders, answer, toDate) == Ok(answer)
            && PreparedCollection(Orders, answer, toDate)
               == Ok(Obj(map["value" := Arr([Obj(map["id" := Num(1), "placed" := Date(toDate("2024-05-01"))])])]))
  {
    var order := Obj(map["id" := Num(1), "placed" := Str("2024-05-01")]);
    var answer := Obj(map["value" := Arr([order])]);
    assert answer.fields - {ContextKey} == answer.fields;
    assert DropContext(answer) == Ok(answer);
    assert Get(answer, "placed") == Ok(Undefined);
    assert DateKeys(answer, ["placed"], toDate) == Ok(answer);
    assert Dated(Orders, answer, toDate) == Ok(answer);
    var converted := Obj(map["id" := Num(1), "placed" := Date(toDate("2024-05-01"))]);
    assert order.fields["placed" := Date(toDate("2024-05-01"))] == converted.fields;
    assert DateKeys(order, ["placed"], toDate) == Ok(converted);
    assert Dated(Orders, order, toDate) == Ok(converted);
    assert [order][1..] == [] && [order][0] == order;
    assert ItemsDated(Orders, [], toDate) == Ok([]);
    assert [converted] + [] == [converted];
    assert ItemsDated(Orders, [order], toDate) == Ok([converted]);
    assert answer.fields["value" := Arr([converted])] == map["value" := Arr([converted])];
    assert ValueDated(Orders, answer, toDate) == Ok(Obj(map["value" := Arr([converted])]));
  }

  // ---------------------------------------------------------------------------
  // The loads

  /**
   * An entity record after a load of `data`: nothing is pending, every
   * declared key holds the loaded value and the details are the loaded ones.
   */
  ghost predicate Loaded(r: EntityState, data: Value) {
    && r.changedProperties == map[]
    && (forall k :: k in Keys(r.definition) ==> Field(r.storedProperties, k) == Field(Entries(data), k))
    && r.details == SyncedDetails(r.definition, Entries(data))
  }

  /** A record wiped, synced with `data` and committed is loaded with `data`. */
  lemma CommitSyncedLoaded(r0: EntityState, r1: EntityState, data: Value)
    requires EntitySynced(Wipe(r0).storedProperties, r1, data)
    ensures Loaded(Commit(r1), data)
  {
    var w := Commit(r1);
    forall k | k in Keys(w.definition)
      ensures Field(w.storedProperties, k) == Field(Entries(data), k)
    {
      assert Effective(w, k) == Effective(r1, k);
    }
  }

  /**
   * `entityLoad(entity, apiUrl, headers, id)`: the request for the entity's
   * key; once the answer (`answer`, the outcome of that GET) is prepared, the
   * entity is cleared, synced with it and consolidated, and the prepared
   * answer is returned. A failure before the answer is prepared changes
   * nothing.
   */
  method EntityLoad(s: Store, e: nat, apiUrl: Option<string>, id: Value, answer: Result<Value>, toDate: string -> int)
    returns (request: Result<Url>, r: Result<Value>)
    requires s.Valid() && e in s.entities
    modifies s
    ensures s.Valid() && e in s.entities
    ensures s.entities[e].definition == old(s.entities)[e].definition
    ensures request == LoadRequest(old(s.entities)[e].definition, apiUrl, id)
    ensures request.Err? || answer.Err? || PreparedEntity(old(s.entities)[e].definition, answer.value, toDate).Err? ==>
              r.Err? && s.entities == old(s.entities) && s.collections == old(s.collections) && s.next == old(s.next)
    ensures r.Ok? ==>
              && request.Ok? && answer.Ok?
              && r == PreparedEntity(old(s.entities)[e].definition, answer.value, toDate)
              && Loaded(s.entities[e], r.value)
  {
    var d := s.entities[e].definition;
    request := LoadRequest(d, apiUrl, id);
    if request.Err? {
      return request, Err(request.error);
    }
    if answer.Err? {
      return request, Err(answer.error);
    }
    var cleaned := DropContext(answer.value);
    if cleaned.Err? {
      return request, Err(cleaned.error);
    }
    r := ReplaceDates(d, cleaned.value, toDate);
    if r.Err? {
      return;
    }
    ghost var ents0 := s.entities;
    var _ := Clear.ClearTarget(s, Some(EntityRef(e)));
    ghost var ents1 := s.entities;
    assert ents1[e] == Wipe(ents0[e]);
    var synced := Sync(s, Some(EntityRef(e)), r.value);
    if synced.Err? {
      return request, Err(synced.error);
    }
    ghost var ents2 := s.entities;
    var _ := Consolidate.ConsolidateTarget(s, Some(EntityRef(e)));
    assert s.entities[e] == Commit(ents2[e]);
    CommitSyncedLoaded(ents0[e], ents2[e], r.value);
  }

  /**
   * `entityLoadCollection(collection, apiUrl, headers, getParams)`, with the
   * dates of every entity converted: the request for the entity set; once the
   * answer is prepared, the collection is cleared, synced with the answer's
   * `value` and consolidated, and the prepared answer is returned. A
   * consolidated collection has nothing new and nothing tombstoned.
   */
  method LoadCollection(s: Store, c: nat, apiUrl: Option<string>, getParams: seq<(string, Value)>,
                        answer: Result<Value>, toDate: string -> int)
    returns (request: Result<Url>, r: Result<Value>)
    requires s.Valid() && c in s.collections
    modifies s
    ensures s.Valid() && c in s.collections
    ensures s.collections[c].definition == old(s.collections)[c].definition
    ensures request == CollectionRequest(old(s.collections)[c].definition, apiUrl, getParams)
    ensures request.Err? || answer.Err? || PreparedCollection(old(s.collections)[c].definition, answer.value, toDate).Err? ==>
              r.Err? && s.entities == old(s.entities) && s.collections == old(s.collections) && s.next == old(s.next)
    ensures r.Ok? ==>
              && request.Ok? && answer.Ok?
              && r == PreparedCollection(old(s.collections)[c].definition, answer.value, toDate)
              && s.collections[c].newEntities == [] && s.collections[c].deletedIndices == {}
              && FreshlyLoaded(old(s.entities), s.entities, s.collections[c].storedEntities, Get(r.value, "value").value)
  {
    var d := s.collections[c].definition;
    request := CollectionRequest(d, apiUrl, getParams);
    if request.Err? {
      return request, Err(request.error);
    }
    if answer.Err? {
      return request, Err(answer.error);
    }
    var cleaned := DropContext(answer.value);
    if cleaned.Err? {
      return request, Err(cleaned.error);
    }
    r := ReplaceEntityDates(d, cleaned.value, toDate);
    if r.Err? {
      return;
    }
    ghost var ents0 := s.entities;
    var _ := Clear.ClearTarget(s, Some(CollectionRef(c)));
    ghost var ents1, cols1 := s.entities, s.collections;
    var items := Get(r.value, "value").value;
    var synced := Sync(s, Some(CollectionRef(c)), items);
    if synced.Err? {
      return request, Err(synced.error);
    }
    ghost var ents2, cols2 := s.entities, s.collections;
    var _ := Consolidate.ConsolidateTarget(s, Some(CollectionRef(c)));
    ClearedThenLoaded(ents1, cols1[c], ents2, cols2, s.entities, s.collections, c, items);
  }

  /**
   * The members a collection holds after a load with `data`: one per element
   * of `data` (none when it is not an array), in order, each a record the
   * store did not have before, with no changes, every declared key reading
   * the element's value under it, and the element's detail names as details.
   */
  ghost predicate FreshlyLoaded(ents0: map<nat, EntityState>, ents: map<nat, EntityState>, members: seq<nat>, data: Value) {
    var elements := if data.Arr? then data.items else [];
    && |members| == |elements|
    && forall j :: 0 <= j < |members| ==>
         && members[j] !in ents0 && members[j] in ents
         && ents[members[j]].changedProperties == map[]
         && (forall k :: k in Keys(ents[members[j]].definition) ==>
               Field(ents[members[j]].storedProperties, k) == Field(Entries(elements[j]), k))
         && ents[members[j]].details == SyncedDetails(ents[members[j]].definition, Entries(elements[j]))
  }

  /**
   * A collection emptied by a clear (`r1`), synced with `data` and then
   * consolidated holds, as its stored members, exactly the fresh members the
   * sync created, each committed.
   */
  lemma ClearedThenLoaded(ents1: map<nat, EntityState>, r1: CollectionState,
                          ents2: map<nat, EntityState>, cols2: map<nat, CollectionState>,
                          ents3: map<nat, EntityState>, cols3: map<nat, CollectionState>, c: nat, data: Value)
    requires r1.storedEntities == [] && r1.newEntities == []
    requires c in cols2 && CollectionSynced(ents1, r1, ents2, cols2[c], data)
    requires Applied(Consolidation, ents2, cols2, ents3, cols3, CollectionRef(c))
    ensures FreshlyLoaded(ents1, ents3, cols3[c].storedEntities, data)
  {
    var pk := r1.definition.primaryKey;
    assert Pvs(ents1, []) == [];
    var elements := if data.Arr? then data.items else [];
    assert Outcome([], data, pk) == Ok(([], elements));
    var r2 := cols2[c];
    assert r2.storedEntities == [];
    assert Remaining(r2.storedEntities, r2.deletedIndices) == [];
    var added := r2.newEntities;
    assert cols3[c].storedEntities == added;
    forall j | 0 <= j < |added|
      ensures && added[j] !in ents1 && added[j] in ents3
              && ents3[added[j]].changedProperties == map[]
              && (forall k :: k in Keys(ents3[added[j]].definition) ==>
                    Field(ents3[added[j]].storedProperties, k) == Field(Entries(elements[j]), k))
              && ents3[added[j]].details == SyncedDetails(ents3[added[j]].definition, Entries(elements[j]))
    {
      var m := added[j];
      assert AddedOne(ents1, ents2, m, elements[j]);
      assert m in cols3[c].storedEntities;
      assert ents3[m] == Commit(ents2[m]);
      forall k | k in Keys(ents3[m].definition)
        ensures Field(ents3[m].storedProperties, k) == Field(Entries(elements[j]), k)
      {
        assert Effective(ents3[m], k) == Effective(ents2[m], k);
      }
    }
  }

  /** The dates of every entity under `value`, each converted by `ReplaceDates`. */
  method ReplaceEntityDates(d: Definition, v: Value, toDate: string -> int) returns (r: Result<Value>)
    requires !IsNullish(v)
    ensures r == ValueDated(d, v, toDate)
  {
    var x := Get(v, "value").value;
    if !x.Arr? {
      return Ok(v);
    }
    var converted := ReplaceItemsDates(d, x.items, toDate);
    if converted.Err? {
      return Err(converted.error);
    }
    return Ok(Replace(v, "value", Arr(converted.value)));
  }

  /**
   * `useEntityFromId(definition, apiUrl, headers, id)` as written: the new
   * entity's load is started without the service root or the key, so its
   * request cannot be built and `loaded` never becomes true.
   */
  method UseEntityFromIdAsWritten(s: Store, definition: Definition, apiUrl: Option<string>, id: Value,
                                  answer: Result<Value>, toDate: string -> int)
    returns (e: nat, loaded: bool)
    requires s.Valid() && WellFormed(definition)
    modifies s
    ensures s.Valid() && e == old(s.next) && e in s.entities && s.entities[e].definition == definition
    ensures !loaded
  {
    e := s.UseEntity(definition, None, None, None);
    var request, r := EntityLoad(s, e, None, Undefined, answer, toDate);
    loaded := r.Ok?;
  }

  /**
   * `useEntityFromId(definition, apiUrl, headers, id)` as intended: a new
   * entity loaded by its key; `loaded` becomes true exactly when the load
   * succeeds, so never without a request, an answer and a prepared answer,
   * and then the entity holds the prepared answer.
   */
  method UseEntityFromId(s: Store, definition: Definition, apiUrl: Option<string>, id: Value,
                         answer: Result<Value>, toDate: string -> int)
    returns (e: nat, request: Result<Url>, loaded: bool)
    requires s.Valid() && WellFormed(definition)
    modifies s
    ensures s.Valid() && e == old(s.next) && e in s.entities && s.entities[e].definition == definition
    ensures request == LoadRequest(definition, apiUrl, id)
    ensures request.Err? || answer.Err? || PreparedEntity(definition, answer.value, toDate).Err? ==> !loaded
    ensures loaded ==> answer.Ok? && PreparedEntity(definition, answer.value, toDate).Ok?
                       && Loaded(s.entities[e], PreparedEntity(definition, answer.value, toDate).value)
  {
    e := s.UseEntity(definition, None, None, None);
    var r;
    request, r := EntityLoad(s, e, apiUrl, id, answer, toDate);
    loaded := r.Ok?;
  }
}
