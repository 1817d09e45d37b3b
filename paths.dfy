/**
 * Slash-delimited property paths over plain records (utils/properties.js, and
 * the identical copies in utils/list-view.js). A step whose first character is
 * `*` fans out: from there on the path is applied to every item of the array
 * found at that step. Only the first starred step fans out.
 *
 * `parsePropertiesFromPath` rewrites fields of the record in place; here it
 * returns the rewritten record instead.
 */
module Paths {
  import opened JsValues

  /** `path.split('/')`. */
  function Split(s: string): (r: seq<string>)
    ensures |r| >= 1
  {
    if |s| == 0 then [""]
    else
      var rest := Split(s[1..]);
      if s[0] == '/' then [""] + rest else [[s[0]] + rest[0]] + rest[1..]
  }

  /** No step contains the separator. */
  lemma {:induction false} SplitStepsHaveNoSlash(s: string)
    ensures forall i, j :: 0 <= i < |Split(s)| && 0 <= j < |Split(s)[i]| ==> Split(s)[i][j] != '/'
  {
    if |s| > 0 {
      SplitStepsHaveNoSlash(s[1..]);
    }
  }

  /** `step[0] === '*'` (an empty step has no first character). */
  predicate IsStar(step: string) {
    |step| > 0 && step[0] == '*'
  }

  /** `isPathMultiple(path)`: some step starts with `*`. */
  function IsPathMultiple(path: string): (r: bool)
    ensures r <==> exists step :: step in Split(path) && IsStar(step)
  {
    var steps := Split(path);
    AnyStar(steps)
  }

  function AnyStar(steps: seq<string>): (r: bool)
    ensures r <==> exists i :: 0 <= i < |steps| && IsStar(steps[i])
  {
    if steps == [] then false else IsStar(steps[0]) || AnyStar(steps[1..])
  }

  /** `steps.findIndex(step => step[0] === '*')`, when some step is starred. */
  function FirstStar(steps: seq<string>): (m: nat)
    requires exists i :: 0 <= i < |steps| && IsStar(steps[i])
    ensures m < |steps| && IsStar(steps[m])
    ensures forall i :: 0 <= i < m ==> !IsStar(steps[i])
  {
    if IsStar(steps[0]) then 0
    else
      assert exists i :: 0 <= i < |steps[1..]| && IsStar(steps[1..][i]) by {
        var i :| 0 <= i < |steps| && IsStar(steps[i]);
        assert steps[1..][i - 1] == steps[i];
      }
      1 + FirstStar(steps[1..])
  }

  /**
   * `while (level && steps.length > 0) level = level[steps.shift()]`: follows
   * the steps and stops, without error, at the first falsy value.
   */
  function Walk(level: Value, steps: seq<string>): (r: Value)
    ensures !Truthy(level) ==> r == level
    ensures steps == [] ==> r == level
    decreases |steps|
  {
    if !Truthy(level) || steps == [] then level
    else Walk(Get(level, steps[0]).value, steps[1..])
  }

  /** Walking a path in two pieces is walking it in one. */
  lemma {:induction false} WalkAppend(level: Value, a: seq<string>, b: seq<string>)
    ensures Walk(level, a + b) == Walk(Walk(level, a), b)
    decreases |a|
  {
    if Truthy(level) && a != [] {
      assert (a + b)[1..] == a[1..] + b;
      WalkAppend(Get(level, a[0]).value, a[1..], b);
    } else if a == [] {
      assert a + b == b;
    }
  }

  /** A walk either follows every step or ends on the falsy value it met. */
  lemma {:induction false} WalkEndsFalsyOrComplete(level: Value, steps: seq<string>)
    ensures Truthy(Walk(level, steps)) ==>
              forall k :: 0 <= k < |steps| ==> Truthy(Walk(level, steps[..k]))
    decreases |steps|
  {
    if Truthy(level) && steps != [] {
      var next := Get(level, steps[0]).value;
      WalkEndsFalsyOrComplete(next, steps[1..]);
      if Truthy(Walk(level, steps)) {
        forall k | 0 <= k < |steps| ensures Truthy(Walk(level, steps[..k])) {
          if k > 0 {
            assert steps[..k][1..] == steps[1..][..k - 1];
          }
        }
      }
    }
  }

  /** The head of a starred path: the steps up to the star, the star stripped. */
  function StarHead(steps: seq<string>, m: nat): (head: seq<string>)
    requires m < |steps| && IsStar(steps[m])
    ensures |head| == m + 1 && head[..m] == steps[..m] && head[m] == steps[m][1..]
  {
    steps[..m] + [steps[m][1..]]
  }

  /**
   * `getValueFromPath(path, entity)`. A fan-out over something that is not an
   * array throws (`level.map` is missing).
   */
  function GetValueFromPath(path: Value, entity: Value): Result<Value> {
    if !path.Str? then Ok(Undefined)
    else
      var steps := Split(path.s);
      if !AnyStar(steps) then Ok(Walk(entity, steps))
      else
        var m := FirstStar(steps);
        var level := Walk(entity, StarHead(steps, m));
        var rest := steps[m + 1..];
        if rest == [] then Ok(level)
        else if level.Arr? then Ok(Arr(FanOut(level.items, rest)))
        else Err(TypeError)
  }

  /** `level.map(root => ...)`: every item walked along the remaining steps. */
  function FanOut(items: seq<Value>, rest: seq<string>): (r: seq<Value>)
    ensures |r| == |items| && forall i :: 0 <= i < |items| ==> r[i] == Walk(items[i], rest)
  {
    seq(|items|, i requires 0 <= i < |items| => Walk(items[i], rest))
  }

  // ---------------------------------------------------------------------------
  // Writing through a path

  /**
   * `level[key] = value` in strict-mode code: objects get the field, arrays an
   * existing slot; null, undefined and primitives throw. Growing an array or
   * adding a property to a date is outside the model (reported as TypeError).
   */
  function SetAt(level: Value, key: string, value: Value): (r: Result<Value>)
    ensures r.Ok? ==> (level.Obj? || level.Arr?) && r.value.Obj? == level.Obj? && r.value.Arr? == level.Arr?
    ensures r.Ok? ==> Get(r.value, key) == Ok(value)
  {
    match level
    case Obj(f) => Ok(Obj(f[key := value]))
    case Arr(items) =>
      if key != "length" && ParseIndex(key).Some? && ParseIndex(key).value < |items|
      then Ok(Arr(items[ParseIndex(key).value := value]))
      else Err(TypeError)
    case _ => Err(TypeError)
  }

  /**
   * Walk to the parent of the last step (stopping at a falsy value), read the
   * field named by the last step, and store `t` of it there.
   */
  function Update(level: Value, steps: seq<string>, t: Value -> Result<Value>): (r: Result<Value>)
    requires |steps| >= 1
    decreases |steps|
  {
    if |steps| == 1 then
      var current :- Get(level, steps[0]);
      var updated :- t(current);
      SetAt(level, steps[0], updated)
    else if !Truthy(level) then Err(TypeError)
    else
      var child := Get(level, steps[0]).value;
      var updated :- Update(child, steps[1..], t);
      SetAt(level, steps[0], updated)
  }

  /** After a successful update, the path reads back `t` of what it read before. */
  lemma {:induction false} UpdateThenWalk(level: Value, steps: seq<string>, t: Value -> Result<Value>)
    requires |steps| >= 1
    requires Update(level, steps, t).Ok?
    ensures t(Walk(level, steps)).Ok?
    ensures Walk(Update(level, steps, t).value, steps) == t(Walk(level, steps)).value
    decreases |steps|
  {
    var r := Update(level, steps, t).value;
    if |steps| == 1 {
      assert Truthy(level) && Truthy(r);
    } else {
      var child := Get(level, steps[0]).value;
      UpdateThenWalk(child, steps[1..], t);
    }
  }

  /** `level[last] = property.parse(level[last], property)`. */
  function ApplyParse(parse: Value -> Value): Value -> Result<Value> {
    (v: Value) => Ok(parse(v))
  }

  /** `level[last] = level[last].map(item => property.parse(item, property))`. */
  function MapParse(parse: Value -> Value): Value -> Result<Value> {
    (v: Value) => if v.Arr? then Ok(Arr(seq(|v.items|, i requires 0 <= i < |v.items| => parse(v.items[i]))))
         else Err(TypeError)
  }

  /** `level.forEach(root => ...)` applying the remaining steps to every item. */
  function ForEachUpdate(rest: seq<string>, parse: Value -> Value): Value -> Result<Value>
    requires |rest| >= 1
  {
    (v: Value) => if v.Arr? then UpdateItems(v.items, rest, parse) else Err(TypeError)
  }

  function UpdateItems(items: seq<Value>, rest: seq<string>, parse: Value -> Value): (r: Result<Value>)
    requires |rest| >= 1
    ensures r.Ok? ==> r.value.Arr? && |r.value.items| == |items|
    ensures r.Ok? ==> forall i :: 0 <= i < |items| ==> Update(items[i], rest, ApplyParse(parse)) == Ok(r.value.items[i])
  {
    if items == [] then Ok(Arr([]))
    else
      var first :- Update(items[0], rest, ApplyParse(parse));
      var others :- UpdateItems(items[1..], rest, parse);
      Ok(Arr([first] + others.items))
  }

  /**
   * `parsePropertiesFromPath(property, entity)` AS WRITTEN. When the star is on
   * the last step, the key used for the array is `steps[0]` of the now empty
   * remainder, i.e. the property named "undefined".
   */
  function ParsePropertiesFromPathAsWritten(path: string, parse: Value -> Value, entity: Value): Result<Value> {
    var steps := Split(path);
    if !AnyStar(steps) then Update(entity, steps, ApplyParse(parse))
    else
      var m := FirstStar(steps);
      if m == |steps| - 1 then Update(entity, steps[..m] + ["undefined"], MapParse(parse))
      else Update(entity, StarHead(steps, m), ForEachUpdate(steps[m + 1..], parse))
  }

  /** A star on the last step fails even when the starred field holds an array. */
  lemma StarOnLastStepFailsAsWritten(parse: Value -> Value)
    ensures ParsePropertiesFromPathAsWritten("*a", parse, Obj(map["a" := Arr([Num(1)])])).Err?
    ensures ParsePropertiesFromPath("*a", parse, Obj(map["a" := Arr([Num(1)])]))
            == Ok(Obj(map["a" := Arr([parse(Num(1))])]))
  {
    assert Split("*a") == ["*a"] by {
      assert "*a"[1..] == "a" && "a"[1..] == "";
      assert Split("") == [""];
      assert ['a'] + Split("")[0] == "a";
      assert Split("a") == ["a"];
      assert ['*'] + Split("a")[0] == "*a";
    }
    assert IsStar(["*a"][0]);
    assert FirstStar(["*a"]) == 0;
    assert StarHead(["*a"], 0) == ["a"];
    var entity := Obj(map["a" := Arr([Num(1)])]);
    assert (["*a"][..0] + ["undefined"]) == ["undefined"];
    assert Get(entity, "undefined") == Ok(Undefined);
    assert Get(entity, "a") == Ok(Arr([Num(1)]));
    var parsed := Arr([parse(Num(1))]);
    var items := [Num(1)];
    assert seq(|items|, i requires 0 <= i < |items| => parse(items[i])) == parsed.items;
    assert MapParse(parse)(Arr([Num(1)])) == Ok(parsed);
    assert map["a" := Arr([Num(1)])]["a" := parsed] == map["a" := parsed];
  }

  /** Walking an updated array's items along the remaining steps reads each item's parse. */
  lemma {:induction false} UpdatedItemsRead(items: seq<Value>, rest: seq<string>, parse: Value -> Value)
    requires |rest| >= 1 && UpdateItems(items, rest, parse).Ok?
    ensures var after := UpdateItems(items, rest, parse).value.items;
            forall i :: 0 <= i < |items| ==> Walk(after[i], rest) == parse(Walk(items[i], rest))
  {
    var after := UpdateItems(items, rest, parse).value.items;
    forall i | 0 <= i < |items| ensures Walk(after[i], rest) == parse(Walk(items[i], rest)) {
      UpdateThenWalk(items[i], rest, ApplyParse(parse));
    }
  }
  /**
   * Reading `path` from `parsed` gives `parse` of what it reads from `entity`:
   * for a path without a star the value itself, for a starred path an array
   * of the same length whose every item is the parse of the item read before.
   */
  predicate ReadsParsed(path: string, parse: Value -> Value, entity: Value, parsed: Value) {
    var before := GetValueFromPath(Str(path), entity);
    var after := GetValueFromPath(Str(path), parsed);
    && before.Ok? && after.Ok?
    && (!IsPathMultiple(path) ==> after.value == parse(before.value))
    && (IsPathMultiple(path) ==>
          before.value.Arr? && after.value.Arr? && |after.value.items| == |before.value.items|
          && forall i :: 0 <= i < |before.value.items| ==> after.value.items[i] == parse(before.value.items[i]))
  }

  lemma UnstarredReadsParsed(path: string, parse: Value -> Value, entity: Value)
    requires !AnyStar(Split(path)) && Update(entity, Split(path), ApplyParse(parse)).Ok?
    ensures ReadsParsed(path, parse, entity, Update(entity, Split(path), ApplyParse(parse)).value)
  {
    UpdateThenWalk(entity, Split(path), ApplyParse(parse));
  }

  lemma StarLastReadsParsed(path: string, parse: Value -> Value, entity: Value)
    requires AnyStar(Split(path)) && FirstStar(Split(path)) == |Split(path)| - 1
    requires Update(entity, StarHead(Split(path), |Split(path)| - 1), MapParse(parse)).Ok?
    ensures ReadsParsed(path, parse, entity, Update(entity, StarHead(Split(path), |Split(path)| - 1), MapParse(parse)).value)
  {
    var steps := Split(path);
    var m := |steps| - 1;
    var head := StarHead(steps, m);
    var parsed := Update(entity, head, MapParse(parse)).value;
    assert steps[m + 1..] == [];
    assert GetValueFromPath(Str(path), entity) == Ok(Walk(entity, head));
    assert GetValueFromPath(Str(path), parsed) == Ok(Walk(parsed, head));
    UpdateThenWalk(entity, head, MapParse(parse));
    var before := Walk(entity, head);
    assert MapParse(parse)(before).Ok?;
    assert before.Arr?;
  }

  lemma FanOutReadsParsed(path: string, parse: Value -> Value, entity: Value)
    requires AnyStar(Split(path)) && FirstStar(Split(path)) < |Split(path)| - 1
    requires var steps := Split(path); var m := FirstStar(steps);
             Update(entity, StarHead(steps, m), ForEachUpdate(steps[m + 1..], parse)).Ok?
    ensures var steps := Split(path); var m := FirstStar(steps);
            ReadsParsed(path, parse, entity, Update(entity, StarHead(steps, m), ForEachUpdate(steps[m + 1..], parse)).value)
  {
    var steps := Split(path);
    var m := FirstStar(steps);
    var head := StarHead(steps, m);
    var rest := steps[m + 1..];
    var t := ForEachUpdate(rest, parse);
    var parsed := Update(entity, head, t).value;
    UpdateThenWalk(entity, head, t);
    var level := Walk(entity, head);
    assert t(level).Ok?;
    assert level.Arr?;
    UpdatedItemsRead(level.items, rest, parse);
    assert Walk(parsed, head) == UpdateItems(level.items, rest, parse).value;
  }

  /**
   * `parsePropertiesFromPath(property, entity)` as evidently intended: a star
   * on the last step maps `parse` over the array at the star-stripped step.
   * What the path reads afterwards is `parse` of what it read before, item by
   * item under a star.
   */
  function ParsePropertiesFromPath(path: string, parse: Value -> Value, entity: Value): (r: Result<Value>)
    ensures !IsPathMultiple(path) && r.Ok? ==>
              Walk(r.value, Split(path)) == parse(Walk(entity, Split(path)))
    ensures r.Ok? ==> ReadsParsed(path, parse, entity, r.value)
  {
    var steps := Split(path);
    if !AnyStar(steps) then
      var r := Update(entity, steps, ApplyParse(parse));
      if r.Err? then r
      else UpdateThenWalk(entity, steps, ApplyParse(parse)); UnstarredReadsParsed(path, parse, entity); r
    else
      var m := FirstStar(steps);
      if m == |steps| - 1 then
        var r := Update(entity, StarHead(steps, m), MapParse(parse));
        if r.Err? then r else StarLastReadsParsed(path, parse, entity); r
      else
        var r := Update(entity, StarHead(steps, m), ForEachUpdate(steps[m + 1..], parse));
        if r.Err? then r else FanOutReadsParsed(path, parse, entity); r
  }

  /** With a star on the last step, the array at that step reads back element-wise parsed. */
  lemma StarLastParsesEveryItem(path: string, parse: Value -> Value, entity: Value)
    requires IsPathMultiple(path) && FirstStar(Split(path)) == |Split(path)| - 1
    requires ParsePropertiesFromPath(path, parse, entity).Ok?
    ensures var head := StarHead(Split(path), |Split(path)| - 1);
            var before := Walk(entity, head);
            var after := Walk(ParsePropertiesFromPath(path, parse, entity).value, head);
            before.Arr? && after.Arr? && |after.items| == |before.items|
            && forall i :: 0 <= i < |before.items| ==> after.items[i] == parse(before.items[i])
  {
    var steps := Split(path);
    var head := StarHead(steps, |steps| - 1);
    assert AnyStar(steps);
    assert ParsePropertiesFromPath(path, parse, entity) == Update(entity, head, MapParse(parse));
    UpdateThenWalk(entity, head, MapParse(parse));
    var before := Walk(entity, head);
    assert MapParse(parse)(before).Ok?;
  }
}
