/**
 * `clone` of utils/object.js: a structural deep copy. Dates are rebuilt from
 * their time value, arrays element by element, plain objects field by field;
 * anything else (primitives, null, undefined) is returned as it is.
 */
module ObjectClone {
  import opened JsValues

  function Clone(v: Value): (r: Value)
    ensures r == v
  {
    match v
    case Date(t) => Date(t)
    // `object.map(item => clone(item))`
    case Arr(items) =>
      var copy := seq(|items|, i requires 0 <= i < |items| => Clone(items[i]));
      assert copy == items;
      Arr(copy)
    // `Object.fromEntries(entries(object).map(([name, value]) => [name, clone(value)]))`
    case Obj(fields) =>
      var copy := map k | k in fields :: Clone(fields[k]);
      assert copy == fields;
      Obj(copy)
    case _ => v
  }
}
