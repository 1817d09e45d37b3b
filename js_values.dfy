/**
 * Plain JavaScript data as the library sees it: the JSON-like values that
 * travel between the server, the entity records and the list views, plus the
 * few language operations the library relies on (truthiness, `== null`,
 * `typeof x === 'object'`, property reads, template-literal rendering,
 * canonical array indices and `Array.prototype.join`).
 */
module JsValues {

  datatype Option<+T> = None | Some(value: T) {
    function GetOr(default: T): T {
      match this
      case Some(v) => v
      case None => default
    }
  }

  /** A JavaScript exception that the library lets escape. */
  datatype Error =
    | TypeError            // a property read on null/undefined, a call of a missing method, ...
    | InvalidPath          // an `Error` the library throws itself for a malformed path or argument
    | SyntaxError          // `JSON.parse` of a text that is not JSON (the text of undefined)

  datatype Result<+T> = Ok(value: T) | Err(error: Error) {
    predicate IsFailure() { Err? }
    function PropagateFailure<U>(): Result<U> requires Err? { Err(error) }
    function Extract(): T requires Ok? { value }
  }

  /**
   * A plain value. Numbers are integers; `Date` carries its time value.
   * Object fields are a map, so the insertion order of keys is not kept.
   */
  datatype Value =
    | Undefined
    | Null
    | Bool(b: bool)
    | Num(n: int)
    | Str(s: string)
    | Date(time: int)
    | Arr(items: seq<Value>)
    | Obj(fields: map<string, Value>)

  /** `v == null` (loose equality: null or undefined). */
  predicate IsNullish(v: Value) {
    v.Undefined? || v.Null?
  }

  /** JavaScript truthiness. */
  predicate Truthy(v: Value) {
    match v
    case Undefined => false
    case Null => false
    case Bool(b) => b
    case Num(n) => n != 0
    case Str(s) => s != ""
    case _ => true
  }

  /** `typeof v === 'object'` (which holds for null). */
  predicate IsObjectType(v: Value) {
    v.Null? || v.Date? || v.Arr? || v.Obj?
  }

  /** Reading an own field of a plain object; a missing field reads as undefined. */
  function Field(fields: map<string, Value>, k: string): Value {
    if k in fields then fields[k] else Undefined
  }

  // ---------------------------------------------------------------------------
  // Decimal rendering and canonical array indices

  function DigitChar(d: nat): char
    requires d < 10
  {
    "0123456789"[d]
  }

  predicate IsDigit(c: char) {
    '0' <= c <= '9'
  }

  function DigitValue(c: char): nat
    requires IsDigit(c)
  {
    (c as int - '0' as int) as nat
  }

  /** `String(n)` for a natural number. */
  function NatToString(n: nat): (r: string)
    ensures |r| > 0
    ensures forall i :: 0 <= i < |r| ==> IsDigit(r[i])
    ensures r[0] == '0' ==> n == 0 && r == "0"
  {
    if n < 10 then [DigitChar(n)] else NatToString(n / 10) + [DigitChar(n % 10)]
  }

  /** `String(n)` for an integer. */
  function IntToString(n: int): string {
    if n < 0 then "-" + NatToString(-n) else NatToString(n)
  }

  /** The number a run of decimal digits denotes. */
  function DigitsValue(s: string): nat
    requires forall i :: 0 <= i < |s| ==> IsDigit(s[i])
  {
    if |s| == 0 then 0 else DigitsValue(s[..|s| - 1]) * 10 + DigitValue(s[|s| - 1])
  }

  lemma {:induction false} DigitsValueOfNatToString(n: nat)
    ensures DigitsValue(NatToString(n)) == n
  {
    var r := NatToString(n);
    if n >= 10 {
      DigitsValueOfNatToString(n / 10);
      assert r[..|r| - 1] == NatToString(n / 10);
    }
  }

  /** Canonical array-index strings: digits, no leading zero except "0" itself. */
  predicate IsCanonicalIndex(s: string) {
    |s| > 0 && (forall i :: 0 <= i < |s| ==> IsDigit(s[i])) && (s[0] == '0' ==> s == "0")
  }

  /** The array index a property name denotes, if any. */
  function ParseIndex(s: string): (r: Option<nat>)
    ensures r.Some? <==> IsCanonicalIndex(s)
  {
    if IsCanonicalIndex(s) then Some(DigitsValue(s)) else None
  }

  /** Index names and numbers correspond one to one. */
  lemma ParseIndexRoundTrip(n: nat)
    ensures ParseIndex(NatToString(n)) == Some(n)
  {
    DigitsValueOfNatToString(n);
  }

  // ---------------------------------------------------------------------------
  // Property reads

  /**
   * `v[k]` for a string property name: a TypeError on null/undefined, own fields
   * of objects, elements and `length` of arrays and strings, undefined otherwise.
   * Members inherited from prototypes (methods) are not modelled.
   */
  function Get(v: Value, k: string): (r: Result<Value>)
    ensures r.Err? <==> IsNullish(v)
  {
    match v
    case Undefined => Err(TypeError)
    case Null => Err(TypeError)
    case Obj(f) => Ok(Field(f, k))
    case Arr(items) =>
      if k == "length" then Ok(Num(|items|))
      else (match ParseIndex(k)
            case Some(i) => if i < |items| then Ok(items[i]) else Ok(Undefined)
            case None => Ok(Undefined))
    case Str(s) =>
      if k == "length" then Ok(Num(|s|))
      else (match ParseIndex(k)
            case Some(i) => if i < |s| then Ok(Str([s[i]])) else Ok(Undefined)
            case None => Ok(Undefined))
    case _ => Ok(Undefined)
  }

  /** `a.join(sep)` over strings. */
  function Join(parts: seq<string>, sep: string): (r: string)
    ensures parts == [] ==> r == ""
    ensures |parts| == 1 ==> r == parts[0]
  {
    if |parts| == 0 then ""
    else if |parts| == 1 then parts[0]
    else Join(parts[..|parts| - 1], sep) + sep + parts[|parts| - 1]
  }

  /** With a non-empty separator, a join is empty only for no parts or one empty part. */
  lemma JoinIsEmpty(parts: seq<string>, sep: string)
    requires |sep| > 0
    ensures Join(parts, sep) == "" <==> parts == [] || parts == [""]
  {
    if |parts| >= 2 {
      assert |Join(parts, sep)| >= |sep|;
    }
  }

  /** An opaque rendering of a date's time value (the source uses `Date.prototype.toString`). */
  function DateText(time: int): string {
    "Date(" + IntToString(time) + ")"
  }

  /** Template-literal rendering `${v}`. */
  function ToStr(v: Value): string {
    match v
    case Undefined => "undefined"
    case Null => "null"
    case Bool(b) => if b then "true" else "false"
    case Num(n) => IntToString(n)
    case Str(s) => s
    case Date(t) => DateText(t)
    case Arr(items) => Join(seq(|items|, i requires 0 <= i < |items| =>
                             if IsNullish(items[i]) then "" else ToStr(items[i])), ",")
    case Obj(_) => "[object Object]"
  }

  predicate StartsWith(s: string, p: string) {
    |p| <= |s| && s[..|p|] == p
  }

  predicate EndsWith(s: string, p: string) {
    |p| <= |s| && s[|s| - |p|..] == p
  }
}
