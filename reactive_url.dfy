/**
 * `useUrl` of composable/url.js: the same part joining and parameter
 * filtering as `createUrl`, except that the URL, each of its parts and each
 * parameter may be a Vue ref, unwrapped with `unref` before use.
 */
module ReactiveUrl {
  import opened JsValues
  import opened ODataUrl

  /** A value or a ref holding one. */
  datatype MaybeRef<T> = Plain(v: T) | Ref(inner: T)

  function Unref<T>(x: MaybeRef<T>): T {
    match x
    case Plain(v) => v
    case Ref(v) => v
  }

  datatype RefUrlParts = RefWhole(url: MaybeRef<string>) | RefParts(parts: seq<MaybeRef<Option<string>>>)

  function UnrefAll(parts: seq<MaybeRef<Option<string>>>): (r: seq<Option<string>>)
    ensures |r| == |parts|
    ensures forall i :: 0 <= i < |parts| ==> r[i] == Unref(parts[i])
  {
    seq(|parts|, i requires 0 <= i < |parts| => Unref(parts[i]))
  }

  /**
   * The joined URL. With a single element the `reduce` callback never runs and
   * the element itself, not unwrapped, reaches the `URL` constructor: a ref
   * renders as "[object Object]", which is no URL.
   */
  function JoinRefParts(urlParts: RefUrlParts): Result<string> {
    match urlParts
    case RefWhole(url) => Ok(Unref(url))
    case RefParts(parts) =>
      if parts == [] then Err(TypeError)
      else if |parts| == 1 then
        (match parts[0]
         case Plain(Some(s)) => Ok(s)
         case _ => Err(TypeError))
      else
        var first := Unref(parts[0]);
        if first.None? then Err(TypeError) else Ok(Fold(first.value, UnrefAll(parts[1..])))
  }

  /**
   * Apart from a lone ref part, joining refs gives what `createUrl` gives on
   * the unwrapped parts: one slash per seam, null/undefined parts skipped.
   */
  lemma JoinRefPartsAgreesWithCreateUrl(parts: seq<MaybeRef<Option<string>>>)
    requires |parts| != 1 || parts[0].Plain?
    ensures JoinRefParts(RefParts(parts)) == JoinParts(Parts(UnrefAll(parts)))
  {
    if |parts| > 1 {
      assert UnrefAll(parts)[1..] == UnrefAll(parts[1..]);
    }
  }

  /** `String(x)` of what `searchParams.append` receives. */
  function RefText(x: MaybeRef<Value>): string {
    match x
    case Plain(v) => ToStr(v)
    case Ref(_) => "[object Object]"
  }

  /**
   * Parameters AS WRITTEN: the test unwraps the value, but the raw parameter,
   * possibly a ref, is what gets appended.
   */
  function RefQueryPairsAsWritten(getParams: seq<(string, MaybeRef<Value>)>): (r: seq<(string, string)>)
    ensures |r| <= |getParams|
  {
    if getParams == [] then []
    else
      (if IsNullish(Unref(getParams[0].1)) then [] else [(getParams[0].0, RefText(getParams[0].1))])
      + RefQueryPairsAsWritten(getParams[1..])
  }

  /** A ref parameter holding 10 is sent as "[object Object]" rather than "10". */
  lemma RefParamSentAsObjectText()
    ensures RefQueryPairsAsWritten([("$top", Ref(Num(10)))]) == [("$top", "[object Object]")]
    ensures RefQueryPairs([("$top", Ref(Num(10)))]) == [("$top", "10")]
  {
    assert NatToString(1) == "1";
    assert NatToString(10) == "10";
  }

  function UnrefParams(getParams: seq<(string, MaybeRef<Value>)>): (r: seq<(string, Value)>)
    ensures |r| == |getParams|
  {
    seq(|getParams|, i requires 0 <= i < |getParams| => (getParams[i].0, Unref(getParams[i].1)))
  }

  /** Parameters as evidently intended: the unwrapped value is appended. */
  function RefQueryPairs(getParams: seq<(string, MaybeRef<Value>)>): (r: seq<(string, string)>)
    ensures r == QueryPairs(UnrefParams(getParams))
  {
    if getParams == [] then []
    else
      assert UnrefParams(getParams)[1..] == UnrefParams(getParams[1..]);
      (if IsNullish(Unref(getParams[0].1)) then [] else [(getParams[0].0, ToStr(Unref(getParams[0].1)))])
      + RefQueryPairs(getParams[1..])
  }

  /**
   * With the unwrapped value appended, a parameter is sent iff its unwrapped
   * value is not null/undefined, under its unwrapped value's text.
   */
  lemma RefQueryPairsMembership(getParams: seq<(string, MaybeRef<Value>)>, name: string, text: string)
    ensures (name, text) in RefQueryPairs(getParams)
        <==> exists i :: 0 <= i < |getParams| && getParams[i].0 == name
                        && !IsNullish(Unref(getParams[i].1)) && ToStr(Unref(getParams[i].1)) == text
  {
    var plain := UnrefParams(getParams);
    QueryPairsMembership(plain, name, text);
    if exists i :: 0 <= i < |plain| && plain[i].0 == name && !IsNullish(plain[i].1) && ToStr(plain[i].1) == text {
      var i :| 0 <= i < |plain| && plain[i].0 == name && !IsNullish(plain[i].1) && ToStr(plain[i].1) == text;
      assert getParams[i].0 == name && Unref(getParams[i].1) == plain[i].1;
    }
    if exists i :: 0 <= i < |getParams| && getParams[i].0 == name
                   && !IsNullish(Unref(getParams[i].1)) && ToStr(Unref(getParams[i].1)) == text {
      var i :| 0 <= i < |getParams| && getParams[i].0 == name
               && !IsNullish(Unref(getParams[i].1)) && ToStr(Unref(getParams[i].1)) == text;
      assert plain[i] == (name, Unref(getParams[i].1));
    }
  }

  /** `useUrl(urlParts, getParams).url.value`, with the unwrapped parameter values appended. */
  function UseUrl(urlParts: MaybeRef<RefUrlParts>, getParams: MaybeRef<seq<(string, MaybeRef<Value>)>>): (r: Result<Url>)
    ensures r.Ok? <==> JoinRefParts(Unref(urlParts)).Ok?
    ensures r.Ok? ==> r.value.query == QueryPairs(UnrefParams(Unref(getParams)))
  {
    var href :- JoinRefParts(Unref(urlParts));
    Ok(Url(href, RefQueryPairs(Unref(getParams))))
  }
}
