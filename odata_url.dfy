/**
 * `createUrl` of utils/odata.js: joins the parts of a resource URL with single
 * slashes and appends the query parameters that have a value. The parsing done
 * by the `URL` constructor is not modelled: the result is the joined string and
 * the list of name/value pairs appended to `searchParams`, in order.
 */
module ODataUrl {
  import opened JsValues

  /** `urlParts`: a whole URL string, or an array of parts (null/undefined = None). */
  datatype UrlParts = Whole(url: string) | Parts(parts: seq<Option<string>>)

  datatype Url = Url(href: string, query: seq<(string, string)>)

  function TrimTrailingSlash(s: string): string {
    if EndsWith(s, "/") then s[..|s| - 1] else s
  }

  function TrimLeadingSlash(s: string): string {
    if StartsWith(s, "/") then s[1..] else s
  }

  /** One step of the `reduce`: glue `current` onto `accumulated`. */
  function JoinStep(accumulated: string, current: string): string {
    var slashEnd := EndsWith(accumulated, "/");
    var slashStart := StartsWith(current, "/");
    if slashEnd && slashStart then accumulated + current[1..]
    else if !slashEnd && !slashStart then accumulated + "/" + current
    else accumulated + current
  }

  /**
   * Whatever slashes the two sides bring, the seam holds exactly one: one of a
   * doubled slash is dropped, a missing one is added.
   */
  lemma JoinStepSingleSlash(accumulated: string, current: string)
    ensures JoinStep(accumulated, current)
         == TrimTrailingSlash(accumulated) + "/" + TrimLeadingSlash(current)
  {
    var left, right := TrimTrailingSlash(accumulated), TrimLeadingSlash(current);
    if EndsWith(accumulated, "/") {
      assert accumulated == left + "/";
    } else {
      assert accumulated == left;
    }
    if StartsWith(current, "/") {
      assert current == "/" + right;
      assert left + "/" + right == left + current;
    } else {
      assert current == right;
    }
  }

  /** The `reduce` callback folded over the parts after the first. */
  function Fold(accumulated: string, rest: seq<Option<string>>): string
    decreases |rest|
  {
    if rest == [] then accumulated
    else
      var next := if rest[0].None? then accumulated else JoinStep(accumulated, rest[0].value);
      Fold(next, rest[1..])
  }

  /** The parts that are not null/undefined, in order. */
  function Present(parts: seq<Option<string>>): (r: seq<string>)
    ensures |r| <= |parts|
  {
    if parts == [] then []
    else (if parts[0].Some? then [parts[0].value] else []) + Present(parts[1..])
  }

  /** Folding over present parts only. */
  function FoldPresent(accumulated: string, rest: seq<string>): string
    decreases |rest|
  {
    if rest == [] then accumulated else FoldPresent(JoinStep(accumulated, rest[0]), rest[1..])
  }

  /** null/undefined parts after the first contribute nothing to the joined URL. */
  lemma {:induction false} FoldSkipsNullParts(accumulated: string, rest: seq<Option<string>>)
    ensures Fold(accumulated, rest) == FoldPresent(accumulated, Present(rest))
    decreases |rest|
  {
    if rest != [] {
      var next := if rest[0].None? then accumulated else JoinStep(accumulated, rest[0].value);
      FoldSkipsNullParts(next, rest[1..]);
      if rest[0].Some? {
        assert Present(rest) == [rest[0].value] + Present(rest[1..]);
      } else {
        assert Present(rest) == Present(rest[1..]);
      }
    }
  }

  /**
   * The joined URL. An empty array makes the seedless `reduce` throw; a
   * null/undefined first part either makes `endsWith` throw or leaves null for
   * the `URL` constructor, which throws as well.
   */
  function JoinParts(urlParts: UrlParts): (r: Result<string>)
    ensures urlParts.Whole? ==> r == Ok(urlParts.url)
    ensures urlParts.Parts? ==> (r.Err? <==> (urlParts.parts == [] || urlParts.parts[0].None?))
  {
    match urlParts
    case Whole(url) => Ok(url)
    case Parts(parts) =>
      if parts == [] || parts[0].None? then Err(TypeError)
      else Ok(Fold(parts[0].value, parts[1..]))
  }

  /** `for (const name in getParams) if (value != null) url.searchParams.append(name, value)`. */
  function QueryPairs(getParams: seq<(string, Value)>): (r: seq<(string, string)>)
    ensures |r| <= |getParams|
  {
    if getParams == [] then []
    else
      (if IsNullish(getParams[0].1) then [] else [(getParams[0].0, ToStr(getParams[0].1))])
      + QueryPairs(getParams[1..])
  }

  /** A parameter is appended iff it has a value; its text is the value's string form. */
  lemma {:induction false} QueryPairsMembership(getParams: seq<(string, Value)>, name: string, text: string)
    ensures (name, text) in QueryPairs(getParams)
        <==> exists i :: 0 <= i < |getParams| && getParams[i].0 == name
                        && !IsNullish(getParams[i].1) && ToStr(getParams[i].1) == text
  {
    if getParams != [] {
      QueryPairsMembership(getParams[1..], name, text);
      var tail := getParams[1..];
      if exists i :: 0 <= i < |tail| && tail[i].0 == name && !IsNullish(tail[i].1) && ToStr(tail[i].1) == text {
        var i :| 0 <= i < |tail| && tail[i].0 == name && !IsNullish(tail[i].1) && ToStr(tail[i].1) == text;
        assert getParams[i + 1] == tail[i];
      }
      if exists i :: 0 <= i < |getParams| && getParams[i].0 == name && !IsNullish(getParams[i].1) && ToStr(getParams[i].1) == text {
        var i :| 0 <= i < |getParams| && getParams[i].0 == name && !IsNullish(getParams[i].1) && ToStr(getParams[i].1) == text;
        if i > 0 { assert tail[i - 1] == getParams[i]; }
      }
    }
  }

  /** A parameter whose name no other parameter carries is appended exactly when it has a value. */
  lemma UniqueParamAppended(getParams: seq<(string, Value)>, i: nat, text: string)
    requires i < |getParams|
    requires forall j :: 0 <= j < |getParams| && j != i ==> getParams[j].0 != getParams[i].0
    ensures (getParams[i].0, text) in QueryPairs(getParams)
        <==> !IsNullish(getParams[i].1) && ToStr(getParams[i].1) == text
  {
    QueryPairsMembership(getParams, getParams[i].0, text);
  }

  /** `createUrl(urlParts, getParams)`. */
  function CreateUrl(urlParts: UrlParts, getParams: seq<(string, Value)>): (r: Result<Url>)
    ensures r.Ok? <==> JoinParts(urlParts).Ok?
    ensures r.Ok? ==> r.value.href == JoinParts(urlParts).value && |r.value.query| <= |getParams|
  {
    var href :- JoinParts(urlParts);
    Ok(Url(href, QueryPairs(getParams)))
  }
}
