/**
 * The list-view helpers of utils/list-view.js: the query options of a detail
 * list (`$select`, `$expand`, `$orderby`, `$filter`, paging) and of an
 * aggregated list (`$apply`, `$orderby`), the parsing of the rows a server
 * returns, and the table rows built from them. The path readers of that file
 * are the ones of utils/properties.js (module Paths). The request itself is a
 * parameter: the rows it returned, or its failure.
 */
module ListView {
  import opened JsValues
  import opened ODataUrl
  import opened Paths

  /** `property.aggregate`: absent, a string expression, or an object with its own parser. */
  datatype Aggregate =
    | NoAggregate
    | Expression(text: string)
    | Detailed(expression: string, parse: Option<Value -> Value>)

  /**
   * A list-view property. An empty `select` or `expand` stands for a missing
   * (falsy) one; `path` is None when it is not a string.
   */
  datatype Property = Property(
    select: string,
    expand: string,
    path: Option<string>,
    parse: Option<Value -> Value>,
    aggregate: Aggregate)

  datatype Order = Order(sentence: string, direction: string)

  datatype Column = Column(property: Property, propertyIndex: nat)

  // ---------------------------------------------------------------------------
  // Query options

  /** `list.filter(x => x).join() || undefined` over strings. */
  function NonEmpty(names: seq<string>): (r: seq<string>)
    ensures forall i :: 0 <= i < |r| ==> r[i] != ""
    ensures forall x :: x in r <==> x in names && x != ""
  {
    if names == [] then []
    else (if names[0] != "" then [names[0]] else []) + NonEmpty(names[1..])
  }

  /** `parts.join() || undefined` for parts that are all non-empty. */
  function JoinOrUndefined(parts: seq<string>): (r: Value)
    requires forall i :: 0 <= i < |parts| ==> parts[i] != ""
    ensures r == Undefined <==> parts == []
    ensures r != Undefined ==> r == Str(Join(parts, ","))
  {
    JoinIsEmpty(parts, ",");
    var joined := Join(parts, ",");
    if joined == "" then Undefined else Str(joined)
  }

  function Selects(properties: seq<Property>): (r: seq<string>)
    ensures forall x :: x in r <==> x != "" && exists i :: 0 <= i < |properties| && properties[i].select == x
  {
    var names := seq(|properties|, i requires 0 <= i < |properties| => properties[i].select);
    assert forall i :: 0 <= i < |properties| ==> names[i] == properties[i].select;
    NonEmpty(names)
  }

  function Expands(properties: seq<Property>): (r: seq<string>)
    ensures forall x :: x in r <==> x != "" && exists i :: 0 <= i < |properties| && properties[i].expand == x
  {
    var names := seq(|properties|, i requires 0 <= i < |properties| => properties[i].expand);
    assert forall i :: 0 <= i < |properties| ==> names[i] == properties[i].expand;
    NonEmpty(names)
  }

  predicate IsDirection(direction: string) {
    direction == "asc" || direction == "desc"
  }

  /** `orders.filter(order => ['asc', 'desc'].includes(order.direction)).map(...)`. */
  function OrderTerms(orders: seq<Order>): (r: seq<string>)
    ensures |r| <= |orders|
    ensures forall i :: 0 <= i < |r| ==> r[i] != ""
  {
    if orders == [] then []
    else
      (if IsDirection(orders[0].direction) then [orders[0].sentence + " " + orders[0].direction] else [])
      + OrderTerms(orders[1..])
  }

  /** An order term is sent iff some order with a valid direction renders to it. */
  lemma {:induction false} OrderTermsMembership(orders: seq<Order>, term: string)
    ensures term in OrderTerms(orders)
        <==> exists i :: 0 <= i < |orders| && IsDirection(orders[i].direction)
                        && term == orders[i].sentence + " " + orders[i].direction
  {
    if orders != [] {
      OrderTermsMembership(orders[1..], term);
      var tail := orders[1..];
      if exists i :: 0 <= i < |tail| && IsDirection(tail[i].direction) && term == tail[i].sentence + " " + tail[i].direction {
        var i :| 0 <= i < |tail| && IsDirection(tail[i].direction) && term == tail[i].sentence + " " + tail[i].direction;
        assert orders[i + 1] == tail[i];
      }
      if exists i :: 0 <= i < |orders| && IsDirection(orders[i].direction) && term == orders[i].sentence + " " + orders[i].direction {
        var i :| 0 <= i < |orders| && IsDirection(orders[i].direction) && term == orders[i].sentence + " " + orders[i].direction;
        if i > 0 { assert tail[i - 1] == orders[i]; }
      }
    }
  }

  /** No term is produced iff no order has a valid direction. */
  lemma NoOrderTerms(orders: seq<Order>)
    ensures OrderTerms(orders) == [] <==> forall i :: 0 <= i < |orders| ==> !IsDirection(orders[i].direction)
  {
    var terms := OrderTerms(orders);
    if terms == [] {
      forall i | 0 <= i < |orders| ensures !IsDirection(orders[i].direction) {
        OrderTermsMembership(orders, orders[i].sentence + " " + orders[i].direction);
      }
    } else {
      OrderTermsMembership(orders, terms[0]);
    }
  }

  /** `orderby?.filter(...).map(...).join() || undefined`. */
  function OrderbyOption(orderby: Option<seq<Order>>): (r: Value)
    ensures r == Undefined <==>
              orderby.None? || forall i :: 0 <= i < |orderby.value| ==> !IsDirection(orderby.value[i].direction)
    ensures r != Undefined ==> r == Str(Join(OrderTerms(orderby.value), ","))
  {
    if orderby.None? then Undefined
    else
      NoOrderTerms(orderby.value);
      JoinOrUndefined(OrderTerms(orderby.value))
  }

  /** `Number.isInteger(pageSize) && pageSize > 0`. */
  predicate IsPaginated(pageSize: Value) {
    pageSize.Num? && pageSize.n > 0
  }

  /** The parameters `requestDetail` passes to the request, in order. */
  function DetailParams(properties: seq<Property>, orderby: Option<seq<Order>>, filter: string,
                        pageSize: Value, currentPage: int): (r: seq<(string, Value)>)
    ensures |r| == 7
    ensures r[0] == ("$select", JoinOrUndefined(Selects(properties)))
    ensures r[1] == ("$expand", JoinOrUndefined(Expands(properties)))
    ensures r[2] == ("$orderby", OrderbyOption(orderby))
    ensures r[3].0 == "$filter" && (r[3].1 == Undefined <==> filter == "") && (filter != "" ==> r[3].1 == Str(filter))
    ensures r[4].0 == "$top" && r[5].0 == "$skip" && r[6].0 == "$count"
  {
    var paginated := IsPaginated(pageSize);
    var skip := if paginated then currentPage * pageSize.n else 0;
    [ ("$select", JoinOrUndefined(Selects(properties))),
      ("$expand", JoinOrUndefined(Expands(properties))),
      ("$orderby", OrderbyOption(orderby)),
      ("$filter", if filter == "" then Undefined else Str(filter)),
      ("$top", if paginated then pageSize else Undefined),
      ("$skip", if skip != 0 then Num(skip) else Undefined),
      ("$count", if paginated then Bool(true) else Undefined) ]
  }

  /** The seven option names of a detail list are distinct. */
  lemma DetailNamesDistinct(properties: seq<Property>, orderby: Option<seq<Order>>, filter: string,
                            pageSize: Value, currentPage: int)
    ensures var params := DetailParams(properties, orderby, filter, pageSize, currentPage);
            forall i, j :: 0 <= i < j < 7 ==> params[i].0 != params[j].0
  {
  }

  /** The query of a detail list carries the joined `$select` and `$expand` names when there are any. */
  lemma DetailNamesSent(properties: seq<Property>, orderby: Option<seq<Order>>, filter: string,
                        pageSize: Value, currentPage: int, text: string)
    ensures var pairs := QueryPairs(DetailParams(properties, orderby, filter, pageSize, currentPage));
            && (("$select", text) in pairs <==> Selects(properties) != [] && text == Join(Selects(properties), ","))
            && (("$expand", text) in pairs <==> Expands(properties) != [] && text == Join(Expands(properties), ","))
  {
    var params := DetailParams(properties, orderby, filter, pageSize, currentPage);
    DetailNamesDistinct(properties, orderby, filter, pageSize, currentPage);
    UniqueParamAppended(params, 0, text);
    UniqueParamAppended(params, 1, text);
  }

  /** The query of a detail list carries the joined order terms when there are any. */
  lemma DetailOrderSent(properties: seq<Property>, orderby: Option<seq<Order>>, filter: string,
                        pageSize: Value, currentPage: int, text: string)
    ensures ("$orderby", text) in QueryPairs(DetailParams(properties, orderby, filter, pageSize, currentPage))
        <==> orderby.Some? && OrderTerms(orderby.value) != [] && text == Join(OrderTerms(orderby.value), ",")
  {
    var params := DetailParams(properties, orderby, filter, pageSize, currentPage);
    DetailNamesDistinct(properties, orderby, filter, pageSize, currentPage);
    UniqueParamAppended(params, 2, text);
    if orderby.Some? {
      NoOrderTerms(orderby.value);
    }
  }

  /** The query of a detail list carries the filter when it is not empty. */
  lemma DetailFilterSent(properties: seq<Property>, orderby: Option<seq<Order>>, filter: string,
                         pageSize: Value, currentPage: int, text: string)
    ensures ("$filter", text) in QueryPairs(DetailParams(properties, orderby, filter, pageSize, currentPage))
        <==> filter != "" && text == filter
  {
    var params := DetailParams(properties, orderby, filter, pageSize, currentPage);
    DetailNamesDistinct(properties, orderby, filter, pageSize, currentPage);
    UniqueParamAppended(params, 3, text);
  }

  /**
   * Paging options reach the query only for a positive integer page size:
   * `$top` is the page size, `$count` is true, and `$skip` is page times size
   * unless that is 0.
   */
  lemma DetailPaging(properties: seq<Property>, orderby: Option<seq<Order>>, filter: string,
                     pageSize: Value, currentPage: int, text: string)
    ensures var pairs := QueryPairs(DetailParams(properties, orderby, filter, pageSize, currentPage));
            && (("$top", text) in pairs <==> IsPaginated(pageSize) && text == IntToString(pageSize.n))
            && (("$count", text) in pairs <==> IsPaginated(pageSize) && text == "true")
            && (("$skip", text) in pairs <==>
                  IsPaginated(pageSize) && currentPage * pageSize.n != 0
                  && text == IntToString(currentPage * pageSize.n))
  {
    var params := DetailParams(properties, orderby, filter, pageSize, currentPage);
    DetailNamesDistinct(properties, orderby, filter, pageSize, currentPage);
    UniqueParamAppended(params, 4, text);
    UniqueParamAppended(params, 5, text);
    UniqueParamAppended(params, 6, text);
    if IsPaginated(pageSize) {
      assert params[4].1 == pageSize && params[6].1 == Bool(true);
      assert params[5].1 == if currentPage * pageSize.n != 0 then Num(currentPage * pageSize.n) else Undefined;
    } else {
      assert params[4].1 == params[5].1 == params[6].1 == Undefined;
    }
  }

  /** `aggregatedName(index)`. */
  function AggregatedName(index: nat): (r: string)
    ensures StartsWith(r, "aggregatedProperty")
  {
    "aggregatedProperty" + NatToString(index)
  }

  /** Distinct positions get distinct aliases. */
  lemma AggregatedNameInjective(i: nat, j: nat)
    requires AggregatedName(i) == AggregatedName(j)
    ensures i == j
  {
    var prefix := "aggregatedProperty";
    assert NatToString(i) == AggregatedName(i)[|prefix|..];
    assert NatToString(j) == AggregatedName(j)[|prefix|..];
    DigitsValueOfNatToString(i);
    DigitsValueOfNatToString(j);
  }

  /** The aggregate expression of a property, if it has an aggregate. */
  function AggregateExpression(a: Aggregate): Option<string> {
    match a
    case Expression(text) => Some(text)
    case Detailed(expression, _) => Some(expression)
    case NoAggregate => None
  }

  /**
   * The aggregated properties of `properties`, whose first element sits at
   * position `offset`, as (expression, position) pairs in order.
   */
  function AggregateEntries(properties: seq<Property>, offset: nat): (r: seq<(string, nat)>)
    ensures |r| <= |properties|
  {
    if properties == [] then []
    else
      var expression := AggregateExpression(properties[0].aggregate);
      (if expression.Some? then [(expression.value, offset)] else []) + AggregateEntries(properties[1..], offset + 1)
  }

  /**
   * Every aggregate is aliased by the position of its property in the
   * original list; properties without an aggregate contribute nothing.
   */
  lemma {:induction false} AggregateEntriesAliased(properties: seq<Property>, offset: nat, expression: string, position: nat)
    ensures (expression, position) in AggregateEntries(properties, offset)
        <==> offset <= position < offset + |properties|
             && AggregateExpression(properties[position - offset].aggregate) == Some(expression)
  {
    if properties != [] {
      AggregateEntriesAliased(properties[1..], offset + 1, expression, position);
      if offset + 1 <= position < offset + |properties| {
        assert properties[1..][position - (offset + 1)] == properties[position - offset];
      }
    }
  }

  /** `${expression} as ${aggregatedName(index)}`. */
  function AggregateTerm(entry: (string, nat)): (r: string)
    ensures |r| > 0
  {
    entry.0 + " as " + AggregatedName(entry.1)
  }

  /** The aggregate terms of `loadAggregatedData`, in property order. */
  function AggregateTerms(properties: seq<Property>): (r: seq<string>)
    ensures |r| == |AggregateEntries(properties, 0)|
    ensures forall k :: 0 <= k < |r| ==> r[k] == AggregateTerm(AggregateEntries(properties, 0)[k])
  {
    var entries := AggregateEntries(properties, 0);
    seq(|entries|, k requires 0 <= k < |entries| => AggregateTerm(entries[k]))
  }

  /**
   * A term is aggregated iff some property carries an aggregate expression and
   * the term names that expression with the alias of the property's position.
   */
  lemma AggregateTermsMembership(properties: seq<Property>, term: string)
    ensures term in AggregateTerms(properties)
        <==> exists i :: 0 <= i < |properties| && AggregateExpression(properties[i].aggregate).Some?
                        && term == AggregateExpression(properties[i].aggregate).value + " as " + AggregatedName(i)
  {
    var entries := AggregateEntries(properties, 0);
    var terms := AggregateTerms(properties);
    if term in terms {
      var k :| 0 <= k < |terms| && terms[k] == term;
      var (e, pos) := entries[k];
      AggregateEntriesAliased(properties, 0, e, pos);
      assert term == AggregateExpression(properties[pos].aggregate).value + " as " + AggregatedName(pos);
    }
    if exists i :: 0 <= i < |properties| && AggregateExpression(properties[i].aggregate).Some?
                   && term == AggregateExpression(properties[i].aggregate).value + " as " + AggregatedName(i) {
      var i :| 0 <= i < |properties| && AggregateExpression(properties[i].aggregate).Some?
               && term == AggregateExpression(properties[i].aggregate).value + " as " + AggregatedName(i);
      var e := AggregateExpression(properties[i].aggregate).value;
      AggregateEntriesAliased(properties, 0, e, i);
      var k :| 0 <= k < |entries| && entries[k] == (e, i);
      assert terms[k] == term;
    }
  }

  /** `property.path || property.$select` for each grouped property. */
  function GroupNames(grouped: seq<Property>): (r: seq<string>)
    ensures |r| == |grouped|
    ensures forall i :: 0 <= i < |grouped| && grouped[i].path.Some? && grouped[i].path.value != "" ==>
              r[i] == grouped[i].path.value
    ensures forall i :: 0 <= i < |grouped| && !(grouped[i].path.Some? && grouped[i].path.value != "") ==>
              r[i] == grouped[i].select
  {
    seq(|grouped|, i requires 0 <= i < |grouped| =>
      if grouped[i].path.Some? && grouped[i].path.value != "" then grouped[i].path.value else grouped[i].select)
  }

  /** The `apply` transformation sequence before the filter is prefixed. */
  function ApplyTransformations(groupby: string, aggregate: string): (r: string)
    ensures r == "" <==> groupby == "" && aggregate == ""
  {
    if groupby != "" then
      if aggregate != "" then "groupby((" + groupby + "), aggregate(" + aggregate + "))"
      else "groupby((" + groupby + "))"
    else if aggregate != "" then "aggregate(" + aggregate + ")"
    else ""
  }

  /** `$apply` of `loadAggregatedData`. */
  function ApplyOption(grouped: seq<Property>, properties: seq<Property>, filter: string): (r: Value)
    ensures r == Undefined <==>
              filter == "" && Join(GroupNames(grouped), ",") == "" && AggregateTerms(properties) == []
    ensures r != Undefined ==> r.Str? && (filter != "" <==> StartsWith(r.s, "filter("))
  {
    var terms := AggregateTerms(properties);
    JoinIsEmpty(terms, ",");
    var apply := ApplyTransformations(Join(GroupNames(grouped), ","), Join(terms, ","));
    if filter != "" then
      if apply != "" then Str("filter(" + filter + ")/" + apply) else Str("filter(" + filter + ")")
    else if apply != "" then
      assert !StartsWith(apply, "filter(") by {
        assert apply[0] == 'g' || apply[0] == 'a';
      }
      Str(apply)
    else Undefined
  }

  /** The parameters `loadAggregatedData` passes to the request. */
  function AggregatedParams(grouped: seq<Property>, properties: seq<Property>,
                            orderby: Option<seq<Order>>, filter: string): (r: seq<(string, Value)>)
    ensures r == [("$apply", ApplyOption(grouped, properties, filter)), ("$orderby", OrderbyOption(orderby))]
  {
    [("$apply", ApplyOption(grouped, properties, filter)), ("$orderby", OrderbyOption(orderby))]
  }

  /**
   * The query of an aggregated list carries `$apply` when there is a filter, a
   * grouping or an aggregate, and the joined order terms when there are any.
   */
  lemma AggregatedQuery(grouped: seq<Property>, properties: seq<Property>,
                        orderby: Option<seq<Order>>, filter: string, text: string)
    ensures var pairs := QueryPairs(AggregatedParams(grouped, properties, orderby, filter));
            var apply := ApplyOption(grouped, properties, filter);
            && (("$apply", text) in pairs <==>
                  !(filter == "" && Join(GroupNames(grouped), ",") == "" && AggregateTerms(properties) == [])
                  && text == apply.s)
            && (("$orderby", text) in pairs <==>
                  orderby.Some? && OrderTerms(orderby.value) != [] && text == Join(OrderTerms(orderby.value), ","))
  {
    var params := AggregatedParams(grouped, properties, orderby, filter);
    UniqueParamAppended(params, 0, text);
    UniqueParamAppended(params, 1, text);
    if orderby.Some? {
      NoOrderTerms(orderby.value);
    }
  }

  // ---------------------------------------------------------------------------
  // Parsing the returned rows

  /** `row[key] = parse(row[key])`. */
  function ParseField(row: Value, key: string, parse: Value -> Value): (r: Result<Value>)
    ensures r.Ok? ==> Get(row, key).Ok? && Get(r.value, key) == Ok(parse(Get(row, key).value))
  {
    var current :- Get(row, key);
    SetAt(row, key, parse(current))
  }

  /** `parsePropertiesFromPath(property, row)`; a path that is not a string throws at `split`. */
  function ExpandField(p: Property, parse: Value -> Value, row: Value): Result<Value> {
    if p.path.None? then Err(TypeError) else ParsePropertiesFromPath(p.path.value, parse, row)
  }

  /** What one property of `parseDataProperties` does to one row. */
  function PropertyStep(p: Property, row: Value): Result<Value> {
    if p.parse.None? then Ok(row)
    else
      var selected :- if p.select != "" then ParseField(row, p.select, p.parse.value) else Ok(row);
      if p.expand == "" then Ok(selected) else ExpandField(p, p.parse.value, selected)
  }

  /** What `parseDataProperties(properties, ...)` does to one row: the properties in turn. */
  function RowParsed(properties: seq<Property>, row: Value): Result<Value>
    decreases |properties|
  {
    if properties == [] then Ok(row)
    else
      var earlier :- RowParsed(properties[..|properties| - 1], row);
      PropertyStep(properties[|properties| - 1], earlier)
  }

  /** Once a row fails under some leading properties, it fails under all of them. */
  lemma {:induction false} RowParsedFailsOnward(properties: seq<Property>, n: nat, row: Value)
    requires n <= |properties| && RowParsed(properties[..n], row).Err?
    ensures RowParsed(properties, row).Err?
    decreases |properties| - n
  {
    if n < |properties| {
      assert properties[..n + 1][..n] == properties[..n];
      RowParsedFailsOnward(properties, n + 1, row);
    } else {
      assert properties[..n] == properties;
    }
  }

  /**
   * `for (const entity of data) ...` with one update per row: fails iff some
   * row fails, and otherwise replaces each row by its update, in place.
   */
  method ParseEachRow(rows: seq<Value>, t: Value -> Result<Value>) returns (r: Result<seq<Value>>)
    ensures r.Ok? <==> forall i :: 0 <= i < |rows| ==> t(rows[i]).Ok?
    ensures r.Ok? ==> |r.value| == |rows| && forall i :: 0 <= i < |rows| ==> r.value[i] == t(rows[i]).value
  {
    var output := [];
    var index := 0;
    while index < |rows|
      invariant 0 <= index <= |rows|
      invariant |output| == index
      invariant forall i :: 0 <= i < index ==> t(rows[i]).Ok? && output[i] == t(rows[i]).value
    {
      var updated := t(rows[index]);
      if updated.Err? {
        return Err(updated.error);
      }
      output := output + [updated.value];
      index := index + 1;
    }
    return Ok(output);
  }

  /**
   * One property of `parseDataProperties`: with a parser, its `$select` field
   * of every row, then its `$expand` path of every row.
   */
  method ParsePropertyRows(p: Property, rows: seq<Value>) returns (r: Result<seq<Value>>)
    ensures r.Ok? <==> forall i :: 0 <= i < |rows| ==> PropertyStep(p, rows[i]).Ok?
    ensures r.Ok? ==> |r.value| == |rows|
    ensures r.Ok? ==> forall i :: 0 <= i < |rows| ==> r.value[i] == PropertyStep(p, rows[i]).value
  {
    if p.parse.None? {
      return Ok(rows);
    }
    var parse := p.parse.value;
    var selected := rows;
    if p.select != "" {
      var pass := ParseEachRow(rows, row => ParseField(row, p.select, parse));
      if pass.Err? {
        var j :| 0 <= j < |rows| && ParseField(rows[j], p.select, parse).Err?;
        assert PropertyStep(p, rows[j]).Err?;
        return Err(pass.error);
      }
      selected := pass.value;
    }
    assert forall i :: 0 <= i < |rows| ==>
      (if p.select != "" then ParseField(rows[i], p.select, parse) else Ok(rows[i])) == Ok(selected[i]);
    if p.expand == "" {
      return Ok(selected);
    }
    var pass := ParseEachRow(selected, row => ExpandField(p, parse, row));
    if pass.Err? {
      var j :| 0 <= j < |selected| && ExpandField(p, parse, selected[j]).Err?;
      assert PropertyStep(p, rows[j]).Err?;
      return Err(pass.error);
    }
    return pass;
  }

  /**
   * `parseDataProperties(properties, data)`: the properties in turn, each over
   * every row. The rows fail together if any of them fails.
   */
  method ParseDataProperties(properties: seq<Property>, data: seq<Value>) returns (r: Result<seq<Value>>)
    ensures r.Ok? <==> forall i :: 0 <= i < |data| ==> RowParsed(properties, data[i]).Ok?
    ensures r.Ok? ==> |r.value| == |data|
    ensures r.Ok? ==> forall i :: 0 <= i < |data| ==> r.value[i] == RowParsed(properties, data[i]).value
  {
    var rows := data;
    var k := 0;
    while k < |properties|
      invariant 0 <= k <= |properties|
      invariant |rows| == |data|
      invariant forall i :: 0 <= i < |data| ==> RowParsed(properties[..k], data[i]) == Ok(rows[i])
    {
      assert properties[..k + 1][..k] == properties[..k];
      var pass := ParsePropertyRows(properties[k], rows);
      if pass.Err? {
        var j :| 0 <= j < |rows| && PropertyStep(properties[k], rows[j]).Err?;
        assert RowParsed(properties[..k + 1], data[j]).Err?;
        RowParsedFailsOnward(properties, k + 1, data[j]);
        return pass;
      }
      rows := pass.value;
      k := k + 1;
    }
    assert properties[..k] == properties;
    return Ok(rows);
  }

  /** A `$select` parser rewrites exactly that field with the parse of its former value. */
  lemma SelectParsed(p: Property, row: Value)
    requires p.parse.Some? && p.select != "" && p.expand == ""
    requires RowParsed([p], row).Ok?
    ensures Get(row, p.select).Ok?
    ensures Get(RowParsed([p], row).value, p.select) == Ok(p.parse.value(Get(row, p.select).value))
  {
    assert [p][..0] == [];
  }

  /**
   * `requestDetail(...)`: the request receives `DetailParams`; its rows are
   * then parsed. `response` is what the request returned, or its failure.
   */
  method RequestDetail(properties: seq<Property>, orderby: Option<seq<Order>>, filter: string,
                       pageSize: Value, currentPage: int, response: Result<seq<Value>>)
    returns (params: seq<(string, Value)>, r: Result<seq<Value>>)
    ensures params == DetailParams(properties, orderby, filter, pageSize, currentPage)
    ensures r.Ok? ==> response.Ok? && |r.value| == |response.value|
    ensures r.Ok? ==> forall i :: 0 <= i < |r.value| ==> RowParsed(properties, response.value[i]) == Ok(r.value[i])
    ensures response.Ok? && (forall i :: 0 <= i < |response.value| ==> RowParsed(properties, response.value[i]).Ok?) ==> r.Ok?
  {
    params := DetailParams(properties, orderby, filter, pageSize, currentPage);
    if response.Err? {
      return params, Err(response.error);
    }
    r := ParseDataProperties(properties, response.value);
  }

  // ---------------------------------------------------------------------------
  // Aggregated lists

  /** The parser of an aggregate: the property's own for a string aggregate, the aggregate's for an object. */
  function AggregateParser(p: Property): Option<Value -> Value> {
    match p.aggregate
    case Expression(_) => p.parse
    case Detailed(_, parse) => parse
    case NoAggregate => None
  }

  /** What the aggregate of the property at `index` does to one row. */
  function AggregateStep(p: Property, index: nat, row: Value): Result<Value> {
    if AggregateParser(p).None? then Ok(row)
    else ParseField(row, AggregatedName(index), AggregateParser(p).value)
  }

  /** What the aggregate-parse loop does to one row: the properties in turn, by position. */
  function RowAggregatesParsed(properties: seq<Property>, row: Value): Result<Value>
    decreases |properties|
  {
    if properties == [] then Ok(row)
    else
      var earlier :- RowAggregatesParsed(properties[..|properties| - 1], row);
      AggregateStep(properties[|properties| - 1], |properties| - 1, earlier)
  }

  /** Once a row fails under some leading properties, it fails under all of them. */
  lemma {:induction false} RowAggregatesFailOnward(properties: seq<Property>, n: nat, row: Value)
    requires n <= |properties| && RowAggregatesParsed(properties[..n], row).Err?
    ensures RowAggregatesParsed(properties, row).Err?
    decreases |properties| - n
  {
    if n < |properties| {
      assert properties[..n + 1][..n] == properties[..n];
      RowAggregatesFailOnward(properties, n + 1, row);
    } else {
      assert properties[..n] == properties;
    }
  }

  /**
   * The loop over `properties` after `parseDataProperties`: the aggregate of
   * the property at index i with a parser rewrites field `aggregatedName(i)`
   * of every row.
   */
  method ParseAggregates(properties: seq<Property>, data: seq<Value>) returns (r: Result<seq<Value>>)
    ensures r.Ok? <==> forall i :: 0 <= i < |data| ==> RowAggregatesParsed(properties, data[i]).Ok?
    ensures r.Ok? ==> |r.value| == |data|
    ensures r.Ok? ==> forall i :: 0 <= i < |data| ==> r.value[i] == RowAggregatesParsed(properties, data[i]).value
  {
    var rows := data;
    var index := 0;
    while index < |properties|
      invariant 0 <= index <= |properties|
      invariant |rows| == |data|
      invariant forall i :: 0 <= i < |data| ==> RowAggregatesParsed(properties[..index], data[i]) == Ok(rows[i])
    {
      assert properties[..index + 1][..index] == properties[..index];
      var p := properties[index];
      var pass := ParseEachRow(rows, row => AggregateStep(p, index, row));
      if pass.Err? {
        var j :| 0 <= j < |rows| && AggregateStep(p, index, rows[j]).Err?;
        assert RowAggregatesParsed(properties[..index + 1], data[j]).Err?;
        RowAggregatesFailOnward(properties, index + 1, data[j]);
        return pass;
      }
      rows := pass.value;
      index := index + 1;
    }
    assert properties[..index] == properties;
    return Ok(rows);
  }

  /**
   * `loadAggregatedData(...)`: the request receives `AggregatedParams`; the
   * grouped properties are parsed first, then the aggregates.
   */
  method LoadAggregatedData(grouped: seq<Property>, properties: seq<Property>, orderby: Option<seq<Order>>,
                            filter: string, response: Result<seq<Value>>)
    returns (params: seq<(string, Value)>, r: Result<seq<Value>>)
    ensures params == AggregatedParams(grouped, properties, orderby, filter)
    ensures r.Ok? ==> response.Ok? && |r.value| == |response.value|
    ensures r.Ok? ==> forall i :: 0 <= i < |r.value| ==>
              RowParsed(grouped, response.value[i]).Ok?
              && RowAggregatesParsed(properties, RowParsed(grouped, response.value[i]).value) == Ok(r.value[i])
  {
    params := AggregatedParams(grouped, properties, orderby, filter);
    if response.Err? {
      return params, Err(response.error);
    }
    var parsed := ParseDataProperties(grouped, response.value);
    if parsed.Err? {
      return params, parsed;
    }
    r := ParseAggregates(properties, parsed.value);
  }

  // ---------------------------------------------------------------------------
  // Table rows

  /** `column.property.aggregate` is truthy. */
  predicate HasAggregate(a: Aggregate) {
    a.Detailed? || (a.Expression? && a.text != "")
  }

  /** The path handed to `getValueFromPath`. */
  function PathValue(path: Option<string>): Value {
    if path.Some? then Str(path.value) else Undefined
  }

  /** Whether a column adds a cell to a row. */
  predicate AddsCell(column: Column, aggregate: bool) {
    (aggregate && HasAggregate(column.property.aggregate))
    || column.property.expand != "" || column.property.select != ""
  }

  /**
   * The cell a column adds, tried in this order: the aggregated alias (in
   * aggregate mode), the `$expand` path, the `$select` field.
   */
  function Cell(column: Column, entity: Value, aggregate: bool): (r: Result<Option<Value>>)
    ensures r.Ok? ==> (r.value.Some? <==> AddsCell(column, aggregate))
  {
    var p := column.property;
    if aggregate && HasAggregate(p.aggregate) then
      var v :- Get(entity, AggregatedName(column.propertyIndex));
      Ok(Some(v))
    else if p.expand != "" then
      var v :- GetValueFromPath(PathValue(p.path), entity);
      Ok(Some(v))
    else if p.select != "" then
      var v :- Get(entity, p.select);
      Ok(Some(v))
    else Ok(None)
  }

  /**
   * What a cell holds: the aggregated alias of the row (in aggregate mode, for a
   * column with an aggregate), else what its `$expand` path reads, else its
   * `$select` field. Reading a field of a null or undefined row throws.
   */
  lemma CellValue(column: Column, entity: Value, aggregate: bool)
    ensures var r := Cell(column, entity, aggregate);
            r.Ok? ==> (r.value.Some? <==> AddsCell(column, aggregate))
    ensures var r := Cell(column, entity, aggregate);
            aggregate && HasAggregate(column.property.aggregate) ==>
              (r.Ok? <==> !IsNullish(entity))
              && (r.Ok? ==> r.value == Some(Get(entity, AggregatedName(column.propertyIndex)).value))
    ensures var r := Cell(column, entity, aggregate);
            var read := GetValueFromPath(PathValue(column.property.path), entity);
            !(aggregate && HasAggregate(column.property.aggregate)) && column.property.expand != "" ==>
              (r.Ok? <==> read.Ok?) && (r.Ok? ==> r.value == Some(read.value))
    ensures var r := Cell(column, entity, aggregate);
            !(aggregate && HasAggregate(column.property.aggregate)) && column.property.expand == ""
            && column.property.select != "" ==>
              (r.Ok? <==> !IsNullish(entity)) && (r.Ok? ==> r.value == Some(Get(entity, column.property.select).value))
  {
  }

  /** The number of columns that add a cell. */
  function CellCount(columns: seq<Column>, aggregate: bool): (n: nat)
    ensures n <= |columns|
  {
    if columns == [] then 0
    else (if AddsCell(columns[0], aggregate) then 1 else 0) + CellCount(columns[1..], aggregate)
  }

  /** The row of one entity: the cells of its columns in column order. */
  function Row(columns: seq<Column>, entity: Value, aggregate: bool): (r: Result<seq<Value>>)
    ensures r.Ok? ==> |r.value| == CellCount(columns, aggregate)
  {
    if columns == [] then Ok([])
    else
      var cell :- Cell(columns[0], entity, aggregate);
      var rest :- Row(columns[1..], entity, aggregate);
      Ok((if cell.Some? then [cell.value] else []) + rest)
  }

  /** A row is built iff every column's cell can be read. */
  lemma {:induction false} RowOk(columns: seq<Column>, entity: Value, aggregate: bool)
    ensures Row(columns, entity, aggregate).Ok? <==>
              forall k :: 0 <= k < |columns| ==> Cell(columns[k], entity, aggregate).Ok?
  {
    if columns != [] {
      RowOk(columns[1..], entity, aggregate);
      assert forall k :: 0 < k < |columns| ==> columns[k] == columns[1..][k - 1];
    }
  }

  /** The cell of a column that adds one sits after the cells of the columns before it. */
  lemma {:induction false} RowCellAt(columns: seq<Column>, entity: Value, aggregate: bool, k: nat)
    requires k < |columns| && AddsCell(columns[k], aggregate)
    requires Row(columns, entity, aggregate).Ok?
    ensures Cell(columns[k], entity, aggregate).Ok?
    ensures var row := Row(columns, entity, aggregate).value;
            CellCount(columns[..k], aggregate) < |row|
            && row[CellCount(columns[..k], aggregate)] == Cell(columns[k], entity, aggregate).value.value
    decreases k
  {
    var tail := columns[1..];
    var added := Added(Cell(columns[0], entity, aggregate).value);
    var rest := Row(tail, entity, aggregate).value;
    assert Row(columns, entity, aggregate).value == added + rest;
    if k == 0 {
      assert columns[..0] == [];
    } else {
      assert columns[k] == tail[k - 1];
      assert columns[..k][0] == columns[0] && columns[..k][1..] == tail[..k - 1];
      assert CellCount(columns[..k], aggregate) == |added| + CellCount(tail[..k - 1], aggregate);
      RowCellAt(tail, entity, aggregate, k - 1);
    }
  }

  /**
   * A row is built iff every column's cell can be read, and then the cell of
   * each column that adds one sits after the cells of the columns before it.
   */
  lemma RowCells(columns: seq<Column>, entity: Value, aggregate: bool)
    ensures Row(columns, entity, aggregate).Ok? <==>
              forall k :: 0 <= k < |columns| ==> Cell(columns[k], entity, aggregate).Ok?
    ensures Row(columns, entity, aggregate).Ok? ==>
              |Row(columns, entity, aggregate).value| == CellCount(columns, aggregate)
    ensures Row(columns, entity, aggregate).Ok? ==>
              forall k :: 0 <= k < |columns| && AddsCell(columns[k], aggregate) ==>
                var row := Row(columns, entity, aggregate).value;
                CellCount(columns[..k], aggregate) < |row|
                && row[CellCount(columns[..k], aggregate)] == Cell(columns[k], entity, aggregate).value.value
  {
    RowOk(columns, entity, aggregate);
    if Row(columns, entity, aggregate).Ok? {
      forall k | 0 <= k < |columns| && AddsCell(columns[k], aggregate)
        ensures var row := Row(columns, entity, aggregate).value;
                CellCount(columns[..k], aggregate) < |row|
                && row[CellCount(columns[..k], aggregate)] == Cell(columns[k], entity, aggregate).value.value
      {
        RowCellAt(columns, entity, aggregate, k);
      }
    }
  }

  /** A row built only from `$select` columns holds each column's field. */
  lemma {:induction false} SelectRow(columns: seq<Column>, entity: Value)
    requires forall k :: 0 <= k < |columns| ==> columns[k].property.select != "" && columns[k].property.expand == ""
    requires !IsNullish(entity)
    ensures Row(columns, entity, false).Ok?
    ensures |Row(columns, entity, false).value| == |columns|
    ensures forall k :: 0 <= k < |columns| ==>
              Row(columns, entity, false).value[k] == Get(entity, columns[k].property.select).value
  {
    if columns != [] {
      SelectRow(columns[1..], entity);
      var rest := Row(columns[1..], entity, false).value;
      assert Row(columns, entity, false).value == [Get(entity, columns[0].property.select).value] + rest;
    }
  }

  /** `row` followed by the cells of a row still to build, or that row's failure. */
  function Prepend(row: seq<Value>, rest: Result<seq<Value>>): Result<seq<Value>> {
    if rest.Ok? then Ok(row + rest.value) else rest
  }

  /** The cells a column adds: none or one. */
  function Added(cell: Option<Value>): seq<Value> {
    if cell.Some? then [cell.value] else []
  }

  lemma RowUnfold(columns: seq<Column>, entity: Value, aggregate: bool)
    requires columns != []
    ensures Cell(columns[0], entity, aggregate).Err? ==>
              Row(columns, entity, aggregate) == Err(Cell(columns[0], entity, aggregate).error)
    ensures Cell(columns[0], entity, aggregate).Ok? ==>
              Row(columns, entity, aggregate)
              == Prepend(Added(Cell(columns[0], entity, aggregate).value), Row(columns[1..], entity, aggregate))
  {
  }

  lemma PrependTwice(row: seq<Value>, added: seq<Value>, rest: Result<seq<Value>>)
    ensures Prepend(row, Prepend(added, rest)) == Prepend(row + added, rest)
  {
    if rest.Ok? {
      assert row + (added + rest.value) == (row + added) + rest.value;
    }
  }

  lemma PrependNothing(row: seq<Value>, rest: Result<seq<Value>>)
    ensures Prepend([], rest) == rest
    ensures Prepend(row, Ok([])) == Ok(row)
  {
    if rest.Ok? {
      assert [] + rest.value == rest.value;
    }
    assert row + [] == row;
  }

  /** The inner loop of `createRows`: the cells of one entity, pushed in column order. */
  method BuildRow(columns: seq<Column>, entity: Value, aggregate: bool) returns (r: Result<seq<Value>>)
    ensures r == Row(columns, entity, aggregate)
  {
    var row := [];
    var k := 0;
    assert columns[k..] == columns;
    PrependNothing([], Row(columns, entity, aggregate));
    while k < |columns|
      invariant 0 <= k <= |columns|
      invariant Row(columns, entity, aggregate) == Prepend(row, Row(columns[k..], entity, aggregate))
    {
      assert columns[k..][1..] == columns[k + 1..];
      RowUnfold(columns[k..], entity, aggregate);
      var cell := Cell(columns[k], entity, aggregate);
      if cell.Err? {
        return Err(cell.error);
      }
      var added := Added(cell.value);
      PrependTwice(row, added, Row(columns[k + 1..], entity, aggregate));
      row := row + added;
      k := k + 1;
    }
    assert columns[k..] == [];
    PrependNothing(row, Ok([]));
    return Ok(row);
  }

  /** `createRows(columns, data, { aggregate })`: one row per entity, in order. */
  method CreateRows(columns: seq<Column>, data: seq<Value>, aggregate: bool) returns (r: Result<seq<seq<Value>>>)
    ensures r.Ok? <==> forall i :: 0 <= i < |data| ==> Row(columns, data[i], aggregate).Ok?
    ensures r.Ok? ==> |r.value| == |data|
    ensures r.Ok? ==> forall i :: 0 <= i < |data| ==> Row(columns, data[i], aggregate) == Ok(r.value[i])
  {
    var rows := [];
    var index := 0;
    while index < |data|
      invariant 0 <= index <= |data|
      invariant |rows| == index
      invariant forall i :: 0 <= i < index ==> Row(columns, data[i], aggregate) == Ok(rows[i])
    {
      var row := BuildRow(columns, data[index], aggregate);
      if row.Err? {
        return Err(row.error);
      }
      rows := rows + [row.value];
      index := index + 1;
    }
    return Ok(rows);
  }

  /** `getOrderIcon(order, defaultValue)`. */
  function GetOrderIcon(order: Option<Order>, defaultValue: Value): (r: Value)
    ensures order.Some? && order.value.direction == "asc" ==> r == Str("SortDown")
    ensures order.Some? && order.value.direction == "desc" ==> r == Str("SortUp")
    ensures !(order.Some? && IsDirection(order.value.direction)) ==> r == defaultValue
  {
    if order.Some? && order.value.direction == "asc" then Str("SortDown")
    else if order.Some? && order.value.direction == "desc" then Str("SortUp")
    else defaultValue
  }
}
