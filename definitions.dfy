/**
 * Entity definitions: the static description an entity is built from. The
 * fields are the ones the engine reads (`entityName`, `primaryKey`,
 * `navigationKey`, `keys`, `ignoredKeys`, `dateKeys`, `children`, `details`,
 * `foreingKey`); a missing string field is "" and a missing array is `None`
 * or `Missing`.
 */
module Definitions {
  import opened JsValues

  /** `definition.children` / `definition.details`: absent, or an array of sub-definitions. */
  datatype DefinitionList = Missing | Listed(items: seq<Definition>)

  datatype Definition = Definition(
    entityName: string,
    primaryKey: string,
    navigationKey: string,
    keys: Option<seq<string>>,
    ignoredKeys: Option<seq<string>>,
    dateKeys: Option<seq<string>>,
    children: DefinitionList,
    details: DefinitionList,
    foreingKey: string)

  /** `definition.children || []`; every element is structurally smaller than `d`. */
  function Children(d: Definition): (r: seq<Definition>)
    ensures forall i :: 0 <= i < |r| ==> r[i] < d
  {
    match d.children
    case Missing => []
    case Listed(items) => items
  }

  /** `definition.details || []`. */
  function Details(d: Definition): (r: seq<Definition>)
    ensures forall i :: 0 <= i < |r| ==> r[i] < d
  {
    match d.details
    case Missing => []
    case Listed(items) => items
  }

  /** `definition.keys || []`. */
  function Keys(d: Definition): seq<string> {
    d.keys.GetOr([])
  }

  /** The name a child collection is reachable under: `navigationKey || entityName`. */
  function ChildName(c: Definition): string {
    if c.navigationKey != "" then c.navigationKey else c.entityName
  }

  /** The names of a list of sub-definitions, in order, duplicates included. */
  function NamesOf(defs: seq<Definition>): (r: seq<string>)
    ensures |r| == |defs|
    ensures forall i :: 0 <= i < |defs| ==> r[i] == ChildName(defs[i])
  {
    seq(|defs|, i requires 0 <= i < |defs| => ChildName(defs[i]))
  }

  /** The names of `d`'s child collections, in the order of `definition.children`. */
  function ChildNames(d: Definition): (r: seq<string>)
    ensures |r| == |Children(d)|
    ensures forall i :: 0 <= i < |r| ==> r[i] == ChildName(Children(d)[i])
  {
    NamesOf(Children(d))
  }

  /** The position of `name` in `names`, or `|names|` when it is absent. */
  function PositionOf(names: seq<string>, name: string): (i: nat)
    ensures i <= |names|
    ensures i < |names| ==> names[i] == name
    ensures i == |names| <==> name !in names
    ensures forall j :: 0 <= j < i ==> names[j] != name
  {
    if names == [] then 0
    else if names[0] == name then 0
    else 1 + PositionOf(names[1..], name)
  }

  /**
   * The definition of the child collection named `name`, found by position
   * among the child names; `d` itself for a name that is no child's.
   */
  function ChildDefinition(d: Definition, name: string): Definition {
    var i := PositionOf(ChildNames(d), name);
    if i < |Children(d)| then Children(d)[i] else d
  }

  /** The child collection named `name` has one of `d`'s child definitions, carrying that name. */
  lemma ChildDefinitionOf(d: Definition, name: string)
    requires name in ChildNames(d)
    ensures ChildDefinition(d, name) in Children(d)
    ensures ChildName(ChildDefinition(d, name)) == name
    ensures ChildDefinition(d, name) < d
  {
    var i := PositionOf(ChildNames(d), name);
    assert Children(d)[i] in Children(d);
  }

  /** With distinct names, the i-th child is the one found under its own name. */
  lemma ChildDefinitionAt(d: Definition, i: nat)
    requires i < |Children(d)|
    requires forall a, b :: 0 <= a < b < |ChildNames(d)| ==> ChildNames(d)[a] != ChildNames(d)[b]
    ensures ChildDefinition(d, ChildNames(d)[i]) == Children(d)[i]
  {
    var names := ChildNames(d);
    var k := PositionOf(names, names[i]);
    assert names[k] == names[i];
  }

  function MaxOf(xs: seq<nat>): (m: nat)
    ensures forall i :: 0 <= i < |xs| ==> xs[i] <= m
  {
    if xs == [] then 0
    else
      var rest := MaxOf(xs[1..]);
      assert forall i :: 1 <= i < |xs| ==> xs[i] == xs[1..][i - 1];
      if xs[0] > rest then xs[0] else rest
  }

  /** The depth of the definition tree below `d` (a definition without children has height 1). */
  function Height(d: Definition): nat {
    var cs := Children(d);
    1 + MaxOf(seq(|cs|, i requires 0 <= i < |cs| => Height(cs[i])))
  }

  /** Every child definition is strictly lower than its owner. */
  lemma ChildHeight(d: Definition, c: Definition)
    requires c in Children(d)
    ensures Height(c) < Height(d)
  {
    var cs := Children(d);
    var hs := seq(|cs|, i requires 0 <= i < |cs| => Height(cs[i]));
    var i :| 0 <= i < |cs| && cs[i] == c;
    assert hs[i] == Height(c);
  }

  /**
   * Child names are distinct and do not collide with the declared keys or the
   * primary key: a child named like a key would be unreachable through the
   * proxy and listed twice by `ownKeys`, which JavaScript rejects, and a
   * repeated child name would leave an orphaned collection behind.
   */
  predicate WellFormed(d: Definition) {
    && (forall i, j :: 0 <= i < j < |ChildNames(d)| ==> ChildNames(d)[i] != ChildNames(d)[j])
    && (forall n :: n in ChildNames(d) ==> n !in Keys(d) && n != d.primaryKey)
    && (forall i :: 0 <= i < |Children(d)| ==> WellFormed(Children(d)[i]))
  }

  /** Well-formedness is inherited by every child definition. */
  lemma ChildWellFormed(d: Definition, name: string)
    requires WellFormed(d) && name in ChildNames(d)
    ensures WellFormed(ChildDefinition(d, name))
  {
    ChildDefinitionOf(d, name);
    var c := ChildDefinition(d, name);
    var i :| 0 <= i < |Children(d)| && Children(d)[i] == c;
  }
}
