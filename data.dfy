/**
 * `entityData(value, { depth, withoutDetails, withoutChildren }, level)`
 * (composable/entity/data.js): the plain-data snapshot of an entity tree.
 * An entity becomes an object of its declared keys (with their current
 * values), its non-null details (deep copied through JSON) and, while the
 * depth allows it, its child collections; a collection becomes the array of
 * the snapshots of its public view; anything else becomes undefined.
 */
module Data {
  import opened JsValues
  import opened Definitions
  import opened Records
  import opened Entities
  import opened SyncData

  /** The options object; `depth` only limits when it is a number. */
  datatype DataOptions = DataOptions(depth: Option<int>, withoutDetails: bool, withoutChildren: bool)

  /** `!withoutChildren && (typeof depth !== 'number' || level < depth)`. */
  predicate ShowsChildren(opts: DataOptions, level: nat) {
    !opts.withoutChildren && (opts.depth.None? || level < opts.depth.value)
  }

  // ---------------------------------------------------------------------------
  // `JSON.parse(JSON.stringify(detail))`

  /**
   * An opaque rendering of a date's time value standing for
   * `Date.prototype.toISOString`, which `JSON.stringify` uses.
   */
  function IsoText(time: int): string {
    "ISO(" + IntToString(time) + ")"
  }

  /** A value JSON represents exactly: no undefined and no date anywhere inside. */
  predicate JsonPlain(v: Value) {
    match v
    case Undefined => false
    case Date(_) => false
    case Arr(items) => forall i :: 0 <= i < |items| ==> JsonPlain(items[i])
    case Obj(fields) => forall k :: k in fields ==> JsonPlain(fields[k])
    case _ => true
  }

  /**
   * The JSON round trip of a value inside a defined one: a date becomes its
   * ISO text, an undefined array element becomes null and an undefined
   * object field disappears (a top-level undefined, which would throw, is
   * never copied: only non-null details are). The result is plain JSON
   * data, and null exactly when the input is null or undefined.
   */
  function JsonCopy(v: Value): (r: Value)
    ensures JsonPlain(r)
    ensures r.Null? <==> v.Null? || v.Undefined?
    ensures r.Arr? <==> v.Arr?
    ensures r.Obj? <==> v.Obj?
  {
    match v
    case Undefined => Null
    case Date(t) => Str(IsoText(t))
    case Arr(items) => Arr(seq(|items|, i requires 0 <= i < |items| => JsonCopy(items[i])))
    case Obj(fields) => Obj(map k | k in fields && !fields[k].Undefined? :: JsonCopy(fields[k]))
    case _ => v
  }

  /** Plain JSON data survives the round trip unchanged. */
  lemma {:induction false} JsonCopyOfPlain(v: Value)
    requires JsonPlain(v)
    ensures JsonCopy(v) == v
  {
    match v
    case Arr(items) =>
      forall i | 0 <= i < |items| ensures JsonCopy(items[i]) == items[i] {
        JsonCopyOfPlain(items[i]);
      }
      assert JsonCopy(v).items == items;
    case Obj(fields) =>
      forall k | k in fields ensures JsonCopy(fields[k]) == fields[k] {
        JsonCopyOfPlain(fields[k]);
      }
      assert JsonCopy(v).fields == fields;
    case _ =>
  }

  /** Copying a copy changes nothing. */
  lemma JsonCopyIdempotent(v: Value)
    ensures JsonCopy(JsonCopy(v)) == JsonCopy(v)
  {
    JsonCopyOfPlain(JsonCopy(v));
  }

  // ---------------------------------------------------------------------------
  // The snapshot

  /** Every member of a collection's view is an entity below it. */
  lemma ViewBelow(ents: map<nat, EntityState>, cols: map<nat, CollectionState>, next: nat, c: nat)
    requires ValidMaps(ents, cols, next) && c in cols
    ensures forall m :: m in View(cols[c]) ==> m in ents && EntityHeight(ents[m]) < CollectionHeight(cols[c])
  {
    forall m | m in View(cols[c]) ensures m in ents && EntityHeight(ents[m]) < CollectionHeight(cols[c]) {
      MemberBelow(ents, cols, next, c, m);
    }
  }

  /** Every child collection of an entity sits below it, one per child name. */
  lemma ChildrenBelow(ents: map<nat, EntityState>, cols: map<nat, CollectionState>, next: nat, e: nat)
    requires ValidMaps(ents, cols, next) && e in ents
    ensures |ents[e].children| == |ChildNames(ents[e].definition)|
    ensures forall i :: 0 <= i < |ents[e].children| ==>
              ents[e].children[i] in cols && CollectionHeight(cols[ents[e].children[i]]) < EntityHeight(ents[e])
  {
    assert EntityOk(ents, cols, e);
    forall i | 0 <= i < |ents[e].children|
      ensures ents[e].children[i] in cols && CollectionHeight(cols[ents[e].children[i]]) < EntityHeight(ents[e])
    {
      ChildBelow(ents, cols, next, e, i);
    }
  }

  /** The non-null details, each through the JSON round trip. */
  function DetailsData(details: map<string, Value>): (m: map<string, Value>)
    ensures forall k :: k in m <==> k in details && !IsNullish(details[k])
    ensures forall k :: k in m ==> JsonPlain(m[k]) && !m[k].Null?
  {
    map k | k in details && !IsNullish(details[k]) :: JsonCopy(details[k])
  }

  /** The declared keys, each with the value its getter reads. */
  function KeyValues(r: EntityState): (m: map<string, Value>)
    ensures forall k :: k in m <==> k in Keys(r.definition)
    ensures forall k :: k in m ==> m[k] == Effective(r, k)
  {
    map k | k in Keys(r.definition) :: Effective(r, k)
  }

  /** The snapshot of entity `e`, entered at nesting `level`. */
  function EntityData(ents: map<nat, EntityState>, cols: map<nat, CollectionState>, next: nat,
                      e: nat, opts: DataOptions, level: nat): (v: Value)
    requires ValidMaps(ents, cols, next) && e in ents
    ensures v.Obj?
    decreases EntityHeight(ents[e]), 1
  {
    var r := ents[e];
    var details := if opts.withoutDetails then map[] else DetailsData(r.details);
    var children := if ShowsChildren(opts, level) then ChildrenData(ents, cols, next, e, opts, level + 1) else map[];
    Obj(KeyValues(r) + details + children)
  }

  /** The snapshots of entity `e`'s child collections, under their child names, taken at `level`. */
  function ChildrenData(ents: map<nat, EntityState>, cols: map<nat, CollectionState>, next: nat,
                        e: nat, opts: DataOptions, level: nat): (m: map<string, Value>)
    requires ValidMaps(ents, cols, next) && e in ents
    ensures forall k :: k in m <==> k in ChildNames(ents[e].definition)
    decreases EntityHeight(ents[e]), 0
  {
    var r := ents[e];
    var names := ChildNames(r.definition);
    ChildrenBelow(ents, cols, next, e);
    map name | name in names :: CollectionData(ents, cols, next, r.children[PositionOf(names, name)], opts, level)
  }

  /** The snapshot of collection `c`: one entity snapshot per view member, at the same level. */
  function CollectionData(ents: map<nat, EntityState>, cols: map<nat, CollectionState>, next: nat,
                          c: nat, opts: DataOptions, level: nat): (v: Value)
    requires ValidMaps(ents, cols, next) && c in cols
    ensures v.Arr? && |v.items| == |View(cols[c])|
    ensures forall i :: 0 <= i < |v.items| ==> v.items[i].Obj?
    decreases CollectionHeight(cols[c]), 0
  {
    var view := View(cols[c]);
    ViewBelow(ents, cols, next, c);
    Arr(seq(|view|, i requires 0 <= i < |view| => EntityData(ents, cols, next, view[i], opts, level)))
  }

  /** `entityData(value, opts, level)`: `None` stands for a value that is neither an entity nor a collection proxy. */
  function DataOf(ents: map<nat, EntityState>, cols: map<nat, CollectionState>, next: nat,
                  x: Option<Handle>, opts: DataOptions, level: nat): (v: Value)
    requires ValidMaps(ents, cols, next)
    requires x.Some? ==> (x.value.EntityRef? ==> x.value.entity in ents) && (x.value.CollectionRef? ==> x.value.collection in cols)
    ensures x.None? <==> v.Undefined?
    ensures x.Some? && x.value.EntityRef? ==> v.Obj?
    ensures x.Some? && x.value.CollectionRef? ==> v.Arr? && |v.items| == |View(cols[x.value.collection])|
  {
    match x
    case None => Undefined
    case Some(EntityRef(e)) => EntityData(ents, cols, next, e, opts, level)
    case Some(CollectionRef(c)) => CollectionData(ents, cols, next, c, opts, level)
  }

  /** How an entity snapshot is put together: keys, then details, then children. */
  lemma EntityDataParts(ents: map<nat, EntityState>, cols: map<nat, CollectionState>, next: nat,
                        e: nat, opts: DataOptions, level: nat)
    requires ValidMaps(ents, cols, next) && e in ents
    ensures EntityData(ents, cols, next, e, opts, level).fields ==
              KeyValues(ents[e])
              + (if opts.withoutDetails then map[] else DetailsData(ents[e].details))
              + (if ShowsChildren(opts, level) then ChildrenData(ents, cols, next, e, opts, level + 1) else map[])
  {
  }

  /** Names are never shared between keys, details and children of a consistent entity. */
  lemma NamesApart(ents: map<nat, EntityState>, cols: map<nat, CollectionState>, next: nat, e: nat)
    requires ValidMaps(ents, cols, next) && e in ents
    ensures forall k :: k in ents[e].details ==> k !in Keys(ents[e].definition) && k !in ChildNames(ents[e].definition)
    ensures forall k :: k in ChildNames(ents[e].definition) ==> k !in Keys(ents[e].definition)
  {
    assert EntityOk(ents, cols, e);
  }

  /** An entity snapshot holds every declared key with the value its getter reads. */
  lemma EntityDataKeys(ents: map<nat, EntityState>, cols: map<nat, CollectionState>, next: nat,
                       e: nat, opts: DataOptions, level: nat)
    requires ValidMaps(ents, cols, next) && e in ents
    ensures var f := EntityData(ents, cols, next, e, opts, level).fields;
            forall k :: k in Keys(ents[e].definition) ==> k in f && f[k] == Effective(ents[e], k)
  {
    EntityDataParts(ents, cols, next, e, opts, level);
    NamesApart(ents, cols, next, e);
  }

  /**
   * An entity snapshot holds a detail exactly when details are included and
   * the detail is neither null nor undefined, and then its JSON copy.
   */
  lemma EntityDataDetails(ents: map<nat, EntityState>, cols: map<nat, CollectionState>, next: nat,
                          e: nat, opts: DataOptions, level: nat)
    requires ValidMaps(ents, cols, next) && e in ents
    ensures var r, f := ents[e], EntityData(ents, cols, next, e, opts, level).fields;
            && (forall k :: k in r.details ==> (k in f <==> !opts.withoutDetails && !IsNullish(r.details[k])))
            && (forall k :: k in r.details && k in f ==> f[k] == JsonCopy(r.details[k]))
  {
    EntityDataParts(ents, cols, next, e, opts, level);
    NamesApart(ents, cols, next, e);
  }

  /**
   * An entity snapshot holds each child collection's snapshot, one level
   * down, under its child name exactly when the options show children at
   * this level.
   */
  lemma EntityDataChildren(ents: map<nat, EntityState>, cols: map<nat, CollectionState>, next: nat,
                           e: nat, opts: DataOptions, level: nat)
    requires ValidMaps(ents, cols, next) && e in ents
    ensures |ents[e].children| == |ChildNames(ents[e].definition)|
    ensures forall i :: 0 <= i < |ents[e].children| ==> ents[e].children[i] in cols
    ensures var r, f := ents[e], EntityData(ents, cols, next, e, opts, level).fields;
            forall i :: 0 <= i < |r.children| ==>
              && (ChildNames(r.definition)[i] in f <==> ShowsChildren(opts, level))
              && (ShowsChildren(opts, level) ==>
                    f[ChildNames(r.definition)[i]] == CollectionData(ents, cols, next, r.children[i], opts, level + 1))
  {
    ChildrenBelow(ents, cols, next, e);
    EntityDataParts(ents, cols, next, e, opts, level);
    NamesApart(ents, cols, next, e);
    if ShowsChildren(opts, level) {
      ChildrenDataAt(ents, cols, next, e, opts, level + 1);
    }
  }

  /** An entity snapshot holds nothing but declared keys, details and child names. */
  lemma EntityDataNothingElse(ents: map<nat, EntityState>, cols: map<nat, CollectionState>, next: nat,
                              e: nat, opts: DataOptions, level: nat)
    requires ValidMaps(ents, cols, next) && e in ents
    ensures var r, f := ents[e], EntityData(ents, cols, next, e, opts, level).fields;
            forall k :: k in f ==> k in Keys(r.definition) || k in r.details || k in ChildNames(r.definition)
  {
    EntityDataParts(ents, cols, next, e, opts, level);
  }

  /** Child `i`'s snapshot sits under child name `i` (child names are distinct). */
  lemma ChildrenDataAt(ents: map<nat, EntityState>, cols: map<nat, CollectionState>, next: nat,
                       e: nat, opts: DataOptions, level: nat)
    requires ValidMaps(ents, cols, next) && e in ents
    ensures |ents[e].children| == |ChildNames(ents[e].definition)|
    ensures forall i :: 0 <= i < |ents[e].children| ==> ents[e].children[i] in cols
    ensures var r, m := ents[e], ChildrenData(ents, cols, next, e, opts, level);
            forall i :: 0 <= i < |r.children| ==>
              ChildNames(r.definition)[i] in m
              && m[ChildNames(r.definition)[i]] == CollectionData(ents, cols, next, r.children[i], opts, level)
  {
    var r := ents[e];
    var names := ChildNames(r.definition);
    assert EntityOk(ents, cols, e);
    ChildrenBelow(ents, cols, next, e);
    forall i | 0 <= i < |r.children|
      ensures ChildrenData(ents, cols, next, e, opts, level)[names[i]] == CollectionData(ents, cols, next, r.children[i], opts, level)
    {
      assert PositionOf(names, names[i]) == i;
    }
  }

  /** A collection snapshot lists, in view order, the snapshots of the view's members at the same level. */
  lemma CollectionDataItems(ents: map<nat, EntityState>, cols: map<nat, CollectionState>, next: nat,
                            c: nat, opts: DataOptions, level: nat)
    requires ValidMaps(ents, cols, next) && c in cols
    ensures forall m :: m in View(cols[c]) ==> m in ents
    ensures var v := CollectionData(ents, cols, next, c, opts, level);
            forall i :: 0 <= i < |View(cols[c])| ==>
              v.items[i] == EntityData(ents, cols, next, View(cols[c])[i], opts, level)
  {
    ViewBelow(ents, cols, next, c);
  }

  /** Once the level reaches a numeric depth, the snapshot is the one taken without children. */
  lemma DepthReached(ents: map<nat, EntityState>, cols: map<nat, CollectionState>, next: nat,
                     e: nat, opts: DataOptions, level: nat)
    requires ValidMaps(ents, cols, next) && e in ents
    requires opts.depth.Some? && opts.depth.value <= level
    ensures EntityData(ents, cols, next, e, opts, level)
         == EntityData(ents, cols, next, e, opts.(withoutChildren := true), level)
  {
  }

  /**
   * Writing an entity's own snapshot back through `entitySyncData` keeps
   * every declared key's value, and leaves a key dirty exactly when it was
   * dirty with a value other than the stored one.
   */
  lemma SyncOwnDataKeepsKeys(ents: map<nat, EntityState>, cols: map<nat, CollectionState>, next: nat,
                             e: nat, opts: DataOptions, level: nat, w: EntityState)
    requires ValidMaps(ents, cols, next) && e in ents
    requires w.definition == ents[e].definition
    requires EntitySynced(ents[e].storedProperties, w, EntityData(ents, cols, next, e, opts, level))
    ensures forall k :: k in Keys(w.definition) ==> Effective(w, k) == Effective(ents[e], k)
    ensures forall k :: k in Keys(w.definition) ==>
              (k in w.changedProperties <==> Effective(ents[e], k) != Field(ents[e].storedProperties, k))
  {
    EntityDataKeys(ents, cols, next, e, opts, level);
  }

  /**
   * The same round trip keeps the details that are plain JSON data, and
   * drops nothing else that is non-null when details are included.
   */
  lemma SyncOwnDataKeepsDetails(ents: map<nat, EntityState>, cols: map<nat, CollectionState>, next: nat,
                                e: nat, opts: DataOptions, level: nat, w: EntityState)
    requires ValidMaps(ents, cols, next) && e in ents && !opts.withoutDetails
    requires w.definition == ents[e].definition
    requires EntitySynced(ents[e].storedProperties, w, EntityData(ents, cols, next, e, opts, level))
    ensures forall k :: k in ents[e].details && !IsNullish(ents[e].details[k]) ==> k in w.details
    ensures forall k :: k in ents[e].details && JsonPlain(ents[e].details[k]) && !ents[e].details[k].Null? ==>
              w.details[k] == ents[e].details[k]
  {
    var r := ents[e];
    assert EntityOk(ents, cols, e);
    EntityDataDetails(ents, cols, next, e, opts, level);
    forall k | k in r.details && JsonPlain(r.details[k]) && !r.details[k].Null?
      ensures w.details[k] == r.details[k]
    {
      JsonCopyOfPlain(r.details[k]);
    }
  }
}
