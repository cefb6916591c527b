/** Content-addressed versions of catalog adapters. */
module Fingerprint {
  import opened Options
  import opened Utf16
  import opened Json
  import Sorting

  // ----- the order in which a JavaScript object lists its keys

  /** Order by UTF-16 code units. */
  predicate Lex(a: seq<Unit>, b: seq<Unit>) {
    b != [] && (a == [] || (if a[0] != b[0] then a[0] < b[0] else Lex(a[1..], b[1..])))
  }

  const LAST_INDEX: seq<Unit> := [52, 50, 57, 52, 57, 54, 55, 50, 57, 52] // 4294967294

  /** An array index in canonical form: digits without a leading zero, below 2^32 - 1. */
  predicate IsIndex(k: seq<Unit>) {
    && k != []
    && (forall i :: 0 <= i < |k| ==> IsDigit(k[i]))
    && (|k| == 1 || k[0] != 48)
    && (|k| < 10 || (|k| == 10 && !Lex(LAST_INDEX, k)))
  }

  /** Array indices come first, by value; the other keys follow in the order they were written, sorted. */
  predicate KeyBefore(a: seq<Unit>, b: seq<Unit>) {
    if IsIndex(a) && IsIndex(b) then |a| < |b| || (|a| == |b| && Lex(a, b))
    else if IsIndex(a) || IsIndex(b) then IsIndex(a)
    else Lex(a, b)
  }

  lemma {:induction false} LexIsTotal(a: seq<Unit>, b: seq<Unit>)
    ensures a == b || Lex(a, b) || Lex(b, a)
    ensures Lex(a, b) ==> a != b && !Lex(b, a)
  {
    if a != [] && b != [] && a[0] == b[0] {
      LexIsTotal(a[1..], b[1..]);
      assert a == [a[0]] + a[1..] && b == [b[0]] + b[1..];
    }
  }

  lemma {:induction false} LexIsTransitive(a: seq<Unit>, b: seq<Unit>, c: seq<Unit>)
    requires Lex(a, b) && Lex(b, c)
    ensures Lex(a, c)
  {
    if a != [] && a[0] == b[0] == c[0] {
      LexIsTransitive(a[1..], b[1..], c[1..]);
    }
  }

  lemma KeyBeforeIsTotal(a: seq<Unit>, b: seq<Unit>)
    ensures a == b || KeyBefore(a, b) || KeyBefore(b, a)
    ensures KeyBefore(a, b) ==> a != b && !KeyBefore(b, a)
  {
    LexIsTotal(a, b);
  }

  lemma KeyBeforeIsTransitive(a: seq<Unit>, b: seq<Unit>, c: seq<Unit>)
    requires KeyBefore(a, b) && KeyBefore(b, c)
    ensures KeyBefore(a, c)
  {
    if Lex(a, b) && Lex(b, c) {
      LexIsTransitive(a, b, c);
    }
  }

  // ----- canonical form

  const PROTO: seq<Unit> := [95, 95, 112, 114, 111, 116, 111, 95, 95] // "__proto__"

  /** Where a new key goes among keys already in order. */
  function Place(fields: seq<Field>, f: Field): seq<Field> {
    if fields == [] || KeyBefore(f.key, fields[0].key) then [f] + fields
    else [fields[0]] + Place(fields[1..], f)
  }

  /**
   Keys sorted at every level. Assigning `out["__proto__"]` sets the prototype of `out`
   instead of adding a key, so that field is lost.
   */
  function Canonical(v: Json): Json
    decreases v, 1
  {
    match v
    case Array(items) => Array(CanonicalItems(items))
    case Object(fields) => Object(CanonicalFields(fields))
    case _ => v
  }

  function CanonicalItems(items: seq<Json>): seq<Json>
    decreases items, 0
  {
    if items == [] then [] else [Canonical(items[0])] + CanonicalItems(items[1..])
  }

  function CanonicalFields(fields: seq<Field>): seq<Field>
    decreases fields, 0
  {
    if fields == [] then []
    else if fields[0].key == PROTO then CanonicalFields(fields[1..])
    else Place(CanonicalFields(fields[1..]), Field(fields[0].key, Canonical(fields[0].value)))
  }

  /** The value without any `__proto__` field. */
  function Stripped(v: Json): Json
    decreases v, 1
  {
    match v
    case Array(items) => Array(StrippedItems(items))
    case Object(fields) => Object(StrippedFields(fields))
    case _ => v
  }

  function StrippedItems(items: seq<Json>): seq<Json>
    decreases items, 0
  {
    if items == [] then [] else [Stripped(items[0])] + StrippedItems(items[1..])
  }

  function StrippedFields(fields: seq<Field>): seq<Field>
    decreases fields, 0
  {
    if fields == [] then []
    else if fields[0].key == PROTO then StrippedFields(fields[1..])
    else [Field(fields[0].key, Stripped(fields[0].value))] + StrippedFields(fields[1..])
  }

  // ----- what a value means, whatever the order of its keys

  datatype Content =
    | Leaf(v: Json)
    | List(items: seq<Content>)
    | Record(fields: map<seq<Unit>, Content>)

  function Meaning(v: Json): Content
    decreases v, 1
  {
    match v
    case Array(items) => List(MeaningItems(items))
    case Object(fields) => Record(MeaningFields(fields))
    case _ => Leaf(v)
  }

  function MeaningItems(items: seq<Json>): seq<Content>
    decreases items, 0
  {
    if items == [] then [] else [Meaning(items[0])] + MeaningItems(items[1..])
  }

  function MeaningFields(fields: seq<Field>): map<seq<Unit>, Content>
    decreases fields, 0
  {
    if fields == [] then map[] else MeaningFields(fields[1..])[fields[0].key := Meaning(fields[0].value)]
  }

  ghost predicate HasKey(fields: seq<Field>, key: seq<Unit>) {
    exists i :: 0 <= i < |fields| && fields[i].key == key
  }

  /** A value as JavaScript can hold it: no object has a key twice. */
  ghost predicate Proper(v: Json)
    decreases v, 1
  {
    match v
    case Array(items) => ItemsProper(items)
    case Object(fields) => FieldsProper(fields)
    case _ => true
  }

  ghost predicate ItemsProper(items: seq<Json>)
    decreases items, 0
  {
    items != [] ==> Proper(items[0]) && ItemsProper(items[1..])
  }

  ghost predicate FieldsProper(fields: seq<Field>)
    decreases fields, 0
  {
    fields != [] ==> Proper(fields[0].value) && !HasKey(fields[1..], fields[0].key) && FieldsProper(fields[1..])
  }

  /** Every object lists its keys in order. */
  ghost predicate InOrder(v: Json)
    decreases v, 1
  {
    match v
    case Array(items) => ItemsInOrder(items)
    case Object(fields) => FieldsInOrder(fields)
    case _ => true
  }

  ghost predicate ItemsInOrder(items: seq<Json>)
    decreases items, 0
  {
    items != [] ==> InOrder(items[0]) && ItemsInOrder(items[1..])
  }

  ghost predicate FieldsInOrder(fields: seq<Field>)
    decreases fields, 0
  {
    fields != [] ==>
      && InOrder(fields[0].value)
      && (|fields| > 1 ==> KeyBefore(fields[0].key, fields[1].key))
      && FieldsInOrder(fields[1..])
  }

  // ----- canonical values are in order and mean the same

  lemma {:induction false} MeaningHasKeys(fields: seq<Field>, key: seq<Unit>)
    ensures key in MeaningFields(fields) <==> HasKey(fields, key)
  {
    if fields != [] {
      MeaningHasKeys(fields[1..], key);
      assert HasKey(fields[1..], key) ==> HasKey(fields, key) by {
        if HasKey(fields[1..], key) {
          var i :| 0 <= i < |fields[1..]| && fields[1..][i].key == key;
          assert fields[i + 1].key == key;
        }
      }
      assert HasKey(fields, key) ==> fields[0].key == key || HasKey(fields[1..], key) by {
        if HasKey(fields, key) {
          var i :| 0 <= i < |fields| && fields[i].key == key;
          assert i > 0 ==> fields[1..][i - 1].key == key;
        }
      }
    }
  }

  lemma {:induction false} PlaceKeeps(fields: seq<Field>, f: Field)
    requires FieldsInOrder(fields) && InOrder(f.value) && f.key !in MeaningFields(fields)
    ensures FieldsInOrder(Place(fields, f))
    ensures Place(fields, f)[0].key == f.key || (fields != [] && Place(fields, f)[0].key == fields[0].key)
  {
    if fields == [] || KeyBefore(f.key, fields[0].key) {
      assert ([f] + fields)[1..] == fields;
    } else {
      PlaceKeeps(fields[1..], f);
      KeyBeforeIsTotal(f.key, fields[0].key);
      assert Place(fields, f)[1..] == Place(fields[1..], f);
    }
  }

  lemma {:induction false} PlaceMeans(fields: seq<Field>, f: Field)
    requires f.key !in MeaningFields(fields)
    ensures MeaningFields(Place(fields, f)) == MeaningFields(fields)[f.key := Meaning(f.value)]
  {
    if fields == [] || KeyBefore(f.key, fields[0].key) {
      assert ([f] + fields)[1..] == fields;
    } else {
      PlaceMeans(fields[1..], f);
      assert Place(fields, f)[1..] == Place(fields[1..], f);
    }
  }

  lemma {:induction false} CanonicalIsInOrder(v: Json)
    requires Proper(v)
    ensures InOrder(Canonical(v)) && Meaning(Canonical(v)) == Meaning(Stripped(v))
    decreases v, 1
  {
    match v
    case Array(items) => CanonicalItemsInOrder(items);
    case Object(fields) => CanonicalFieldsInOrder(fields);
    case _ =>
  }

  lemma {:induction false} CanonicalItemsInOrder(items: seq<Json>)
    requires ItemsProper(items)
    ensures ItemsInOrder(CanonicalItems(items))
    ensures MeaningItems(CanonicalItems(items)) == MeaningItems(StrippedItems(items))
    decreases items, 0
  {
    if items != [] {
      CanonicalIsInOrder(items[0]);
      CanonicalItemsInOrder(items[1..]);
      assert CanonicalItems(items)[1..] == CanonicalItems(items[1..]);
      assert StrippedItems(items)[1..] == StrippedItems(items[1..]);
    }
  }

  lemma {:induction false} CanonicalFieldsInOrder(fields: seq<Field>)
    requires FieldsProper(fields)
    ensures FieldsInOrder(CanonicalFields(fields))
    ensures MeaningFields(CanonicalFields(fields)) == MeaningFields(StrippedFields(fields))
    ensures forall key :: key in MeaningFields(CanonicalFields(fields)) ==> HasKey(fields, key) && key != PROTO
    decreases fields, 0
  {
    if fields != [] {
      CanonicalIsInOrder(fields[0].value);
      CanonicalFieldsInOrder(fields[1..]);
      forall key | HasKey(fields[1..], key)
        ensures HasKey(fields, key)
      {
        var i :| 0 <= i < |fields[1..]| && fields[1..][i].key == key;
        assert fields[i + 1].key == key;
      }
      if fields[0].key != PROTO {
        PlaceKeeps(CanonicalFields(fields[1..]), Field(fields[0].key, Canonical(fields[0].value)));
        PlaceMeans(CanonicalFields(fields[1..]), Field(fields[0].key, Canonical(fields[0].value)));
        assert StrippedFields(fields)[1..] == StrippedFields(fields[1..]);
      }
    }
  }

  // ----- a value in order is determined by what it means

  lemma {:induction false} HeadComesFirst(fields: seq<Field>, key: seq<Unit>)
    requires fields != [] && FieldsInOrder(fields) && key in MeaningFields(fields[1..])
    ensures KeyBefore(fields[0].key, key)
    decreases |fields|
  {
    var rest := fields[1..];
    if rest[0].key != key {
      HeadComesFirst(rest, key);
      KeyBeforeIsTransitive(fields[0].key, rest[0].key, key);
    }
  }

  /** The head of an ordered list of fields, as the map of their meanings shows it. */
  lemma HeadIsLeast(fields: seq<Field>)
    requires fields != [] && FieldsInOrder(fields)
    ensures fields[0].key !in MeaningFields(fields[1..])
    ensures forall key :: key in MeaningFields(fields) ==> key == fields[0].key || KeyBefore(fields[0].key, key)
  {
    forall key | key in MeaningFields(fields[1..])
      ensures KeyBefore(fields[0].key, key)
    {
      HeadComesFirst(fields, key);
    }
    KeyBeforeIsTotal(fields[0].key, fields[0].key);
  }

  lemma {:induction false} OrderedIsUnique(a: Json, b: Json)
    requires InOrder(a) && InOrder(b) && Meaning(a) == Meaning(b)
    ensures a == b
    decreases a, 1
  {
    match a
    case Array(items) => OrderedItemsUnique(items, b.items);
    case Object(fields) => OrderedFieldsUnique(fields, b.fields);
    case _ =>
  }

  lemma {:induction false} OrderedItemsUnique(a: seq<Json>, b: seq<Json>)
    requires ItemsInOrder(a) && ItemsInOrder(b) && MeaningItems(a) == MeaningItems(b)
    ensures a == b
    decreases a, 0
  {
    if a != [] && b != [] {
      assert MeaningItems(a)[0] == Meaning(a[0]) && MeaningItems(b)[0] == Meaning(b[0]);
      assert MeaningItems(a)[1..] == MeaningItems(a[1..]) && MeaningItems(b)[1..] == MeaningItems(b[1..]);
      OrderedIsUnique(a[0], b[0]);
      OrderedItemsUnique(a[1..], b[1..]);
      assert a == [a[0]] + a[1..] && b == [b[0]] + b[1..];
    }
  }

  lemma {:induction false} OrderedFieldsUnique(a: seq<Field>, b: seq<Field>)
    requires FieldsInOrder(a) && FieldsInOrder(b) && MeaningFields(a) == MeaningFields(b)
    ensures a == b
    decreases a, 0
  {
    if a != [] && b != [] {
      HeadIsLeast(a);
      HeadIsLeast(b);
      KeyBeforeIsTotal(a[0].key, b[0].key);
      TailsMeanTheSame(a, b);
      OrderedIsUnique(a[0].value, b[0].value);
      OrderedFieldsUnique(a[1..], b[1..]);
      assert a == [a[0]] + a[1..] && b == [b[0]] + b[1..];
    } else {
      NoMeaningNoFields(a);
      NoMeaningNoFields(b);
    }
  }

  lemma NoMeaningNoFields(fields: seq<Field>)
    ensures MeaningFields(fields) == map[] <==> fields == []
  {
    if fields != [] {
      assert fields[0].key in MeaningFields(fields);
    }
  }

  lemma TailsMeanTheSame(a: seq<Field>, b: seq<Field>)
    requires a != [] && b != [] && a[0].key == b[0].key && MeaningFields(a) == MeaningFields(b)
    requires a[0].key !in MeaningFields(a[1..]) && b[0].key !in MeaningFields(b[1..])
    ensures MeaningFields(a[1..]) == MeaningFields(b[1..]) && Meaning(a[0].value) == Meaning(b[0].value)
  {
    assert MeaningFields(a[1..]) == MeaningFields(a) - {a[0].key};
    assert MeaningFields(b[1..]) == MeaningFields(b) - {b[0].key};
    assert MeaningFields(a)[a[0].key] == Meaning(a[0].value);
    assert MeaningFields(b)[b[0].key] == Meaning(b[0].value);
  }

  /** Canonical forms agree exactly when the values agree up to key order, `__proto__` fields apart. */
  lemma CanonicalDecides(v: Json, w: Json)
    requires Proper(v) && Proper(w)
    ensures Canonical(v) == Canonical(w) <==> Meaning(Stripped(v)) == Meaning(Stripped(w))
  {
    CanonicalIsInOrder(v);
    CanonicalIsInOrder(w);
    if Meaning(Stripped(v)) == Meaning(Stripped(w)) {
      OrderedIsUnique(Canonical(v), Canonical(w));
    }
  }

  lemma {:induction false} CanonicalStaysProper(v: Json)
    requires Proper(v)
    ensures Proper(Canonical(v)) && Stripped(Canonical(v)) == Canonical(v)
    decreases v, 1
  {
    CanonicalIsInOrder(v);
    match v
    case Array(items) => CanonicalItemsStayProper(items);
    case Object(fields) => CanonicalFieldsStayProper(fields);
    case _ =>
  }

  lemma {:induction false} CanonicalItemsStayProper(items: seq<Json>)
    requires ItemsProper(items)
    ensures ItemsProper(CanonicalItems(items)) && StrippedItems(CanonicalItems(items)) == CanonicalItems(items)
    decreases items, 0
  {
    if items != [] {
      CanonicalStaysProper(items[0]);
      CanonicalItemsStayProper(items[1..]);
      assert CanonicalItems(items)[1..] == CanonicalItems(items[1..]);
    }
  }

  lemma {:induction false} CanonicalFieldsStayProper(fields: seq<Field>)
    requires FieldsProper(fields)
    ensures FieldsProper(CanonicalFields(fields)) && StrippedFields(CanonicalFields(fields)) == CanonicalFields(fields)
    decreases fields, 0
  {
    if fields != [] {
      CanonicalFieldsStayProper(fields[1..]);
      if fields[0].key != PROTO {
        var f := Field(fields[0].key, Canonical(fields[0].value));
        CanonicalStaysProper(fields[0].value);
        CanonicalFieldsInOrder(fields[1..]);
        MeaningHasKeys(CanonicalFields(fields[1..]), f.key);
        PlaceStaysProper(CanonicalFields(fields[1..]), f);
      }
    }
  }

  lemma {:induction false} PlaceStaysProper(fields: seq<Field>, f: Field)
    requires FieldsProper(fields) && StrippedFields(fields) == fields && !HasKey(fields, f.key)
    requires Proper(f.value) && Stripped(f.value) == f.value && f.key != PROTO
    ensures FieldsProper(Place(fields, f)) && StrippedFields(Place(fields, f)) == Place(fields, f)
    ensures forall key :: HasKey(Place(fields, f), key) ==> key == f.key || HasKey(fields, key)
    decreases |fields|
  {
    if fields == [] || KeyBefore(f.key, fields[0].key) {
      assert ([f] + fields)[1..] == fields;
      KeysOfPrepend(f, fields);
    } else {
      var head, rest := fields[0], fields[1..];
      assert fields == [head] + rest;
      StrippedHead(fields);
      KeysOfPrepend(head, rest);
      PlaceStaysProper(rest, f);
      KeysOfPrepend(head, Place(rest, f));
      assert ([head] + Place(rest, f))[1..] == Place(rest, f);
    }
  }

  lemma KeysOfPrepend(f: Field, fields: seq<Field>)
    ensures forall key :: HasKey([f] + fields, key) <==> key == f.key || HasKey(fields, key)
  {
    var longer := [f] + fields;
    forall key
      ensures HasKey(longer, key) <==> key == f.key || HasKey(fields, key)
    {
      MeaningHasKeys(longer, key);
      MeaningHasKeys(fields, key);
      assert longer[1..] == fields;
    }
  }

  lemma {:induction false} StrippedShrinks(fields: seq<Field>)
    ensures |StrippedFields(fields)| <= |fields|
  {
    if fields != [] {
      StrippedShrinks(fields[1..]);
    }
  }

  lemma StrippedHead(fields: seq<Field>)
    requires fields != [] && StrippedFields(fields) == fields
    ensures fields[0].key != PROTO && StrippedFields(fields[1..]) == fields[1..]
  {
    StrippedShrinks(fields[1..]);
    assert fields[0].key != PROTO;
    assert StrippedFields(fields)[1..] == StrippedFields(fields[1..]);
  }

  /** Canonicalising twice is canonicalising once. */
  lemma CanonicalIsIdempotent(v: Json)
    requires Proper(v)
    ensures Canonical(Canonical(v)) == Canonical(v)
  {
    CanonicalStaysProper(v);
    CanonicalIsInOrder(v);
    CanonicalIsInOrder(Canonical(v));
    OrderedIsUnique(Canonical(Canonical(v)), Canonical(v));
  }

  /** A field named `__proto__` goes unnoticed: two contents that differ get one canonical form. */
  lemma ProtoFieldIsLost()
    ensures exists v, w :: Proper(v) && Proper(w) && Meaning(v) != Meaning(w) && Canonical(v) == Canonical(w)
  {
    var fields := [Field(PROTO, Null)];
    var v, w := Object(fields), Object([]);
    var rest := fields[1..];
    assert rest == [] && fields[0].key == PROTO;
    NoMeaningNoFields(fields);
    assert FieldsProper(fields) by { assert FieldsProper(rest) && !HasKey(rest, PROTO); }
    assert CanonicalFields(fields) == CanonicalFields(rest) == [];
    assert Proper(v) && Proper(w) && Meaning(v) != Meaning(w) && Canonical(v) == Canonical(w);
  }

  ghost predicate NoProto(v: Json)
    decreases v, 1
  {
    match v
    case Array(items) => ItemsNoProto(items)
    case Object(fields) => FieldsNoProto(fields)
    case _ => true
  }

  ghost predicate ItemsNoProto(items: seq<Json>)
    decreases items, 0
  {
    items != [] ==> NoProto(items[0]) && ItemsNoProto(items[1..])
  }

  ghost predicate FieldsNoProto(fields: seq<Field>)
    decreases fields, 0
  {
    fields != [] ==> fields[0].key != PROTO && NoProto(fields[0].value) && FieldsNoProto(fields[1..])
  }

  lemma {:induction false} NothingToStrip(v: Json)
    requires NoProto(v)
    ensures Stripped(v) == v
    decreases v, 1
  {
    match v
    case Array(items) => NothingToStripInItems(items);
    case Object(fields) => NothingToStripInFields(fields);
    case _ =>
  }

  lemma {:induction false} NothingToStripInItems(items: seq<Json>)
    requires ItemsNoProto(items)
    ensures StrippedItems(items) == items
    decreases items, 0
  {
    if items != [] {
      NothingToStrip(items[0]);
      NothingToStripInItems(items[1..]);
    }
  }

  lemma {:induction false} NothingToStripInFields(fields: seq<Field>)
    requires FieldsNoProto(fields)
    ensures StrippedFields(fields) == fields
    decreases fields, 0
  {
    if fields != [] {
      NothingToStrip(fields[0].value);
      NothingToStripInFields(fields[1..]);
    }
  }

  /** Without a `__proto__` field, canonical forms agree exactly for values equal up to key order. */
  lemma CanonicalDecidesContent(v: Json, w: Json)
    requires Proper(v) && Proper(w) && NoProto(v) && NoProto(w)
    ensures Canonical(v) == Canonical(w) <==> Meaning(v) == Meaning(w)
  {
    NothingToStrip(v);
    NothingToStrip(w);
    CanonicalDecides(v, w);
  }

  // ----- adapter versions

  /** A JSON part is `Null` where the adapter leaves it out. */
  datatype Tool = Tool(
    name: seq<Unit>,
    description: Option<seq<Unit>>,
    parameters: Json,
    endpointMapping: Json,
    responseMapping: Json,
    useProxy: Option<bool>)

  datatype Adapter = Adapter(
    instructions: Option<seq<Unit>>,
    connectorName: Option<seq<Unit>>,
    connectorType: Option<seq<Unit>>,
    baseUrl: Option<seq<Unit>>,
    authType: Option<seq<Unit>>,
    tools: seq<Tool>)

  function OrEmpty(s: Option<seq<Unit>>): seq<Unit> {
    if s.Some? then s.value else []
  }

  function OrObject(v: Json): Json {
    if v == Null then Object([]) else v
  }

  function ToolFingerprint(t: Tool): Json {
    Object([
      Field(Ascii("name"), String(t.name)),
      Field(Ascii("description"), String(OrEmpty(t.description))),
      Field(Ascii("parameters"), OrObject(t.parameters)),
      Field(Ascii("endpointMapping"), OrObject(t.endpointMapping)),
      Field(Ascii("responseMapping"), t.responseMapping),
      Field(Ascii("useProxy"), Bool(t.useProxy == Some(true)))
    ])
  }

  /** The tool with every default written out. */
  function WithDefaults(t: Tool): Tool {
    t.(description := Some(OrEmpty(t.description)), parameters := OrObject(t.parameters),
       endpointMapping := OrObject(t.endpointMapping), useProxy := Some(t.useProxy == Some(true)))
  }

  /** `a.name.localeCompare(b.name) < 0`, for a collation given as a function. */
  function ByName(collate: (seq<Unit>, seq<Unit>) -> int): (Tool, Tool) -> bool {
    (a: Tool, b: Tool) => collate(a.name, b.name) < 0
  }

  function ConnectorContent(a: Adapter): Json {
    Object([
      Field(Ascii("name"), String(OrEmpty(a.connectorName))),
      Field(Ascii("type"), String(OrEmpty(a.connectorType))),
      Field(Ascii("baseUrl"), String(OrEmpty(a.baseUrl))),
      Field(Ascii("authType"), String(OrEmpty(a.authType)))
    ])
  }

  function AdapterContent(a: Adapter, collate: (seq<Unit>, seq<Unit>) -> int): Json {
    Object([
      Field(Ascii("instructions"), String(OrEmpty(a.instructions))),
      Field(Ascii("connector"), ConnectorContent(a)),
      Field(Ascii("tools"), Array(Sorting.Map(ToolFingerprint, Sorting.Sort(ByName(collate), a.tools))))
    ])
  }

  /** The text whose hash is the version. */
  function VersionText(a: Adapter, collate: (seq<Unit>, seq<Unit>) -> int): seq<Unit> {
    Print(Canonical(AdapterContent(a, collate)))
  }

  ghost predicate ProperTool(t: Tool) {
    Proper(t.parameters) && Proper(t.endpointMapping) && Proper(t.responseMapping)
  }

  ghost predicate ProperAdapter(a: Adapter) {
    forall t :: t in a.tools ==> ProperTool(t)
  }

  // ----- the content of an adapter is a proper value

  ghost predicate DistinctKeys(fields: seq<Field>) {
    forall i, j :: 0 <= i < j < |fields| ==> fields[i].key != fields[j].key
  }

  lemma {:induction false} DistinctFieldsAreProper(fields: seq<Field>)
    requires DistinctKeys(fields) && forall i :: 0 <= i < |fields| ==> Proper(fields[i].value)
    ensures FieldsProper(fields)
    decreases |fields|
  {
    if fields != [] {
      assert !HasKey(fields[1..], fields[0].key);
      DistinctFieldsAreProper(fields[1..]);
    }
  }

  lemma FingerprintIsProper(t: Tool)
    requires ProperTool(t)
    ensures Proper(ToolFingerprint(t))
  {
    var fields := ToolFingerprint(t).fields;
    assert fields[0].key[0] == 110 && fields[1].key[0] == 100 && fields[2].key[0] == 112;
    assert fields[3].key[0] == 101 && fields[4].key[0] == 114 && fields[5].key[0] == 117;
    DistinctFieldsAreProper(fields);
  }

  lemma {:induction false} FingerprintsAreProper(tools: seq<Tool>)
    requires forall t :: t in tools ==> ProperTool(t)
    ensures ItemsProper(Sorting.Map(ToolFingerprint, tools))
    decreases |tools|
  {
    if tools != [] {
      FingerprintsAreProper(tools[..|tools| - 1]);
      FingerprintIsProper(tools[|tools| - 1]);
      ItemsProperAppend(Sorting.Map(ToolFingerprint, tools[..|tools| - 1]), ToolFingerprint(tools[|tools| - 1]));
    }
  }

  lemma {:induction false} ItemsProperAppend(items: seq<Json>, v: Json)
    requires ItemsProper(items) && Proper(v)
    ensures ItemsProper(items + [v])
    decreases |items|
  {
    if items != [] {
      ItemsProperAppend(items[1..], v);
      assert (items + [v])[1..] == items[1..] + [v];
    }
  }

  lemma ConnectorIsProper(a: Adapter)
    ensures Proper(ConnectorContent(a))
  {
    var fields := ConnectorContent(a).fields;
    assert fields[0].key[0] == 110 && fields[1].key[0] == 116 && fields[2].key[0] == 98 && fields[3].key[0] == 97;
    DistinctFieldsAreProper(fields);
  }

  lemma ContentIsProper(a: Adapter, collate: (seq<Unit>, seq<Unit>) -> int)
    requires ProperAdapter(a)
    ensures Proper(AdapterContent(a, collate))
  {
    var sorted := Sorting.Sort(ByName(collate), a.tools);
    Sorting.SortKeepsMembers(ByName(collate), a.tools);
    FingerprintsAreProper(sorted);
    ConnectorIsProper(a);
    var fields := AdapterContent(a, collate).fields;
    assert fields[0].key[0] == 105 && fields[1].key[0] == 99 && fields[2].key[0] == 116;
    DistinctFieldsAreProper(fields);
  }

  /** Two adapters hash the same text exactly when their contents agree up to key order. */
  lemma VersionDecides(a: Adapter, b: Adapter, collate: (seq<Unit>, seq<Unit>) -> int)
    requires ProperAdapter(a) && ProperAdapter(b)
    ensures VersionText(a, collate) == VersionText(b, collate) <==>
            Meaning(Stripped(AdapterContent(a, collate))) == Meaning(Stripped(AdapterContent(b, collate)))
  {
    ContentIsProper(a, collate);
    ContentIsProper(b, collate);
    CanonicalDecides(AdapterContent(a, collate), AdapterContent(b, collate));
    if VersionText(a, collate) == VersionText(b, collate) {
      PrintIsInjective(Canonical(AdapterContent(a, collate)), Canonical(AdapterContent(b, collate)));
    }
  }

  /** The order of the tools does not matter when the collation tells their names apart. */
  lemma ToolOrderIsIrrelevant(a: Adapter, tools: seq<Tool>, collate: (seq<Unit>, seq<Unit>) -> int)
    requires Sorting.IsOrder(ByName(collate)) && multiset(tools) == multiset(a.tools)
    requires forall i, j :: 0 <= i < j < |tools| ==>
               collate(tools[i].name, tools[j].name) < 0 || collate(tools[j].name, tools[i].name) < 0
    ensures VersionText(a.(tools := tools), collate) == VersionText(a, collate)
  {
    Sorting.PermutationsSortAlike(ByName(collate), tools, a.tools);
  }

  /** Filling in defaults does not change the version. */
  lemma DefaultsAreIrrelevant(a: Adapter, collate: (seq<Unit>, seq<Unit>) -> int)
    ensures VersionText(a.(tools := Sorting.Map(WithDefaults, a.tools)), collate) == VersionText(a, collate)
  {
    var sorted := Sorting.Sort(ByName(collate), a.tools);
    Sorting.SortMapped(ByName(collate), WithDefaults, a.tools);
    forall i | 0 <= i < |sorted|
      ensures ToolFingerprint(WithDefaults(sorted[i])) == ToolFingerprint(sorted[i])
    {
    }
    assert Sorting.Map(ToolFingerprint, Sorting.Map(WithDefaults, sorted)) == Sorting.Map(ToolFingerprint, sorted);
  }

  // ----- names the collation ties

  lemma StripField(f: Field, rest: seq<Field>)
    requires f.key != PROTO
    ensures StrippedFields([f] + rest) == [Field(f.key, Stripped(f.value))] + StrippedFields(rest)
    ensures MeaningFields(StrippedFields([f] + rest)) ==
            MeaningFields(StrippedFields(rest))[f.key := Meaning(Stripped(f.value))]
  {
    assert ([f] + rest)[1..] == rest;
    var stripped := [Field(f.key, Stripped(f.value))] + StrippedFields(rest);
    assert stripped[1..] == StrippedFields(rest);
  }

  /** Adapters that differ in their tools only agree exactly when their tool lists do. */
  lemma ContentsDifferInTools(x: Field, y: Field, t: Field, t': Field)
    requires x.key != y.key && x.key != t.key && y.key != t.key && t.key == t'.key
    requires x.key != PROTO && y.key != PROTO && t.key != PROTO
    ensures Meaning(Stripped(Object([x, y, t]))) == Meaning(Stripped(Object([x, y, t']))) <==>
            Meaning(Stripped(t.value)) == Meaning(Stripped(t'.value))
  {
    var m, m' := MeaningFields(StrippedFields([x, y, t])), MeaningFields(StrippedFields([x, y, t']));
    ThreeFields(x, y, t);
    ThreeFields(x, y, t');
    assert m[t.key] == Meaning(Stripped(t.value)) && m'[t.key] == Meaning(Stripped(t'.value));
  }

  lemma ThreeFields(x: Field, y: Field, t: Field)
    requires x.key != PROTO && y.key != PROTO && t.key != PROTO
    ensures MeaningFields(StrippedFields([x, y, t])) ==
            map[t.key := Meaning(Stripped(t.value))]
               [y.key := Meaning(Stripped(y.value))]
               [x.key := Meaning(Stripped(x.value))]
  {
    StripField(t, []);
    assert [t] == [t] + [];
    StripField(y, [t]);
    assert [y, t] == [y] + [t];
    StripField(x, [y, t]);
    assert [x, y, t] == [x] + [y, t];
  }

  lemma {:induction false} ItemsMean(items: seq<Json>)
    ensures |MeaningItems(StrippedItems(items))| == |items|
    ensures forall i :: 0 <= i < |items| ==> MeaningItems(StrippedItems(items))[i] == Meaning(Stripped(items[i]))
    decreases |items|
  {
    if items != [] {
      ItemsMean(items[1..]);
      assert StrippedItems(items)[1..] == StrippedItems(items[1..]);
    }
  }

  /** What a tool contributes to the version. */
  ghost function MeaningOf(t: Tool): Content {
    Meaning(Stripped(ToolFingerprint(t)))
  }

  /** The two lists have tools that mean the same at the same places. */
  ghost predicate MeanTheSame(s: seq<Tool>, t: seq<Tool>) {
    |s| == |t| && forall i :: 0 <= i < |s| ==> MeaningOf(s[i]) == MeaningOf(t[i])
  }

  function Fingerprints(tools: seq<Tool>): Json {
    Array(Sorting.Map(ToolFingerprint, tools))
  }

  lemma FingerprintItemsMean(tools: seq<Tool>)
    ensures var items := MeaningItems(StrippedItems(Sorting.Map(ToolFingerprint, tools)));
            |items| == |tools| && forall i :: 0 <= i < |tools| ==> items[i] == MeaningOf(tools[i])
  {
    ItemsMean(Sorting.Map(ToolFingerprint, tools));
  }

  lemma FingerprintsMean(s: seq<Tool>, t: seq<Tool>)
    ensures Meaning(Stripped(Fingerprints(s))) == Meaning(Stripped(Fingerprints(t))) <==> MeanTheSame(s, t)
  {
    FingerprintItemsMean(s);
    FingerprintItemsMean(t);
    SameItems(s, t, MeaningItems(StrippedItems(Sorting.Map(ToolFingerprint, s))),
              MeaningItems(StrippedItems(Sorting.Map(ToolFingerprint, t))));
  }

  lemma SameItems(s: seq<Tool>, t: seq<Tool>, a: seq<Content>, b: seq<Content>)
    requires |a| == |s| && |b| == |t|
    requires forall i :: 0 <= i < |s| ==> a[i] == MeaningOf(s[i])
    requires forall i :: 0 <= i < |t| ==> b[i] == MeaningOf(t[i])
    ensures a == b <==> MeanTheSame(s, t)
  {
    if MeanTheSame(s, t) {
      forall i | 0 <= i < |a|
        ensures a[i] == b[i]
      {
        assert MeaningOf(s[i]) == MeaningOf(t[i]);
      }
    }
  }

  lemma ContentKeys()
    ensures Ascii("instructions") != Ascii("connector") && Ascii("instructions") != Ascii("tools")
    ensures Ascii("connector") != Ascii("tools")
    ensures PROTO != Ascii("instructions") && PROTO != Ascii("connector") && PROTO != Ascii("tools")
  {
    assert Ascii("instructions")[0] == 105 && Ascii("connector")[0] == 99 && Ascii("tools")[0] == 116;
    assert PROTO[0] == 95;
  }

  lemma ContentsAgreeIff(a: Adapter, b: Adapter, collate: (seq<Unit>, seq<Unit>) -> int)
    requires b == a.(tools := b.tools)
    ensures Meaning(Stripped(AdapterContent(a, collate))) == Meaning(Stripped(AdapterContent(b, collate))) <==>
            MeanTheSame(Sorting.Sort(ByName(collate), a.tools), Sorting.Sort(ByName(collate), b.tools))
  {
    var s, t := Sorting.Sort(ByName(collate), a.tools), Sorting.Sort(ByName(collate), b.tools);
    ContentKeys();
    ContentsDifferInTools(
      Field(Ascii("instructions"), String(OrEmpty(a.instructions))), Field(Ascii("connector"), ConnectorContent(a)),
      Field(Ascii("tools"), Fingerprints(s)), Field(Ascii("tools"), Fingerprints(t)));
    FingerprintsMean(s, t);
  }

  /** Adapters that differ in their tools only: the tools decide, in the order they are sorted in. */
  lemma ToolsDecideVersion(a: Adapter, b: Adapter, collate: (seq<Unit>, seq<Unit>) -> int)
    requires b == a.(tools := b.tools) && ProperAdapter(a) && ProperAdapter(b)
    ensures VersionText(a, collate) == VersionText(b, collate) <==>
            MeanTheSame(Sorting.Sort(ByName(collate), a.tools), Sorting.Sort(ByName(collate), b.tools))
  {
    VersionDecides(a, b, collate);
    ContentsAgreeIff(a, b, collate);
  }

  /** Any two tools whose names the collation cannot tell apart mean the same. */
  ghost predicate TiesAgree(tools: seq<Tool>, collate: (seq<Unit>, seq<Unit>) -> int) {
    forall x, y :: x in tools && y in tools && Sorting.Tied(ByName(collate), x, y) ==> MeaningOf(x) == MeaningOf(y)
  }

  /** The version stays when the tools come in this order, if they are the same ones. */
  ghost predicate KeepsVersion(a: Adapter, tools: seq<Tool>, collate: (seq<Unit>, seq<Unit>) -> int) {
    multiset(tools) == multiset(a.tools) ==> VersionText(a.(tools := tools), collate) == VersionText(a, collate)
  }

  lemma SameMembers(s: seq<Tool>, t: seq<Tool>)
    requires multiset(s) == multiset(t)
    ensures forall x :: x in s <==> x in t
  {
    forall x
      ensures x in s <==> x in t
    {
      assert x in s <==> x in multiset(s);
      assert x in t <==> x in multiset(t);
    }
  }

  lemma SortedTiesAgree(tools: seq<Tool>, others: seq<Tool>, collate: (seq<Unit>, seq<Unit>) -> int)
    requires Sorting.IsOrder(ByName(collate)) && TiesAgree(tools, collate) && multiset(tools) == multiset(others)
    ensures MeanTheSame(Sorting.Sort(ByName(collate), others), Sorting.Sort(ByName(collate), tools))
  {
    var before := ByName(collate);
    var s, t := Sorting.Sort(before, others), Sorting.Sort(before, tools);
    Sorting.SortPermutes(before, others);
    Sorting.SortPermutes(before, tools);
    Sorting.SortSorts(before, others);
    Sorting.SortSorts(before, tools);
    Sorting.SortedPermutationsTie(before, s, t);
    SameMembers(s, tools);
    SameMembers(t, tools);
    forall i | 0 <= i < |s|
      ensures MeaningOf(s[i]) == MeaningOf(t[i])
    {
      assert s[i] in tools && t[i] in tools;
    }
  }

  /** Where ties agree, no order of the tools changes the version. */
  lemma AgreeingTiesKeepVersion(a: Adapter, tools: seq<Tool>, collate: (seq<Unit>, seq<Unit>) -> int)
    requires ProperAdapter(a) && Sorting.IsOrder(ByName(collate)) && TiesAgree(a.tools, collate)
    ensures KeepsVersion(a, tools, collate)
  {
    if multiset(tools) == multiset(a.tools) {
      SameMembers(tools, a.tools);
      SortedTiesAgree(a.tools, tools, collate);
      ToolsDecideVersion(a.(tools := tools), a, collate);
    }
  }

  /** Two tied tools that differ, in front of any others: which comes first changes the version. */
  lemma DifferingTiesChangeVersion(
      a: Adapter, x: Tool, y: Tool, others: seq<Tool>, collate: (seq<Unit>, seq<Unit>) -> int)
    requires ProperAdapter(a.(tools := [x, y] + others)) && Sorting.IsOrder(ByName(collate))
    requires Sorting.Tied(ByName(collate), x, y) && MeaningOf(x) != MeaningOf(y)
    ensures VersionText(a.(tools := [x, y] + others), collate) != VersionText(a.(tools := [y, x] + others), collate)
  {
    var b, c := a.(tools := [x, y] + others), a.(tools := [y, x] + others);
    Sorting.SwapPermutes(x, y, others);
    SameMembers(b.tools, c.tools);
    var p := Sorting.TiedSwap(ByName(collate), x, y, others);
    ToolsDecideVersion(b, c, collate);
  }

  /** Where ties do not agree, some order of the same tools changes the version. */
  lemma SomeOrderChangesVersion(a: Adapter, x: Tool, y: Tool, collate: (seq<Unit>, seq<Unit>) -> int)
    returns (tools: seq<Tool>)
    requires ProperAdapter(a) && Sorting.IsOrder(ByName(collate)) && x in a.tools && y in a.tools
    requires Sorting.Tied(ByName(collate), x, y) && MeaningOf(x) != MeaningOf(y)
    ensures !KeepsVersion(a, tools, collate)
  {
    var others := Sorting.TakeTwo(a.tools, x, y);
    var s, t := [x, y] + others, [y, x] + others;
    Sorting.SwapPermutes(x, y, others);
    PermutedIsProper(a, s);
    DifferingTiesChangeVersion(a, x, y, others, collate);
    NotBothKeep(a, s, t, collate);
    tools := if KeepsVersion(a, s, collate) then t else s;
  }

  lemma PermutedIsProper(a: Adapter, tools: seq<Tool>)
    requires ProperAdapter(a) && multiset(tools) == multiset(a.tools)
    ensures ProperAdapter(a.(tools := tools))
  {
    SameMembers(tools, a.tools);
  }

  lemma NotBothKeep(a: Adapter, s: seq<Tool>, t: seq<Tool>, collate: (seq<Unit>, seq<Unit>) -> int)
    requires multiset(s) == multiset(t) == multiset(a.tools)
    requires VersionText(a.(tools := s), collate) != VersionText(a.(tools := t), collate)
    ensures !KeepsVersion(a, s, collate) || !KeepsVersion(a, t, collate)
  {
  }

  /**
   The order of the tools is irrelevant to the version exactly when any two tools whose names
   the collation ties have the same fingerprint up to key order.
   */
  lemma ToolOrderIsIrrelevantIff(a: Adapter, collate: (seq<Unit>, seq<Unit>) -> int)
    requires ProperAdapter(a) && Sorting.IsOrder(ByName(collate))
    ensures (forall tools :: KeepsVersion(a, tools, collate)) <==> TiesAgree(a.tools, collate)
  {
    if TiesAgree(a.tools, collate) {
      forall tools
        ensures KeepsVersion(a, tools, collate)
      {
        AgreeingTiesKeepVersion(a, tools, collate);
      }
    } else {
      var x, y :| x in a.tools && y in a.tools && Sorting.Tied(ByName(collate), x, y) && MeaningOf(x) != MeaningOf(y);
      var tools := SomeOrderChangesVersion(a, x, y, collate);
      assert !KeepsVersion(a, tools, collate);
    }
  }

  lemma {:induction false} FirstFieldIsMeant(f: Field, rest: seq<Field>)
    requires f.key != PROTO
    ensures var m := Meaning(Stripped(Object([f] + rest)));
            f.key in m.fields && m.fields[f.key] == Meaning(Stripped(f.value))
  {
    StripField(f, rest);
  }

  /** Tools of different names never mean the same. */
  lemma NamesAreMeant(x: Tool, y: Tool)
    ensures MeaningOf(x) == MeaningOf(y) ==> x.name == y.name
  {
    var a, b := ToolFingerprint(x).fields, ToolFingerprint(y).fields;
    assert Ascii("name")[0] == 110 && PROTO[0] == 95;
    FirstFieldIsMeant(a[0], a[1..]);
    FirstFieldIsMeant(b[0], b[1..]);
    assert [a[0]] + a[1..] == a && [b[0]] + b[1..] == b;
  }

  function NamedTool(name: seq<Unit>): Tool {
    Tool(name, None, Null, Null, Null, None)
  }

  /**
   "\u00E9" as one character and as two, which a collation ties: two adapters with the same two
   tools in another order have different versions.
   */
  lemma TiedNamesKeepTheirOrder(a: Adapter, collate: (seq<Unit>, seq<Unit>) -> int)
    requires Sorting.IsOrder(ByName(collate)) && collate([0xE9], [0x65, 0x301]) == 0 == collate([0x65, 0x301], [0xE9])
    ensures var x, y := NamedTool([0xE9]), NamedTool([0x65, 0x301]);
            VersionText(a.(tools := [x, y]), collate) != VersionText(a.(tools := [y, x]), collate)
  {
    var x, y := NamedTool([0xE9]), NamedTool([0x65, 0x301]);
    assert x.name[0] != y.name[0];
    NamesAreMeant(x, y);
    DifferingPairChangesVersion(a, x, y, collate);
  }

  lemma DifferingPairChangesVersion(a: Adapter, x: Tool, y: Tool, collate: (seq<Unit>, seq<Unit>) -> int)
    requires ProperTool(x) && ProperTool(y) && Sorting.IsOrder(ByName(collate))
    requires Sorting.Tied(ByName(collate), x, y) && MeaningOf(x) != MeaningOf(y)
    ensures VersionText(a.(tools := [x, y]), collate) != VersionText(a.(tools := [y, x]), collate)
  {
    assert [x, y] + [] == [x, y] && [y, x] + [] == [y, x];
    DifferingTiesChangeVersion(a, x, y, [], collate);
  }
}
