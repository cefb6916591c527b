/** What the version of an adapter tells apart, said of the fields of the adapter and its tools. */
module AdapterVersion {
  import opened Options
  import opened Utf16
  import opened Json
  import opened Fingerprint
  import Sorting

  // ----- objects with the same keys

  ghost predicate SameKeys(f: seq<Field>, g: seq<Field>) {
    |f| == |g| && forall i :: 0 <= i < |f| ==> f[i].key == g[i].key
  }

  ghost predicate PlainKeys(f: seq<Field>) {
    DistinctKeys(f) && forall i :: 0 <= i < |f| ==> f[i].key != PROTO
  }

  /** What a value means without its `__proto__` fields. */
  ghost function Meant(v: Json): Content {
    Meaning(Stripped(v))
  }

  ghost function FieldsMeant(f: seq<Field>): map<seq<Unit>, Content> {
    MeaningFields(StrippedFields(f))
  }

  ghost predicate ValuesAgree(f: seq<Field>, g: seq<Field>)
    requires |f| == |g|
  {
    forall i :: 0 <= i < |f| ==> Meant(f[i].value) == Meant(g[i].value)
  }

  lemma HeadMeant(f: seq<Field>)
    requires f != [] && f[0].key != PROTO
    ensures FieldsMeant(f) == FieldsMeant(f[1..])[f[0].key := Meant(f[0].value)]
  {
    StripField(f[0], f[1..]);
    assert [f[0]] + f[1..] == f;
  }

  lemma {:induction false} MeantAt(f: seq<Field>, i: nat)
    requires PlainKeys(f) && i < |f|
    ensures f[i].key in FieldsMeant(f) && FieldsMeant(f)[f[i].key] == Meant(f[i].value)
    decreases |f|
  {
    HeadMeant(f);
    if i > 0 {
      assert f[1..][i - 1] == f[i];
      MeantAt(f[1..], i - 1);
    }
  }

  lemma {:induction false} AgreeingMeanTheSame(f: seq<Field>, g: seq<Field>)
    requires SameKeys(f, g) && PlainKeys(f) && ValuesAgree(f, g)
    ensures FieldsMeant(f) == FieldsMeant(g)
    decreases |f|
  {
    if f != [] {
      HeadMeant(f);
      HeadMeant(g);
      TailsAgree(f, g);
      AgreeingMeanTheSame(f[1..], g[1..]);
    }
  }

  lemma TailsAgree(f: seq<Field>, g: seq<Field>)
    requires f != [] && SameKeys(f, g) && PlainKeys(f) && ValuesAgree(f, g)
    ensures SameKeys(f[1..], g[1..]) && PlainKeys(f[1..]) && ValuesAgree(f[1..], g[1..])
  {
  }

  /** Two objects with the same plain keys mean the same exactly when their values agree one by one. */
  lemma ObjectsAgreeExactly(f: seq<Field>, g: seq<Field>)
    requires SameKeys(f, g) && PlainKeys(f)
    ensures Meant(Object(f)) == Meant(Object(g)) <==> ValuesAgree(f, g)
  {
    if ValuesAgree(f, g) {
      AgreeingMeanTheSame(f, g);
    }
    if FieldsMeant(f) == FieldsMeant(g) {
      forall i | 0 <= i < |f|
        ensures Meant(f[i].value) == Meant(g[i].value)
      {
        MeantAt(f, i);
        MeantAt(g, i);
      }
    }
  }

  lemma ThreeAgree(f: seq<Field>, g: seq<Field>)
    requires |f| == |g| == 3
    ensures ValuesAgree(f, g) <==>
            && Meant(f[0].value) == Meant(g[0].value) && Meant(f[1].value) == Meant(g[1].value)
            && Meant(f[2].value) == Meant(g[2].value)
  {
  }

  lemma FourAgree(f: seq<Field>, g: seq<Field>)
    requires |f| == |g| == 4
    ensures ValuesAgree(f, g) <==>
            && Meant(f[0].value) == Meant(g[0].value) && Meant(f[1].value) == Meant(g[1].value)
            && Meant(f[2].value) == Meant(g[2].value) && Meant(f[3].value) == Meant(g[3].value)
  {
  }

  lemma SixAgree(f: seq<Field>, g: seq<Field>)
    requires |f| == |g| == 6
    ensures ValuesAgree(f, g) <==>
            && Meant(f[0].value) == Meant(g[0].value) && Meant(f[1].value) == Meant(g[1].value)
            && Meant(f[2].value) == Meant(g[2].value) && Meant(f[3].value) == Meant(g[3].value)
            && Meant(f[4].value) == Meant(g[4].value) && Meant(f[5].value) == Meant(g[5].value)
  {
  }

  /** An absent text is an empty one. */
  function TextOf(s: Option<seq<Unit>>): seq<Unit> {
    match s
    case Some(text) => text
    case None => []
  }

  lemma TextsMean(s: Option<seq<Unit>>, t: Option<seq<Unit>>)
    ensures Meant(String(OrEmpty(s))) == Meant(String(OrEmpty(t))) <==> TextOf(s) == TextOf(t)
  {
  }

  // ----- tools

  /** A JSON part, an absent one being an empty object. */
  ghost function PartMeant(v: Json): Content {
    if v == Null then Record(map[]) else Meant(v)
  }

  lemma PartIsMeant(v: Json)
    ensures Meant(OrObject(v)) == PartMeant(v)
  {
  }

  /** The two tools agree in all that is copied into a connector. */
  ghost predicate ToolsAgree(x: Tool, y: Tool) {
    && x.name == y.name && TextOf(x.description) == TextOf(y.description)
    && PartMeant(x.parameters) == PartMeant(y.parameters)
    && PartMeant(x.endpointMapping) == PartMeant(y.endpointMapping)
    && Meant(x.responseMapping) == Meant(y.responseMapping)
    && (x.useProxy == Some(true) <==> y.useProxy == Some(true))
  }

  lemma FingerprintKeys(t: Tool)
    ensures PlainKeys(ToolFingerprint(t).fields) && |ToolFingerprint(t).fields| == 6
  {
    var f := ToolFingerprint(t).fields;
    assert f[0].key[0] == 110 && f[1].key[0] == 100 && f[2].key[0] == 112;
    assert f[3].key[0] == 101 && f[4].key[0] == 114 && f[5].key[0] == 117;
    assert PROTO[0] == 95;
  }

  lemma FingerprintValues(x: Tool, y: Tool)
    ensures SameKeys(ToolFingerprint(x).fields, ToolFingerprint(y).fields)
    ensures ValuesAgree(ToolFingerprint(x).fields, ToolFingerprint(y).fields) <==> ToolsAgree(x, y)
  {
    var f, g := ToolFingerprint(x).fields, ToolFingerprint(y).fields;
    PartIsMeant(x.parameters);
    PartIsMeant(y.parameters);
    PartIsMeant(x.endpointMapping);
    PartIsMeant(y.endpointMapping);
    TextsMean(x.description, y.description);
    SixAgree(f, g);
  }

  /** Tools have the same fingerprint up to key order exactly when they agree field by field. */
  lemma FingerprintDecides(x: Tool, y: Tool)
    ensures MeaningOf(x) == MeaningOf(y) <==> ToolsAgree(x, y)
  {
    FingerprintKeys(x);
    FingerprintValues(x, y);
    ObjectsAgreeExactly(ToolFingerprint(x).fields, ToolFingerprint(y).fields);
  }

  // ----- adapters

  function NamesBefore(collate: (seq<Unit>, seq<Unit>) -> int): (Tool, Tool) -> bool {
    (x: Tool, y: Tool) => collate(x.name, y.name) < 0
  }

  lemma {:induction false} InsertAlike<T(!new)>(before: (T, T) -> bool, other: (T, T) -> bool, s: seq<T>, x: T)
    requires forall a, b :: before(a, b) == other(a, b)
    ensures Sorting.Insert(before, s, x) == Sorting.Insert(other, s, x)
    decreases |s|
  {
    if s != [] {
      InsertAlike(before, other, s[..|s| - 1], x);
    }
  }

  lemma {:induction false} SortAlike<T(!new)>(before: (T, T) -> bool, other: (T, T) -> bool, s: seq<T>)
    requires forall a, b :: before(a, b) == other(a, b)
    ensures Sorting.Sort(before, s) == Sorting.Sort(other, s)
    decreases |s|
  {
    if s != [] {
      SortAlike(before, other, s[..|s| - 1]);
      InsertAlike(before, other, Sorting.Sort(before, s[..|s| - 1]), s[|s| - 1]);
    }
  }

  /** The tools in the order of their names. */
  function InOrderOfNames(tools: seq<Tool>, collate: (seq<Unit>, seq<Unit>) -> int): seq<Tool> {
    Sorting.Sort(NamesBefore(collate), tools)
  }

  ghost predicate ToolListsAgree(s: seq<Tool>, t: seq<Tool>) {
    |s| == |t| && forall i :: 0 <= i < |s| ==> ToolsAgree(s[i], t[i])
  }

  lemma ToolListsDecide(s: seq<Tool>, t: seq<Tool>)
    ensures MeanTheSame(s, t) <==> ToolListsAgree(s, t)
  {
    if |s| == |t| {
      forall i | 0 <= i < |s|
        ensures MeaningOf(s[i]) == MeaningOf(t[i]) <==> ToolsAgree(s[i], t[i])
      {
        FingerprintDecides(s[i], t[i]);
      }
    }
  }

  ghost predicate ConnectorsAgree(a: Adapter, b: Adapter) {
    && TextOf(a.connectorName) == TextOf(b.connectorName) && TextOf(a.connectorType) == TextOf(b.connectorType)
    && TextOf(a.baseUrl) == TextOf(b.baseUrl) && TextOf(a.authType) == TextOf(b.authType)
  }

  lemma ConnectorDecides(a: Adapter, b: Adapter)
    ensures Meant(ConnectorContent(a)) == Meant(ConnectorContent(b)) <==> ConnectorsAgree(a, b)
  {
    ConnectorKeys(a);
    ObjectsAgreeExactly(ConnectorContent(a).fields, ConnectorContent(b).fields);
    FourAgree(ConnectorContent(a).fields, ConnectorContent(b).fields);
    TextsMean(a.connectorName, b.connectorName);
    TextsMean(a.connectorType, b.connectorType);
    TextsMean(a.baseUrl, b.baseUrl);
    TextsMean(a.authType, b.authType);
  }

  lemma ConnectorKeys(a: Adapter)
    ensures PlainKeys(ConnectorContent(a).fields)
  {
    var f := ConnectorContent(a).fields;
    assert f[0].key[0] == 110 && f[1].key[0] == 116 && f[2].key[0] == 98 && f[3].key[0] == 97;
    assert PROTO[0] == 95;
  }

  lemma ContentKeys(a: Adapter, collate: (seq<Unit>, seq<Unit>) -> int)
    ensures PlainKeys(AdapterContent(a, collate).fields)
  {
    var f := AdapterContent(a, collate).fields;
    assert f[0].key[0] == 105 && f[1].key[0] == 99 && f[2].key[0] == 116;
    assert PROTO[0] == 95;
  }

  lemma ContentDecides(a: Adapter, b: Adapter, collate: (seq<Unit>, seq<Unit>) -> int)
    ensures Meant(AdapterContent(a, collate)) == Meant(AdapterContent(b, collate)) <==>
            && TextOf(a.instructions) == TextOf(b.instructions)
            && Meant(ConnectorContent(a)) == Meant(ConnectorContent(b))
            && MeanTheSame(Sorting.Sort(ByName(collate), a.tools), Sorting.Sort(ByName(collate), b.tools))
  {
    ContentKeys(a, collate);
    ObjectsAgreeExactly(AdapterContent(a, collate).fields, AdapterContent(b, collate).fields);
    ThreeAgree(AdapterContent(a, collate).fields, AdapterContent(b, collate).fields);
    TextsMean(a.instructions, b.instructions);
    FingerprintsMean(Sorting.Sort(ByName(collate), a.tools), Sorting.Sort(ByName(collate), b.tools));
  }

  /**
   Two adapters have the same version exactly when their instructions and connectors agree, an
   absent text being an empty one, and their tools, in the order of their names, place by place.
   */
  lemma VersionDecidesFields(a: Adapter, b: Adapter, collate: (seq<Unit>, seq<Unit>) -> int)
    requires ProperAdapter(a) && ProperAdapter(b)
    ensures VersionText(a, collate) == VersionText(b, collate) <==>
            && TextOf(a.instructions) == TextOf(b.instructions)
            && ConnectorsAgree(a, b)
            && ToolListsAgree(InOrderOfNames(a.tools, collate), InOrderOfNames(b.tools, collate))
  {
    VersionDecides(a, b, collate);
    ContentDecides(a, b, collate);
    ConnectorDecides(a, b);
    SortAlike(ByName(collate), NamesBefore(collate), a.tools);
    SortAlike(ByName(collate), NamesBefore(collate), b.tools);
    ToolListsDecide(InOrderOfNames(a.tools, collate), InOrderOfNames(b.tools, collate));
  }
}
