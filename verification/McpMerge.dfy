/** A server's tools with the catalog's policy on top. Catalog tools are told apart by their place in the catalog. */
module McpMerge {
  import opened Lists
  import opened Options
  import Sorting

  // ----- names

  predicate IsWordChar(c: char) {
    'a' <= c <= 'z' || 'A' <= c <= 'Z' || '0' <= c <= '9' || c == '_'
  }

  function Lower(s: string): (r: string)
    ensures |r| == |s|
    ensures forall i :: 0 <= i < |s| ==> r[i] == if 'A' <= s[i] <= 'Z' then s[i] - 'A' + 'a' else s[i]
  {
    if s == [] then []
    else [if 'A' <= s[0] <= 'Z' then s[0] - 'A' + 'a' else s[0]] + Lower(s[1..])
  }

  /** Runs of other characters become one `_`; `inRun` says whether the character before was in one. */
  function Underscored(s: string, inRun: bool): string {
    if s == [] then []
    else if IsWordChar(s[0]) then [s[0]] + Underscored(s[1..], false)
    else (if inRun then [] else "_") + Underscored(s[1..], true)
  }

  function SingleUnderscores(s: string): string {
    if |s| < 2 then s
    else (if s[0] == '_' && s[1] == '_' then [] else [s[0]]) + SingleUnderscores(s[1..])
  }

  /** The name a remote tool gets here. */
  function LocalName(remote: string, prefix: string): string {
    var normalized := SingleUnderscores(Underscored(remote, false));
    if prefix == "" then remote
    else if Lower(prefix) <= Lower(normalized) then normalized
    else prefix + normalized
  }

  /** With a prefix, different remote names may get the same name here. */
  lemma LocalNamesMayCollide()
    ensures LocalName("a", "p_") == LocalName("p_a", "p_")
  {
    assert Underscored("a", false) == "a" + Underscored("", false);
    assert Underscored("p_a", false) == "p" + Underscored("_a", false);
    assert Underscored("_a", false) == "_" + Underscored("a", false);
    assert SingleUnderscores("p_a") == "p" + SingleUnderscores("_a");
    assert SingleUnderscores("_a") == "_" + SingleUnderscores("a");
    assert Lower("a")[0] == 'a';
    assert Lower("p_") <= Lower("p_a");
  }

  lemma {:induction false} UnderscoredHasWordChars(s: string, inRun: bool)
    ensures forall i :: 0 <= i < |Underscored(s, inRun)| ==> IsWordChar(Underscored(s, inRun)[i])
  {
    if s != [] {
      UnderscoredHasWordChars(s[1..], !IsWordChar(s[0]));
    }
  }

  ghost predicate HasSingleUnderscores(s: string) {
    forall i, j :: 0 <= i && j == i + 1 < |s| ==> !(s[i] == '_' && s[j] == '_')
  }

  lemma {:induction false} SingleUnderscoresHold(s: string)
    ensures var r := SingleUnderscores(s);
            && HasSingleUnderscores(r) && (s != [] ==> r != [] && r[0] == s[0])
            && ((forall i :: 0 <= i < |s| ==> IsWordChar(s[i])) ==> forall i :: 0 <= i < |r| ==> IsWordChar(r[i]))
  {
    if |s| >= 2 {
      SingleUnderscoresHold(s[1..]);
    }
  }

  /** With a prefix, every name here starts with it, and nothing but word characters follows. */
  lemma LocalNameHasPrefix(remote: string, prefix: string)
    requires prefix != ""
    ensures var name := LocalName(remote, prefix);
            && Lower(prefix) <= Lower(name)
            && forall i :: |prefix| <= i < |name| ==> IsWordChar(name[i])
  {
    var runs := Underscored(remote, false);
    var normalized := SingleUnderscores(runs);
    UnderscoredHasWordChars(remote, false);
    SingleUnderscoresHold(runs);
    LowerParts(prefix, normalized);
  }

  predicate IsLetterOrDigit(c: char) {
    IsWordChar(c) && c != '_'
  }

  /** The letters and digits of a text, in order. */
  function Letters(s: string): string {
    if s == [] then [] else (if IsLetterOrDigit(s[0]) then [s[0]] else []) + Letters(s[1..])
  }

  lemma {:induction false} UnderscoredKeepsLetters(s: string, inRun: bool)
    ensures Letters(Underscored(s, inRun)) == Letters(s)
  {
    if s != [] {
      UnderscoredKeepsLetters(s[1..], !IsWordChar(s[0]));
      var rest := Underscored(s[1..], !IsWordChar(s[0]));
      var head := if IsWordChar(s[0]) then [s[0]] else if inRun then [] else "_";
      LettersInFront(head, rest);
    }
  }

  lemma {:induction false} LettersInFront(a: string, b: string)
    ensures Letters(a + b) == Letters(a) + Letters(b)
    decreases |a|
  {
    if a == [] {
      assert a + b == b;
    } else {
      assert (a + b)[0] == a[0] && (a + b)[1..] == a[1..] + b;
      LettersInFront(a[1..], b);
      LettersOfFirst(a);
      LettersOfFirst(a + b);
      assert Letters([a[0]]) + (Letters(a[1..]) + Letters(b)) == Letters([a[0]]) + Letters(a[1..]) + Letters(b);
    }
  }

  lemma LettersOfFirst(s: string)
    requires s != []
    ensures Letters(s) == Letters([s[0]]) + Letters(s[1..])
  {
    assert [s[0]][1..] == [];
  }

  lemma {:induction false} SingleUnderscoresKeepLetters(s: string)
    ensures Letters(SingleUnderscores(s)) == Letters(s)
  {
    if |s| >= 2 {
      SingleUnderscoresKeepLetters(s[1..]);
      LettersInFront(if s[0] == '_' && s[1] == '_' then [] else [s[0]], SingleUnderscores(s[1..]));
    }
  }

  /**
   Without a prefix the name stays. With one the letters and digits stay, in order, behind the
   prefix unless the name starts with it, and no two underscores follow each other in it.
   */
  lemma LocalNameKeepsLetters(remote: string, prefix: string)
    ensures prefix == "" ==> LocalName(remote, prefix) == remote
    ensures prefix != "" ==>
              exists name :: Letters(name) == Letters(remote) && HasSingleUnderscores(name)
                && LocalName(remote, prefix) == if Lower(prefix) <= Lower(name) then name else prefix + name
  {
    var runs := Underscored(remote, false);
    var name := SingleUnderscores(runs);
    UnderscoredKeepsLetters(remote, false);
    SingleUnderscoresKeepLetters(runs);
    SingleUnderscoresHold(runs);
    assert Letters(name) == Letters(remote) && HasSingleUnderscores(name);
  }

  predicate IsKeyChar(c: char) {
    'a' <= c <= 'z' || '0' <= c <= '9'
  }

  /** The runs of key characters in `s`; `word` is the run read so far. */
  function Words(s: string, word: string): seq<string> {
    if s == [] then Ended(word)
    else if IsKeyChar(s[0]) then Words(s[1..], word + [s[0]])
    else Ended(word) + Words(s[1..], "")
  }

  function Ended(word: string): seq<string> {
    if word == "" then [] else [word]
  }

  function Join(words: seq<string>): string {
    if words == [] then ""
    else if |words| == 1 then words[0]
    else words[0] + "_" + Join(words[1..])
  }

  function ToolKey(name: string): string {
    Join(Words(Lower(name), ""))
  }

  predicate IsSeparator(s: string) {
    s != [] && forall i :: 0 <= i < |s| ==> !IsKeyChar(s[i])
  }

  lemma {:induction false} WordsSkip(sep: string, rest: string)
    requires forall i :: 0 <= i < |sep| ==> !IsKeyChar(sep[i])
    ensures Words(sep + rest, "") == Words(rest, "")
  {
    if sep == [] {
      assert sep + rest == rest;
    } else {
      assert (sep + rest)[1..] == sep[1..] + rest;
      WordsSkip(sep[1..], rest);
    }
  }

  lemma {:induction false} WordsOfParts(a: string, word: string, sep: string, b: string)
    requires IsSeparator(sep)
    ensures Words(a + sep + b, word) == Words(a, word) + Words(b, "")
  {
    if a == [] {
      assert (a + sep + b) == sep + b && (sep + b)[1..] == sep[1..] + b;
      WordsSkip(sep[1..], b);
    } else {
      assert (a + sep + b)[1..] == a[1..] + sep + b;
      if IsKeyChar(a[0]) {
        WordsOfParts(a[1..], word + [a[0]], sep, b);
      } else {
        WordsOfParts(a[1..], "", sep, b);
        assert Ended(word) + (Words(a[1..], "") + Words(b, "")) == Ended(word) + Words(a[1..], "") + Words(b, "");
      }
    }
  }

  lemma {:induction false} WordsOfPlain(s: string, word: string)
    requires forall i :: 0 <= i < |s| ==> IsKeyChar(s[i])
    ensures Words(s, word) == Ended(word + s)
  {
    if s == [] {
      assert word + s == word;
    } else {
      WordsOfPlain(s[1..], word + [s[0]]);
      assert word + [s[0]] + s[1..] == word + s;
    }
  }

  lemma WordsEnd(s: string, end: string)
    requires forall i :: 0 <= i < |end| ==> !IsKeyChar(end[i])
    ensures Words(s + end, "") == Words(s, "")
  {
    if end == "" {
      assert s + end == s;
    } else {
      WordsOfParts(s, "", end, "");
      assert s + end + "" == s + end;
      assert Words("", "") == [];
    }
  }

  /** The key of letters and digits is the text in lower case. */
  lemma KeyOfPlainName(name: string)
    requires forall i :: 0 <= i < |name| ==> IsLetterOrDigit(name[i])
    ensures ToolKey(name) == Lower(name)
  {
    PlainIsKeyChars(name);
    WordsOfPlain(Lower(name), "");
    assert "" + Lower(name) == Lower(name);
    JoinOne(Lower(name));
  }

  lemma PlainIsKeyChars(name: string)
    requires forall i :: 0 <= i < |name| ==> IsLetterOrDigit(name[i])
    ensures forall i :: 0 <= i < |name| ==> IsKeyChar(Lower(name)[i])
  {
    forall i | 0 <= i < |name|
      ensures IsKeyChar(Lower(name)[i])
    {
      assert IsLetterOrDigit(name[i]);
    }
  }

  lemma JoinOne(word: string)
    ensures Join(Ended(word)) == word
  {
  }

  /** Whatever else stands before or behind a name does not show in its key. */
  lemma KeyIgnoresEnds(before: string, name: string, behind: string)
    requires forall i :: 0 <= i < |before| ==> !IsLetterOrDigit(before[i])
    requires forall i :: 0 <= i < |behind| ==> !IsLetterOrDigit(behind[i])
    ensures ToolKey(before + name + behind) == ToolKey(name)
  {
    LowerParts(before + name, behind);
    LowerParts(before, name);
    WordsEnd(Lower(before) + Lower(name), Lower(behind));
    WordsSkip(Lower(before), Lower(name));
  }

  lemma {:induction false} WordsAreNotEmpty(s: string, word: string)
    ensures forall w :: w in Words(s, word) ==> w != ""
  {
    if s != [] {
      if IsKeyChar(s[0]) {
        WordsAreNotEmpty(s[1..], word + [s[0]]);
      } else {
        WordsAreNotEmpty(s[1..], "");
      }
    }
  }

  lemma {:induction false} JoinParts(a: seq<string>, b: seq<string>)
    requires a != [] && b != []
    ensures Join(a + b) == Join(a) + "_" + Join(b)
  {
    if |a| == 1 {
      assert (a + b)[1..] == b;
    } else {
      assert (a + b)[1..] == a[1..] + b;
      JoinParts(a[1..], b);
      assert a[0] + "_" + (Join(a[1..]) + "_" + Join(b)) == a[0] + "_" + Join(a[1..]) + "_" + Join(b);
    }
  }

  lemma LowerParts(a: string, b: string)
    ensures Lower(a + b) == Lower(a) + Lower(b)
  {
  }

  lemma JoinIsNotEmpty(words: seq<string>)
    requires forall w :: w in words ==> w != ""
    ensures Join(words) == "" <==> words == []
  {
    if words != [] {
      assert words[0] in words;
    }
  }

  lemma WordsOfNamespaced(namespace: string, sep: string, name: string)
    requires IsSeparator(Lower(sep))
    ensures Words(Lower(namespace + sep + name), "") == Words(Lower(namespace), "") + Words(Lower(name), "")
  {
    LowerParts(namespace + sep, name);
    LowerParts(namespace, sep);
    WordsOfParts(Lower(namespace), "", Lower(sep), Lower(name));
  }

  lemma JoinedEnd(key: string, namespace: string, shorter: string)
    requires namespace != "" && key == namespace + "_" + shorter
    ensures EndsWithKey(key, shorter)
  {
    assert key == namespace + ("_" + shorter);
  }

  /** Whatever stands between a namespace and a name, and however they are written, the key joins theirs. */
  lemma KeyOfNamespaced(namespace: string, sep: string, name: string)
    requires IsSeparator(Lower(sep)) && ToolKey(namespace) != "" && ToolKey(name) != ""
    ensures ToolKey(namespace + sep + name) == ToolKey(namespace) + "_" + ToolKey(name)
    ensures EndsWithKey(ToolKey(namespace + sep + name), ToolKey(name))
  {
    var a, b := Words(Lower(namespace), ""), Words(Lower(name), "");
    WordsOfNamespaced(namespace, sep, name);
    WordsAreNotEmpty(Lower(namespace), "");
    WordsAreNotEmpty(Lower(name), "");
    JoinIsNotEmpty(a);
    JoinIsNotEmpty(b);
    JoinParts(a, b);
    JoinedEnd(ToolKey(namespace + sep + name), ToolKey(namespace), ToolKey(name));
  }

  /** `key` is a namespace, `_` and the shorter key. */
  predicate EndsWithKey(key: string, shorter: string) {
    |key| > |shorter| + 1 && key[|key| - |shorter| - 1..] == "_" + shorter
  }

  // ----- tools

  /** A value the merge only passes on, as its JSON text. */
  type Value = string

  datatype Property = Property(name: string, schema: Value)

  /** The parts of a JSON Schema the merge looks at; absent parts are `None`. */
  datatype Parameters = NotAnObject(value: Value)
    | Schema(properties: Option<seq<Property>>, required: Option<seq<string>>, others: Value)

  datatype CatalogTool = CatalogTool(name: string, remote: Option<string>, enabled: bool,
      omitParameters: seq<string>, annotations: Option<map<string, Value>>)

  datatype Discovered = Discovered(name: string, description: string, parameters: Parameters,
      endpointMapping: Value, outputSchema: Option<Value>, annotations: Option<map<string, Value>>)

  datatype Tool = Tool(name: string, description: string, parameters: Parameters, endpointMapping: Value,
      outputSchema: Option<Value>, annotations: Option<map<string, Value>>, enabled: bool)

  // ----- parameters the catalog drops

  function KeptProperties(properties: seq<Property>, omit: seq<string>): (r: seq<Property>)
    ensures forall p :: p in r <==> p in properties && p.name !in omit
  {
    if properties == [] then []
    else (if properties[0].name in omit then [] else [properties[0]]) + KeptProperties(properties[1..], omit)
  }

  function KeptNames(names: seq<string>, omit: seq<string>): (r: seq<string>)
    ensures forall n :: n in r <==> n in names && n !in omit
  {
    if names == [] then []
    else (if names[0] in omit then [] else [names[0]]) + KeptNames(names[1..], omit)
  }

  function WithoutParameters(parameters: Parameters, omit: seq<string>): Parameters {
    if omit == [] || parameters.NotAnObject? then parameters
    else
      var properties, required := parameters.properties, parameters.required;
      var hasProp := properties.Some? && exists p :: p in properties.value && p.name in omit;
      var hasRequired := required.Some? && exists r :: r in required.value && r in omit;
      if !hasProp && !hasRequired then parameters
      else
        Schema(
          if properties.Some? then Some(KeptProperties(properties.value, omit)) else None,
          if required.Some? then Some(KeptNames(required.value, omit)) else None,
          parameters.others)
  }

  lemma {:induction false} NothingToDrop(properties: seq<Property>, names: seq<string>, omit: seq<string>)
    ensures (forall p :: p in properties ==> p.name !in omit) ==> KeptProperties(properties, omit) == properties
    ensures (forall n :: n in names ==> n !in omit) ==> KeptNames(names, omit) == names
    decreases |properties| + |names|
  {
    if properties != [] {
      NothingToDrop(properties[1..], names, omit);
    } else if names != [] {
      NothingToDrop(properties, names[1..], omit);
    }
  }

  /** Returning the schema as it is, where there is nothing to drop, makes no difference. */
  lemma WithoutParametersDrops(schema: Parameters, omit: seq<string>)
    requires schema.Schema?
    ensures var r := WithoutParameters(schema, omit);
            && r.Schema? && r.others == schema.others
            && r.properties == (if schema.properties.None? then None
                                 else Some(KeptProperties(schema.properties.value, omit)))
            && r.required == (if schema.required.None? then None else Some(KeptNames(schema.required.value, omit)))
  {
    var properties := if schema.properties.Some? then schema.properties.value else [];
    var required := if schema.required.Some? then schema.required.value else [];
    NothingToDrop(properties, required, omit);
  }

  // ----- exact matches

  /** The last of the first `n` catalog tools with this name: later entries replace earlier ones. */
  function LastNamed(catalog: seq<CatalogTool>, n: nat, name: string): (r: Option<nat>)
    requires n <= |catalog|
    ensures r.Some? ==> r.value < n && catalog[r.value].name == name
    ensures forall i :: (if r.Some? then r.value else -1) < i < n ==> catalog[i].name != name
  {
    if n == 0 then None
    else if catalog[n - 1].name == name then Some(n - 1)
    else LastNamed(catalog, n - 1, name)
  }

  function LastCalling(catalog: seq<CatalogTool>, n: nat, remote: string): (r: Option<nat>)
    requires n <= |catalog|
    ensures r.Some? ==> r.value < n && catalog[r.value].remote == Some(remote)
    ensures forall i :: (if r.Some? then r.value else -1) < i < n ==> catalog[i].remote != Some(remote)
  {
    if n == 0 then None
    else if catalog[n - 1].remote == Some(remote) then Some(n - 1)
    else LastCalling(catalog, n - 1, remote)
  }

  /** The catalog tool a remote name is known as: by its name here, or by the remote name it calls. */
  function Exact(catalog: seq<CatalogTool>, remote: string, prefix: string): (r: Option<nat>)
    ensures r.Some? ==> r.value < |catalog|
  {
    var named := LastNamed(catalog, |catalog|, LocalName(remote, prefix));
    if named.Some? then named else LastCalling(catalog, |catalog|, remote)
  }

  lemma LastNamedExactly(catalog: seq<CatalogTool>, name: string, i: nat)
    requires i < |catalog|
    ensures LastNamed(catalog, |catalog|, name) == Some(i) <==>
            catalog[i].name == name && forall k :: i < k < |catalog| ==> catalog[k].name != name
    ensures LastNamed(catalog, |catalog|, name).Some? <==>
            exists k :: 0 <= k < |catalog| && catalog[k].name == name
  {
    var last := LastNamed(catalog, |catalog|, name);
    assert last.Some? ==> catalog[last.value].name == name;
  }

  lemma LastCallingExactly(catalog: seq<CatalogTool>, remote: string, i: nat)
    requires i < |catalog|
    ensures LastCalling(catalog, |catalog|, remote) == Some(i) <==>
            catalog[i].remote == Some(remote) && forall k :: i < k < |catalog| ==> catalog[k].remote != Some(remote)
  {
    var last := LastCalling(catalog, |catalog|, remote);
    assert last.Some? ==> catalog[last.value].remote == Some(remote);
  }

  /** The last catalog tool of the local name; where there is none, the last one that calls the remote name. */
  lemma ExactExactly(catalog: seq<CatalogTool>, remote: string, prefix: string, i: nat)
    requires i < |catalog|
    ensures var name := LocalName(remote, prefix);
            Exact(catalog, remote, prefix) == Some(i) <==>
            if exists k :: 0 <= k < |catalog| && catalog[k].name == name
            then catalog[i].name == name && forall k :: i < k < |catalog| ==> catalog[k].name != name
            else catalog[i].remote == Some(remote)
                 && forall k :: i < k < |catalog| ==> catalog[k].remote != Some(remote)
  {
    LastNamedExactly(catalog, LocalName(remote, prefix), i);
    LastCallingExactly(catalog, remote, i);
  }

  // ----- candidates

  /** The catalog tools some listed tool is known as. */
  function Claimed(catalog: seq<CatalogTool>, discovered: seq<Discovered>, prefix: string): set<nat> {
    set d | d in discovered && Exact(catalog, d.name, prefix).Some? :: Exact(catalog, d.name, prefix).value
  }

  /** The names the listed tools get by themselves. */
  function Taken(discovered: seq<Discovered>, prefix: string): set<string> {
    set d | d in discovered :: LocalName(d.name, prefix)
  }

  datatype Candidate = Candidate(tool: nat, key: string)

  const LONGER := (a: Candidate, b: Candidate) => |a.key| > |b.key|

  function Candidates(catalog: seq<CatalogTool>, n: nat, claimed: set<nat>, taken: set<string>): (r: seq<Candidate>)
    requires n <= |catalog|
    ensures forall c :: c in r <==>
              && c.tool < n && c.tool !in claimed && catalog[c.tool].name !in taken
              && catalog[c.tool].remote.Some? && c.key == ToolKey(catalog[c.tool].remote.value) != ""
  {
    if n == 0 then []
    else
      var t := catalog[n - 1];
      var key := if t.remote.Some? then ToolKey(t.remote.value) else "";
      var rest := Candidates(catalog, n - 1, claimed, taken);
      if n - 1 !in claimed && t.name !in taken && t.remote.Some? && key != ""
      then rest + [Candidate(n - 1, key)] else rest
  }

  /** The first candidate whose key ends the given key. */
  function Hit(candidates: seq<Candidate>, key: string): (r: Option<Candidate>)
    ensures r.Some? ==> r.value in candidates && EndsWithKey(key, r.value.key)
    ensures r.None? ==> forall c :: c in candidates ==> !EndsWithKey(key, c.key)
  {
    if candidates == [] then None
    else if EndsWithKey(key, candidates[0].key) then Some(candidates[0])
    else Hit(candidates[1..], key)
  }

  /** Among the candidates whose key ends the given key, one with the longest key is hit. */
  lemma {:induction false} LongestIsHit(sorted: seq<Candidate>, key: string, c: Candidate)
    requires Sorting.Sorted(LONGER, sorted) && c in sorted && EndsWithKey(key, c.key)
    ensures Hit(sorted, key).Some? && |Hit(sorted, key).value.key| >= |c.key|
  {
    var i :| 0 <= i < |sorted| && sorted[i] == c;
    if EndsWithKey(key, sorted[0].key) {
      assert i == 0 || !LONGER(sorted[i], sorted[0]);
    } else {
      assert sorted[1..][i - 1] == c;
      LongestIsHit(sorted[1..], key, c);
    }
  }

  // ----- what is listed under a namespace

  datatype Found = Found(remote: string, namespace: string, tool: nat)

  function FoundAs(candidates: seq<Candidate>, remote: string): Option<Found> {
    var key := ToolKey(remote);
    var hit := Hit(candidates, key);
    if hit.None? then None
    else Some(Found(remote, key[..|key| - |hit.value.key| - 1], hit.value.tool))
  }

  /** Only a tool without an exact match is looked for. */
  function FoundFor(catalog: seq<CatalogTool>, candidates: seq<Candidate>, prefix: string): Discovered -> seq<Found> {
    (d: Discovered) =>
      if Exact(catalog, d.name, prefix).Some? then []
      else
        var f := FoundAs(candidates, d.name);
        if f.Some? then [f.value] else []
  }

  function Count(found: seq<Found>, n: nat, namespace: string): nat
    requires n <= |found|
  {
    if n == 0 then 0
    else Count(found, n - 1, namespace) + if found[n - 1].namespace == namespace then 1 else 0
  }

  predicate IsShared(found: seq<Found>, namespace: string) {
    Count(found, |found|, namespace) >= 2
  }

  lemma {:induction false} SomeIn(found: seq<Found>, n: nat, namespace: string)
    requires n <= |found|
    ensures Count(found, n, namespace) >= 1 <==> exists i :: 0 <= i < n && found[i].namespace == namespace
  {
    if n > 0 {
      SomeIn(found, n - 1, namespace);
    }
  }

  /** At least two are found under a shared namespace. */
  lemma {:induction false} SharedByTwo(found: seq<Found>, n: nat, namespace: string)
    requires n <= |found|
    ensures Count(found, n, namespace) >= 2 <==>
            exists i, j :: 0 <= i < j < n && found[i].namespace == found[j].namespace == namespace
  {
    if n > 0 {
      SharedByTwo(found, n - 1, namespace);
      SomeIn(found, n - 1, namespace);
    }
  }

  /** Two spellings of one catalog tool make their namespace a shared one. */
  lemma TwoSpellingsShare(tool: nat)
    ensures IsShared([Found("ns.x", "ns", tool), Found("ns-x", "ns", tool)], "ns")
  {
    SharedByTwo([Found("ns.x", "ns", tool), Found("ns-x", "ns", tool)], 2, "ns");
  }

  // ----- which of them are taken

  /** The tools taken after the first `n` entries. */
  function Used(found: seq<Found>, n: nat): set<nat>
    requires n <= |found|
  {
    if n == 0 then {}
    else if IsShared(found, found[n - 1].namespace) then Used(found, n - 1) + {found[n - 1].tool}
    else Used(found, n - 1)
  }

  predicate IsTaken(found: seq<Found>, i: nat)
    requires i < |found|
  {
    IsShared(found, found[i].namespace) && found[i].tool !in Used(found, i)
  }

  function Matches(found: seq<Found>, n: nat): map<string, nat>
    requires n <= |found|
  {
    if n == 0 then map[]
    else if IsTaken(found, n - 1) then Matches(found, n - 1)[found[n - 1].remote := found[n - 1].tool]
    else Matches(found, n - 1)
  }

  /** A tool is used once an entry for it under a shared namespace was met. */
  lemma {:induction false} UsedExactly(found: seq<Found>, n: nat, tool: nat)
    requires n <= |found|
    ensures tool in Used(found, n) <==>
            exists j :: 0 <= j < n && IsShared(found, found[j].namespace) && found[j].tool == tool
  {
    if n > 0 {
      UsedExactly(found, n - 1, tool);
    }
  }

  lemma {:induction false} MatchIsTaken(found: seq<Found>, n: nat, remote: string) returns (i: nat)
    requires n <= |found| && remote in Matches(found, n)
    ensures i < n && IsTaken(found, i) && found[i].remote == remote && found[i].tool == Matches(found, n)[remote]
  {
    if IsTaken(found, n - 1) && found[n - 1].remote == remote {
      i := n - 1;
    } else {
      i := MatchIsTaken(found, n - 1, remote);
    }
  }

  lemma TakenOnce(found: seq<Found>, i: nat, j: nat)
    requires i < |found| && j < |found| && IsTaken(found, i) && IsTaken(found, j) && found[i].tool == found[j].tool
    ensures i == j
  {
    UsedExactly(found, i, found[j].tool);
    UsedExactly(found, j, found[i].tool);
  }

  /** Each catalog tool is matched through a namespace at most once. */
  lemma MatchedOnce(found: seq<Found>, n: nat, a: string, b: string)
    requires n <= |found| && a in Matches(found, n) && b in Matches(found, n)
    requires Matches(found, n)[a] == Matches(found, n)[b]
    ensures a == b
  {
    var i := MatchIsTaken(found, n, a);
    var j := MatchIsTaken(found, n, b);
    TakenOnce(found, i, j);
  }

  /** Same remote name, same entry. */
  ghost predicate IsConsistent(found: seq<Found>) {
    forall i, j :: 0 <= i < |found| && 0 <= j < |found| && found[i].remote == found[j].remote ==> found[i] == found[j]
  }

  /** An entry that is taken is matched. */
  lemma {:induction false} TakenIsMatched(found: seq<Found>, n: nat, i: nat)
    requires i < n <= |found| && IsConsistent(found) && IsTaken(found, i)
    ensures found[i].remote in Matches(found, n) && Matches(found, n)[found[i].remote] == found[i].tool
  {
    if i < n - 1 {
      TakenIsMatched(found, n - 1, i);
    }
  }

  /** The first entry for its tool, among those under a shared namespace. */
  ghost predicate IsFirstFor(found: seq<Found>, i: nat)
    requires i < |found|
  {
    && IsShared(found, found[i].namespace)
    && forall j :: 0 <= j < i && IsShared(found, found[j].namespace) ==> found[j].tool != found[i].tool
  }

  lemma TakenIffFirst(found: seq<Found>, i: nat)
    requires i < |found|
    ensures IsTaken(found, i) <==> IsFirstFor(found, i)
  {
    UsedExactly(found, i, found[i].tool);
  }

  ghost predicate IsFirstAs(found: seq<Found>, i: nat, remote: string, tool: nat)
    requires i < |found|
  {
    IsFirstFor(found, i) && found[i].remote == remote && found[i].tool == tool
  }

  /** A remote name is matched through a namespace exactly when it is the first found for its tool. */
  lemma MatchedExactly(found: seq<Found>, remote: string, tool: nat)
    requires IsConsistent(found)
    ensures remote in Matches(found, |found|) && Matches(found, |found|)[remote] == tool <==>
            exists i :: 0 <= i < |found| && IsFirstAs(found, i, remote, tool)
  {
    if remote in Matches(found, |found|) && Matches(found, |found|)[remote] == tool {
      var i := MatchIsTaken(found, |found|, remote);
      TakenIffFirst(found, i);
      assert IsFirstAs(found, i, remote, tool);
    }
    if i :| 0 <= i < |found| && IsFirstAs(found, i, remote, tool) {
      TakenIffFirst(found, i);
      TakenIsMatched(found, |found|, i);
    }
  }

  /** A tool is left unmatched only if nothing was found for it under a shared namespace. */
  lemma UsedIsMatched(found: seq<Found>, i: nat) returns (k: nat)
    requires i < |found| && IsConsistent(found) && IsShared(found, found[i].namespace)
    ensures k <= i && found[k].tool == found[i].tool && IsTaken(found, k)
    decreases i
  {
    if IsTaken(found, i) {
      k := i;
    } else {
      UsedExactly(found, i, found[i].tool);
      var j :| 0 <= j < i && IsShared(found, found[j].namespace) && found[j].tool == found[i].tool;
      k := UsedIsMatched(found, j);
    }
  }

  // ----- the matches through a namespace

  function SortedCandidates(catalog: seq<CatalogTool>, discovered: seq<Discovered>, prefix: string): seq<Candidate> {
    Sorting.Sort(LONGER,
                 Candidates(catalog, |catalog|, Claimed(catalog, discovered, prefix), Taken(discovered, prefix)))
  }

  function FoundIn(catalog: seq<CatalogTool>, discovered: seq<Discovered>, prefix: string): seq<Found> {
    FlatMap(discovered, |discovered|, FoundFor(catalog, SortedCandidates(catalog, discovered, prefix), prefix))
  }

  function Namespaced(catalog: seq<CatalogTool>, discovered: seq<Discovered>, prefix: string): map<string, nat> {
    var found := FoundIn(catalog, discovered, prefix);
    Matches(found, |found|)
  }

  ghost predicate Counts(perNamespace: map<string, nat>, found: seq<Found>, n: nat)
    requires n <= |found|
  {
    forall s :: (if s in perNamespace then perNamespace[s] else 0) == Count(found, n, s)
  }

  method NamespacedCatalogMatches(catalog: seq<CatalogTool>, discovered: seq<Discovered>, prefix: string)
    returns (matches: map<string, nat>)
    ensures matches == Namespaced(catalog, discovered, prefix)
  {
    var candidates := SortedCandidates(catalog, discovered, prefix);
    var found := AllFound(discovered, FoundFor(catalog, candidates, prefix));
    matches := MatchesOf(found);
  }

  method AllFound(discovered: seq<Discovered>, foundFor: Discovered -> seq<Found>) returns (found: seq<Found>)
    ensures found == FlatMap(discovered, |discovered|, foundFor)
  {
    found := [];
    for i := 0 to |discovered|
      invariant found == FlatMap(discovered, i, foundFor)
    {
      found := found + foundFor(discovered[i]);
    }
  }

  method MatchesOf(found: seq<Found>) returns (matches: map<string, nat>)
    ensures matches == Matches(found, |found|)
  {
    var perNamespace: map<string, nat> := map[];
    for i := 0 to |found|
      invariant Counts(perNamespace, found, i)
    {
      var s := found[i].namespace;
      perNamespace := perNamespace[s := (if s in perNamespace then perNamespace[s] else 0) + 1];
    }
    var used := {};
    matches := map[];
    for i := 0 to |found|
      invariant used == Used(found, i) && matches == Matches(found, i)
    {
      var f := found[i];
      assert IsShared(found, f.namespace) <==> Count(found, |found|, f.namespace) >= 2;
      if (if f.namespace in perNamespace then perNamespace[f.namespace] else 0) >= 2 && f.tool !in used {
        used := used + {f.tool};
        matches := matches[f.remote := f.tool];
      }
    }
  }

  // ----- what a match through a namespace means

  /** What is found under a namespace belongs to a free catalog tool with a remote name. */
  ghost predicate IsFree(catalog: seq<CatalogTool>, discovered: seq<Discovered>, prefix: string, tool: nat) {
    && tool < |catalog| && catalog[tool].remote.Some?
    && tool !in Claimed(catalog, discovered, prefix)
    && catalog[tool].name !in Taken(discovered, prefix)
  }

  lemma CandidateIsFree(catalog: seq<CatalogTool>, discovered: seq<Discovered>, prefix: string, c: Candidate)
    requires c in SortedCandidates(catalog, discovered, prefix)
    ensures IsFree(catalog, discovered, prefix, c.tool) && c.key == ToolKey(catalog[c.tool].remote.value) != ""
  {
    var candidates := Candidates(catalog, |catalog|, Claimed(catalog, discovered, prefix), Taken(discovered, prefix));
    Sorting.SortKeepsMember(LONGER, candidates, c);
  }

  lemma FreeIsCandidate(catalog: seq<CatalogTool>, discovered: seq<Discovered>, prefix: string, tool: nat)
    requires IsFree(catalog, discovered, prefix, tool) && ToolKey(catalog[tool].remote.value) != ""
    ensures Candidate(tool, ToolKey(catalog[tool].remote.value)) in SortedCandidates(catalog, discovered, prefix)
  {
    var candidates := Candidates(catalog, |catalog|, Claimed(catalog, discovered, prefix), Taken(discovered, prefix));
    Sorting.SortKeepsMember(LONGER, candidates, Candidate(tool, ToolKey(catalog[tool].remote.value)));
  }

  /** What it means to be found: the key of the remote name is the namespace and the key of a free tool's. */
  lemma FoundMeans(catalog: seq<CatalogTool>, discovered: seq<Discovered>, prefix: string, f: Found) returns (i: nat)
    requires f in FoundIn(catalog, discovered, prefix)
    ensures i < |discovered| && discovered[i].name == f.remote && Exact(catalog, f.remote, prefix).None?
    ensures FoundAs(SortedCandidates(catalog, discovered, prefix), f.remote) == Some(f)
    ensures IsFree(catalog, discovered, prefix, f.tool) && f.namespace != ""
    ensures ToolKey(f.remote) == f.namespace + "_" + ToolKey(catalog[f.tool].remote.value)
  {
    var candidates := SortedCandidates(catalog, discovered, prefix);
    i := FromFlatMap(discovered, |discovered|, FoundFor(catalog, candidates, prefix), f);
    FoundKeySplits(candidates, f);
    CandidateIsFree(catalog, discovered, prefix, Hit(candidates, ToolKey(f.remote)).value);
  }

  lemma FoundKeySplits(candidates: seq<Candidate>, f: Found)
    requires FoundAs(candidates, f.remote) == Some(f)
    ensures var hit := Hit(candidates, ToolKey(f.remote));
            && hit.Some? && hit.value.tool == f.tool && hit.value in candidates && f.namespace != ""
            && ToolKey(f.remote) == f.namespace + "_" + hit.value.key
  {
    KeySplits(ToolKey(f.remote), Hit(candidates, ToolKey(f.remote)).value.key);
  }

  lemma KeySplits(key: string, shorter: string)
    requires EndsWithKey(key, shorter)
    ensures key == key[..|key| - |shorter| - 1] + "_" + shorter
  {
    assert key == key[..|key| - |shorter| - 1] + key[|key| - |shorter| - 1..];
  }

  lemma FoundIsConsistent(catalog: seq<CatalogTool>, discovered: seq<Discovered>, prefix: string)
    ensures IsConsistent(FoundIn(catalog, discovered, prefix))
  {
    var found := FoundIn(catalog, discovered, prefix);
    forall i, j | 0 <= i < |found| && 0 <= j < |found| && found[i].remote == found[j].remote
      ensures found[i] == found[j]
    {
      var a := FoundMeans(catalog, discovered, prefix, found[i]);
      var b := FoundMeans(catalog, discovered, prefix, found[j]);
    }
  }

  /**
   A catalog tool matched through a namespace is no exact match of anything, and its name is
   given to nothing else.
   */
  lemma NamespacedIsFree(catalog: seq<CatalogTool>, discovered: seq<Discovered>, prefix: string, remote: string)
    requires remote in Namespaced(catalog, discovered, prefix)
    ensures IsFree(catalog, discovered, prefix, Namespaced(catalog, discovered, prefix)[remote])
    ensures Exact(catalog, remote, prefix).None?
  {
    var found := FoundIn(catalog, discovered, prefix);
    var i := MatchIsTaken(found, |found|, remote);
    var k := FoundMeans(catalog, discovered, prefix, found[i]);
  }

  /** A name listed as a free tool's under a namespace is found, as that tool or as one with a longer key. */
  lemma GatewayToolIsFound(
      catalog: seq<CatalogTool>, discovered: seq<Discovered>, prefix: string, i: nat, tool: nat, namespace: string,
      sep: string)
    returns (f: Found)
    requires i < |discovered| && Exact(catalog, discovered[i].name, prefix).None?
    requires IsFree(catalog, discovered, prefix, tool) && IsSeparator(Lower(sep))
    requires discovered[i].name == namespace + sep + catalog[tool].remote.value
    requires ToolKey(namespace) != "" && ToolKey(catalog[tool].remote.value) != ""
    ensures f in FoundIn(catalog, discovered, prefix) && f.remote == discovered[i].name
    ensures IsFree(catalog, discovered, prefix, f.tool)
    ensures |ToolKey(catalog[f.tool].remote.value)| >= |ToolKey(catalog[tool].remote.value)|
  {
    var candidates := SortedCandidates(catalog, discovered, prefix);
    var key := ToolKey(discovered[i].name);
    var c := Candidate(tool, ToolKey(catalog[tool].remote.value));
    KeyOfNamespaced(namespace, sep, catalog[tool].remote.value);
    FreeIsCandidate(catalog, discovered, prefix, tool);
    CandidatesAreSorted(catalog, discovered, prefix);
    LongestIsHit(candidates, key, c);
    f := FoundAs(candidates, discovered[i].name).value;
    CandidateIsFree(catalog, discovered, prefix, Hit(candidates, key).value);
    FoundForMeans(catalog, candidates, prefix, discovered[i], f);
    InFlatMap(discovered, |discovered|, FoundFor(catalog, candidates, prefix), i, f);
  }

  lemma CandidatesAreSorted(catalog: seq<CatalogTool>, discovered: seq<Discovered>, prefix: string)
    ensures Sorting.Sorted(LONGER, SortedCandidates(catalog, discovered, prefix))
  {
    Sorting.SortSorts(LONGER,
                      Candidates(catalog, |catalog|, Claimed(catalog, discovered, prefix), Taken(discovered, prefix)));
  }

  lemma FoundForMeans(catalog: seq<CatalogTool>, candidates: seq<Candidate>, prefix: string, d: Discovered, f: Found)
    requires Exact(catalog, d.name, prefix).None? && FoundAs(candidates, d.name) == Some(f)
    ensures f in FoundFor(catalog, candidates, prefix)(d)
  {
  }

  // ----- the merge

  /** The catalog tool a remote name is matched with through a namespace. */
  function Via(catalog: seq<CatalogTool>, matches: map<string, nat>, prefix: string, remote: string): Option<nat> {
    if Exact(catalog, remote, prefix).None? && remote in matches then Some(matches[remote]) else None
  }

  ghost predicate InCatalog(catalog: seq<CatalogTool>, matches: map<string, nat>) {
    forall r :: r in matches ==> matches[r] < |catalog|
  }

  /** Matched through a namespace, a tool keeps the catalog's name. */
  function NameOf(catalog: seq<CatalogTool>, matches: map<string, nat>, prefix: string, remote: string): string
    requires InCatalog(catalog, matches)
  {
    var via := Via(catalog, matches, prefix, remote);
    if via.Some? then catalog[via.value].name else LocalName(remote, prefix)
  }

  function Own(
      catalog: seq<CatalogTool>, matches: map<string, nat>, prefix: string, remote: string): Option<CatalogTool>
    requires InCatalog(catalog, matches)
  {
    var exact, via := Exact(catalog, remote, prefix), Via(catalog, matches, prefix, remote);
    if exact.Some? then Some(catalog[exact.value]) else if via.Some? then Some(catalog[via.value]) else None
  }

  /** What the server says, with the catalog's policy on top. */
  function WithPolicy(d: Discovered, own: Option<CatalogTool>, name: string): Tool {
    var ownAnnotations := if own.Some? then own.value.annotations else None;
    Tool(
      name,
      d.description,
      WithoutParameters(d.parameters, if own.Some? then own.value.omitParameters else []),
      d.endpointMapping,
      d.outputSchema,
      if ownAnnotations.None? && d.annotations.None? then None
      else Some((if ownAnnotations.Some? then ownAnnotations.value else map[])
                + (if d.annotations.Some? then d.annotations.value else map[])),
      !(own.Some? && !own.value.enabled))
  }

  /** The server's own words win, the catalog fills in, and what it ships switched off stays off. */
  lemma PolicyOnTop(d: Discovered, own: CatalogTool, name: string, key: string)
    ensures var tool := WithPolicy(d, Some(own), name);
            && tool.endpointMapping == d.endpointMapping && tool.enabled == own.enabled
            && (tool.annotations.Some? <==> own.annotations.Some? || d.annotations.Some?)
            && (d.annotations.Some? && key in d.annotations.value ==>
                key in tool.annotations.value && tool.annotations.value[key] == d.annotations.value[key])
            && (own.annotations.Some? && key in own.annotations.value &&
                !(d.annotations.Some? && key in d.annotations.value) ==>
                  key in tool.annotations.value && tool.annotations.value[key] == own.annotations.value[key])
            && (tool.parameters.Schema? && tool.parameters.properties.Some? ==>
                  forall p :: p in tool.parameters.properties.value ==> p.name !in own.omitParameters)
  {
    if d.parameters.Schema? {
      WithoutParametersDrops(d.parameters, own.omitParameters);
    }
  }

  /** What the server says of a tool stays: its words, its mapping, its output and every property not omitted. */
  lemma ServerWordsStay(d: Discovered, own: Option<CatalogTool>, name: string)
    ensures var tool := WithPolicy(d, own, name);
            && tool.name == name && tool.description == d.description
            && tool.endpointMapping == d.endpointMapping && tool.outputSchema == d.outputSchema
            && (own.None? || own.value.omitParameters == [] ==> tool.parameters == d.parameters)
  {
  }

  /** A tool the catalog does not know is installed as the server lists it, and switched on. */
  lemma UnknownToolIsPlain(d: Discovered, name: string)
    ensures WithPolicy(d, None, name) ==
            Tool(name, d.description, d.parameters, d.endpointMapping, d.outputSchema, d.annotations, true)
  {
    if d.annotations.Some? {
      assert map[] + d.annotations.value == d.annotations.value;
    }
  }

  /** It is one that is no exact match, and not matched through a namespace: it gets its local name. */
  lemma UnknownToolGetsLocalName(catalog: seq<CatalogTool>, matches: map<string, nat>, prefix: string, remote: string)
    requires InCatalog(catalog, matches)
    ensures Own(catalog, matches, prefix, remote).None? <==>
            Exact(catalog, remote, prefix).None? && remote !in matches
    ensures remote !in matches || Exact(catalog, remote, prefix).Some? ==>
              NameOf(catalog, matches, prefix, remote) == LocalName(remote, prefix)
  {
  }

  method MergeDiscoveredMcpTools(catalog: seq<CatalogTool>, discovered: seq<Discovered>, prefix: string)
    returns (tools: seq<Tool>)
    ensures |tools| == |discovered| && InCatalog(catalog, Namespaced(catalog, discovered, prefix))
    ensures forall i :: 0 <= i < |tools| ==>
              var matches := Namespaced(catalog, discovered, prefix);
              tools[i] == WithPolicy(discovered[i], Own(catalog, matches, prefix, discovered[i].name),
                                     NameOf(catalog, matches, prefix, discovered[i].name))
  {
    var namespaced := NamespacedCatalogMatches(catalog, discovered, prefix);
    NamespacedInCatalog(catalog, discovered, prefix);
    tools := seq(|discovered|, i requires 0 <= i < |discovered| =>
      WithPolicy(discovered[i], Own(catalog, namespaced, prefix, discovered[i].name),
                 NameOf(catalog, namespaced, prefix, discovered[i].name)));
  }

  lemma NamespacedInCatalog(catalog: seq<CatalogTool>, discovered: seq<Discovered>, prefix: string)
    ensures InCatalog(catalog, Namespaced(catalog, discovered, prefix))
  {
    forall r | r in Namespaced(catalog, discovered, prefix)
      ensures Namespaced(catalog, discovered, prefix)[r] < |catalog|
    {
      NamespacedIsFree(catalog, discovered, prefix, r);
    }
  }

  // ----- the names

  ghost predicate Distinct(names: seq<string>) {
    forall i, j :: 0 <= i < j < |names| ==> names[i] != names[j]
  }

  function CatalogNames(catalog: seq<CatalogTool>): (r: seq<string>)
    ensures |r| == |catalog| && forall i :: 0 <= i < |r| ==> r[i] == catalog[i].name
  {
    seq(|catalog|, i requires 0 <= i < |catalog| => catalog[i].name)
  }

  /** The names of the merged tools. */
  function Names(catalog: seq<CatalogTool>, discovered: seq<Discovered>, prefix: string): (r: seq<string>)
    ensures |r| == |discovered| && InCatalog(catalog, Namespaced(catalog, discovered, prefix))
    ensures forall i :: 0 <= i < |r| ==>
              r[i] == NameOf(catalog, Namespaced(catalog, discovered, prefix), prefix, discovered[i].name)
  {
    NamespacedInCatalog(catalog, discovered, prefix);
    var matches := Namespaced(catalog, discovered, prefix);
    seq(|discovered|, i requires 0 <= i < |discovered| => NameOf(catalog, matches, prefix, discovered[i].name))
  }

  /** Two listed tools that would get the same name. */
  ghost predicate Clash(catalog: seq<CatalogTool>, matches: map<string, nat>, prefix: string, a: string, b: string) {
    var viaA, viaB := Via(catalog, matches, prefix, a), Via(catalog, matches, prefix, b);
    if viaA.Some? && viaB.Some? then a == b
    else viaA.None? && viaB.None? && LocalName(a, prefix) == LocalName(b, prefix)
  }

  lemma NameOfEach(catalog: seq<CatalogTool>, discovered: seq<Discovered>, prefix: string, i: nat, j: nat)
    requires Distinct(CatalogNames(catalog)) && i < |discovered| && j < |discovered|
    requires InCatalog(catalog, Namespaced(catalog, discovered, prefix))
    ensures var matches := Namespaced(catalog, discovered, prefix);
            var a, b := discovered[i].name, discovered[j].name;
            NameOf(catalog, matches, prefix, a) == NameOf(catalog, matches, prefix, b) <==>
            Clash(catalog, matches, prefix, a, b)
  {
    var matches := Namespaced(catalog, discovered, prefix);
    var a, b := discovered[i].name, discovered[j].name;
    if Via(catalog, matches, prefix, a).Some? {
      ViaIsApart(catalog, discovered, prefix, a, j);
    }
    if Via(catalog, matches, prefix, b).Some? {
      ViaIsApart(catalog, discovered, prefix, b, i);
    }
    if Via(catalog, matches, prefix, a).Some? && Via(catalog, matches, prefix, b).Some? {
      SameNameSameTool(catalog, matches[a], matches[b]);
      if matches[a] == matches[b] {
        var found := FoundIn(catalog, discovered, prefix);
        MatchedOnce(found, |found|, a, b);
      }
    }
  }

  lemma ViaIsApart(catalog: seq<CatalogTool>, discovered: seq<Discovered>, prefix: string, a: string, j: nat)
    requires j < |discovered| && a in Namespaced(catalog, discovered, prefix)
    ensures Namespaced(catalog, discovered, prefix)[a] < |catalog|
    ensures catalog[Namespaced(catalog, discovered, prefix)[a]].name != LocalName(discovered[j].name, prefix)
  {
    NamespacedIsFree(catalog, discovered, prefix, a);
    assert discovered[j] in discovered;
    assert LocalName(discovered[j].name, prefix) in Taken(discovered, prefix);
  }

  lemma SameNameSameTool(catalog: seq<CatalogTool>, a: nat, b: nat)
    requires Distinct(CatalogNames(catalog)) && a < |catalog| && b < |catalog|
    ensures catalog[a].name == catalog[b].name ==> a == b
  {
    assert CatalogNames(catalog)[a] == catalog[a].name && CatalogNames(catalog)[b] == catalog[b].name;
  }

  /** The merged names are distinct exactly when no two listed tools clash. */
  lemma NamesAreDistinctIff(catalog: seq<CatalogTool>, discovered: seq<Discovered>, prefix: string)
    requires Distinct(CatalogNames(catalog))
    ensures Distinct(Names(catalog, discovered, prefix)) <==>
            forall i, j :: 0 <= i < j < |discovered| ==>
              !Clash(catalog, Namespaced(catalog, discovered, prefix), prefix, discovered[i].name, discovered[j].name)
  {
    var names := Names(catalog, discovered, prefix);
    var matches := Namespaced(catalog, discovered, prefix);
    forall i, j | 0 <= i < j < |discovered|
      ensures names[i] == names[j] <==> Clash(catalog, matches, prefix, discovered[i].name, discovered[j].name)
    {
      NameOfEach(catalog, discovered, prefix, i, j);
    }
  }

  /** With any prefix: listed tools whose local names are distinct get distinct merged names. */
  lemma DistinctLocalNamesStayDistinct(catalog: seq<CatalogTool>, discovered: seq<Discovered>, prefix: string)
    requires Distinct(CatalogNames(catalog))
    requires forall i, j :: 0 <= i < j < |discovered| ==>
               LocalName(discovered[i].name, prefix) != LocalName(discovered[j].name, prefix)
    ensures Distinct(Names(catalog, discovered, prefix))
  {
    NamesAreDistinctIff(catalog, discovered, prefix);
  }

  /** Without a prefix local names are the remote ones: distinct remote names give distinct merged names. */
  lemma WithoutPrefixNamesAreDistinct(catalog: seq<CatalogTool>, discovered: seq<Discovered>)
    requires Distinct(CatalogNames(catalog))
    requires forall i, j :: 0 <= i < j < |discovered| ==> discovered[i].name != discovered[j].name
    ensures Distinct(Names(catalog, discovered, ""))
  {
    DistinctLocalNamesStayDistinct(catalog, discovered, "");
  }

  function Listed(name: string): Discovered {
    Discovered(name, "", NotAnObject(""), "", None, None)
  }

  /** With a prefix they need not: two tools of different remote names are installed under one name. */
  lemma MergedNamesMayCollide()
    ensures var listed := [Listed("a"), Listed("p_a")];
            listed[0].name != listed[1].name && !Distinct(Names([], listed, "p_"))
  {
    var listed := [Listed("a"), Listed("p_a")];
    LocalNamesMayCollide();
    NamespacedInCatalog([], listed, "p_");
    NothingMatched(listed, "p_", "a");
    NothingMatched(listed, "p_", "p_a");
    var names := Names([], listed, "p_");
    assert names[0] == LocalName("a", "p_") && names[1] == LocalName("p_a", "p_");
  }

  /** Without a catalog no name is matched. */
  lemma NothingMatched(listed: seq<Discovered>, prefix: string, remote: string)
    requires InCatalog([], Namespaced([], listed, prefix))
    ensures NameOf([], Namespaced([], listed, prefix), prefix, remote) == LocalName(remote, prefix)
  {
  }

  /**
   A tool of the catalog found under a shared namespace is installed under its catalog name, on
   or off as the catalog ships it.
   */
  lemma SharedToolKeepsPolicy(catalog: seq<CatalogTool>, discovered: seq<Discovered>, prefix: string, f: Found)
    returns (k: nat)
    requires f in FoundIn(catalog, discovered, prefix) && IsShared(FoundIn(catalog, discovered, prefix), f.namespace)
    ensures k < |discovered| && f.tool < |catalog| && InCatalog(catalog, Namespaced(catalog, discovered, prefix))
    ensures var matches := Namespaced(catalog, discovered, prefix);
            var tool := WithPolicy(discovered[k], Own(catalog, matches, prefix, discovered[k].name),
                                   NameOf(catalog, matches, prefix, discovered[k].name));
            tool.name == catalog[f.tool].name && tool.enabled == catalog[f.tool].enabled
  {
    var found := FoundIn(catalog, discovered, prefix);
    FoundIsConsistent(catalog, discovered, prefix);
    NamespacedInCatalog(catalog, discovered, prefix);
    var i :| 0 <= i < |found| && found[i] == f;
    var j := UsedIsMatched(found, i);
    TakenIsMatched(found, |found|, j);
    k := FoundMeans(catalog, discovered, prefix, found[j]);
  }
}
