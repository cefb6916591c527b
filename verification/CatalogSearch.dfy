/** The catalog search: tiers of matches, then the apps a word names, then the file stores a query asks for. */
module CatalogSearch {
  import opened CatalogMatching
  import opened Lists
  import opened Options
  import Sorting

  const MAX_FILE_SEARCH := 3
  const MAX_NAMED := 5

  datatype Kind = Direct | Fuzzy | Partial | Suggested

  datatype Hit = Hit(entry: nat, kind: Kind, score: int, suggested: bool)

  /** No entry is listed twice. */
  ghost predicate ListsOnce(hits: seq<Hit>) {
    forall i, j :: 0 <= i < j < |hits| ==> hits[i].entry != hits[j].entry
  }

  /** The hit is there, with the same kind and score, at most marked as suggested since. */
  ghost predicate Keeps(hits: seq<Hit>, h: Hit) {
    exists i :: 0 <= i < |hits| && hits[i].entry == h.entry && hits[i].kind == h.kind && hits[i].score == h.score
  }

  // ----- the terms of a query

  /** The words matched on: stopwords and one-letter words left out, unless nothing would be left. */
  function SearchTerms(words: seq<string>, stopwords: set<string>): seq<string> {
    var content := Filter(words, (w: string) => w !in stopwords && |w| > 1);
    var longer := Filter(words, (w: string) => |w| > 1);
    if content != [] then Unique(content) else if longer != [] then Unique(longer) else Unique(words)
  }

  /** Something is left of every query with words. */
  lemma TermsOfWords(words: seq<string>, stopwords: set<string>)
    ensures SearchTerms(words, stopwords) == [] <==> words == []
  {
    var content := Filter(words, (w: string) => w !in stopwords && |w| > 1);
    var longer := Filter(words, (w: string) => |w| > 1);
    NotEmpty(content);
    NotEmpty(longer);
    NotEmpty(words);
  }

  lemma NotEmpty(s: seq<string>)
    ensures Unique(s) == [] <==> s == []
  {
    if s != [] {
      InUnique(s, s[0]);
    }
  }

  /** A stopword or a single letter is a term only of a query made of such words. */
  lemma TermIsWord(words: seq<string>, stopwords: set<string>, t: string)
    requires t in SearchTerms(words, stopwords)
    ensures t in words
    ensures t in stopwords || |t| <= 1 ==> forall w :: w in words ==> w in stopwords || |w| <= 1
  {
    var content := Filter(words, (w: string) => w !in stopwords && |w| > 1);
    var longer := Filter(words, (w: string) => |w| > 1);
    InUnique(content, t);
    InUnique(longer, t);
    InUnique(words, t);
  }

  // ----- moving hits to the front

  function HitOf(hits: seq<Hit>, e: nat, added: Hit): Hit {
    var found := Find(hits, (h: Hit) => h.entry == e);
    if found.Some? then found.value else added
  }

  function Front(hits: seq<Hit>, named: seq<nat>, added: nat -> Hit): (r: seq<Hit>)
    ensures |r| == |named| && forall i :: 0 <= i < |r| ==> r[i] == HitOf(hits, named[i], added(named[i]))
  {
    seq(|named|, i requires 0 <= i < |named| => HitOf(hits, named[i], added(named[i])))
  }

  /** The hits not moved, in their order. */
  function Rest(hits: seq<Hit>, named: seq<nat>): seq<Hit> {
    Filter(hits, (h: Hit) => h.entry !in named)
  }

  ghost predicate Distinct(named: seq<nat>) {
    forall i, j :: 0 <= i < j < |named| ==> named[i] != named[j]
  }

  lemma HitOfIsHit(hits: seq<Hit>, e: nat, added: Hit)
    requires added.entry == e
    ensures var h := HitOf(hits, e, added);
            h.entry == e && (h in hits || (h == added && forall k :: 0 <= k < |hits| ==> hits[k].entry != e))
  {
    if Find(hits, (h: Hit) => h.entry == e).None? {
      forall k | 0 <= k < |hits|
        ensures hits[k].entry != e
      {
        assert hits[k] in hits;
      }
    }
  }

  lemma SameHit(hits: seq<Hit>, a: Hit, b: Hit)
    requires ListsOnce(hits) && a in hits && b in hits && a.entry == b.entry
    ensures a == b
  {
    var i :| 0 <= i < |hits| && hits[i] == a;
    var j :| 0 <= j < |hits| && hits[j] == b;
  }

  lemma {:induction false} FilterListsOnce(hits: seq<Hit>, keep: Hit -> bool)
    requires ListsOnce(hits)
    ensures ListsOnce(Filter(hits, keep))
  {
    if hits != [] {
      FilterListsOnce(hits[1..], keep);
      forall h | h in hits[1..]
        ensures h.entry != hits[0].entry
      {
        var k :| 0 <= k < |hits| - 1 && hits[1..][k] == h;
        assert hits[k + 1] == h;
      }
    }
  }

  ghost predicate AddsItself(added: nat -> Hit) {
    forall e :: added(e).entry == e
  }

  /** What moving does: every hit is in one part, and what is new belongs to an entry without a hit. */
  lemma FrontAndRest(hits: seq<Hit>, named: seq<nat>, added: nat -> Hit)
    requires ListsOnce(hits) && Distinct(named) && AddsItself(added)
    ensures ListsOnce(Front(hits, named, added)) && ListsOnce(Rest(hits, named))
    ensures forall h :: h in Front(hits, named, added) ==> h.entry in named
    ensures forall h :: h in Rest(hits, named) ==> h.entry !in named
    ensures forall h :: h in hits ==> h in Front(hits, named, added) || h in Rest(hits, named)
  {
    var front := Front(hits, named, added);
    FilterListsOnce(hits, (h: Hit) => h.entry !in named);
    forall i | 0 <= i < |named|
      ensures front[i].entry == named[i]
    {
      HitOfIsHit(hits, named[i], added(named[i]));
    }
    forall h | h in hits && h.entry in named
      ensures h in front
    {
      var i :| 0 <= i < |named| && named[i] == h.entry;
      HitOfIsHit(hits, named[i], added(named[i]));
      var k :| 0 <= k < |hits| && hits[k] == h;
      SameHit(hits, front[i], h);
      assert front[i] == h;
    }
  }

  lemma FrontIsNew(hits: seq<Hit>, named: seq<nat>, added: nat -> Hit, h: Hit)
    requires AddsItself(added) && h in Front(hits, named, added) && h !in hits
    ensures h == added(h.entry) && forall k :: 0 <= k < |hits| ==> hits[k].entry != h.entry
  {
    var i :| 0 <= i < |named| && Front(hits, named, added)[i] == h;
    HitOfIsHit(hits, named[i], added(named[i]));
  }

  lemma ApartListsOnce(a: seq<Hit>, b: seq<Hit>)
    requires ListsOnce(a) && ListsOnce(b) && forall x, y :: x in a && y in b ==> x.entry != y.entry
    ensures ListsOnce(a + b)
  {
  }

  // ----- the apps a word names

  /** The apps among the first `n` entries whose slug or name starts with the word. */
  function Apps(c: Catalog, isStore: string -> bool, word: string, n: nat): (r: seq<nat>)
    requires n <= |c.entries|
    ensures forall e :: e in r <==> 0 <= e < n && !isStore(c.entries[e].slug) && word in c.entries[e].leads
    ensures Distinct(r)
  {
    if n == 0 then []
    else
      var rest := Apps(c, isStore, word, n - 1);
      if !isStore(c.entries[n - 1].slug) && word in c.entries[n - 1].leads then rest + [n - 1] else rest
  }

  function RatingOf(scored: seq<Scored>, e: nat): Scored {
    var found := Find(scored, (s: Scored) => s.entry == e);
    if found.Some? then found.value else Scored(e, 0, 0, 0, 0, false)
  }

  function AppsByRank(c: Catalog, scored: seq<Scored>): (nat, nat) -> bool {
    (a: nat, b: nat) => ByRank(c)(RatingOf(scored, a), RatingOf(scored, b))
  }

  /** One app, or a few: a word starting more names names no single app. */
  function AppsNamedBy(c: Catalog, isStore: string -> bool, scored: seq<Scored>, term: string): seq<nat> {
    var apps := Apps(c, isStore, c.compact(term), |c.entries|);
    if |apps| > MAX_NAMED then [] else Sorting.Sort(AppsByRank(c, scored), apps)
  }

  function NamedApps(c: Catalog, isStore: string -> bool, scored: seq<Scored>, terms: seq<string>): (r: seq<nat>)
    ensures Distinct(r)
  {
    Unique(FlatMap(terms, |terms|, (term: string) => AppsNamedBy(c, isStore, scored, term)))
  }

  /** The word starts the slug or the name of this app, and of no more than a few others. */
  ghost predicate Names(c: Catalog, isStore: string -> bool, term: string, e: nat) {
    && e in Apps(c, isStore, c.compact(term), |c.entries|)
    && |Apps(c, isStore, c.compact(term), |c.entries|)| <= MAX_NAMED
  }

  lemma AppsNamedExactly(c: Catalog, isStore: string -> bool, scored: seq<Scored>, term: string, e: nat)
    ensures e in AppsNamedBy(c, isStore, scored, term) <==> Names(c, isStore, term, e)
  {
    Sorting.SortKeepsMember(AppsByRank(c, scored), Apps(c, isStore, c.compact(term), |c.entries|), e);
  }

  lemma NamedExactly(c: Catalog, isStore: string -> bool, scored: seq<Scored>, terms: seq<string>, e: nat)
    ensures e in NamedApps(c, isStore, scored, terms) <==>
            exists k :: 0 <= k < |terms| && Names(c, isStore, terms[k], e)
  {
    var f := (term: string) => AppsNamedBy(c, isStore, scored, term);
    InUnique(FlatMap(terms, |terms|, f), e);
    if e in NamedApps(c, isStore, scored, terms) {
      var k := FromFlatMap(terms, |terms|, f, e);
      AppsNamedExactly(c, isStore, scored, terms[k], e);
    }
    if k :| 0 <= k < |terms| && Names(c, isStore, terms[k], e) {
      AppsNamedExactly(c, isStore, scored, terms[k], e);
      InFlatMap(terms, |terms|, f, k, e);
    }
  }

  predicate StaysFirst(hits: seq<Hit>) {
    hits != [] && hits[0].kind == Direct && hits[0].score >= PHRASE
  }

  function PartialHit(scored: seq<Scored>): nat -> Hit {
    (e: nat) => Hit(e, Partial, RatingOf(scored, e).score, false)
  }

  function WithNamed(hits: seq<Hit>, scored: seq<Scored>, named: seq<nat>): seq<Hit> {
    if StaysFirst(hits) || named == [] then hits
    else Front(hits, named, PartialHit(scored)) + Rest(hits, named)
  }

  method NamedFirst(c: Catalog, isStore: string -> bool, terms: seq<string>, hits: seq<Hit>, scored: seq<Scored>)
    returns (r: seq<Hit>)
    ensures r == WithNamed(hits, scored, NamedApps(c, isStore, scored, terms))
  {
    if StaysFirst(hits) {
      return hits;
    }
    var named := UniqueOfAll(terms, (term: string) => AppsNamedBy(c, isStore, scored, term));
    if named == [] {
      return hits;
    }
    return Front(hits, named, PartialHit(scored)) + Rest(hits, named);
  }

  method UniqueOfAll(terms: seq<string>, appsOf: string -> seq<nat>) returns (named: seq<nat>)
    ensures named == Unique(FlatMap(terms, |terms|, appsOf))
  {
    named := [];
    for k := 0 to |terms|
      invariant named == Unique(FlatMap(terms, k, appsOf))
    {
      named := AddMissing(FlatMap(terms, k, appsOf), named, appsOf(terms[k]));
    }
  }

  method AddMissing(ghost before: seq<nat>, named: seq<nat>, apps: seq<nat>) returns (r: seq<nat>)
    requires named == Unique(before)
    ensures r == Unique(before + apps)
  {
    r := named;
    assert before + apps[..0] == before;
    for i := 0 to |apps|
      invariant r == Unique(before + apps[..i])
    {
      UniqueGrows(before, apps, i);
      if apps[i] !in r {
        r := r + [apps[i]];
      }
    }
    assert apps[..|apps|] == apps;
  }

  lemma UniqueGrows(before: seq<nat>, s: seq<nat>, i: nat)
    requires i < |s|
    ensures var u := Unique(before + s[..i]);
            Unique(before + s[..i + 1]) == if s[i] in u then u else u + [s[i]]
  {
    var longer := before + s[..i + 1];
    assert longer[..|longer| - 1] == before + s[..i];
  }

  /** Naming keeps every hit, adds partial matches only, and lists nothing twice. */
  lemma NamedKeeps(hits: seq<Hit>, scored: seq<Scored>, named: seq<nat>)
    requires ListsOnce(hits) && Distinct(named)
    ensures ListsOnce(WithNamed(hits, scored, named))
    ensures forall h :: h in hits ==> h in WithNamed(hits, scored, named)
    ensures forall h :: h in WithNamed(hits, scored, named) && h !in hits ==>
              h.entry in named && h == PartialHit(scored)(h.entry)
              && forall k :: 0 <= k < |hits| ==> hits[k].entry != h.entry
    ensures Rest(WithNamed(hits, scored, named), named) == Rest(hits, named)
  {
    var added := PartialHit(scored);
    var front, rest := Front(hits, named, added), Rest(hits, named);
    FrontAndRest(hits, named, added);
    ApartListsOnce(front, rest);
    forall h | h in front && h !in hits
      ensures h == added(h.entry) && forall k :: 0 <= k < |hits| ==> hits[k].entry != h.entry
    {
      FrontIsNew(hits, named, added, h);
    }
    RestOfMoved(hits, front, named);
  }

  lemma {:induction false} FilterParts(a: seq<Hit>, b: seq<Hit>, keep: Hit -> bool)
    ensures Filter(a + b, keep) == Filter(a, keep) + Filter(b, keep)
  {
    if a == [] {
      assert a + b == b;
    } else {
      assert (a + b)[1..] == a[1..] + b;
      FilterParts(a[1..], b, keep);
    }
  }

  lemma {:induction false} FilterNone(s: seq<Hit>, keep: Hit -> bool)
    requires forall h :: h in s ==> !keep(h)
    ensures Filter(s, keep) == []
  {
    if s != [] {
      FilterNone(s[1..], keep);
    }
  }

  lemma {:induction false} FilterAll(s: seq<Hit>, keep: Hit -> bool)
    requires forall h :: h in s ==> keep(h)
    ensures Filter(s, keep) == s
  {
    if s != [] {
      FilterAll(s[1..], keep);
    }
  }

  /** What was not moved keeps its order. */
  lemma RestOfMoved(hits: seq<Hit>, front: seq<Hit>, named: seq<nat>)
    requires forall h :: h in front ==> h.entry in named
    ensures Rest(front + Rest(hits, named), named) == Rest(hits, named)
  {
    var keep := (h: Hit) => h.entry !in named;
    FilterParts(front, Rest(hits, named), keep);
    FilterNone(front, keep);
    FilterAll(Rest(hits, named), keep);
  }

  // ----- the file stores a query asks for

  datatype Intent = Intent(triggers: seq<string>, slugs: seq<string>, generic: bool)

  /** The table of intents, and the cloud drives that are no file stores. */
  datatype Stores = Stores(intents: seq<Intent>, drives: seq<string>)

  predicate IsStore(stores: Stores, slug: string) {
    exists i :: i in stores.intents && slug in i.slugs
  }

  datatype Asked = Asked(slugs: seq<string>, words: set<string>, generic: bool)

  const NOTHING_ASKED: Asked := Asked([], {}, false)

  function Concat(words: seq<string>): string {
    if words == [] then "" else words[0] + Concat(words[1..])
  }

  predicate Contains(s: string, part: string) {
    exists i :: 0 <= i <= |s| && part <= s[i..]
  }

  /** The intent a run of words triggers. */
  function Triggered(stores: Stores, run: string): Option<Intent> {
    Find(stores.intents, (x: Intent) => run in x.triggers)
  }

  /** The end of the longest run from `i`, of those that end by `j`, that triggers an intent; `i` if none does. */
  function RunEnd(stores: Stores, words: seq<string>, i: nat, j: nat): (n: nat)
    requires i <= j <= |words|
    ensures i <= n <= j
    decreases j - i
  {
    if j == i || Triggers(stores, words, i, j) then j else RunEnd(stores, words, i, j - 1)
  }

  predicate Triggers(stores: Stores, words: seq<string>, i: nat, j: nat)
    requires i <= j <= |words|
  {
    Triggered(stores, Concat(words[i..j])).Some?
  }

  lemma {:induction false} RunEndIsLongest(stores: Stores, words: seq<string>, i: nat, j: nat)
    requires i <= j <= |words|
    ensures var n := RunEnd(stores, words, i, j);
            && (n > i ==> Triggers(stores, words, i, n))
            && (forall k :: n < k <= j ==> !Triggers(stores, words, i, k))
    decreases j - i
  {
    if j > i && !Triggers(stores, words, i, j) {
      RunEndIsLongest(stores, words, i, j - 1);
    }
  }

  /** Runs have at most three words. */
  function Reach(words: seq<string>, i: nat): (j: nat)
    requires i <= |words|
    ensures i <= j <= |words|
  {
    if i + 3 <= |words| then i + 3 else |words|
  }

  /** What the words from `i` on ask for, by the longest run that triggers an intent. */
  function IntentAt(stores: Stores, words: seq<string>, i: nat): Option<Intent>
    requires i < |words|
  {
    var n := RunEnd(stores, words, i, Reach(words, i));
    if n == i then None else Triggered(stores, Concat(words[i..n]))
  }

  function SetOf(words: seq<string>): set<string> {
    set w | w in words
  }

  function WordsAt(stores: Stores, words: seq<string>, i: nat): set<string>
    requires i < |words|
  {
    SetOf(words[i..RunEnd(stores, words, i, Reach(words, i))])
  }

  function WithIntent(a: Asked, intent: Option<Intent>, used: set<string>): (r: Asked)
    ensures intent.Some? ==> forall i, j :: 0 <= i < j < |r.slugs| ==> r.slugs[i] != r.slugs[j]
  {
    if intent.None? then a
    else Asked(Unique(a.slugs + intent.value.slugs), a.words + used, a.generic && intent.value.generic)
  }

  lemma SlugsOfIntent(a: Asked, intent: Option<Intent>, used: set<string>, slug: string)
    ensures slug in WithIntent(a, intent, used).slugs <==>
            slug in a.slugs || (intent.Some? && slug in intent.value.slugs)
  {
    if intent.Some? {
      InUnique(a.slugs + intent.value.slugs, slug);
    }
  }

  ghost predicate AsksFor(stores: Stores, words: seq<string>, i: nat, slug: string)
    requires i < |words|
  {
    IntentAt(stores, words, i).Some? && slug in IntentAt(stores, words, i).value.slugs
  }

  /** What the runs that start at the first `n` words ask for; `generic` as long as all of them are. */
  function AskedBy(stores: Stores, words: seq<string>, n: nat): (a: Asked)
    requires n <= |words|
    ensures forall i, j :: 0 <= i < j < |a.slugs| ==> a.slugs[i] != a.slugs[j]
  {
    if n == 0 then Asked([], {}, true)
    else
      var a := AskedBy(stores, words, n - 1);
      WithIntent(a, IntentAt(stores, words, n - 1), WordsAt(stores, words, n - 1))
  }

  /** A query about a cloud drive asks for no file store. */
  predicate IsAboutDrives(stores: Stores, words: seq<string>) {
    exists d :: d in stores.drives && Contains(Concat(words), d)
  }

  function FileSearchIntent(stores: Stores, words: seq<string>): (a: Asked)
    ensures forall i, j :: 0 <= i < j < |a.slugs| ==> a.slugs[i] != a.slugs[j]
  {
    if words == [] || IsAboutDrives(stores, words) then NOTHING_ASKED
    else
      var a := AskedBy(stores, words, |words|);
      Asked(a.slugs, a.words, a.slugs != [] && a.generic)
  }

  /** One of the longest runs that start at the first `n` words names the slug. */
  ghost predicate SomeRunAsksFor(stores: Stores, words: seq<string>, n: nat, slug: string)
    requires n <= |words|
  {
    exists i :: 0 <= i < n && AsksFor(stores, words, i, slug)
  }

  lemma SomeRunOfNext(stores: Stores, words: seq<string>, n: nat, slug: string)
    requires n < |words|
    ensures SomeRunAsksFor(stores, words, n + 1, slug) <==>
            SomeRunAsksFor(stores, words, n, slug) || AsksFor(stores, words, n, slug)
  {
  }

  /** A slug is asked for exactly when a longest run names it, and only then. */
  lemma {:induction false} SlugsExactly(stores: Stores, words: seq<string>, n: nat, slug: string)
    requires n <= |words|
    ensures slug in AskedBy(stores, words, n).slugs <==> SomeRunAsksFor(stores, words, n, slug)
  {
    if n > 0 {
      SlugsExactly(stores, words, n - 1, slug);
      SlugsOfNext(stores, words, n - 1, slug);
      SomeRunOfNext(stores, words, n - 1, slug);

    }
  }

  lemma SlugsOfNext(stores: Stores, words: seq<string>, n: nat, slug: string)
    requires n < |words|
    ensures slug in AskedBy(stores, words, n + 1).slugs <==>
            slug in AskedBy(stores, words, n).slugs || AsksFor(stores, words, n, slug)
  {
    SlugsOfIntent(AskedBy(stores, words, n), IntentAt(stores, words, n), WordsAt(stores, words, n), slug);
  }

  method LongestRun(stores: Stores, words: seq<string>, i: nat) returns (j: nat)
    requires i < |words|
    ensures j == RunEnd(stores, words, i, Reach(words, i))
  {
    j := Reach(words, i);
    while j > i && !Triggers(stores, words, i, j)
      invariant i <= j <= Reach(words, i)
      invariant RunEnd(stores, words, i, Reach(words, i)) == RunEnd(stores, words, i, j)
    {
      j := j - 1;
    }
  }

  method FindFileSearchIntent(stores: Stores, words: seq<string>) returns (a: Asked)
    ensures a == FileSearchIntent(stores, words)
  {
    if words == [] || IsAboutDrives(stores, words) {
      return NOTHING_ASKED;
    }
    var a' := Asked([], {}, true);
    for i := 0 to |words|
      invariant a' == AskedBy(stores, words, i)
    {
      var j := LongestRun(stores, words, i);
      if j > i {
        a' := WithIntent(a', Triggered(stores, Concat(words[i..j])), SetOf(words[i..j]));
      }
    }
    return Asked(a'.slugs, a'.words, a'.slugs != [] && a'.generic);
  }

  // ----- the file stores put in front

  /** The first of the entries from `i` on with this slug. */
  function EntryOf(c: Catalog, slug: string, i: nat): (r: Option<nat>)
    requires i <= |c.entries|
    ensures r.Some? ==> i <= r.value < |c.entries| && c.entries[r.value].slug == slug
    ensures forall k :: i <= k < (if r.Some? then r.value else |c.entries|) ==> c.entries[k].slug != slug
    decreases |c.entries| - i
  {
    if i == |c.entries| then None else if c.entries[i].slug == slug then Some(i) else EntryOf(c, slug, i + 1)
  }

  function EntriesOf(c: Catalog, slugs: seq<string>): (r: seq<nat>)
    ensures |r| <= |slugs| &&
            forall i :: 0 <= i < |r| ==> r[i] < |c.entries| && EntryOf(c, c.entries[r[i]].slug, 0) == Some(r[i])
    ensures forall i :: 0 <= i < |r| ==> c.entries[r[i]].slug in slugs
  {
    if slugs == [] then []
    else
      var e := EntryOf(c, slugs[|slugs| - 1], 0);
      EntriesOf(c, slugs[..|slugs| - 1]) + if e.Some? then [e.value] else []
  }

  lemma {:induction false} EntriesAreDistinct(c: Catalog, slugs: seq<string>)
    requires forall i, j :: 0 <= i < j < |slugs| ==> slugs[i] != slugs[j]
    ensures Distinct(EntriesOf(c, slugs))
  {
    if slugs != [] {
      EntriesAreDistinct(c, slugs[..|slugs| - 1]);
    }
  }

  function FileStores(c: Catalog, slugs: seq<string>): seq<nat> {
    Take(EntriesOf(c, slugs), MAX_FILE_SEARCH)
  }

  const SUGGESTED := (e: nat) => Hit(e, Suggested, 0, false)

  function Marked(hits: seq<Hit>): (r: seq<Hit>)
    ensures |r| == |hits| && forall i :: 0 <= i < |r| ==> r[i] == hits[i].(suggested := true)
  {
    seq(|hits|, i requires 0 <= i < |hits| => hits[i].(suggested := true))
  }

  /** A first result named like the query keeps its place. */
  predicate Leads(hits: seq<Hit>, picked: seq<nat>) {
    hits != [] && hits[0].entry !in picked && hits[0].kind == Direct && hits[0].score >= WORD
  }

  function WithStores(hits: seq<Hit>, picked: seq<nat>): seq<Hit> {
    var marked, rest := Marked(Front(hits, picked, SUGGESTED)), Rest(hits, picked);
    if picked == [] then hits
    else if Leads(hits, picked) then [hits[0]] + marked + rest[1..]
    else marked + rest
  }

  lemma LeadIsFirst(hits: seq<Hit>, picked: seq<nat>)
    requires Leads(hits, picked)
    ensures Rest(hits, picked) != [] && Rest(hits, picked)[0] == hits[0]
    ensures [hits[0]] + Rest(hits, picked)[1..] == Rest(hits, picked)
  {
  }

  ghost predicate ListsMarked(hits: seq<Hit>, e: nat) {
    exists i :: 0 <= i < |hits| && hits[i].entry == e && hits[i].suggested
  }

  /** Every file store picked is listed and marked. */
  ghost predicate ListsPicked(hits: seq<Hit>, picked: seq<nat>) {
    forall k :: 0 <= k < |picked| ==> ListsMarked(hits, picked[k])
  }

  ghost predicate KeepsAll(hits: seq<Hit>, r: seq<Hit>) {
    forall h :: h in hits ==> Keeps(r, h)
  }

  /** What is new was named or picked, and had no hit. */
  ghost predicate AddsOnly(hits: seq<Hit>, r: seq<Hit>, entries: seq<nat>, kind: Kind) {
    forall h :: h in r && !Keeps(hits, h) ==>
      h.entry in entries && h.kind == kind && forall k :: 0 <= k < |hits| ==> hits[k].entry != h.entry
  }

  lemma InListIsKept(hits: seq<Hit>, h: Hit)
    requires h in hits
    ensures Keeps(hits, h)
  {
    var i :| 0 <= i < |hits| && hits[i] == h;
  }

  lemma KeptInPart(r: seq<Hit>, part: seq<Hit>, start: nat, h: Hit)
    requires start + |part| <= |r| && r[start..start + |part|] == part && Keeps(part, h)
    ensures Keeps(r, h)
  {
    var i :| 0 <= i < |part| && part[i].entry == h.entry && part[i].kind == h.kind && part[i].score == h.score;
    assert r[start + i] == part[i];
  }

  lemma MarkedKeeps(front: seq<Hit>, h: Hit)
    requires h in front
    ensures Keeps(Marked(front), h)
  {
    var i :| 0 <= i < |front| && front[i] == h;
    assert Marked(front)[i].entry == h.entry;
  }

  /** Inserting marked hits into the rest, at the front or behind the first. */
  function Inserted(marked: seq<Hit>, rest: seq<Hit>, at: nat): seq<Hit>
    requires at <= |rest|
  {
    rest[..at] + marked + rest[at..]
  }

  lemma StoresAreInserted(hits: seq<Hit>, picked: seq<nat>) returns (at: nat)
    requires picked != []
    ensures at <= |Rest(hits, picked)| && at == if Leads(hits, picked) then 1 else 0
    ensures WithStores(hits, picked) == Inserted(Marked(Front(hits, picked, SUGGESTED)), Rest(hits, picked), at)
  {
    if Leads(hits, picked) {
      LeadIsFirst(hits, picked);
      at := 1;
      assert Rest(hits, picked)[..1] == [hits[0]];
    } else {
      at := 0;
    }
  }

  lemma InsertedListsOnce(marked: seq<Hit>, rest: seq<Hit>, at: nat)
    requires at <= |rest| && ListsOnce(marked) && ListsOnce(rest)
    requires forall x, y :: x in marked && y in rest ==> x.entry != y.entry
    ensures ListsOnce(Inserted(marked, rest, at))
  {
    ApartListsOnce(rest[..at], marked);
    ApartListsOnce(rest[..at] + marked, rest[at..]);
  }

  lemma InsertedKeeps(marked: seq<Hit>, rest: seq<Hit>, at: nat, h: Hit)
    requires at <= |rest| && (Keeps(marked, h) || h in rest)
    ensures Keeps(Inserted(marked, rest, at), h)
  {
    var r := Inserted(marked, rest, at);
    if Keeps(marked, h) {
      assert r[at..at + |marked|] == marked;
      KeptInPart(r, marked, at, h);
    } else {
      assert h in rest[..at] || h in rest[at..] by {
        assert rest == rest[..at] + rest[at..];
      }
      assert h in r;
      InListIsKept(r, h);
    }
  }

  lemma MarkedListsOnce(front: seq<Hit>)
    requires ListsOnce(front)
    ensures ListsOnce(Marked(front))
    ensures forall x :: x in Marked(front) ==> exists h :: h in front && x == h.(suggested := true)
  {
    forall x | x in Marked(front)
      ensures exists h :: h in front && x == h.(suggested := true)
    {
      var i :| 0 <= i < |front| && Marked(front)[i] == x;
      assert front[i] in front;
    }
  }

  /** Suggesting keeps every hit, lists every file store picked, marked, and lists nothing twice. */
  lemma StoresKeep(hits: seq<Hit>, picked: seq<nat>)
    requires ListsOnce(hits) && Distinct(picked)
    ensures var r := WithStores(hits, picked);
            ListsOnce(r) && KeepsAll(hits, r) && ListsPicked(r, picked)
  {
    if picked == [] {
      forall h | h in hits
        ensures Keeps(hits, h)
      {
        InListIsKept(hits, h);
      }
    } else {
      var front, rest := Front(hits, picked, SUGGESTED), Rest(hits, picked);
      var at := StoresAreInserted(hits, picked);
      FrontAndRest(hits, picked, SUGGESTED);
      MarkedListsOnce(front);
      InsertedListsOnce(Marked(front), rest, at);
      forall h | h in hits
        ensures Keeps(Inserted(Marked(front), rest, at), h)
      {
        if h in front {
          MarkedKeeps(front, h);
        }
        InsertedKeeps(Marked(front), rest, at, h);
      }
      InsertedListsPicked(hits, picked, at);
    }
  }

  lemma InsertedListsPicked(hits: seq<Hit>, picked: seq<nat>, at: nat)
    requires at <= |Rest(hits, picked)|
    ensures ListsPicked(Inserted(Marked(Front(hits, picked, SUGGESTED)), Rest(hits, picked), at), picked)
  {
    var front := Front(hits, picked, SUGGESTED);
    var r := Inserted(Marked(front), Rest(hits, picked), at);
    forall k | 0 <= k < |picked|
      ensures ListsMarked(r, picked[k])
    {
      HitOfIsHit(hits, picked[k], SUGGESTED(picked[k]));
      InsertedAt(Marked(front), Rest(hits, picked), at, k);
      assert r[at + k].entry == picked[k] && r[at + k].suggested;
    }
  }

  lemma InsertedAt(marked: seq<Hit>, rest: seq<Hit>, at: nat, k: nat)
    requires at <= |rest| && k < |marked|
    ensures at + k < |Inserted(marked, rest, at)| && Inserted(marked, rest, at)[at + k] == marked[k]
  {
  }

  /** The hits that were not picked keep their order. */
  lemma StoresKeepOrder(hits: seq<Hit>, picked: seq<nat>)
    requires ListsOnce(hits) && Distinct(picked)
    ensures Rest(WithStores(hits, picked), picked) == Rest(hits, picked)
  {
    var keep := (h: Hit) => h.entry !in picked;
    if picked == [] {
      FilterAll(hits, keep);
    } else {
      var front, rest := Front(hits, picked, SUGGESTED), Rest(hits, picked);
      var at := StoresAreInserted(hits, picked);
      FrontAndRest(hits, picked, SUGGESTED);
      MarkedListsOnce(front);
      FilterParts(rest[..at] + Marked(front), rest[at..], keep);
      FilterParts(rest[..at], Marked(front), keep);
      FilterAll(rest[..at], keep);
      FilterAll(rest[at..], keep);
      FilterNone(Marked(front), keep);
      assert rest[..at] + [] + rest[at..] == rest;
    }
  }

  /** What suggesting adds is a file store picked that had no hit. */
  lemma StoresAddOnly(hits: seq<Hit>, picked: seq<nat>)
    requires ListsOnce(hits) && Distinct(picked)
    ensures AddsOnly(hits, WithStores(hits, picked), picked, Suggested)
  {
    forall h | h in WithStores(hits, picked) && !Keeps(hits, h)
      ensures h.entry in picked && h.kind == Suggested && forall k :: 0 <= k < |hits| ==> hits[k].entry != h.entry
    {
      if h in hits {
        InListIsKept(hits, h);
      }
      var front := Front(hits, picked, SUGGESTED);
      var at := StoresAreInserted(hits, picked);
      FrontAndRest(hits, picked, SUGGESTED);
      MarkedListsOnce(front);
      assert h in Marked(front);
      var x :| x in front && h == x.(suggested := true);
      if x in hits {
        InListIsKept(hits, x);
      }
      FrontIsNew(hits, picked, SUGGESTED, x);
    }
  }

  // ----- the search

  function HitsOf(scored: seq<Scored>, kind: Kind): (r: seq<Hit>)
    ensures |r| == |scored| && forall i :: 0 <= i < |r| ==> r[i] == Hit(scored[i].entry, kind, scored[i].score, false)
  {
    seq(|scored|, i requires 0 <= i < |scored| => Hit(scored[i].entry, kind, scored[i].score, false))
  }

  function TierHits(t: Tiers): seq<Hit> {
    HitsOf(t.direct, Direct) + HitsOf(t.fuzzy, Fuzzy) + HitsOf(t.weak, Direct) + HitsOf(t.partial, Partial)
  }

  lemma TierHitsListOnce(t: Tiers)
    requires OncePerEntry(All(t))
    ensures ListsOnce(TierHits(t))
  {
    var hits, all := TierHits(t), All(t);
    assert |hits| == |all|;
    assert forall i :: 0 <= i < |hits| ==> hits[i].entry == all[i].entry;
  }

  /** What a query comes to: the words matched on, the file stores asked for, the ratings. */
  datatype Search = Search(terms: seq<string>, asked: Asked, scored: seq<Scored>)

  function Compacted(c: Catalog, words: seq<string>): seq<string> {
    if words == [] then []
    else (if c.compact(words[0]) == "" then [] else [c.compact(words[0])]) + Compacted(c, words[1..])
  }

  predicate NamesApp(c: Catalog, stores: Stores, terms: seq<string>) {
    exists k, e :: 0 <= k < |terms| && 0 <= e < |c.entries|
      && !IsStore(stores, c.entries[e].slug) && DirectScore(c, c.entries[e], terms[k]) >= ALIAS_PREFIX
  }

  /** The words that do not ask for file stores. */
  function Others(c: Catalog, terms: seq<string>, asked: Asked): seq<string> {
    Filter(terms, (t: string) => c.compact(t) !in asked.words)
  }

  /** Words about documents in general yield to a word that names an app. */
  function Narrowed(c: Catalog, stores: Stores, terms: seq<string>, asked: Asked): (seq<string>, Asked) {
    var others := Others(c, terms, asked);
    if !asked.generic || !NamesApp(c, stores, others) then (terms, asked)
    else (if |others| == 1 then others else terms, NOTHING_ASKED)
  }

  function Whole(c: Catalog, text: string, terms: seq<string>): seq<string> {
    Filter([c.compact(text), c.compact(Concat(terms))], (q: string) => |q| > 1)
  }

  function StoreNotAsked(stores: Stores, asked: Asked): string -> bool {
    (slug: string) => IsStore(stores, slug) && asked.slugs == []
  }

  function SearchOf(c: Catalog, stores: Stores, stopwords: set<string>, text: string, words: seq<string>): Search {
    var all := SearchTerms(words, stopwords);
    var (terms, asked) := Narrowed(c, stores, all, FileSearchIntent(stores, Compacted(c, words)));
    Search(terms, asked, Ratings(c, terms, Whole(c, text, all), StoreNotAsked(stores, asked), |c.entries|))
  }

  /** The hits of the tiers, then with the apps named, then with the file stores. */
  function BaseHits(c: Catalog, s: Search): seq<Hit> {
    TierHits(TiersOf(c, s.scored, |s.terms|))
  }

  function NamedIn(c: Catalog, stores: Stores, s: Search): (r: seq<nat>)
    ensures Distinct(r)
  {
    if |s.terms| <= 1 then []
    else NamedApps(c, (slug: string) => IsStore(stores, slug), s.scored, Others(c, s.terms, s.asked))
  }

  function NamedHits(c: Catalog, stores: Stores, s: Search): seq<Hit> {
    WithNamed(BaseHits(c, s), s.scored, NamedIn(c, stores, s))
  }

  function FinalHits(c: Catalog, stores: Stores, s: Search): seq<Hit> {
    WithStores(NamedHits(c, stores, s), FileStores(c, s.asked.slugs))
  }

  /** Nothing a query comes to rates an entry twice, or a word twice. */
  lemma SearchIsSound(c: Catalog, stores: Stores, stopwords: set<string>, text: string, words: seq<string>)
    ensures var s := SearchOf(c, stores, stopwords, text, words);
            && InCatalogOrder(s.scored, |c.entries|) && OncePerEntry(s.scored) && CountsWords(s.scored, |s.terms|)
            && Distinct(FileStores(c, s.asked.slugs))
  {
    var s := SearchOf(c, stores, stopwords, text, words);
    var whole, isStore := Whole(c, text, SearchTerms(words, stopwords)), StoreNotAsked(stores, s.asked);
    assert s.scored == Ratings(c, s.terms, whole, isStore, |c.entries|);
    RatingsRate(c, s.terms, whole, isStore, |c.entries|);
    RatesCountWords(c, s.terms, s.scored);
    EntriesAreDistinct(c, s.asked.slugs);
  }

  lemma RatesCountWords(c: Catalog, terms: seq<string>, scored: seq<Scored>)
    requires AllRate(c, terms, scored, |c.entries|)
    ensures CountsWords(scored, |terms|)
  {
    forall x | x in scored
      ensures x.direct + x.fuzzy <= |terms|
    {
      assert Rates(c, terms, x);
      TallyIsBounded(c, c.entries[x.entry], terms, |terms|);
    }
  }

  /**
   A search lists no entry twice. The hits of the tiers are all kept, with their kind and score;
   what is added is an app a word names or a file store asked for; and every such file store is
   listed.
   */
  lemma SearchKeepsEveryHit(c: Catalog, stores: Stores, stopwords: set<string>, text: string, words: seq<string>)
    ensures var s := SearchOf(c, stores, stopwords, text, words);
            var base, named, final := BaseHits(c, s), NamedHits(c, stores, s), FinalHits(c, stores, s);
            && ListsOnce(base) && ListsOnce(named) && ListsOnce(final)
            && (forall h :: h in base ==> h in named && Keeps(final, h))
            && AddsOnly(base, named, NamedIn(c, stores, s), Partial)
            && AddsOnly(named, final, FileStores(c, s.asked.slugs), Suggested)
            && ListsPicked(final, FileStores(c, s.asked.slugs))
  {
    var s := SearchOf(c, stores, stopwords, text, words);
    SearchIsSound(c, stores, stopwords, text, words);
    TiersAreDisjoint(c, s.scored, |s.terms|);
    TierHitsListOnce(TiersOf(c, s.scored, |s.terms|));
    NamedKeeps(BaseHits(c, s), s.scored, NamedIn(c, stores, s));
    NamedAddOnly(BaseHits(c, s), s.scored, NamedIn(c, stores, s));
    StoresKeep(NamedHits(c, stores, s), FileStores(c, s.asked.slugs));
    StoresAddOnly(NamedHits(c, stores, s), FileStores(c, s.asked.slugs));
  }

  lemma NamedAddOnly(hits: seq<Hit>, scored: seq<Scored>, named: seq<nat>)
    requires ListsOnce(hits) && Distinct(named)
    ensures AddsOnly(hits, WithNamed(hits, scored, named), named, Partial)
  {
    NamedKeeps(hits, scored, named);
    forall h | h in WithNamed(hits, scored, named) && !Keeps(hits, h)
      ensures h !in hits
    {
      if h in hits {
        InListIsKept(hits, h);
      }
    }
  }

  /** The hits neither named nor asked for stay in the order of the tiers. */
  lemma SearchKeepsOrder(c: Catalog, stores: Stores, stopwords: set<string>, text: string, words: seq<string>)
    ensures var s := SearchOf(c, stores, stopwords, text, words);
            var named, picked := NamedIn(c, stores, s), FileStores(c, s.asked.slugs);
            && Rest(NamedHits(c, stores, s), named) == Rest(BaseHits(c, s), named)
            && Rest(FinalHits(c, stores, s), picked) == Rest(NamedHits(c, stores, s), picked)
  {
    var s := SearchOf(c, stores, stopwords, text, words);
    SearchIsSound(c, stores, stopwords, text, words);
    SearchKeepsEveryHit(c, stores, stopwords, text, words);
    NamedKeeps(BaseHits(c, s), s.scored, NamedIn(c, stores, s));
    StoresKeepOrder(NamedHits(c, stores, s), FileStores(c, s.asked.slugs));
  }

  datatype Result = Result(
    hits: seq<Hit>, terms: seq<string>, missing: seq<string>, kind: Option<Kind>, fileSearch: seq<nat>)

  /** A word is missing when no entry matches it, and it did not ask for a file store that is listed. */
  ghost predicate IsMissing(c: Catalog, s: Search, term: string) {
    !IsMatched(c, term, |c.entries|) && !(FileStores(c, s.asked.slugs) != [] && c.compact(term) in s.asked.words)
  }

  method SearchCatalog(c: Catalog, stores: Stores, stopwords: set<string>, text: string, words: seq<string>)
    returns (r: Result)
    ensures words == [] ==> r == Result([], [], [], None, [])
    ensures words != [] ==>
              var s := SearchOf(c, stores, stopwords, text, words);
              && r.hits == FinalHits(c, stores, s) && r.terms == s.terms
              && r.fileSearch == FileStores(c, s.asked.slugs)
              && r.kind == (if r.hits == [] then None else Some(r.hits[0].kind))
              && (forall k :: 0 <= k < |s.terms| ==> (s.terms[k] in r.missing <==> IsMissing(c, s, s.terms[k])))
              && (forall t :: t in r.missing ==> t in s.terms)
  {
    var all := SearchTerms(words, stopwords);
    TermsOfWords(words, stopwords);
    if all == [] {
      return Result([], [], [], None, []);
    }
    var intent := FindFileSearchIntent(stores, Compacted(c, words));
    var (terms, asked) := Narrowed(c, stores, all, intent);
    var scored, matched := RateEntries(c, terms, Whole(c, text, all), StoreNotAsked(stores, asked));
    var s := Search(terms, asked, scored);
    var hits := BaseHits(c, s);
    if |terms| > 1 {
      hits := NamedFirst(c, (slug: string) => IsStore(stores, slug), Others(c, terms, asked), hits, scored);
    }
    var fileSearch := FileStores(c, asked.slugs);
    var found := (t: string) => t in matched || (fileSearch != [] && c.compact(t) in asked.words);
    hits := WithStores(hits, fileSearch);
    r := Result(hits, terms, Filter(terms, (t: string) => !found(t)),
                if hits == [] then None else Some(hits[0].kind), fileSearch);
    forall k | 0 <= k < |terms|
      ensures terms[k] in r.missing <==> IsMissing(c, s, terms[k])
    {
      assert terms[k] in terms;
      assert MatchedAmong(c, terms, matched, |c.entries|);
    }
  }
}
