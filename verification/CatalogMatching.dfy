/** How entries, told apart by their place in the catalog, match the words of a query, and the tiers they make up. */
module CatalogMatching {
  import opened EditDistance
  import opened Lists
  import opened Options
  import Sorting

  datatype Entry = Entry(slug: string, name: string, priority: int,
      phrases: seq<string>, aliasPhrases: seq<string>, words: seq<string>, aliasWords: seq<string>, leads: seq<string>,
      inText: string -> bool)

  /** The entries searched; `compact` joins the parts of a word, `nameBefore` is the collation of names. */
  datatype Catalog = Catalog(entries: seq<Entry>, compact: string -> string, nameBefore: (string, string) -> bool)

  const PHRASE := 120
  const ALIAS_PHRASE := 110
  const WORD := 60
  const ALIAS_WORD := 55
  const PREFIX := 40
  const ALIAS_PREFIX := 35
  const TEXT := 10

  const MIN_RESULTS := 3
  const MAX_FUZZY := 5
  const MAX_PARTIAL := 10

  predicate IsNameScore(score: int) {
    score == PHRASE || score == WORD || score == PREFIX
  }

  // ----- one word and one entry

  function Forms(c: Catalog, term: string): seq<string> {
    var joined := c.compact(term);
    if joined != "" && joined != term then [term, joined] else [term]
  }

  predicate AnyIn(forms: seq<string>, words: seq<string>) {
    exists f :: f in forms && f in words
  }

  predicate AnyStarts(forms: seq<string>, words: seq<string>) {
    exists f, w :: f in forms && w in words && f <= w
  }

  /** The score of one query word against one entry, without fuzziness; 0 is no match. */
  function DirectScore(c: Catalog, e: Entry, term: string): int {
    var forms := Forms(c, term);
    if |term| == 1 then
      if term in e.phrases then PHRASE else if term in e.aliasPhrases then ALIAS_PHRASE else 0
    else if AnyIn(forms, e.words) then WORD
    else if AnyIn(forms, e.aliasWords) then ALIAS_WORD
    else if AnyStarts(forms, e.words) || AnyStarts(forms, e.phrases) then PREFIX
    else if AnyStarts(forms, e.aliasWords) || AnyStarts(forms, e.aliasPhrases) then ALIAS_PREFIX
    else if e.inText(term) then TEXT
    else 0
  }

  predicate IsDigits(word: string) {
    forall i :: 0 <= i < |word| ==> '0' <= word[i] <= '9'
  }

  /** How far a word may be from a name to still match it. */
  function FuzzyAllowance(word: string): nat {
    if |word| < 4 || IsDigits(word) then 0
    else if |word| <= 6 then 1
    else 2
  }

  predicate IsEligible(candidate: string, term: string) {
    |candidate| >= 3 && (|term| > 6 || (term != "" && candidate[0] == term[0]))
  }

  function Candidates(e: Entry): seq<string> {
    e.words + e.aliasWords + e.phrases + e.aliasPhrases
  }

  /** `d` is the least distance of the word to an eligible candidate, and within `max`. */
  ghost predicate IsNearest(candidates: seq<string>, term: string, max: nat, d: Option<nat>) {
    match d
    case None => forall k :: 0 <= k < |candidates| && IsEligible(candidates[k], term) ==>
      Distance(term, candidates[k]) > max
    case Some(n) =>
      && n <= max
      && (exists k :: 0 <= k < |candidates| && IsEligible(candidates[k], term) && Distance(term, candidates[k]) == n)
      && (forall k :: 0 <= k < |candidates| && IsEligible(candidates[k], term) ==> Distance(term, candidates[k]) >= n)
  }

  /** The least distance among the first `n` candidates, as far as it is within `max`. */
  function Nearest(candidates: seq<string>, n: nat, term: string, max: nat): Option<nat>
    requires n <= |candidates|
  {
    if n == 0 then None
    else
      var best := Nearest(candidates, n - 1, term, max);
      if !IsEligible(candidates[n - 1], term) then best
      else
        var d := Distance(term, candidates[n - 1]);
        if d <= max && (best.None? || d < best.value) then Some(d) else best
  }

  lemma {:induction false} NearestIsNearest(candidates: seq<string>, n: nat, term: string, max: nat)
    requires n <= |candidates|
    ensures IsNearest(candidates[..n], term, max, Nearest(candidates, n, term, max))
  {
    if n > 0 {
      NearestIsNearest(candidates, n - 1, term, max);
      var best := Nearest(candidates, n - 1, term, max);
      var r := Nearest(candidates, n, term, max);
      var shorter, longer := candidates[..n - 1], candidates[..n];
      assert forall k :: 0 <= k < n - 1 ==> longer[k] == shorter[k];
      assert longer[n - 1] == candidates[n - 1];
      if r.Some? && r == best {
        var k :| 0 <= k < |shorter| && IsEligible(shorter[k], term) && Distance(term, shorter[k]) == best.value;
        assert longer[k] == shorter[k];
      }
    }
  }

  /** The distance of a query word to an entry; nothing for a word that may not be mistyped. */
  function FuzzyMatch(e: Entry, term: string): Option<nat> {
    var max := FuzzyAllowance(term);
    if max == 0 then None else Nearest(Candidates(e), |Candidates(e)|, term, max)
  }

  method FuzzyDistance(e: Entry, term: string) returns (r: Option<nat>)
    ensures r == FuzzyMatch(e, term)
    ensures r.Some? ==> FuzzyAllowance(term) > 0
    ensures FuzzyAllowance(term) > 0 ==> IsNearest(Candidates(e), term, FuzzyAllowance(term), r)
  {
    var max := FuzzyAllowance(term);
    if max == 0 {
      return None;
    }
    var candidates := Candidates(e);
    r := None;
    for i := 0 to |candidates|
      invariant r == Nearest(candidates, i, term, max)
      invariant r.Some? ==> r.value <= max
    {
      if !IsEligible(candidates[i], term) {
        continue;
      }
      var d := BoundedDistance(term, candidates[i], max);
      if d <= max && (r.None? || d < r.value) {
        r := Some(d);
      }
    }
    NearestIsNearest(candidates, |candidates|, term, max);
    assert candidates[..|candidates|] == candidates;
  }

  // ----- all words and one entry

  /** What the first words of a query came to against one entry. */
  datatype Tally = Tally(score: int, direct: nat, fuzzy: nat, distance: nat, byAlias: bool, named: nat)

  const NOTHING: Tally := Tally(0, 0, 0, 0, false, 0)

  predicate MatchesWord(c: Catalog, e: Entry, term: string) {
    DirectScore(c, e, term) > 0 || FuzzyMatch(e, term).Some?
  }

  function WithWord(t: Tally, direct: int, fuzzy: Option<nat>): Tally {
    if direct > 0 then
      t.(score := t.score + direct, direct := t.direct + 1,
         named := if IsNameScore(direct) then t.named + 1 else t.named,
         byAlias := t.byAlias || (!IsNameScore(direct) && direct != TEXT))
    else if fuzzy.Some? then
      t.(score := t.score + 25 - 5 * fuzzy.value, fuzzy := t.fuzzy + 1, distance := t.distance + fuzzy.value,
         named := t.named + 1)
    else t
  }

  function TallyOf(c: Catalog, e: Entry, terms: seq<string>, n: nat): Tally
    requires n <= |terms|
  {
    if n == 0 then NOTHING
    else WithWord(TallyOf(c, e, terms, n - 1), DirectScore(c, e, terms[n - 1]), FuzzyMatch(e, terms[n - 1]))
  }

  /** Every word counts at most once. */
  lemma {:induction false} TallyIsBounded(c: Catalog, e: Entry, terms: seq<string>, n: nat)
    requires n <= |terms|
    ensures var t := TallyOf(c, e, terms, n); t.direct + t.fuzzy <= n && t.named <= t.direct + t.fuzzy
  {
    if n > 0 {
      TallyIsBounded(c, e, terms, n - 1);
    }
  }

  ghost predicate EveryWordMatches(c: Catalog, e: Entry, terms: seq<string>, n: nat)
    requires n <= |terms|
  {
    forall i :: 0 <= i < n ==> MatchesWord(c, e, terms[i])
  }

  ghost predicate EveryWordIsDirect(c: Catalog, e: Entry, terms: seq<string>, n: nat)
    requires n <= |terms|
  {
    forall i :: 0 <= i < n ==> DirectScore(c, e, terms[i]) > 0
  }

  ghost predicate NoWordMatches(c: Catalog, e: Entry, terms: seq<string>, n: nat)
    requires n <= |terms|
  {
    forall i :: 0 <= i < n ==> !MatchesWord(c, e, terms[i])
  }

  /** The words that count are the ones that match. */
  lemma {:induction false} TallyCounts(c: Catalog, e: Entry, terms: seq<string>, n: nat)
    requires n <= |terms|
    ensures Counted(c, e, terms, n, TallyOf(c, e, terms, n))
  {
    if n > 0 {
      TallyCounts(c, e, terms, n - 1);
      TallyIsBounded(c, e, terms, n - 1);
      OneMoreCounted(c, e, terms, n, TallyOf(c, e, terms, n - 1));
    }
  }

  /** The counts tell whether all of the first `n` words match, all directly, or none. */
  ghost predicate Counted(c: Catalog, e: Entry, terms: seq<string>, n: nat, t: Tally)
    requires n <= |terms|
  {
    && (t.direct + t.fuzzy == n <==> EveryWordMatches(c, e, terms, n))
    && (t.direct == n <==> EveryWordIsDirect(c, e, terms, n))
    && (t.direct + t.fuzzy == 0 <==> NoWordMatches(c, e, terms, n))
  }

  lemma OneMoreCounted(c: Catalog, e: Entry, terms: seq<string>, n: nat, t: Tally)
    requires 0 < n <= |terms| && Counted(c, e, terms, n - 1, t) && t.direct + t.fuzzy <= n - 1
    ensures Counted(c, e, terms, n, WithWord(t, DirectScore(c, e, terms[n - 1]), FuzzyMatch(e, terms[n - 1])))
  {
    OneMoreWord(c, e, terms, n);
  }

  lemma OneMoreWord(c: Catalog, e: Entry, terms: seq<string>, n: nat)
    requires 0 < n <= |terms|
    ensures EveryWordMatches(c, e, terms, n) <==>
            EveryWordMatches(c, e, terms, n - 1) && MatchesWord(c, e, terms[n - 1])
    ensures EveryWordIsDirect(c, e, terms, n) <==>
            EveryWordIsDirect(c, e, terms, n - 1) && DirectScore(c, e, terms[n - 1]) > 0
    ensures NoWordMatches(c, e, terms, n) <==> NoWordMatches(c, e, terms, n - 1) && !MatchesWord(c, e, terms[n - 1])
  {
  }

  /** A rated entry; `weak` is a file store that a query about something else met by an alias. */
  datatype Scored = Scored(entry: nat, score: int, direct: nat, fuzzy: nat, distance: nat, weak: bool)

  function Min(a: int, b: int): int {
    if a < b then a else b
  }

  /** The bonus of a query that is a name or an alias as a whole. */
  function WithWhole(t: Tally, e: Entry, whole: seq<string>, all: nat): Tally {
    if AnyIn(whole, e.phrases) then t.(score := t.score + PHRASE, named := all)
    else if AnyIn(whole, e.aliasPhrases) then t.(score := t.score + ALIAS_PHRASE, byAlias := true)
    else t
  }

  /** `store` says that the entry is a file store and that the query does not ask for one. */
  function Rated(t: Tally, i: nat, all: nat, store: bool): seq<Scored> {
    if t.direct + t.fuzzy == 0 then []
    else if store && t.named < all then
      if t.named > 0 || t.byAlias then [Scored(i, Min(t.score, TEXT - 1), t.direct, t.fuzzy, t.distance, true)] else []
    else [Scored(i, t.score, t.direct, t.fuzzy, t.distance, false)]
  }

  function RatedEntry(c: Catalog, terms: seq<string>, whole: seq<string>, isStore: string -> bool, i: nat): seq<Scored>
    requires i < |c.entries|
  {
    var e := c.entries[i];
    Rated(WithWhole(TallyOf(c, e, terms, |terms|), e, whole, |terms|), i, |terms|, isStore(e.slug))
  }

  /** The ratings of the first `n` entries. */
  function Ratings(c: Catalog, terms: seq<string>, whole: seq<string>, isStore: string -> bool, n: nat): seq<Scored>
    requires n <= |c.entries|
  {
    if n == 0 then [] else Ratings(c, terms, whole, isStore, n - 1) + RatedEntry(c, terms, whole, isStore, n - 1)
  }

  /** Words some entry among the first `n` matches. */
  ghost predicate IsMatched(c: Catalog, term: string, n: nat)
    requires n <= |c.entries|
  {
    exists i :: 0 <= i < n && MatchesWord(c, c.entries[i], term)
  }

  ghost predicate MatchedAmong(c: Catalog, terms: seq<string>, matched: set<string>, n: nat)
    requires n <= |c.entries|
  {
    forall k :: 0 <= k < |terms| ==> (terms[k] in matched <==> IsMatched(c, terms[k], n))
  }

  method TallyEntry(c: Catalog, e: Entry, terms: seq<string>) returns (t: Tally, matched: set<string>)
    ensures t == TallyOf(c, e, terms, |terms|)
    ensures forall k :: 0 <= k < |terms| ==> (terms[k] in matched <==> MatchesWord(c, e, terms[k]))
  {
    t := NOTHING;
    matched := {};
    for i := 0 to |terms|
      invariant t == TallyOf(c, e, terms, i)
      invariant forall s :: s in matched ==> MatchesWord(c, e, s)
      invariant forall k :: 0 <= k < i ==> (terms[k] in matched <==> MatchesWord(c, e, terms[k]))
    {
      var s := DirectScore(c, e, terms[i]);
      if s > 0 {
        t := WithWord(t, s, None);
        matched := matched + {terms[i]};
        continue;
      }
      var d := FuzzyDistance(e, terms[i]);
      if d.Some? {
        t := WithWord(t, s, d);
        matched := matched + {terms[i]};
      }
    }
  }

  /** Rates every entry, and collects the words that match anywhere. */
  method RateEntries(c: Catalog, terms: seq<string>, whole: seq<string>, isStore: string -> bool)
    returns (scored: seq<Scored>, matched: set<string>)
    ensures scored == Ratings(c, terms, whole, isStore, |c.entries|)
    ensures MatchedAmong(c, terms, matched, |c.entries|)
  {
    scored := [];
    matched := {};
    for i := 0 to |c.entries|
      invariant scored == Ratings(c, terms, whole, isStore, i)
      invariant MatchedAmong(c, terms, matched, i)
    {
      var t, here := TallyEntry(c, c.entries[i], terms);
      MatchedGrows(c, terms, matched, here, i);
      matched := matched + here;
      scored := scored + Rated(WithWhole(t, c.entries[i], whole, |terms|), i, |terms|, isStore(c.entries[i].slug));
    }
  }

  lemma MatchedGrows(c: Catalog, terms: seq<string>, matched: set<string>, here: set<string>, n: nat)
    requires n < |c.entries| && MatchedAmong(c, terms, matched, n)
    requires forall k :: 0 <= k < |terms| ==> (terms[k] in here <==> MatchesWord(c, c.entries[n], terms[k]))
    ensures MatchedAmong(c, terms, matched + here, n + 1)
  {
    forall k | 0 <= k < |terms|
      ensures terms[k] in matched + here <==> IsMatched(c, terms[k], n + 1)
    {
      assert IsMatched(c, terms[k], n + 1) <==> IsMatched(c, terms[k], n) || MatchesWord(c, c.entries[n], terms[k]);
    }
  }

  // ----- what the ratings say

  /** In the order of the catalog, each entry at most once, rated for what it matched. */
  ghost predicate Rates(c: Catalog, terms: seq<string>, s: Scored) {
    && s.entry < |c.entries|
    && s.direct == TallyOf(c, c.entries[s.entry], terms, |terms|).direct
    && s.fuzzy == TallyOf(c, c.entries[s.entry], terms, |terms|).fuzzy
    && s.direct + s.fuzzy > 0
  }

  ghost predicate InCatalogOrder(scored: seq<Scored>, n: nat) {
    && (forall i, j :: 0 <= i < j < |scored| ==> scored[i].entry < scored[j].entry)
    && (forall i :: 0 <= i < |scored| ==> scored[i].entry < n)
  }

  lemma {:induction false} RatingsRate(
      c: Catalog, terms: seq<string>, whole: seq<string>, isStore: string -> bool, n: nat)
    requires n <= |c.entries|
    ensures AllRate(c, terms, Ratings(c, terms, whole, isStore, n), n)
  {
    if n > 0 {
      RatingsRate(c, terms, whole, isStore, n - 1);
      RatedEntryRates(c, terms, whole, isStore, n - 1);
      OneMoreRating(c, terms, Ratings(c, terms, whole, isStore, n - 1), RatedEntry(c, terms, whole, isStore, n - 1), n);
    }
  }

  ghost predicate AllRate(c: Catalog, terms: seq<string>, scored: seq<Scored>, n: nat) {
    InCatalogOrder(scored, n) && forall s :: s in scored ==> Rates(c, terms, s)
  }

  lemma OneMoreRating(c: Catalog, terms: seq<string>, scored: seq<Scored>, last: seq<Scored>, n: nat)
    requires n > 0 && AllRate(c, terms, scored, n - 1) && |last| <= 1
    requires forall s :: s in last ==> s.entry == n - 1 && Rates(c, terms, s)
    ensures AllRate(c, terms, scored + last, n)
  {
  }

  lemma RatedEntryRates(c: Catalog, terms: seq<string>, whole: seq<string>, isStore: string -> bool, i: nat)
    requires i < |c.entries|
    ensures |RatedEntry(c, terms, whole, isStore, i)| <= 1
    ensures forall s :: s in RatedEntry(c, terms, whole, isStore, i) ==> s.entry == i && Rates(c, terms, s)
  {
  }

  // ----- the tiers

  function ByRank(c: Catalog): (Scored, Scored) -> bool {
    (a: Scored, b: Scored) =>
      a.score > b.score || (a.score == b.score && RanksBefore(c, a.entry, b.entry))
  }

  /** Among equal scores: the higher priority, then the name. */
  predicate RanksBefore(c: Catalog, a: nat, b: nat) {
    Priority(c, a) > Priority(c, b) || (Priority(c, a) == Priority(c, b) && c.nameBefore(Name(c, a), Name(c, b)))
  }

  function Priority(c: Catalog, i: nat): int {
    if i < |c.entries| then c.entries[i].priority else 0
  }

  function Name(c: Catalog, i: nat): string {
    if i < |c.entries| then c.entries[i].name else ""
  }

  function ByDistance(c: Catalog): (Scored, Scored) -> bool {
    (a: Scored, b: Scored) =>
      || a.distance < b.distance
      || (a.distance == b.distance && (a.direct > b.direct || (a.direct == b.direct && ByRank(c)(a, b))))
  }

  function ByMatched(c: Catalog): (Scored, Scored) -> bool {
    (a: Scored, b: Scored) =>
      || a.direct + a.fuzzy > b.direct + b.fuzzy
      || (a.direct + a.fuzzy == b.direct + b.fuzzy
          && ((!a.weak && b.weak)
              || (a.weak == b.weak && (a.direct > b.direct || (a.direct == b.direct && ByRank(c)(a, b))))))
  }

  function IsDirect(all: nat): Scored -> bool {
    (s: Scored) => s.direct == all && !s.weak
  }

  function IsWeak(all: nat): Scored -> bool {
    (s: Scored) => s.direct == all && s.weak
  }

  function IsFuzzy(all: nat): Scored -> bool {
    (s: Scored) => s.fuzzy > 0 && s.direct + s.fuzzy == all
  }

  function Take<T>(s: seq<T>, n: nat): seq<T> {
    if |s| <= n then s else s[..n]
  }

  function DirectTier(c: Catalog, scored: seq<Scored>, all: nat): seq<Scored> {
    Sorting.Sort(ByRank(c), Filter(scored, IsDirect(all)))
  }

  function WeakTier(c: Catalog, scored: seq<Scored>, all: nat): seq<Scored> {
    Sorting.Sort(ByRank(c), Filter(scored, IsWeak(all)))
  }

  function FuzzyTier(c: Catalog, scored: seq<Scored>, all: nat, directs: nat): seq<Scored> {
    if directs >= MIN_RESULTS then []
    else Take(Sorting.Sort(ByDistance(c), Filter(scored, IsFuzzy(all))),
              if directs > 0 then MIN_RESULTS - directs else MAX_FUZZY)
  }

  function PartialTier(c: Catalog, scored: seq<Scored>): seq<Scored> {
    Take(Sorting.Sort(ByMatched(c), scored), MAX_PARTIAL)
  }

  datatype Tiers = Tiers(direct: seq<Scored>, fuzzy: seq<Scored>, weak: seq<Scored>, partial: seq<Scored>)

  function TiersOf(c: Catalog, scored: seq<Scored>, all: nat): Tiers {
    var direct := DirectTier(c, scored, all);
    var weak := WeakTier(c, scored, all);
    var fuzzy := FuzzyTier(c, scored, all, |direct|);
    Tiers(direct, fuzzy, weak,
          if direct == [] && fuzzy == [] && weak == [] && all > 1 then PartialTier(c, scored) else [])
  }

  function All(t: Tiers): seq<Scored> {
    t.direct + t.fuzzy + t.weak + t.partial
  }

  /** No entry is listed twice. */
  ghost predicate OncePerEntry(s: seq<Scored>) {
    forall i, j :: 0 <= i < j < |s| ==> s[i].entry != s[j].entry
  }

  ghost predicate DisjointEntries(a: seq<Scored>, b: seq<Scored>) {
    forall x, y :: x in a && y in b ==> x.entry != y.entry
  }

  lemma {:induction false} FilterKeepsOnce(s: seq<Scored>, keep: Scored -> bool)
    requires OncePerEntry(s)
    ensures OncePerEntry(Filter(s, keep))
  {
    if s != [] {
      FilterKeepsOnce(s[1..], keep);
      forall x | x in s[1..]
        ensures x.entry != s[0].entry
      {
        var k :| 0 <= k < |s| - 1 && s[1..][k] == x;
        assert s[k + 1] == x;
      }
    }
  }

  lemma {:induction false} InsertKeepsOnce(before: (Scored, Scored) -> bool, s: seq<Scored>, x: Scored)
    requires OncePerEntry(s) && forall y :: y in s ==> y.entry != x.entry
    ensures OncePerEntry(Sorting.Insert(before, s, x))
    decreases |s|
  {
    if s != [] && before(x, s[|s| - 1]) {
      InsertKeepsOnce(before, s[..|s| - 1], x);
      Sorting.InsertMembers(before, s[..|s| - 1], x);
    }
  }

  lemma {:induction false} SortKeepsOnce(before: (Scored, Scored) -> bool, s: seq<Scored>)
    requires OncePerEntry(s)
    ensures OncePerEntry(Sorting.Sort(before, s))
    decreases |s|
  {
    if s != [] {
      SortKeepsOnce(before, s[..|s| - 1]);
      Sorting.SortKeepsMembers(before, s[..|s| - 1]);
      InsertKeepsOnce(before, Sorting.Sort(before, s[..|s| - 1]), s[|s| - 1]);
    }
  }

  lemma ConcatKeepsOnce(a: seq<Scored>, b: seq<Scored>)
    requires OncePerEntry(a) && OncePerEntry(b) && DisjointEntries(a, b)
    ensures OncePerEntry(a + b)
  {
  }

  lemma TakeKeepsOnce(s: seq<Scored>, n: nat)
    requires OncePerEntry(s)
    ensures OncePerEntry(Take(s, n)) && (forall x :: x in Take(s, n) ==> x in s) && |Take(s, n)| <= n
  {
  }

  ghost predicate CountsWords(scored: seq<Scored>, all: nat) {
    forall s :: s in scored ==> s.direct + s.fuzzy <= all
  }

  /** A tier: filtered, sorted, each entry once. */
  lemma TierOfFilter(before: (Scored, Scored) -> bool, scored: seq<Scored>, keep: Scored -> bool)
    requires OncePerEntry(scored)
    ensures var tier := Sorting.Sort(before, Filter(scored, keep));
            OncePerEntry(tier) && forall x :: x in tier <==> x in scored && keep(x)
  {
    FilterKeepsOnce(scored, keep);
    SortKeepsOnce(before, Filter(scored, keep));
    Sorting.SortKeepsMembers(before, Filter(scored, keep));
  }

  /** What each tier holds. */
  ghost predicate AreTiers(t: Tiers, scored: seq<Scored>, all: nat) {
    && (forall x :: x in t.direct <==> x in scored && x.direct == all && !x.weak)
    && (forall x :: x in t.weak <==> x in scored && x.direct == all && x.weak)
    && (forall x :: x in t.fuzzy ==> x in scored && x.fuzzy > 0 && x.direct + x.fuzzy == all)
    && (forall x :: x in t.partial ==> x in scored)
    && (t.partial != [] ==> t.direct == t.fuzzy == t.weak == [] && all > 1)
    && (t.fuzzy != [] ==>
         |t.direct| < MIN_RESULTS && |t.direct| + |t.fuzzy| <= if t.direct == [] then MAX_FUZZY else MIN_RESULTS)
    && |t.partial| <= MAX_PARTIAL
  }

  ghost predicate EachOnce(t: Tiers) {
    OncePerEntry(t.direct) && OncePerEntry(t.fuzzy) && OncePerEntry(t.weak) && OncePerEntry(t.partial)
  }

  lemma FuzzyTierHolds(c: Catalog, scored: seq<Scored>, all: nat, directs: nat)
    requires OncePerEntry(scored)
    ensures var t := FuzzyTier(c, scored, all, directs);
            && OncePerEntry(t) && (forall x :: x in t ==> x in scored && x.fuzzy > 0 && x.direct + x.fuzzy == all)
            && (t != [] ==> directs < MIN_RESULTS && directs + |t| <= if directs == 0 then MAX_FUZZY else MIN_RESULTS)
  {
    if directs < MIN_RESULTS {
      TierOfFilter(ByDistance(c), scored, IsFuzzy(all));
      TakeKeepsOnce(Sorting.Sort(ByDistance(c), Filter(scored, IsFuzzy(all))),
                    if directs > 0 then MIN_RESULTS - directs else MAX_FUZZY);
    }
  }

  lemma PartialTierHolds(c: Catalog, scored: seq<Scored>)
    requires OncePerEntry(scored)
    ensures var t := PartialTier(c, scored);
            OncePerEntry(t) && (forall x :: x in t ==> x in scored) && |t| <= MAX_PARTIAL
  {
    SortKeepsOnce(ByMatched(c), scored);
    Sorting.SortKeepsMembers(ByMatched(c), scored);
    TakeKeepsOnce(Sorting.Sort(ByMatched(c), scored), MAX_PARTIAL);
  }

  lemma TiersHold(c: Catalog, scored: seq<Scored>, all: nat)
    requires OncePerEntry(scored)
    ensures AreTiers(TiersOf(c, scored, all), scored, all) && EachOnce(TiersOf(c, scored, all))
  {
    TierOfFilter(ByRank(c), scored, IsDirect(all));
    TierOfFilter(ByRank(c), scored, IsWeak(all));
    FuzzyTierHolds(c, scored, all, |DirectTier(c, scored, all)|);
    PartialTierHolds(c, scored);
  }

  lemma SameEntry(scored: seq<Scored>, x: Scored, y: Scored)
    requires OncePerEntry(scored) && x in scored && y in scored && x.entry == y.entry
    ensures x == y
  {
    var i :| 0 <= i < |scored| && scored[i] == x;
    var j :| 0 <= j < |scored| && scored[j] == y;
  }

  /** Where an entry stands in `scored`, at most one kind of tier takes it. */
  lemma ApartByKind(scored: seq<Scored>, a: seq<Scored>, b: seq<Scored>)
    requires OncePerEntry(scored)
    requires forall x :: x in a ==> x in scored
    requires forall y :: y in b ==> y in scored && y !in a
    ensures DisjointEntries(a, b)
  {
    forall x, y | x in a && y in b
      ensures x.entry != y.entry
    {
      if x.entry == y.entry {
        SameEntry(scored, x, y);
      }
    }
  }

  /** The direct, fuzzy, weak and partial tiers share no entry: a result lists each entry at most once. */
  lemma TiersAreDisjoint(c: Catalog, scored: seq<Scored>, all: nat)
    requires OncePerEntry(scored) && CountsWords(scored, all)
    ensures OncePerEntry(All(TiersOf(c, scored, all)))
  {
    var t := TiersOf(c, scored, all);
    TiersHold(c, scored, all);
    if t.partial == [] {
      ApartByKind(scored, t.direct, t.fuzzy);
      ConcatKeepsOnce(t.direct, t.fuzzy);
      ApartByKind(scored, t.direct + t.fuzzy, t.weak);
      ConcatKeepsOnce(t.direct + t.fuzzy, t.weak);
      assert All(t) == t.direct + t.fuzzy + t.weak;
    } else {
      assert All(t) == t.partial;
    }
  }

  lemma {:induction false} RatedIsListed(
      c: Catalog, terms: seq<string>, whole: seq<string>, isStore: string -> bool, n: nat, e: nat, x: Scored)
    requires e < n <= |c.entries| && x in RatedEntry(c, terms, whole, isStore, e)
    ensures x in Ratings(c, terms, whole, isStore, n)
  {
    if e < n - 1 {
      RatedIsListed(c, terms, whole, isStore, n - 1, e, x);
    }
  }

  lemma {:induction false} ListedIsRated(
      c: Catalog, terms: seq<string>, whole: seq<string>, isStore: string -> bool, n: nat, x: Scored)
    requires n <= |c.entries| && x in Ratings(c, terms, whole, isStore, n)
    ensures x.entry < n && x in RatedEntry(c, terms, whole, isStore, x.entry)
  {
    if x in RatedEntry(c, terms, whole, isStore, n - 1) {
      RatedEntryRates(c, terms, whole, isStore, n - 1);
    } else {
      ListedIsRated(c, terms, whole, isStore, n - 1, x);
    }
  }

  lemma RatedOnceOnly(
      c: Catalog, terms: seq<string>, whole: seq<string>, isStore: string -> bool, n: nat, e: nat, x: Scored)
    requires e < n <= |c.entries| && x.entry == e
    ensures x in Ratings(c, terms, whole, isStore, n) <==> x in RatedEntry(c, terms, whole, isStore, e)
  {
    if x in RatedEntry(c, terms, whole, isStore, e) {
      RatedIsListed(c, terms, whole, isStore, n, e, x);
    }
    if x in Ratings(c, terms, whole, isStore, n) {
      ListedIsRated(c, terms, whole, isStore, n, x);
    }
  }

  /** A file store that the query, being about something else, does not name in every word. */
  predicate IsElsewhere(c: Catalog, terms: seq<string>, whole: seq<string>, isStore: string -> bool, e: nat)
    requires e < |c.entries|
  {
    isStore(c.entries[e].slug)
    && WithWhole(TallyOf(c, c.entries[e], terms, |terms|), c.entries[e], whole, |terms|).named < |terms|
  }

  lemma DirectRating(c: Catalog, terms: seq<string>, whole: seq<string>, isStore: string -> bool, e: nat)
    requires terms != [] && e < |c.entries|
    ensures (exists x :: x in RatedEntry(c, terms, whole, isStore, e) && x.direct == |terms| && !x.weak) <==>
            EveryWordIsDirect(c, c.entries[e], terms, |terms|) && !IsElsewhere(c, terms, whole, isStore, e)
  {
    TallyCounts(c, c.entries[e], terms, |terms|);
    var r := RatedEntry(c, terms, whole, isStore, e);
    if EveryWordIsDirect(c, c.entries[e], terms, |terms|) && !IsElsewhere(c, terms, whole, isStore, e) {
      assert r[0] in r;
    }
  }

  /** The direct matches are the entries every word matches directly, but for file stores the query is not about. */
  lemma DirectTierExactly(c: Catalog, terms: seq<string>, whole: seq<string>, isStore: string -> bool, e: nat)
    requires terms != [] && e < |c.entries|
    ensures var scored := Ratings(c, terms, whole, isStore, |c.entries|);
            (exists x :: x in TiersOf(c, scored, |terms|).direct && x.entry == e) <==>
            EveryWordIsDirect(c, c.entries[e], terms, |terms|) && !IsElsewhere(c, terms, whole, isStore, e)
  {
    var scored := Ratings(c, terms, whole, isStore, |c.entries|);
    var direct := TiersOf(c, scored, |terms|).direct;
    RatingsRate(c, terms, whole, isStore, |c.entries|);
    TiersHold(c, scored, |terms|);
    DirectRating(c, terms, whole, isStore, e);
    if x :| x in direct && x.entry == e {
      RatedOnceOnly(c, terms, whole, isStore, |c.entries|, e, x);
    }
    if x :| x in RatedEntry(c, terms, whole, isStore, e) && x.direct == |terms| && !x.weak {
      RatedEntryRates(c, terms, whole, isStore, e);
      RatedOnceOnly(c, terms, whole, isStore, |c.entries|, e, x);
    }
  }

  // ----- their order

  lemma RanksAreOrdered(c: Catalog, x: nat, y: nat, z: nat)
    requires Sorting.IsOrder(c.nameBefore)
    ensures RanksBefore(c, x, y) ==> !RanksBefore(c, y, x)
    ensures RanksBefore(c, x, y) && !RanksBefore(c, z, y) ==> RanksBefore(c, x, z)
  {
  }

  lemma RankIsOrder(c: Catalog)
    requires Sorting.IsOrder(c.nameBefore)
    ensures Sorting.IsOrder(ByRank(c))
  {
    forall x, y
      ensures ByRank(c)(x, y) ==> !ByRank(c)(y, x)
    {
      RanksAreOrdered(c, x.entry, y.entry, y.entry);
    }
    forall x, y, z
      ensures ByRank(c)(x, y) && !ByRank(c)(z, y) ==> ByRank(c)(x, z)
    {
      RanksAreOrdered(c, x.entry, y.entry, z.entry);
    }
  }

  function Nearness(s: Scored): int {
    0 - s.distance
  }

  lemma DistanceIsOrder(c: Catalog)
    requires Sorting.IsOrder(c.nameBefore)
    ensures Sorting.IsOrder(ByDistance(c))
  {
    RankIsOrder(c);
    LexIsOrder(ByRank(c), ByDistance(c), (s: Scored) => Nearness(s), (s: Scored) => s.direct);
  }

  /** Larger first by one number, then by another, then in a given order. */
  lemma LexIsOrder(
      rank: (Scored, Scored) -> bool, before: (Scored, Scored) -> bool, first: Scored -> int, second: Scored -> int)
    requires Sorting.IsOrder(rank)
    requires forall a, b :: before(a, b) ==
               (first(a) > first(b) || (first(a) == first(b) &&
                (second(a) > second(b) || (second(a) == second(b) && rank(a, b)))))
    ensures Sorting.IsOrder(before)
  {
  }

  /** A direct match never comes behind one with a lower score, priority or name. */
  lemma DirectTierIsRanked(c: Catalog, scored: seq<Scored>, all: nat)
    requires Sorting.IsOrder(c.nameBefore)
    ensures Sorting.Sorted(ByRank(c), TiersOf(c, scored, all).direct)
    ensures Sorting.Sorted(ByRank(c), TiersOf(c, scored, all).weak)
  {
    RankIsOrder(c);
    Sorting.SortSorts(ByRank(c), Filter(scored, IsDirect(all)));
    Sorting.SortSorts(ByRank(c), Filter(scored, IsWeak(all)));
  }

  lemma TakenBeforeLeft(before: (Scored, Scored) -> bool, s: seq<Scored>, n: nat, x: Scored, y: Scored)
    requires Sorting.Sorted(before, s) && x in Take(s, n) && y in s && y !in Take(s, n)
    ensures !before(y, x)
  {
    var i :| 0 <= i < |Take(s, n)| && Take(s, n)[i] == x;
    var j :| 0 <= j < |s| && s[j] == y;
  }

  /** The fuzzy matches kept are the nearest ones: none left out comes before one that is in. */
  lemma FuzzyTierIsNearest(c: Catalog, scored: seq<Scored>, all: nat, x: Scored, y: Scored)
    requires Sorting.IsOrder(c.nameBefore)
    requires x in TiersOf(c, scored, all).fuzzy && y !in TiersOf(c, scored, all).fuzzy
    requires y in scored && y.fuzzy > 0 && y.direct + y.fuzzy == all
    ensures !ByDistance(c)(y, x)
  {
    var directs := |DirectTier(c, scored, all)|;
    var near := Sorting.Sort(ByDistance(c), Filter(scored, IsFuzzy(all)));
    DistanceIsOrder(c);
    Sorting.SortSorts(ByDistance(c), Filter(scored, IsFuzzy(all)));
    Sorting.SortKeepsMember(ByDistance(c), Filter(scored, IsFuzzy(all)), y);
    TakenBeforeLeft(ByDistance(c), near, if directs > 0 then MIN_RESULTS - directs else MAX_FUZZY, x, y);
  }

  lemma TakeIsSorted(before: (Scored, Scored) -> bool, s: seq<Scored>, n: nat)
    requires Sorting.Sorted(before, s)
    ensures Sorting.Sorted(before, Take(s, n))
  {
  }

  /** Fuzzy matches come nearest first. */
  lemma FuzzyTierIsSorted(c: Catalog, scored: seq<Scored>, all: nat)
    requires Sorting.IsOrder(c.nameBefore)
    ensures Sorting.Sorted(ByDistance(c), TiersOf(c, scored, all).fuzzy)
  {
    var directs := |DirectTier(c, scored, all)|;
    DistanceIsOrder(c);
    Sorting.SortSorts(ByDistance(c), Filter(scored, IsFuzzy(all)));
    TakeIsSorted(ByDistance(c), Sorting.Sort(ByDistance(c), Filter(scored, IsFuzzy(all))),
                 if 0 < directs < MIN_RESULTS then MIN_RESULTS - directs else MAX_FUZZY);
  }

  /** The words matched first, then whether the match is a weak one, as one number. */
  function Matching(s: Scored): int {
    2 * (s.direct + s.fuzzy) + if s.weak then 0 else 1
  }

  lemma MatchedIsOrder(c: Catalog)
    requires Sorting.IsOrder(c.nameBefore)
    ensures Sorting.IsOrder(ByMatched(c))
  {
    RankIsOrder(c);
    LexIsOrder(ByRank(c), ByMatched(c), (s: Scored) => Matching(s), (s: Scored) => s.direct);
  }

  /** Partial matches come by the words they match, weak ones last, and the best ones are kept. */
  lemma PartialTierIsBest(c: Catalog, scored: seq<Scored>, all: nat)
    requires Sorting.IsOrder(c.nameBefore)
    ensures Sorting.Sorted(ByMatched(c), TiersOf(c, scored, all).partial)
    ensures var kept := TiersOf(c, scored, all).partial;
            kept != [] ==> forall x, y :: x in kept && y in scored && y !in kept ==> !ByMatched(c)(y, x)
  {
    var sorted := Sorting.Sort(ByMatched(c), scored);
    MatchedIsOrder(c);
    Sorting.SortSorts(ByMatched(c), scored);
    TakeIsSorted(ByMatched(c), sorted, MAX_PARTIAL);
    forall x, y | x in Take(sorted, MAX_PARTIAL) && y in scored && y !in Take(sorted, MAX_PARTIAL)
      ensures !ByMatched(c)(y, x)
    {
      Sorting.SortKeepsMember(ByMatched(c), scored, y);
      TakenBeforeLeft(ByMatched(c), sorted, MAX_PARTIAL, x, y);
    }
  }
}
