/** What a catalog search scores and lists, said of the words of the entries themselves. */
module SearchResults {
  import opened EditDistance
  import opened Lists
  import opened Options
  import opened CatalogMatching
  import opened CatalogSearch
  import Sorting

  // ----- one word and one entry

  /** The term as typed, or with its parts joined. */
  ghost predicate Says(c: Catalog, term: string, w: string) {
    w == term || (c.compact(term) != "" && w == c.compact(term))
  }

  ghost predicate IsOneOf(c: Catalog, term: string, words: seq<string>) {
    exists k :: 0 <= k < |words| && Says(c, term, words[k])
  }

  ghost predicate StartsOneOf(c: Catalog, term: string, words: seq<string>) {
    exists k, n :: 0 <= k < |words| && 0 <= n <= |words[k]| && Says(c, term, words[k][..n])
  }

  lemma FormsSay(c: Catalog, term: string, w: string)
    ensures w in Forms(c, term) <==> Says(c, term, w)
  {
  }

  lemma AnyInExactly(c: Catalog, term: string, words: seq<string>)
    ensures AnyIn(Forms(c, term), words) <==> IsOneOf(c, term, words)
  {
    if f :| f in Forms(c, term) && f in words {
      var k :| 0 <= k < |words| && words[k] == f;
      FormsSay(c, term, words[k]);
    }
    if k :| 0 <= k < |words| && Says(c, term, words[k]) {
      FormsSay(c, term, words[k]);
      assert words[k] in Forms(c, term) && words[k] in words;
    }
  }

  lemma AnyStartsExactly(c: Catalog, term: string, words: seq<string>)
    ensures AnyStarts(Forms(c, term), words) <==> StartsOneOf(c, term, words)
  {
    if f, w :| f in Forms(c, term) && w in words && f <= w {
      var k :| 0 <= k < |words| && words[k] == w;
      FormsSay(c, term, words[k][..|f|]);
      assert words[k][..|f|] == f;
    }
    if k, n :| 0 <= k < |words| && 0 <= n <= |words[k]| && Says(c, term, words[k][..n]) {
      var f := words[k][..n];
      FormsSay(c, term, f);
      assert f in Forms(c, term) && words[k] in words && f <= words[k];
    }
  }

  /** The score of a term, in points, by what it is to the entry; the first that applies. */
  lemma WordScoresExactly(c: Catalog, e: Entry, term: string)
    requires |term| != 1
    ensures DirectScore(c, e, term) ==
            if IsOneOf(c, term, e.words) then 60
            else if IsOneOf(c, term, e.aliasWords) then 55
            else if StartsOneOf(c, term, e.words) || StartsOneOf(c, term, e.phrases) then 40
            else if StartsOneOf(c, term, e.aliasWords) || StartsOneOf(c, term, e.aliasPhrases) then 35
            else if e.inText(term) then 10
            else 0
  {
    AnyInExactly(c, term, e.words);
    AnyInExactly(c, term, e.aliasWords);
    AnyStartsExactly(c, term, e.words);
    AnyStartsExactly(c, term, e.phrases);
    AnyStartsExactly(c, term, e.aliasWords);
    AnyStartsExactly(c, term, e.aliasPhrases);
  }

  /** A single letter counts only where it is the whole name or a whole alias. */
  lemma LetterScoresExactly(c: Catalog, e: Entry, term: string)
    requires |term| == 1
    ensures DirectScore(c, e, term) ==
            if exists k :: 0 <= k < |e.phrases| && e.phrases[k] == term then 120
            else if exists k :: 0 <= k < |e.aliasPhrases| && e.aliasPhrases[k] == term then 110
            else 0
  {
  }

  /** The term is, or starts, a word of the name or of an alias, or the text has it. */
  ghost predicate MatchesDirectly(c: Catalog, e: Entry, term: string) {
    if |term| == 1 then
      || (exists k :: 0 <= k < |e.phrases| && e.phrases[k] == term)
      || (exists k :: 0 <= k < |e.aliasPhrases| && e.aliasPhrases[k] == term)
    else
      || StartsOneOf(c, term, e.words) || StartsOneOf(c, term, e.phrases)
      || StartsOneOf(c, term, e.aliasWords) || StartsOneOf(c, term, e.aliasPhrases)
      || e.inText(term)
  }

  lemma OneOfStarts(c: Catalog, term: string, words: seq<string>)
    ensures IsOneOf(c, term, words) ==> StartsOneOf(c, term, words)
  {
    if k :| 0 <= k < |words| && Says(c, term, words[k]) {
      assert words[k][..|words[k]|] == words[k];
    }
  }

  lemma DirectExactly(c: Catalog, e: Entry, term: string)
    ensures DirectScore(c, e, term) > 0 <==> MatchesDirectly(c, e, term)
    ensures DirectScore(c, e, term) >= 0
  {
    if |term| == 1 {
      LetterScoresExactly(c, e, term);
    } else {
      WordScoresExactly(c, e, term);
      OneOfStarts(c, term, e.words);
      OneOfStarts(c, term, e.aliasWords);
    }
  }

  /** A word that may be mistyped, and a candidate near enough to be meant. */
  ghost predicate MayMean(term: string, w: string) {
    && |term| >= 4 && (exists i :: 0 <= i < |term| && !('0' <= term[i] <= '9'))
    && |w| >= 3 && (|term| >= 7 || w[0] == term[0])
    && Distance(term, w) <= if |term| <= 6 then 1 else 2
  }

  ghost predicate MayMeanOneOf(term: string, words: seq<string>) {
    exists k :: 0 <= k < |words| && MayMean(term, words[k])
  }

  lemma MayMeanInParts(term: string, a: seq<string>, b: seq<string>)
    ensures MayMeanOneOf(term, a + b) <==> MayMeanOneOf(term, a) || MayMeanOneOf(term, b)
  {
    if k :| 0 <= k < |a + b| && MayMean(term, (a + b)[k]) {
      assert k < |a| ==> a[k] == (a + b)[k];
      assert k >= |a| ==> b[k - |a|] == (a + b)[k];
    }
    if k :| 0 <= k < |a| && MayMean(term, a[k]) {
      assert (a + b)[k] == a[k];
    }
    if k :| 0 <= k < |b| && MayMean(term, b[k]) {
      assert (a + b)[|a| + k] == b[k];
    }
  }

  lemma CandidatesMayMean(e: Entry, term: string)
    ensures MayMeanOneOf(term, Candidates(e)) <==>
            || MayMeanOneOf(term, e.words) || MayMeanOneOf(term, e.aliasWords)
            || MayMeanOneOf(term, e.phrases) || MayMeanOneOf(term, e.aliasPhrases)
  {
    MayMeanInParts(term, e.words + e.aliasWords + e.phrases, e.aliasPhrases);
    MayMeanInParts(term, e.words + e.aliasWords, e.phrases);
    MayMeanInParts(term, e.words, e.aliasWords);
  }

  lemma FuzzyIsNearest(e: Entry, term: string)
    requires FuzzyAllowance(term) > 0
    ensures IsNearest(Candidates(e), term, FuzzyAllowance(term), FuzzyMatch(e, term))
  {
    NearestIsNearest(Candidates(e), |Candidates(e)|, term, FuzzyAllowance(term));
    assert Candidates(e)[..|Candidates(e)|] == Candidates(e);
  }

  lemma AllowanceExactly(term: string)
    ensures FuzzyAllowance(term) ==
            if |term| >= 4 && (exists i :: 0 <= i < |term| && !('0' <= term[i] <= '9'))
            then (if |term| <= 6 then 1 else 2) else 0
  {
  }

  lemma MayMeanExactly(term: string, w: string)
    ensures MayMean(term, w) <==>
            FuzzyAllowance(term) > 0 && IsEligible(w, term) && Distance(term, w) <= FuzzyAllowance(term)
  {
    AllowanceExactly(term);
  }

  /** A term matches by a typo exactly when it may mean a word, an alias or a phrase of the entry. */
  lemma FuzzyExactly(e: Entry, term: string)
    ensures FuzzyMatch(e, term).Some? <==>
            || MayMeanOneOf(term, e.words) || MayMeanOneOf(term, e.aliasWords)
            || MayMeanOneOf(term, e.phrases) || MayMeanOneOf(term, e.aliasPhrases)
  {
    CandidatesMayMean(e, term);
    var candidates := Candidates(e);
    if FuzzyAllowance(term) > 0 {
      FuzzyIsNearest(e, term);
    }
    if FuzzyMatch(e, term).Some? {
      var k :| 0 <= k < |candidates| && IsEligible(candidates[k], term)
        && Distance(term, candidates[k]) == FuzzyMatch(e, term).value;
      MayMeanExactly(term, candidates[k]);
    } else if k :| 0 <= k < |candidates| && MayMean(term, candidates[k]) {
      MayMeanExactly(term, candidates[k]);
    }
  }

  // ----- all words and one entry

  /** What one term adds to the score: its direct score, else 25 less 5 a typo. */
  function Points(c: Catalog, e: Entry, term: string): int {
    if DirectScore(c, e, term) > 0 then DirectScore(c, e, term)
    else if FuzzyMatch(e, term).Some? then 25 - 5 * FuzzyMatch(e, term).value
    else 0
  }

  function Typos(c: Catalog, e: Entry, term: string): nat {
    if DirectScore(c, e, term) <= 0 && FuzzyMatch(e, term).Some? then FuzzyMatch(e, term).value else 0
  }

  /** The term is a name word or starts one, or is a typo of one: it says what the entry is. */
  predicate NamesIt(c: Catalog, e: Entry, term: string) {
    var s := DirectScore(c, e, term);
    s == 120 || s == 60 || s == 40 || (s <= 0 && FuzzyMatch(e, term).Some?)
  }

  predicate ByItsAlias(c: Catalog, e: Entry, term: string) {
    DirectScore(c, e, term) in {110, 55, 35}
  }

  function Sum(terms: seq<string>, points: string -> int): int {
    if terms == [] then 0 else points(terms[0]) + Sum(terms[1..], points)
  }

  function CountOf(terms: seq<string>, keep: string -> bool): nat {
    |Filter(terms, keep)|
  }

  lemma {:induction false} SumAppend(terms: seq<string>, t: string, points: string -> int)
    ensures Sum(terms + [t], points) == Sum(terms, points) + points(t)
  {
    if terms == [] {
      assert [] + [t] == [t] && [t][1..] == [];
    } else {
      assert (terms + [t])[1..] == terms[1..] + [t];
      SumAppend(terms[1..], t, points);
    }
  }

  lemma {:induction false} CountAppend(terms: seq<string>, t: string, keep: string -> bool)
    ensures CountOf(terms + [t], keep) == CountOf(terms, keep) + if keep(t) then 1 else 0
  {
    if terms == [] {
      assert [] + [t] == [t] && [t][1..] == [];
    } else {
      assert (terms + [t])[1..] == terms[1..] + [t];
      CountAppend(terms[1..], t, keep);
    }
  }

  function PointsBy(c: Catalog, e: Entry): string -> int {
    (w: string) => Points(c, e, w)
  }

  function TyposBy(c: Catalog, e: Entry): string -> int {
    (w: string) => Typos(c, e, w)
  }

  function IsDirectBy(c: Catalog, e: Entry): string -> bool {
    (w: string) => DirectScore(c, e, w) > 0
  }

  function IsTypoBy(c: Catalog, e: Entry): string -> bool {
    (w: string) => DirectScore(c, e, w) <= 0 && FuzzyMatch(e, w).Some?
  }

  function NamesItBy(c: Catalog, e: Entry): string -> bool {
    (w: string) => NamesIt(c, e, w)
  }

  /** The tally of an entry adds up what the terms say one by one. */
  ghost predicate AddsUp(c: Catalog, e: Entry, terms: seq<string>, t: Tally) {
    && t.score == Sum(terms, PointsBy(c, e))
    && t.distance == Sum(terms, TyposBy(c, e))
    && t.direct == CountOf(terms, IsDirectBy(c, e))
    && t.fuzzy == CountOf(terms, IsTypoBy(c, e))
    && t.named == CountOf(terms, NamesItBy(c, e))
    && (t.byAlias <==> exists k :: 0 <= k < |terms| && ByItsAlias(c, e, terms[k]))
  }

  lemma DirectScores(c: Catalog, e: Entry, term: string)
    ensures DirectScore(c, e, term) in {120, 110, 60, 55, 40, 35, 10, 0}
  {
  }

  lemma OneMoreTerm(c: Catalog, e: Entry, terms: seq<string>, w: string, t: Tally)
    requires AddsUp(c, e, terms, t)
    ensures AddsUp(c, e, terms + [w], WithWord(t, DirectScore(c, e, w), FuzzyMatch(e, w)))
  {
    SumAppend(terms, w, PointsBy(c, e));
    SumAppend(terms, w, TyposBy(c, e));
    CountAppend(terms, w, IsDirectBy(c, e));
    CountAppend(terms, w, IsTypoBy(c, e));
    CountAppend(terms, w, NamesItBy(c, e));
    AliasAppend(c, e, terms, w);
    WordAdds(c, e, w, t);
  }

  lemma WordAdds(c: Catalog, e: Entry, w: string, t: Tally)
    ensures var u := WithWord(t, DirectScore(c, e, w), FuzzyMatch(e, w));
            && u.score == t.score + Points(c, e, w) && u.distance == t.distance + Typos(c, e, w)
            && u.direct == t.direct + (if DirectScore(c, e, w) > 0 then 1 else 0)
            && u.fuzzy == t.fuzzy + (if DirectScore(c, e, w) <= 0 && FuzzyMatch(e, w).Some? then 1 else 0)
            && u.named == t.named + (if NamesIt(c, e, w) then 1 else 0)
            && u.byAlias == (t.byAlias || ByItsAlias(c, e, w))
  {
    DirectScores(c, e, w);
  }

  lemma AliasAppend(c: Catalog, e: Entry, terms: seq<string>, w: string)
    ensures (exists k :: 0 <= k < |terms + [w]| && ByItsAlias(c, e, (terms + [w])[k])) <==>
            (exists k :: 0 <= k < |terms| && ByItsAlias(c, e, terms[k])) || ByItsAlias(c, e, w)
  {
    var longer := terms + [w];
    assert longer[|terms|] == w;
    assert forall k :: 0 <= k < |terms| ==> longer[k] == terms[k];
  }

  ghost predicate TallyFits(c: Catalog, e: Entry, terms: seq<string>, n: nat)
    requires n <= |terms|
  {
    AddsUp(c, e, terms[..n], TallyOf(c, e, terms, n))
  }

  lemma {:induction false} TallyAddsUp(c: Catalog, e: Entry, terms: seq<string>, n: nat)
    requires n <= |terms|
    ensures TallyFits(c, e, terms, n)
  {
    if n == 0 {
      FirstTally(c, e, terms);
    } else {
      TallyAddsUp(c, e, terms, n - 1);
      OneMoreTally(c, e, terms, n);
    }
  }

  lemma FirstTally(c: Catalog, e: Entry, terms: seq<string>)
    ensures TallyFits(c, e, terms, 0)
  {
    NothingAddsUp(c, e);
    assert terms[..0] == [];
  }

  lemma OneMoreTally(c: Catalog, e: Entry, terms: seq<string>, n: nat)
    requires 0 < n <= |terms| && TallyFits(c, e, terms, n - 1)
    ensures TallyFits(c, e, terms, n)
  {
    OneMoreTerm(c, e, terms[..n - 1], terms[n - 1], TallyOf(c, e, terms, n - 1));
    SnocOf(terms, n);
  }

  lemma SnocOf(terms: seq<string>, n: nat)
    requires 0 < n <= |terms|
    ensures terms[..n] == terms[..n - 1] + [terms[n - 1]]
  {
  }

  lemma NothingAddsUp(c: Catalog, e: Entry)
    ensures AddsUp(c, e, [], NOTHING)
  {
  }

  // ----- what a search lists

  /** The query as a whole is the name of the entry, or one of its aliases. */
  ghost predicate IsNamed(e: Entry, whole: seq<string>) {
    exists k :: 0 <= k < |whole| && whole[k] in e.phrases
  }

  ghost predicate IsAliased(e: Entry, whole: seq<string>) {
    exists k :: 0 <= k < |whole| && whole[k] in e.aliasPhrases
  }

  /** A query that is a name as a whole gets 120 more, one that is an alias 110. */
  lemma WholeScoresExactly(t: Tally, e: Entry, whole: seq<string>, all: nat)
    ensures var u := WithWhole(t, e, whole, all);
            && u.direct == t.direct && u.fuzzy == t.fuzzy && u.distance == t.distance
            && u.score == t.score + (if IsNamed(e, whole) then 120 else if IsAliased(e, whole) then 110 else 0)
            && u.named == (if IsNamed(e, whole) then all else t.named)
            && u.byAlias == (t.byAlias || (!IsNamed(e, whole) && IsAliased(e, whole)))
  {
    WholeIsIn(whole, e.phrases);
    WholeIsIn(whole, e.aliasPhrases);
  }

  lemma WholeIsIn(whole: seq<string>, phrases: seq<string>)
    ensures AnyIn(whole, phrases) <==> exists k :: 0 <= k < |whole| && whole[k] in phrases
  {
    if k :| 0 <= k < |whole| && whole[k] in phrases {
      assert whole[k] in whole;
    }
  }

  /** The score of an entry that is no file store: the points of its terms, and of the query as a whole. */
  lemma RatingExactly(
      c: Catalog, terms: seq<string>, whole: seq<string>, isStore: string -> bool, e: nat, x: Scored)
    requires e < |c.entries| && !isStore(c.entries[e].slug) && x.entry == e
    ensures var entry := c.entries[e];
            x in Ratings(c, terms, whole, isStore, |c.entries|) <==>
              && !x.weak && x.direct + x.fuzzy > 0
              && x.direct == CountOf(terms, IsDirectBy(c, entry)) && x.fuzzy == CountOf(terms, IsTypoBy(c, entry))
              && x.distance == Sum(terms, TyposBy(c, entry))
              && x.score == Sum(terms, PointsBy(c, entry))
                            + (if IsNamed(entry, whole) then 120 else if IsAliased(entry, whole) then 110 else 0)
  {
    var entry := c.entries[e];
    var t := TallyOf(c, entry, terms, |terms|);
    TallyAddsUp(c, entry, terms, |terms|);
    assert terms[..|terms|] == terms;
    WholeScoresExactly(t, entry, whole, |terms|);
    RatedOnceOnly(c, terms, whole, isStore, |c.entries|, e, x);
    RatedAlone(WithWhole(t, entry, whole, |terms|), e, |terms|, x);
  }

  lemma RatedAlone(t: Tally, i: nat, all: nat, x: Scored)
    ensures x in Rated(t, i, all, false) <==>
            t.direct + t.fuzzy > 0 && x == Scored(i, t.score, t.direct, t.fuzzy, t.distance, false)
  {
  }

  lemma TermsRemain(c: Catalog, stores: Stores, stopwords: set<string>, text: string, words: seq<string>)
    requires words != []
    ensures SearchOf(c, stores, stopwords, text, words).terms != []
  {
    TermsOfWords(words, stopwords);
  }

  ghost predicate HasDirect(hits: seq<Hit>, e: nat) {
    exists h :: h in hits && h.entry == e && h.kind == Direct
  }

  lemma DirectHitOfTier(t: Tiers, x: Scored)
    requires x in t.direct
    ensures HasDirect(TierHits(t), x.entry)
  {
    var i :| 0 <= i < |t.direct| && t.direct[i] == x;
    assert TierHits(t)[i] == Hit(x.entry, Direct, x.score, false);
  }

  lemma TierOfDirectHit(t: Tiers, h: Hit)
    requires h in TierHits(t) && h.kind == Direct
    ensures exists x :: (x in t.direct || x in t.weak) && x.entry == h.entry
  {
    var i :| 0 <= i < |TierHits(t)| && TierHits(t)[i] == h;
    var a, b := |t.direct|, |t.direct| + |t.fuzzy|;
    if i < a {
      assert t.direct[i] in t.direct && t.direct[i].entry == h.entry;
    } else {
      assert i >= b;
      assert t.weak[i - b] in t.weak && t.weak[i - b].entry == h.entry;
    }
  }

  /** Moving hits to the front keeps the direct ones and adds none. */
  lemma DirectStays(base: seq<Hit>, named: seq<Hit>, final: seq<Hit>, apps: seq<nat>, picked: seq<nat>, e: nat)
    requires forall h :: h in base ==> Keeps(final, h)
    requires AddsOnly(base, named, apps, Partial) && AddsOnly(named, final, picked, Suggested)
    ensures HasDirect(final, e) <==> HasDirect(base, e)
  {
    if HasDirect(base, e) {
      var h :| h in base && h.entry == e && h.kind == Direct;
      KeptDirect(final, h);
    }
    if HasDirect(final, e) {
      NoDirectAdded(named, final, picked, Suggested, e);
      NoDirectAdded(base, named, apps, Partial, e);
    }
  }

  lemma KeptDirect(hits: seq<Hit>, h: Hit)
    requires Keeps(hits, h) && h.kind == Direct
    ensures HasDirect(hits, h.entry)
  {
    var i :| 0 <= i < |hits| && hits[i].entry == h.entry && hits[i].kind == h.kind && hits[i].score == h.score;
    assert hits[i] in hits;
  }

  lemma NoDirectAdded(hits: seq<Hit>, r: seq<Hit>, entries: seq<nat>, kind: Kind, e: nat)
    requires AddsOnly(hits, r, entries, kind) && kind != Direct && HasDirect(r, e)
    ensures HasDirect(hits, e)
  {
    var h :| h in r && h.entry == e && h.kind == Direct;
    KeptDirect(hits, h);
  }

  lemma DirectHitsStay(c: Catalog, stores: Stores, stopwords: set<string>, text: string, words: seq<string>, e: nat)
    ensures var s := SearchOf(c, stores, stopwords, text, words);
            HasDirect(FinalHits(c, stores, s), e) <==> HasDirect(BaseHits(c, s), e)
  {
    var s := SearchOf(c, stores, stopwords, text, words);
    SearchKeepsEveryHit(c, stores, stopwords, text, words);
    DirectStays(BaseHits(c, s), NamedHits(c, stores, s), FinalHits(c, stores, s), NamedIn(c, stores, s),
                FileStores(c, s.asked.slugs), e);
  }

  lemma NoStoreIsWeak(c: Catalog, terms: seq<string>, whole: seq<string>, isStore: string -> bool, x: Scored)
    requires x in Ratings(c, terms, whole, isStore, |c.entries|)
    requires x.entry < |c.entries| && !isStore(c.entries[x.entry].slug)
    ensures !x.weak
  {
    RatedOnceOnly(c, terms, whole, isStore, |c.entries|, x.entry, x);
  }

  /**
   An app, that is an entry that is no file store, is a direct hit of a search exactly when
   every term is, or starts, a word of its name or of an alias, or is in its text.
   */
  lemma DirectHitsExactly(
      c: Catalog, stores: Stores, stopwords: set<string>, text: string, words: seq<string>, e: nat)
    requires words != [] && e < |c.entries| && !IsStore(stores, c.entries[e].slug)
    ensures var s := SearchOf(c, stores, stopwords, text, words);
            HasDirect(FinalHits(c, stores, s), e) <==>
            forall k :: 0 <= k < |s.terms| ==> MatchesDirectly(c, c.entries[e], s.terms[k])
  {
    var s := SearchOf(c, stores, stopwords, text, words);
    var whole, isStore := Whole(c, text, SearchTerms(words, stopwords)), StoreNotAsked(stores, s.asked);
    assert s.scored == Ratings(c, s.terms, whole, isStore, |c.entries|);
    TermsRemain(c, stores, stopwords, text, words);
    DirectHitsStay(c, stores, stopwords, text, words, e);
    DirectTierExactly(c, s.terms, whole, isStore, e);
    DirectBaseHitsExactly(c, s.terms, whole, isStore, e);
    EveryWordExactly(c, c.entries[e], s.terms);
  }

  lemma EveryWordExactly(c: Catalog, e: Entry, terms: seq<string>)
    ensures EveryWordIsDirect(c, e, terms, |terms|) <==>
            forall k :: 0 <= k < |terms| ==> MatchesDirectly(c, e, terms[k])
  {
    forall k | 0 <= k < |terms|
      ensures DirectScore(c, e, terms[k]) > 0 <==> MatchesDirectly(c, e, terms[k])
    {
      DirectExactly(c, e, terms[k]);
    }
  }

  lemma DirectBaseHitsExactly(c: Catalog, terms: seq<string>, whole: seq<string>, isStore: string -> bool, e: nat)
    requires e < |c.entries| && !isStore(c.entries[e].slug)
    ensures var t := TiersOf(c, Ratings(c, terms, whole, isStore, |c.entries|), |terms|);
            HasDirect(TierHits(t), e) <==>
            (exists x :: x in t.direct && x.entry == e)
  {
    var scored := Ratings(c, terms, whole, isStore, |c.entries|);
    var t := TiersOf(c, scored, |terms|);
    if x :| x in t.direct && x.entry == e {
      DirectHitOfTier(t, x);
    }
    if h :| h in TierHits(t) && h.entry == e && h.kind == Direct {
      TierOfDirectHit(t, h);
      var x :| (x in t.direct || x in t.weak) && x.entry == h.entry;
      RatingsRate(c, terms, whole, isStore, |c.entries|);
      TiersHold(c, scored, |terms|);
      NoStoreIsWeak(c, terms, whole, isStore, x);
    }
  }

  /** So the start of a name word, of more than one letter, finds the app. */
  lemma StartOfNameFinds(
      c: Catalog, stores: Stores, stopwords: set<string>, text: string, words: seq<string>, e: nat, k: nat, n: nat)
    requires words != [] && e < |c.entries| && !IsStore(stores, c.entries[e].slug)
    requires k < |c.entries[e].words| && 1 < n <= |c.entries[e].words[k]|
    requires SearchOf(c, stores, stopwords, text, words).terms == [c.entries[e].words[k][..n]]
    ensures var s := SearchOf(c, stores, stopwords, text, words);
            HasDirect(FinalHits(c, stores, s), e)
  {
    var s := SearchOf(c, stores, stopwords, text, words);
    StartMatches(c, c.entries[e], k, n);
    DirectHitsExactly(c, stores, stopwords, text, words, e);
  }

  lemma StartMatches(c: Catalog, e: Entry, k: nat, n: nat)
    requires k < |e.words| && 1 < n <= |e.words[k]|
    ensures MatchesDirectly(c, e, e.words[k][..n])
  {
    assert Says(c, e.words[k][..n], e.words[k][..n]);
  }

  // ----- which matches the tiers leave out

  lemma TakenAll<T>(s: seq<T>, n: nat, y: T)
    requires y in s && y !in Take(s, n)
    ensures |Take(s, n)| == n
  {
  }

  /** A fuzzy match is left out only where there are three direct ones, or the tier is full. */
  lemma FuzzyTierIsFull(c: Catalog, scored: seq<Scored>, all: nat, y: Scored)
    requires y in scored && y.fuzzy > 0 && y.direct + y.fuzzy == all && y !in TiersOf(c, scored, all).fuzzy
    ensures var t := TiersOf(c, scored, all);
            |t.direct| >= 3 || |t.direct| + |t.fuzzy| == if t.direct == [] then 5 else 3
  {
    var directs := |DirectTier(c, scored, all)|;
    if directs < 3 {
      Sorting.SortKeepsMember(ByDistance(c), Filter(scored, IsFuzzy(all)), y);
      TakenAll(Sorting.Sort(ByDistance(c), Filter(scored, IsFuzzy(all))),
               if directs > 0 then MIN_RESULTS - directs else MAX_FUZZY, y);
    }
  }

  /** Where nothing else is listed for several terms, a partial match is left out only by ten others. */
  lemma PartialTierIsFull(c: Catalog, scored: seq<Scored>, all: nat, y: Scored)
    requires y in scored && all > 1 && y !in TiersOf(c, scored, all).partial
    ensures var t := TiersOf(c, scored, all);
            t.direct != [] || t.fuzzy != [] || t.weak != [] || |t.partial| == 10
  {
    Sorting.SortKeepsMember(ByMatched(c), scored, y);
    if TiersOf(c, scored, all).partial == PartialTier(c, scored) {
      TakenAll(Sorting.Sort(ByMatched(c), scored), MAX_PARTIAL, y);
    }
  }

  // ----- the order of what is listed

  /** Higher score, then higher priority, then the name. */
  ghost predicate NotBehind(c: Catalog, a: Scored, b: Scored) {
    && a.score >= b.score
    && (a.score == b.score ==> Priority(c, a.entry) >= Priority(c, b.entry))
    && (a.score == b.score && Priority(c, a.entry) == Priority(c, b.entry) ==>
          !c.nameBefore(Name(c, b.entry), Name(c, a.entry)))
  }

  lemma RankNotBehind(c: Catalog, a: Scored, b: Scored)
    ensures !ByRank(c)(b, a) <==> NotBehind(c, a, b)
  {
  }

  lemma DirectTierComesByScore(c: Catalog, scored: seq<Scored>, all: nat, i: nat, j: nat)
    requires Sorting.IsOrder(c.nameBefore) && i < j < |TiersOf(c, scored, all).direct|
    ensures var t := TiersOf(c, scored, all).direct; NotBehind(c, t[i], t[j])
  {
    var t := TiersOf(c, scored, all).direct;
    DirectTierIsRanked(c, scored, all);
    RankNotBehind(c, t[i], t[j]);
  }

  /** Fewer typos first, then more words matched directly, then as direct matches. */
  lemma FuzzyTierComesByTypos(c: Catalog, scored: seq<Scored>, all: nat, i: nat, j: nat)
    requires Sorting.IsOrder(c.nameBefore) && i < j < |TiersOf(c, scored, all).fuzzy|
    ensures var t := TiersOf(c, scored, all).fuzzy;
            && t[i].distance <= t[j].distance
            && (t[i].distance == t[j].distance ==> t[i].direct >= t[j].direct)
            && (t[i].distance == t[j].distance && t[i].direct == t[j].direct ==> NotBehind(c, t[i], t[j]))
  {
    var t := TiersOf(c, scored, all).fuzzy;
    FuzzyTierIsSorted(c, scored, all);
    RankNotBehind(c, t[i], t[j]);
    assert !ByDistance(c)(t[j], t[i]);
  }

  /** More words matched first, then apps before weak file stores, then as fuzzy matches. */
  lemma PartialTierComesByWords(c: Catalog, scored: seq<Scored>, all: nat, i: nat, j: nat)
    requires Sorting.IsOrder(c.nameBefore) && i < j < |TiersOf(c, scored, all).partial|
    ensures var t := TiersOf(c, scored, all).partial;
            var m, n := t[i].direct + t[i].fuzzy, t[j].direct + t[j].fuzzy;
            && m >= n
            && (m == n ==> !t[i].weak || t[j].weak)
            && (m == n && t[i].weak == t[j].weak ==> t[i].direct >= t[j].direct)
            && (m == n && t[i].weak == t[j].weak && t[i].direct == t[j].direct ==> NotBehind(c, t[i], t[j]))
  {
    var t := TiersOf(c, scored, all).partial;
    PartialTierIsBest(c, scored, all);
    RankNotBehind(c, t[i], t[j]);
    assert !ByMatched(c)(t[j], t[i]);
  }

  /** The hits of the tiers: direct ones, fuzzy ones, weak file stores as direct, partial ones. */
  lemma TiersFollow(t: Tiers, i: nat)
    requires i < |TierHits(t)|
    ensures var a, b, d := |t.direct|, |t.direct| + |t.fuzzy|, |t.direct| + |t.fuzzy| + |t.weak|;
            && |TierHits(t)| == d + |t.partial|
            && TierHits(t)[i] ==
               if i < a then Hit(t.direct[i].entry, Direct, t.direct[i].score, false)
               else if i < b then Hit(t.fuzzy[i - a].entry, Fuzzy, t.fuzzy[i - a].score, false)
               else if i < d then Hit(t.weak[i - b].entry, Direct, t.weak[i - b].score, false)
               else Hit(t.partial[i - d].entry, Partial, t.partial[i - d].score, false)
  {
  }

  /** The apps named come first, in the order of the words, unless the first hit is direct with 120 points or more. */
  lemma NamedComeFirst(hits: seq<Hit>, scored: seq<Scored>, named: seq<nat>)
    requires ListsOnce(hits) && Distinct(named)
    ensures var r := WithNamed(hits, scored, named);
            if hits != [] && hits[0].kind == Direct && hits[0].score >= 120 then r == hits
            else |named| <= |r| && forall k :: 0 <= k < |named| ==> r[k].entry == named[k]
  {
    forall k | 0 <= k < |named|
      ensures Front(hits, named, PartialHit(scored))[k].entry == named[k]
    {
      HitOfIsHit(hits, named[k], PartialHit(scored)(named[k]));
    }
  }

  ghost predicate ShowsPicked(hits: seq<Hit>, at: nat, picked: seq<nat>) {
    forall k :: 0 <= k < |picked| ==>
      at + k < |hits| && hits[at + k].entry == picked[k] && hits[at + k].suggested
  }

  /**
   The file stores picked come first, in their order, behind at most a first hit that is direct,
   has 60 points or more and is none of them.
   */
  lemma StoresComeFirst(hits: seq<Hit>, picked: seq<nat>)
    requires picked != []
    ensures var r := WithStores(hits, picked);
            if hits != [] && hits[0].kind == Direct && hits[0].score >= 60 && hits[0].entry !in picked
            then r != [] && r[0] == hits[0] && ShowsPicked(r, 1, picked)
            else ShowsPicked(r, 0, picked)
  {
    var at := StoresAreInserted(hits, picked);
    InsertedShows(hits, picked, at);
    if Leads(hits, picked) {
      LeadIsFirst(hits, picked);
    }
  }

  lemma InsertedShows(hits: seq<Hit>, picked: seq<nat>, at: nat)
    requires at <= |Rest(hits, picked)|
    ensures ShowsPicked(Inserted(Marked(Front(hits, picked, SUGGESTED)), Rest(hits, picked), at), at, picked)
  {
    forall k | 0 <= k < |picked|
      ensures var r := Inserted(Marked(Front(hits, picked, SUGGESTED)), Rest(hits, picked), at);
              at + k < |r| && r[at + k].entry == picked[k] && r[at + k].suggested
    {
      HitOfIsHit(hits, picked[k], SUGGESTED(picked[k]));
      InsertedAt(Marked(Front(hits, picked, SUGGESTED)), Rest(hits, picked), at, k);
    }
  }

  // ----- the terms, the file stores and the whole query

  ghost predicate IsContent(stopwords: set<string>, w: string) {
    w !in stopwords && |w| > 1
  }

  ghost predicate SomeContent(words: seq<string>, stopwords: set<string>) {
    exists w :: w in words && IsContent(stopwords, w)
  }

  /**
   The terms are the words that are no stopwords and longer than a letter; where there are none,
   the longer words; where there are none of these either, all words. Each is a term once.
   */
  lemma TermsExactly(words: seq<string>, stopwords: set<string>, t: string)
    ensures t in SearchTerms(words, stopwords) <==>
            && t in words
            && (if SomeContent(words, stopwords) then IsContent(stopwords, t)
                else |t| > 1 || forall w :: w in words ==> |w| <= 1)
    ensures var r := SearchTerms(words, stopwords); forall i, j :: 0 <= i < j < |r| ==> r[i] != r[j]
  {
    var content := Filter(words, (w: string) => w !in stopwords && |w| > 1);
    var longer := Filter(words, (w: string) => |w| > 1);
    InUnique(content, t);
    InUnique(longer, t);
    InUnique(words, t);
    assert content != [] ==> content[0] in content;
    assert longer != [] ==> longer[0] in longer;
  }

  /** The term names the entry or one of its aliases, or starts such a name. */
  ghost predicate NamesOrStarts(c: Catalog, e: Entry, term: string) {
    if |term| == 1 then MatchesDirectly(c, e, term)
    else
      || StartsOneOf(c, term, e.words) || StartsOneOf(c, term, e.phrases)
      || StartsOneOf(c, term, e.aliasWords) || StartsOneOf(c, term, e.aliasPhrases)
  }

  lemma NamesOrStartsExactly(c: Catalog, e: Entry, term: string)
    ensures DirectScore(c, e, term) >= 35 <==> NamesOrStarts(c, e, term)
  {
    if |term| == 1 {
      LetterScoresExactly(c, e, term);
    } else {
      WordScoresExactly(c, e, term);
      OneOfStarts(c, term, e.words);
      OneOfStarts(c, term, e.aliasWords);
    }
  }

  ghost predicate NamesThisApp(c: Catalog, stores: Stores, asked: Asked, t: string, e: nat) {
    && e < |c.entries| && !IsStore(stores, c.entries[e].slug)
    && c.compact(t) !in asked.words && NamesOrStarts(c, c.entries[e], t)
  }

  /** A word of the query that asks for no file store names an app. */
  ghost predicate SomeAppIsNamed(c: Catalog, stores: Stores, terms: seq<string>, asked: Asked) {
    exists k, e: nat :: 0 <= k < |terms| && NamesThisApp(c, stores, asked, terms[k], e)
  }

  lemma AppIsNamedExactly(c: Catalog, stores: Stores, terms: seq<string>, asked: Asked)
    ensures NamesApp(c, stores, Others(c, terms, asked)) <==> SomeAppIsNamed(c, stores, terms, asked)
  {
    var others := Others(c, terms, asked);
    if NamesApp(c, stores, others) {
      var i, e :| 0 <= i < |others| && 0 <= e < |c.entries|
        && !IsStore(stores, c.entries[e].slug) && DirectScore(c, c.entries[e], others[i]) >= ALIAS_PREFIX;
      assert others[i] in others;
      var k :| 0 <= k < |terms| && terms[k] == others[i];
      NamesOrStartsExactly(c, c.entries[e], terms[k]);
      assert NamesThisApp(c, stores, asked, terms[k], e);
    }
    if SomeAppIsNamed(c, stores, terms, asked) {
      var k, e: nat :| 0 <= k < |terms| && NamesThisApp(c, stores, asked, terms[k], e);
      assert terms[k] in others;
      var i :| 0 <= i < |others| && others[i] == terms[k];
      NamesOrStartsExactly(c, c.entries[e], others[i]);
    }
  }

  /**
   A query that asks for file stores by words about documents in general, and names an app as
   well, is about the app: it asks for none, and a single other word is all that is searched for.
   */
  lemma AppsComeBeforeDocuments(c: Catalog, stores: Stores, terms: seq<string>, asked: Asked)
    ensures var (searched, a) := Narrowed(c, stores, terms, asked);
            if asked.generic && SomeAppIsNamed(c, stores, terms, asked)
            then a.slugs == [] && a.words == {}
                 && searched == if |Others(c, terms, asked)| == 1 then Others(c, terms, asked) else terms
            else searched == terms && a == asked
  {
    AppIsNamedExactly(c, stores, terms, asked);
  }

  /** The first entry with a slug. */
  ghost predicate IsFirstOf(c: Catalog, slug: string, e: nat) {
    e < |c.entries| && c.entries[e].slug == slug && forall i :: 0 <= i < e ==> c.entries[i].slug != slug
  }

  lemma EntryOfExactly(c: Catalog, slug: string, e: nat)
    ensures EntryOf(c, slug, 0) == Some(e) <==> IsFirstOf(c, slug, e)
  {
  }

  lemma {:induction false} EntriesOfExactly(c: Catalog, slugs: seq<string>, e: nat)
    ensures e in EntriesOf(c, slugs) <==> exists k :: 0 <= k < |slugs| && IsFirstOf(c, slugs[k], e)
    decreases |slugs|
  {
    if slugs != [] {
      var init, last := slugs[..|slugs| - 1], slugs[|slugs| - 1];
      EntriesOfExactly(c, init, e);
      EntryOfExactly(c, last, e);
      assert forall k :: 0 <= k < |init| ==> init[k] == slugs[k];
    }
  }

  /** The file stores suggested are the first three of those asked for that are offered. */
  lemma FileStoresExactly(c: Catalog, slugs: seq<string>, e: nat)
    ensures FileStores(c, slugs) <= EntriesOf(c, slugs)
    ensures |FileStores(c, slugs)| == 3 || FileStores(c, slugs) == EntriesOf(c, slugs)
    ensures |FileStores(c, slugs)| <= 3
    ensures e in EntriesOf(c, slugs) <==> exists k :: 0 <= k < |slugs| && IsFirstOf(c, slugs[k], e)
  {
    EntriesOfExactly(c, slugs, e);
  }

  // ----- file stores in a query about something else

  /**
   A file store the query does not ask for keeps its score where every term, or the query as a
   whole, names it. Else it is weak, with nine points at most, where a term names it or one is an
   alias of it, and is left out where only its text matches.
   */
  lemma StoreRatingExactly(
      c: Catalog, terms: seq<string>, whole: seq<string>, isStore: string -> bool, e: nat, x: Scored)
    requires e < |c.entries| && isStore(c.entries[e].slug) && x.entry == e
    ensures var entry := c.entries[e];
            var score := Sum(terms, PointsBy(c, entry))
                         + if IsNamed(entry, whole) then 120 else if IsAliased(entry, whole) then 110 else 0;
            var direct, fuzzy := CountOf(terms, IsDirectBy(c, entry)), CountOf(terms, IsTypoBy(c, entry));
            var distance := Sum(terms, TyposBy(c, entry));
            x in Ratings(c, terms, whole, isStore, |c.entries|) <==>
              && direct + fuzzy > 0 && x.direct == direct && x.fuzzy == fuzzy && x.distance == distance
              && if IsNamed(entry, whole) || CountOf(terms, NamesItBy(c, entry)) >= |terms|
                 then !x.weak && x.score == score
                 else x.weak && x.score == (if score < 9 then score else 9) && MeantInPart(c, entry, terms, whole)
  {
    var entry := c.entries[e];
    var t := TallyOf(c, entry, terms, |terms|);
    TallyAddsUp(c, entry, terms, |terms|);
    assert terms[..|terms|] == terms;
    WholeScoresExactly(t, entry, whole, |terms|);
    RatedOnceOnly(c, terms, whole, isStore, |c.entries|, e, x);
    StoreRated(WithWhole(t, entry, whole, |terms|), e, |terms|, x);
  }

  /** A term names the entry, or a term or the whole query is an alias of it. */
  ghost predicate MeantInPart(c: Catalog, e: Entry, terms: seq<string>, whole: seq<string>) {
    || CountOf(terms, NamesItBy(c, e)) > 0
    || (exists k :: 0 <= k < |terms| && ByItsAlias(c, e, terms[k]))
    || (!IsNamed(e, whole) && IsAliased(e, whole))
  }

  lemma StoreRated(t: Tally, i: nat, all: nat, x: Scored)
    ensures x in Rated(t, i, all, true) <==>
            && t.direct + t.fuzzy > 0
            && if t.named >= all then x == Scored(i, t.score, t.direct, t.fuzzy, t.distance, false)
               else (t.named > 0 || t.byAlias)
                    && x == Scored(i, if t.score < 9 then t.score else 9, t.direct, t.fuzzy, t.distance, true)
  {
  }

  /** Weak are the file stores of a query that asks for none, unless every term or the query as a whole names them. */
  lemma WeakExactly(
      c: Catalog, stores: Stores, stopwords: set<string>, text: string, words: seq<string>, e: nat, x: Scored)
    requires e < |c.entries| && x.entry == e && x in SearchOf(c, stores, stopwords, text, words).scored
    ensures var s := SearchOf(c, stores, stopwords, text, words);
            x.weak <==>
              && IsStore(stores, c.entries[e].slug) && s.asked.slugs == []
              && !IsNamed(c.entries[e], Whole(c, text, SearchTerms(words, stopwords)))
              && CountOf(s.terms, NamesItBy(c, c.entries[e])) < |s.terms|
  {
    var s := SearchOf(c, stores, stopwords, text, words);
    var whole, isStore := Whole(c, text, SearchTerms(words, stopwords)), StoreNotAsked(stores, s.asked);
    if isStore(c.entries[e].slug) {
      StoreRatingExactly(c, s.terms, whole, isStore, e, x);
    } else {
      RatingExactly(c, s.terms, whole, isStore, e, x);
    }
  }

  /** The query is taken as one name in two ways: as it is, and from its terms alone. */
  lemma WholeExactly(c: Catalog, text: string, terms: seq<string>, q: string)
    ensures q in Whole(c, text, terms) <==>
            |q| > 1 && (q == c.compact(text) || q == c.compact(Concat(terms)))
  {
  }

  lemma {:induction false} ConcatInParts(a: seq<string>, w: string, b: seq<string>)
    ensures Concat(a + [w] + b) == Concat(a) + w + Concat(b)
  {
    if a == [] {
      assert a + [w] + b == [w] + b;
    } else {
      assert (a + [w] + b)[1..] == a[1..] + [w] + b;
      ConcatInParts(a[1..], w, b);
    }
  }

  /** Words are compacted one by one, in order, and only those of which nothing is left are dropped. */
  lemma {:induction false} CompactedInParts(c: Catalog, a: seq<string>, w: string, b: seq<string>)
    ensures Compacted(c, a + [w] + b) ==
            Compacted(c, a) + (if c.compact(w) == "" then [] else [c.compact(w)]) + Compacted(c, b)
  {
    if a == [] {
      assert a + [w] + b == [w] + b;
    } else {
      assert (a + [w] + b)[1..] == a[1..] + [w] + b;
      CompactedInParts(c, a[1..], w, b);
    }
  }

  /** Whatever the words ask for is a file store. */
  lemma {:induction false} AskedAreStores(stores: Stores, words: seq<string>, n: nat, slug: string)
    requires n <= |words| && slug in AskedBy(stores, words, n).slugs
    ensures IsStore(stores, slug)
  {
    if n > 0 {
      var before := AskedBy(stores, words, n - 1).slugs;
      if slug in before {
        AskedAreStores(stores, words, n - 1, slug);
      } else {
        NextAsked(stores, words, n, slug);
      }
    }
  }

  lemma NextAsked(stores: Stores, words: seq<string>, n: nat, slug: string)
    requires 0 < n <= |words| && slug in AskedBy(stores, words, n).slugs
    requires slug !in AskedBy(stores, words, n - 1).slugs
    ensures IsStore(stores, slug)
  {
    var intent := IntentAt(stores, words, n - 1).value;
    InUnique(AskedBy(stores, words, n - 1).slugs + intent.slugs, slug);
    assert intent in stores.intents && slug in intent.slugs;
  }

  // ----- what the words ask for besides

  ghost predicate UsesWord(stores: Stores, words: seq<string>, i: nat, w: string)
    requires i < |words|
  {
    IntentAt(stores, words, i).Some? && w in WordsAt(stores, words, i)
  }

  ghost predicate IsSpecific(stores: Stores, words: seq<string>, i: nat)
    requires i < |words|
  {
    IntentAt(stores, words, i).Some? && !IntentAt(stores, words, i).value.generic
  }

  lemma {:induction false} AskedWordsExactly(stores: Stores, words: seq<string>, n: nat, w: string)
    requires n <= |words|
    ensures w in AskedBy(stores, words, n).words <==> exists i :: 0 <= i < n && UsesWord(stores, words, i, w)
  {
    if n > 0 {
      AskedWordsExactly(stores, words, n - 1, w);
      NextWords(stores, words, n, w);
      if i :| 0 <= i < n && UsesWord(stores, words, i, w) {
        assert i == n - 1 || i < n - 1;
      }
    }
  }

  lemma NextWords(stores: Stores, words: seq<string>, n: nat, w: string)
    requires 0 < n <= |words|
    ensures w in AskedBy(stores, words, n).words <==>
            w in AskedBy(stores, words, n - 1).words || UsesWord(stores, words, n - 1, w)
  {
  }

  /** The query asks by words about documents in general as long as no run is a more specific one. */
  lemma {:induction false} GenericExactly(stores: Stores, words: seq<string>, n: nat)
    requires n <= |words|
    ensures AskedBy(stores, words, n).generic <==> forall i :: 0 <= i < n ==> !IsSpecific(stores, words, i)
  {
    if n > 0 {
      GenericExactly(stores, words, n - 1);
      NextGeneric(stores, words, n);
    }
  }

  lemma NextGeneric(stores: Stores, words: seq<string>, n: nat)
    requires 0 < n <= |words|
    ensures AskedBy(stores, words, n).generic <==>
            AskedBy(stores, words, n - 1).generic && !IsSpecific(stores, words, n - 1)
  {
  }

  /** A query about a cloud drive asks for nothing; any other for what its runs ask for. */
  lemma DrivesAskForNothing(stores: Stores, words: seq<string>)
    ensures var a := FileSearchIntent(stores, words);
            if exists d, i :: d in stores.drives && 0 <= i <= |Concat(words)| && d <= Concat(words)[i..]
            then a == Asked([], {}, false)
            else a.slugs == AskedBy(stores, words, |words|).slugs && a.words == AskedBy(stores, words, |words|).words
                 && (a.generic <==> a.slugs != [] && AskedBy(stores, words, |words|).generic)
  {
    if words == [] {
      assert AskedBy(stores, words, 0).slugs == [];
    }
  }

  // ----- the order of the apps a word names

  lemma ByRatingIsOrder(c: Catalog, scored: seq<Scored>)
    requires Sorting.IsOrder(c.nameBefore)
    ensures Sorting.IsOrder(AppsByRank(c, scored))
  {
    RankIsOrder(c);
    var before := AppsByRank(c, scored);
    forall x, y
      ensures before(x, y) ==> !before(y, x)
    {
      assert before(x, y) == ByRank(c)(RatingOf(scored, x), RatingOf(scored, y));
    }
    forall x, y, z
      ensures before(x, y) && !before(z, y) ==> before(x, z)
    {
      var a, b, d := RatingOf(scored, x), RatingOf(scored, y), RatingOf(scored, z);
      assert before(x, y) == ByRank(c)(a, b) && before(z, y) == ByRank(c)(d, b) && before(x, z) == ByRank(c)(a, d);
    }
  }

  /** The apps one word names come by score, priority and name. */
  lemma NamedAppsComeByScore(
      c: Catalog, isStore: string -> bool, scored: seq<Scored>, term: string, i: nat, j: nat)
    requires Sorting.IsOrder(c.nameBefore) && i < j < |AppsNamedBy(c, isStore, scored, term)|
    ensures var apps := AppsNamedBy(c, isStore, scored, term);
            NotBehind(c, RatingOf(scored, apps[i]), RatingOf(scored, apps[j]))
  {
    var apps := AppsNamedBy(c, isStore, scored, term);
    ByRatingIsOrder(c, scored);
    Sorting.SortSorts(AppsByRank(c, scored), Apps(c, isStore, c.compact(term), |c.entries|));
    assert !AppsByRank(c, scored)(apps[j], apps[i]);
    RankNotBehind(c, RatingOf(scored, apps[i]), RatingOf(scored, apps[j]));
  }

  /** The rating of an entry is the one it has, and no points where it has none. */
  lemma RatingOfExactly(scored: seq<Scored>, e: nat, x: Scored)
    requires OncePerEntry(scored)
    ensures x in scored && x.entry == e ==> RatingOf(scored, e) == x
    ensures (forall y :: y in scored ==> y.entry != e) ==> RatingOf(scored, e).score == 0
  {
    if x in scored && x.entry == e {
      SameEntry(scored, x, RatingOf(scored, e));
    }
  }

  /** The apps of an earlier word come before those only a later one names. */
  lemma EarlierWordsComeFirst(c: Catalog, isStore: string -> bool, scored: seq<Scored>, terms: seq<string>, n: nat)
    requires n <= |terms|
    ensures NamedApps(c, isStore, scored, terms[..n]) <= NamedApps(c, isStore, scored, terms)
  {
    var f := (term: string) => AppsNamedBy(c, isStore, scored, term);
    FlatMapOfStart(terms, n, f);
    UniqueOfStart(FlatMap(terms, n, f), FlatMap(terms, |terms|, f));
  }

  lemma {:induction false} FlatMapOfStart<U>(terms: seq<string>, n: nat, f: string -> seq<U>)
    requires n <= |terms|
    ensures FlatMap(terms[..n], n, f) == FlatMap(terms, n, f) <= FlatMap(terms, |terms|, f)
  {
    FlatMapAlike(terms[..n], terms, n, f);
    FlatMapGrows(terms, n, |terms|, f);
  }

  lemma {:induction false} FlatMapAlike<U>(s: seq<string>, t: seq<string>, n: nat, f: string -> seq<U>)
    requires n <= |s| && n <= |t| && forall i :: 0 <= i < n ==> s[i] == t[i]
    ensures FlatMap(s, n, f) == FlatMap(t, n, f)
  {
    if n > 0 {
      FlatMapAlike(s, t, n - 1, f);
    }
  }

  lemma {:induction false} FlatMapGrows<U>(s: seq<string>, n: nat, m: nat, f: string -> seq<U>)
    requires n <= m <= |s|
    ensures FlatMap(s, n, f) <= FlatMap(s, m, f)
    decreases m
  {
    if n < m {
      FlatMapGrows(s, n, m - 1, f);
    }
  }

  lemma {:induction false} UniqueOfStart(s: seq<nat>, t: seq<nat>)
    requires s <= t
    ensures Unique(s) <= Unique(t)
    decreases |t|
  {
    if |s| < |t| {
      UniqueOfStart(s, t[..|t| - 1]);
    } else {
      assert s == t;
    }
  }
}
