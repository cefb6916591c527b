/** Addresses typed into a connector's fields, set right where the field's own pattern says how. */
module AddressFix {
  import opened Options
  import Sorting

  // ----- texts

  /** What `trim` removes and `\s` matches. */
  predicate IsSpace(c: char) {
    || 0x09 <= c as int <= 0x0D || c as int == 0x20 || c as int == 0xA0 || c as int == 0x1680
    || 0x2000 <= c as int <= 0x200A || c as int == 0x2028 || c as int == 0x2029 || c as int == 0x202F
    || c as int == 0x205F || c as int == 0x3000 || c as int == 0xFEFF
  }

  predicate HasSpace(s: string) {
    exists i :: 0 <= i < |s| && IsSpace(s[i])
  }

  function Trim(s: string): string {
    if s != [] && IsSpace(s[0]) then Trim(s[1..])
    else if s != [] && IsSpace(s[|s| - 1]) then Trim(s[..|s| - 1])
    else s
  }

  predicate IsLetter(c: char) {
    'a' <= c <= 'z' || 'A' <= c <= 'Z'
  }

  predicate IsDigit(c: char) {
    '0' <= c <= '9'
  }

  function Lower(c: char): char {
    if 'A' <= c <= 'Z' then c - 'A' + 'a' else c
  }

  /** `s` starts with `prefix`, whatever the case of its letters. */
  predicate StartsWith(s: string, prefix: string) {
    |prefix| <= |s| && forall i :: 0 <= i < |prefix| ==> Lower(s[i]) == prefix[i]
  }

  // ----- the shape of an address

  function RunLength(s: string, allowed: char -> bool): (n: nat)
    ensures n <= |s| && forall i :: 0 <= i < n ==> allowed(s[i])
    ensures n < |s| ==> !allowed(s[n])
  {
    if s == [] || !allowed(s[0]) then 0 else 1 + RunLength(s[1..], allowed)
  }

  const SCHEME_CHARS := (c: char) => IsLetter(c) || IsDigit(c) || c == '+' || c == '.' || c == '-'
  const HOST_CHARS := (c: char) => IsLetter(c) || IsDigit(c) || c == '.' || c == '-'
  const DIGITS := (c: char) => IsDigit(c)

  /** The length of a leading `scheme://`, 0 where there is none. */
  function SchemeLength(s: string): (n: nat)
    ensures n <= |s|
  {
    if s == [] || !IsLetter(s[0]) then 0
    else
      var k := RunLength(s, SCHEME_CHARS);
      if k + 3 <= |s| && s[k..k + 3] == "://" then k + 3 else 0
  }

  predicate HasScheme(s: string) {
    SchemeLength(s) > 0
  }

  /** Two labels or more, joined by dots, none of them empty. */
  predicate IsDottedName(s: string) {
    && '.' in s && s[0] != '.' && s[|s| - 1] != '.'
    && forall i, j :: 0 <= i && j == i + 1 < |s| ==> !(s[i] == '.' && s[j] == '.')
  }

  /** A dotted host name, an optional port, and optionally something after it. */
  predicate IsBareAddress(s: string) {
    var n := RunLength(s, HOST_CHARS);
    IsDottedName(s[..n]) && MayFollowHost(s[n..])
  }

  /** How many digits follow a leading colon. */
  function PortLength(rest: string): (n: nat)
    ensures n > 0 ==> 1 + n <= |rest|
  {
    if rest != [] && rest[0] == ':' then RunLength(rest[1..], DIGITS) else 0
  }

  predicate MayFollowHost(rest: string) {
    var port := PortLength(rest);
    var tail := if port > 0 then rest[1 + port..] else rest;
    && port <= 5
    && (tail == [] || ((tail[0] == '/' || tail[0] == '?' || tail[0] == '#') && !HasSpace(tail)))
  }

  method SplitHost(text: string) returns (head: string, rest: string)
    ensures (head, rest) == HostAndRest(text)
  {
    var start := SchemeLength(text);
    var end := start;
    while end < |text| && text[end] != '/' && text[end] != '?' && text[end] != '#'
      invariant start <= end <= |text|
      invariant HostEnd(text, start) == HostEnd(text, end)
    {
      end := end + 1;
    }
    return text[..end], text[end..];
  }

  /** The first `/`, `?` or `#` from `i` on, or the end. */
  function HostEnd(text: string, i: nat): (n: nat)
    requires i <= |text|
    ensures i <= n <= |text|
    decreases |text| - i
  {
    if i == |text| || text[i] == '/' || text[i] == '?' || text[i] == '#' then i else HostEnd(text, i + 1)
  }

  function HostAndRest(text: string): (string, string) {
    var n := HostEnd(text, SchemeLength(text));
    (text[..n], text[n..])
  }

  function WithoutSlashes(text: string): string {
    if text != [] && text[|text| - 1] == '/' then WithoutSlashes(text[..|text| - 1]) else text
  }

  method TrimTrailingSlashes(text: string) returns (r: string)
    ensures r == WithoutSlashes(text)
  {
    var end := |text|;
    assert text[..end] == text;
    while end > 0 && text[end - 1] == '/'
      invariant end <= |text| && WithoutSlashes(text[..end]) == WithoutSlashes(text)
    {
      assert text[..end][..end - 1] == text[..end - 1];
      end := end - 1;
    }
    return text[..end];
  }

  predicate EndsHost(c: char) {
    c == '/' || c == '?' || c == '#'
  }

  lemma {:induction false} HostEndIsFirst(text: string, i: nat)
    requires i <= |text|
    ensures var n := HostEnd(text, i);
            && (forall k :: i <= k < n ==> !EndsHost(text[k]))
            && (n < |text| ==> EndsHost(text[n]))
    decreases |text| - i
  {
    if i < |text| && !EndsHost(text[i]) {
      HostEndIsFirst(text, i + 1);
    }
  }

  /** The split loses nothing, and cuts at the first character that ends a host. */
  lemma SplitIsExact(text: string)
    ensures var (head, rest) := HostAndRest(text);
            && head + rest == text && SchemeLength(text) <= |head|
            && (forall k :: SchemeLength(text) <= k < |head| ==> !EndsHost(head[k]))
            && (rest != [] ==> EndsHost(rest[0]))
  {
    HostEndIsFirst(text, SchemeLength(text));
  }

  /** Trimming removes slashes at the end, all of them, and nothing else. */
  lemma {:induction false} TrimmedIsExact(text: string)
    ensures var t := WithoutSlashes(text);
            && t <= text && (forall k :: |t| <= k < |text| ==> text[k] == '/')
            && (t != [] ==> t[|t| - 1] != '/')
  {
    if text != [] && text[|text| - 1] == '/' {
      TrimmedIsExact(text[..|text| - 1]);
    }
  }

  // ----- a missing scheme

  /** A field's pattern, as the predicate of the values it accepts. */
  datatype Pattern = NoPattern | Pattern(accepts: string -> bool)

  function WithMissingScheme(pattern: Pattern, value: string): string {
    var text := Trim(value);
    var fixed := "https://" + text;
    if pattern.NoPattern? || HasScheme(text) || !IsBareAddress(text) then value
    else if pattern.accepts(text) || !pattern.accepts(fixed) then value
    else fixed
  }

  lemma SchemeOfHttps(text: string)
    ensures HasScheme("https://" + text)
  {
    HttpsLength(text);
  }

  lemma {:induction false} RunStops(s: string, allowed: char -> bool, n: nat)
    requires n < |s| && (forall i :: 0 <= i < n ==> allowed(s[i])) && !allowed(s[n])
    ensures RunLength(s, allowed) == n
  {
    if n > 0 {
      RunStops(s[1..], allowed, n - 1);
    }
  }

  lemma {:induction false} TrimIsTrimmed(s: string)
    ensures var t := Trim(s); t == [] || (!IsSpace(t[0]) && !IsSpace(t[|t| - 1]))
    decreases |s|
  {
    if s != [] && IsSpace(s[0]) {
      TrimIsTrimmed(s[1..]);
    } else if s != [] && IsSpace(s[|s| - 1]) {
      TrimIsTrimmed(s[..|s| - 1]);
    }
  }

  /** A value set right is not changed again. */
  lemma WithMissingSchemeIsIdempotent(pattern: Pattern, value: string)
    ensures WithMissingScheme(pattern, WithMissingScheme(pattern, value)) == WithMissingScheme(pattern, value)
  {
    var text := Trim(value);
    var fixed := "https://" + text;
    TrimIsTrimmed(value);
    if WithMissingScheme(pattern, value) == fixed {
      assert fixed[0] == 'h' && fixed[|fixed| - 1] == if text == [] then '/' else text[|text| - 1];
      assert Trim(fixed) == fixed;
      SchemeOfHttps(text);
    }
  }

  // ----- the smallest change

  datatype Change = Scheme | Https | Slash | Www | Path

  const CHANGE_ORDER: seq<Change> := [Scheme, Https, Slash, Www, Path]

  function DropWww(v: string): string {
    var k := SchemeLength(v);
    if StartsWith(v[k..], "www.") then v[..k] + v[k + 4..]
    else if StartsWith(v, "www.") then v[4..]
    else v
  }

  /** The text with the scheme changes applied. */
  function WithScheme(text: string, changes: set<Change>): string {
    var v := if Scheme in changes then "https://" + text else text;
    if Https in changes && StartsWith(v, "http://") then "https://" + v[7..] else v
  }

  function ApplyChanges(text: string, changes: set<Change>): string {
    var v1 := WithScheme(text, changes);
    var v2 := if Path in changes then HostAndRest(v1).0 else v1;
    var v3 := if Slash in changes then WithoutSlashes(v2) else v2;
    if Www in changes then DropWww(v3) else v3
  }

  lemma SchemeEnds(s: string)
    requires SchemeLength(s) > 0
    ensures var n := SchemeLength(s);
            && n >= 3 && RunLength(s, SCHEME_CHARS) == n - 3
            && s[n - 3] == ':' && s[n - 2] == '/' && s[n - 1] == '/'
  {
    var k := RunLength(s, SCHEME_CHARS);
    var mark := s[k..k + 3];
    assert mark == "://" && mark[0] == s[k] && mark[1] == s[k + 1] && mark[2] == s[k + 2];
  }

  /** Cutting behind a scheme leaves it the scheme. */
  lemma SchemeOfStart(s: string, n: nat)
    requires SchemeLength(s) > 0 && SchemeLength(s) <= n <= |s|
    ensures SchemeLength(s[..n]) == SchemeLength(s)
  {
    SchemeEnds(s);
    var k := SchemeLength(s) - 3;
    RunStops(s[..n], SCHEME_CHARS, k);
    assert s[..n][k..k + 3] == s[k..k + 3];
  }

  lemma {:induction false} NoHostEnd(text: string, i: nat)
    requires i <= |text| && forall k :: i <= k < |text| ==> !EndsHost(text[k])
    ensures HostEnd(text, i) == |text|
    decreases |text| - i
  {
    if i < |text| {
      NoHostEnd(text, i + 1);
    }
  }

  /** Nothing is left to cut behind the host. */
  lemma HeadHasNoRest(text: string)
    ensures HostAndRest(HostAndRest(text).0) == (HostAndRest(text).0, [])
  {
    var head := HostAndRest(text).0;
    SplitIsExact(text);
    if SchemeLength(text) > 0 {
      assert head == text[..|head|];
      SchemeOfStart(text, |head|);
    }
    if SchemeLength(head) > 0 {
      SchemeEnds(head);
    }
    NoHostEnd(head, SchemeLength(head));
    assert head[..|head|] == head && head[|head|..] == [];
  }

  const HTTPS := "https://"

  lemma HttpsLength(rest: string)
    ensures SchemeLength(HTTPS + rest) == 8
  {
    var s := HTTPS + rest;
    assert s[5..8] == "://";
    assert forall i :: 0 <= i < 5 ==> SCHEME_CHARS(s[i]);
    assert !SCHEME_CHARS(s[5]);
    RunStops(s, SCHEME_CHARS, 5);
  }

  /** Cutting and dropping a `www.` leave the scheme at the front. */
  lemma HttpsStays(v: string)
    requires HTTPS <= v
    ensures HTTPS <= HostAndRest(v).0 && HTTPS <= DropWww(v)
  {
    assert v == HTTPS + v[8..];
    HttpsLength(v[8..]);
    SplitIsExact(v);
    var head := HostAndRest(v).0;
    assert head == v[..|head|];
  }

  /** Adding or changing the scheme gives `https://`, as long as no slashes are trimmed afterwards. */
  lemma SchemeTakesEffect(text: string, changes: set<Change>)
    requires Scheme in changes || (Https in changes && StartsWith(text, "http://"))
    requires Slash !in changes
    ensures HTTPS <= ApplyChanges(text, changes)
  {
    var v := WithScheme(text, changes);
    HttpsStays(v);
    HttpsStays(if Path in changes then HostAndRest(v).0 else v);
  }

  /** Without the `www.` change: what follows the host is gone, and so are slashes at the end. */
  lemma CutsTakeEffect(text: string, changes: set<Change>)
    requires Www !in changes
    ensures Path in changes && Slash !in changes ==> HostAndRest(ApplyChanges(text, changes)).1 == []
    ensures Slash in changes ==>
              var v := ApplyChanges(text, changes); v == [] || v[|v| - 1] != '/'
  {
    var v := WithScheme(text, changes);
    HeadHasNoRest(v);
    TrimmedIsExact(if Path in changes then HostAndRest(v).0 else v);
  }

  /** Whether a change applies to the text at all. */
  predicate IsPossible(text: string, c: Change) {
    match c
    case Scheme => !HasScheme(text)
    case Https => StartsWith(text, "http://")
    case Path => exists i :: 0 <= i < |HostAndRest(text).1| && HostAndRest(text).1[i] != '/'
    case Slash => text != [] && text[|text| - 1] == '/'
    case Www => DropWww(text) != text
  }

  function Possible(text: string, order: seq<Change>): seq<Change> {
    if order == [] then []
    else (if IsPossible(text, order[0]) then [order[0]] else []) + Possible(text, order[1..])
  }

  /** The changes at the bits set in `mask`, in order. */
  function Chosen(possible: seq<Change>, mask: nat): seq<Change> {
    if possible == [] then []
    else (if mask % 2 == 1 then [possible[0]] else []) + Chosen(possible[1..], mask / 2)
  }

  function MaskOf(possible: seq<Change>, changes: set<Change>): nat {
    if possible == [] then 0
    else (if possible[0] in changes then 1 else 0) + 2 * MaskOf(possible[1..], changes)
  }

  function Pow2(n: nat): nat {
    if n == 0 then 1 else 2 * Pow2(n - 1)
  }

  function SetOf(changes: seq<Change>): set<Change> {
    set c | c in changes
  }

  ghost predicate Distinct(changes: seq<Change>) {
    forall i, j :: 0 <= i < j < |changes| ==> changes[i] != changes[j]
  }

  /** Every set of possible changes is the choice of its mask. */
  lemma {:induction false} MaskChooses(possible: seq<Change>, changes: set<Change>)
    requires Distinct(possible) && forall c :: c in changes ==> c in possible
    ensures MaskOf(possible, changes) < Pow2(|possible|)
    ensures SetOf(Chosen(possible, MaskOf(possible, changes))) == changes
  {
    if possible == [] {
      assert changes == {};
    } else {
      var head, rest := possible[0], possible[1..];
      var others := changes - {head};
      OthersInRest(possible, changes);
      MaskChooses(rest, others);
      MaskWithout(rest, changes, head);
      MaskStep(possible, changes);
      SetOfPrepend(head, Chosen(rest, MaskOf(rest, others)));
    }
  }

  lemma OthersInRest(possible: seq<Change>, changes: set<Change>)
    requires possible != [] && Distinct(possible) && forall c :: c in changes ==> c in possible
    ensures possible[0] !in possible[1..] && Distinct(possible[1..])
    ensures forall c :: c in changes - {possible[0]} ==> c in possible[1..]
  {
    forall c | c in changes - {possible[0]}
      ensures c in possible[1..]
    {
      var i :| 0 <= i < |possible| && possible[i] == c;
      assert possible[1..][i - 1] == c;
    }
  }

  lemma MaskStep(possible: seq<Change>, changes: set<Change>)
    requires possible != []
    ensures var m := MaskOf(possible, changes);
            && m / 2 == MaskOf(possible[1..], changes)
            && Chosen(possible, m) ==
                 (if possible[0] in changes then [possible[0]] else [])
                  + Chosen(possible[1..], MaskOf(possible[1..], changes))
  {
  }

  lemma SetOfPrepend(c: Change, changes: seq<Change>)
    ensures SetOf([c] + changes) == {c} + SetOf(changes)
    ensures SetOf([] + changes) == SetOf(changes)
  {
  }

  lemma {:induction false} MaskWithout(possible: seq<Change>, changes: set<Change>, c: Change)
    requires c !in possible
    ensures MaskOf(possible, changes) == MaskOf(possible, changes - {c})
  {
    if possible != [] {
      MaskWithout(possible[1..], changes, c);
    }
  }

  /** What a mask chooses is in the list, and nothing is chosen twice. */
  lemma {:induction false} ChosenIsDistinct(possible: seq<Change>, mask: nat)
    requires Distinct(possible)
    ensures forall c :: c in Chosen(possible, mask) ==> c in possible
    ensures |SetOf(Chosen(possible, mask))| == |Chosen(possible, mask)|
  {
    if possible != [] {
      var chosen := Chosen(possible[1..], mask / 2);
      ChosenIsDistinct(possible[1..], mask / 2);
      SetOfPrepend(possible[0], chosen);
      assert possible[0] !in possible[1..];
    }
  }

  /** The mask can be read back from its choice. */
  lemma {:induction false} MaskOfChosen(possible: seq<Change>, mask: nat)
    requires Distinct(possible) && mask < Pow2(|possible|)
    ensures MaskOf(possible, SetOf(Chosen(possible, mask))) == mask
  {
    if possible != [] {
      var head, rest := possible[0], possible[1..];
      var chosen := Chosen(rest, mask / 2);
      MaskOfChosen(rest, mask / 2);
      ChosenIsDistinct(rest, mask / 2);
      assert head !in rest;
      SetOfPrepend(head, chosen);
      MaskWithout(rest, {head} + SetOf(chosen), head);
      assert {head} + SetOf(chosen) - {head} == SetOf(chosen);
    }
  }

  lemma {:induction false} PossibleIsDistinct(text: string, order: seq<Change>)
    requires Distinct(order)
    ensures Distinct(Possible(text, order))
    ensures forall c :: c in Possible(text, order) <==> c in order && IsPossible(text, c)
  {
    if order != [] {
      PossibleIsDistinct(text, order[1..]);
    }
  }

  lemma {:induction false} Pow2Positive(n: nat)
    ensures Pow2(n) >= 1
  {
    if n > 0 {
      Pow2Positive(n - 1);
    }
  }

  // ----- the order of the trials

  /** The choices of the masks from 1 up to `hi`, which is not included. */
  function Subsets(possible: seq<Change>, hi: nat): (r: seq<seq<Change>>)
    ensures |r| == (if hi == 0 then 0 else hi - 1) && forall i :: 0 <= i < |r| ==> r[i] == Chosen(possible, i + 1)
  {
    if hi <= 1 then [] else Subsets(possible, hi - 1) + [Chosen(possible, hi - 1)]
  }

  const FEWER := (a: seq<Change>, b: seq<Change>) => |a| < |b|

  function Earlier(possible: seq<Change>): (seq<Change>, seq<Change>) -> bool {
    (a: seq<Change>, b: seq<Change>) => MaskOf(possible, SetOf(a)) < MaskOf(possible, SetOf(b))
  }

  function Trials(possible: seq<Change>): seq<seq<Change>> {
    Sorting.Sort(FEWER, Subsets(possible, Pow2(|possible|)))
  }

  lemma TrialsAreInOrder(possible: seq<Change>)
    requires Distinct(possible)
    ensures Sorting.SortedThen(FEWER, Earlier(possible), Trials(possible))
  {
    var n := Pow2(|possible|);
    var subsets := Subsets(possible, n);
    forall i, j | 0 <= i < j < |subsets|
      ensures Earlier(possible)(subsets[i], subsets[j])
    {
      MaskOfChosen(possible, i + 1);
      MaskOfChosen(possible, j + 1);
    }
    Sorting.SortIsStable(FEWER, Earlier(possible), subsets);
  }

  /** Every choice is tried. */
  lemma EveryChoiceIsTried(possible: seq<Change>, changes: set<Change>)
    requires Distinct(possible) && changes != {} && forall c :: c in changes ==> c in possible
    ensures Chosen(possible, MaskOf(possible, changes)) in Trials(possible)
  {
    var mask := MaskOf(possible, changes);
    MaskChooses(possible, changes);
    if mask == 0 {
      ZeroChoosesNothing(possible);
      SetOfNothing();
    } else {
      ChosenIsTried(possible, mask);
    }
  }

  lemma ChosenIsTried(possible: seq<Change>, mask: nat)
    requires 1 <= mask < Pow2(|possible|)
    ensures Chosen(possible, mask) in Trials(possible)
  {
    var subsets := Subsets(possible, Pow2(|possible|));
    assert subsets[mask - 1] == Chosen(possible, mask);
    Sorting.SortKeepsMember(FEWER, subsets, Chosen(possible, mask));
  }

  lemma SetOfNothing()
    ensures SetOf([]) == {}
  {
  }

  lemma {:induction false} ZeroChoosesNothing(possible: seq<Change>)
    ensures Chosen(possible, 0) == []
  {
    if possible != [] {
      ZeroChoosesNothing(possible[1..]);
    }
  }

  /** What a mask other than 0 chooses. */
  lemma ChosenIsChoice(possible: seq<Change>, mask: nat)
    requires Distinct(possible) && 1 <= mask < Pow2(|possible|)
    ensures var trial := Chosen(possible, mask);
            && SetOf(trial) != {} && (forall c :: c in SetOf(trial) ==> c in possible)
            && |SetOf(trial)| == |trial| && MaskOf(possible, SetOf(trial)) == mask
  {
    MaskOfChosen(possible, mask);
    ChosenIsDistinct(possible, mask);
    MaskOfNothing(possible);
  }

  /** Only choices are tried. */
  lemma TrialIsChoice(possible: seq<Change>, trial: seq<Change>)
    requires Distinct(possible) && trial in Trials(possible)
    ensures SetOf(trial) != {} && forall c :: c in SetOf(trial) ==> c in possible
    ensures |SetOf(trial)| == |trial|
  {
    Sorting.SortKeepsMember(FEWER, Subsets(possible, Pow2(|possible|)), trial);
    var mask := MaskOfSubset(possible, Pow2(|possible|), trial);
    ChosenIsChoice(possible, mask);
  }

  lemma {:induction false} MaskOfSubset(possible: seq<Change>, hi: nat, trial: seq<Change>) returns (mask: nat)
    requires trial in Subsets(possible, hi)
    ensures 1 <= mask < hi && trial == Chosen(possible, mask)
  {
    if trial == Chosen(possible, hi - 1) {
      mask := hi - 1;
    } else {
      mask := MaskOfSubset(possible, hi - 1, trial);
    }
  }

  lemma {:induction false} MaskOfNothing(possible: seq<Change>)
    ensures MaskOf(possible, {}) == 0
  {
    if possible != [] {
      MaskOfNothing(possible[1..]);
    }
  }

  // ----- the fix

  /** The changes give another text, one the pattern accepts. */
  predicate Works(accepts: string -> bool, text: string, changes: set<Change>) {
    ApplyChanges(text, changes) != text && accepts(ApplyChanges(text, changes))
  }

  /** Only an address without spaces that the pattern refuses is looked at. */
  predicate IsConsidered(accepts: string -> bool, text: string) {
    && text != [] && !HasSpace(text) && !accepts(text)
    && (HasScheme(text) || IsBareAddress(text))
  }

  datatype Fix = NoFix | Fix(value: string, changes: seq<Change>, removed: Option<string>)

  /** A set of possible changes, not empty. */
  ghost predicate IsChoice(possible: seq<Change>, changes: set<Change>) {
    changes != {} && forall c :: c in changes ==> c in possible
  }

  /** `fix` is tried no later than `changes`: fewer changes first, then the smaller mask. */
  ghost predicate NoLater(possible: seq<Change>, fix: set<Change>, changes: set<Change>) {
    || |fix| < |changes|
    || (|fix| == |changes| && MaskOf(possible, fix) <= MaskOf(possible, changes))
  }

  /** The changes work, and no later than any other choice that works. */
  ghost predicate IsBest(accepts: string -> bool, text: string, possible: seq<Change>, changes: set<Change>) {
    && IsChoice(possible, changes) && Works(accepts, text, changes)
    && forall others :: IsChoice(possible, others) && Works(accepts, text, others) ==>
         NoLater(possible, changes, others)
  }

  ghost predicate NothingWorks(accepts: string -> bool, text: string, possible: seq<Change>) {
    forall changes :: IsChoice(possible, changes) ==> !Works(accepts, text, changes)
  }

  /** What the fix for a considered text promises. */
  ghost predicate IsFix(accepts: string -> bool, text: string, possible: seq<Change>, fix: Fix) {
    match fix
    case NoFix => NothingWorks(accepts, text, possible)
    case Fix(value, changes, removed) =>
      && IsBest(accepts, text, possible, SetOf(changes))
      && value == ApplyChanges(text, SetOf(changes))
      && removed == if Path in changes then Some(HostAndRest(text).1) else None
  }

  /** No trial before the `i`-th works. */
  ghost predicate NoneBefore(accepts: string -> bool, text: string, trials: seq<seq<Change>>, i: nat)
    requires i <= |trials|
  {
    forall j :: 0 <= j < i ==> !Works(accepts, text, SetOf(trials[j]))
  }

  lemma PossibleChanges(text: string)
    ensures Distinct(Possible(text, CHANGE_ORDER))
    ensures forall c :: c in Possible(text, CHANGE_ORDER) <==> IsPossible(text, c)
  {
    PossibleIsDistinct(text, CHANGE_ORDER);
    forall c: Change
      ensures c in CHANGE_ORDER
    {
      var k := match c case Scheme => 0 case Https => 1 case Slash => 2 case Www => 3 case Path => 4;
      assert CHANGE_ORDER[k] == c;
    }
  }

  /** A choice is among the trials. */
  lemma TrialOf(possible: seq<Change>, changes: set<Change>) returns (k: nat)
    requires Distinct(possible) && IsChoice(possible, changes)
    ensures k < |Trials(possible)| && SetOf(Trials(possible)[k]) == changes
  {
    EveryChoiceIsTried(possible, changes);
    MaskChooses(possible, changes);
    k :| 0 <= k < |Trials(possible)| && Trials(possible)[k] == Chosen(possible, MaskOf(possible, changes));
  }

  /** Of two trials the first one is no later. */
  lemma TrialsAreNoLater(possible: seq<Change>, i: nat, k: nat)
    requires Distinct(possible) && i <= k < |Trials(possible)|
    ensures NoLater(possible, SetOf(Trials(possible)[i]), SetOf(Trials(possible)[k]))
  {
    var a, b := Trials(possible)[i], Trials(possible)[k];
    TrialIsChoice(possible, a);
    TrialIsChoice(possible, b);
    if i < k {
      TrialsAreInOrder(possible);
      assert FEWER(a, b) || (!FEWER(b, a) && Earlier(possible)(a, b));
    }
  }

  /** The first trial that works is the best choice. */
  lemma FirstIsBest(accepts: string -> bool, text: string, possible: seq<Change>, i: nat)
    requires Distinct(possible)
    requires i < |Trials(possible)| && NoneBefore(accepts, text, Trials(possible), i)
    requires Works(accepts, text, SetOf(Trials(possible)[i]))
    ensures IsBest(accepts, text, possible, SetOf(Trials(possible)[i]))
  {
    TrialIsChoice(possible, Trials(possible)[i]);
    forall others | IsChoice(possible, others) && Works(accepts, text, others)
      ensures NoLater(possible, SetOf(Trials(possible)[i]), others)
    {
      var k := TrialOf(possible, others);
      TrialsAreNoLater(possible, i, k);
    }
  }

  /** There is only one best choice. */
  lemma BestIsUnique(accepts: string -> bool, text: string, possible: seq<Change>, a: set<Change>, b: set<Change>)
    requires Distinct(possible) && IsBest(accepts, text, possible, a) && IsBest(accepts, text, possible, b)
    ensures a == b
  {
    assert NoLater(possible, a, b) && NoLater(possible, b, a);
    SameMask(possible, a, b);
  }

  lemma SameMask(possible: seq<Change>, a: set<Change>, b: set<Change>)
    requires Distinct(possible) && IsChoice(possible, a) && IsChoice(possible, b)
    requires MaskOf(possible, a) == MaskOf(possible, b)
    ensures a == b
  {
    MaskChooses(possible, a);
    MaskChooses(possible, b);
  }

  /** Where no trial works, no choice does. */
  lemma NoTrialNoChoice(accepts: string -> bool, text: string, possible: seq<Change>)
    requires Distinct(possible) && NoneBefore(accepts, text, Trials(possible), |Trials(possible)|)
    ensures NothingWorks(accepts, text, possible)
  {
    forall changes | IsChoice(possible, changes)
      ensures !Works(accepts, text, changes)
    {
      var k := TrialOf(possible, changes);
    }
  }

  /** Every combination, fewest changes first. */
  method Combinations(possible: seq<Change>) returns (trials: seq<seq<Change>>)
    ensures trials == Trials(possible)
  {
    var subsets := [];
    var mask := 1;
    Pow2Positive(|possible|);
    while mask < Pow2(|possible|)
      invariant 1 <= mask <= Pow2(|possible|)
      invariant subsets == Subsets(possible, mask)
    {
      subsets := subsets + [Chosen(possible, mask)];
      mask := mask + 1;
    }
    return Sorting.Sort(FEWER, subsets);
  }

  /** The first combination that works. */
  method FirstThatWorks(accepts: string -> bool, text: string, trials: seq<seq<Change>>) returns (i: nat)
    ensures i <= |trials| && NoneBefore(accepts, text, trials, i)
    ensures i < |trials| ==> Works(accepts, text, SetOf(trials[i]))
  {
    i := 0;
    while i < |trials|
      invariant i <= |trials| && NoneBefore(accepts, text, trials, i)
    {
      if Works(accepts, text, SetOf(trials[i])) {
        return;
      }
      i := i + 1;
    }
  }

  method FirstFix(accepts: string -> bool, text: string, possible: seq<Change>) returns (fix: Fix)
    requires Distinct(possible)
    ensures IsFix(accepts, text, possible, fix)
  {
    var _, rest := SplitHost(text);
    var trials := Combinations(possible);
    var i := FirstThatWorks(accepts, text, trials);
    if i == |trials| {
      NoTrialNoChoice(accepts, text, possible);
      return NoFix;
    }
    FirstIsBest(accepts, text, possible, i);
    var changes := trials[i];
    return Fix(ApplyChanges(text, SetOf(changes)), changes, if Path in changes then Some(rest) else None);
  }

  /** The smallest set of changes that the pattern accepts, if there is one. */
  method AddressFix(accepts: string -> bool, value: string) returns (fix: Fix)
    ensures !IsConsidered(accepts, Trim(value)) ==> fix == NoFix
    ensures IsConsidered(accepts, Trim(value)) ==>
              IsFix(accepts, Trim(value), Possible(Trim(value), CHANGE_ORDER), fix)
  {
    var text := Trim(value);
    if text == [] || HasSpace(text) || accepts(text) {
      return NoFix;
    }
    if !HasScheme(text) && !IsBareAddress(text) {
      return NoFix;
    }
    PossibleChanges(text);
    fix := FirstFix(accepts, text, Possible(text, CHANGE_ORDER));
  }
}
