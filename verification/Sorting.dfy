/**
 The stable sort of JavaScript arrays, for a comparator given as "comes strictly before".

 A comparator need not tell all elements apart: those it ties keep the order they came in.
 Where it ties none, the members of a list determine the sorted list.
 */
module Sorting {

  /** `x` goes behind everything it does not come strictly before. */
  function Insert<T>(before: (T, T) -> bool, sorted: seq<T>, x: T): seq<T> {
    if sorted == [] then [x]
    else if before(x, sorted[|sorted| - 1]) then Insert(before, sorted[..|sorted| - 1], x) + [sorted[|sorted| - 1]]
    else sorted + [x]
  }

  function Sort<T>(before: (T, T) -> bool, s: seq<T>): seq<T> {
    if s == [] then [] else Insert(before, Sort(before, s[..|s| - 1]), s[|s| - 1])
  }

  /** A comparator whose negative answers are consistent: ties are allowed. */
  ghost predicate IsOrder<T(!new)>(before: (T, T) -> bool) {
    && (forall x, y :: before(x, y) ==> !before(y, x))
    && (forall x, y, z :: before(x, y) && !before(z, y) ==> before(x, z))
  }

  ghost predicate Sorted<T>(before: (T, T) -> bool, s: seq<T>) {
    forall i, j :: 0 <= i < j < |s| ==> !before(s[j], s[i])
  }

  lemma {:induction false} InsertPermutes<T>(before: (T, T) -> bool, sorted: seq<T>, x: T)
    ensures multiset(Insert(before, sorted, x)) == multiset(sorted) + multiset{x}
    decreases |sorted|
  {
    if sorted != [] && before(x, sorted[|sorted| - 1]) {
      InsertPermutes(before, sorted[..|sorted| - 1], x);
      assert sorted == sorted[..|sorted| - 1] + [sorted[|sorted| - 1]];
    }
  }

  lemma {:induction false} SortPermutes<T>(before: (T, T) -> bool, s: seq<T>)
    ensures multiset(Sort(before, s)) == multiset(s) && |Sort(before, s)| == |s|
    decreases |s|
  {
    if s != [] {
      SortPermutes(before, s[..|s| - 1]);
      InsertPermutes(before, Sort(before, s[..|s| - 1]), s[|s| - 1]);
      assert s == s[..|s| - 1] + [s[|s| - 1]];
    }
    assert |multiset(Sort(before, s))| == |multiset(s)|;
  }

  lemma SortKeepsMembers<T>(before: (T, T) -> bool, s: seq<T>)
    ensures forall x :: x in Sort(before, s) <==> x in s
  {
    SortPermutes(before, s);
    forall x
      ensures x in Sort(before, s) <==> x in s
    {
      assert x in Sort(before, s) <==> x in multiset(Sort(before, s));
      assert x in s <==> x in multiset(s);
    }
  }

  lemma SortKeepsMember<T>(before: (T, T) -> bool, s: seq<T>, x: T)
    ensures x in Sort(before, s) <==> x in s
  {
    SortPermutes(before, s);
    assert x in Sort(before, s) <==> x in multiset(Sort(before, s));
    assert x in s <==> x in multiset(s);
  }

  lemma {:induction false} InsertSorts<T(!new)>(before: (T, T) -> bool, sorted: seq<T>, x: T)
    requires IsOrder(before) && Sorted(before, sorted)
    ensures Sorted(before, Insert(before, sorted, x))
    decreases |sorted|
  {
    if sorted != [] {
      var init, last := sorted[..|sorted| - 1], sorted[|sorted| - 1];
      if before(x, last) {
        InsertSorts(before, init, x);
        InsertMembers(before, init, x);
      } else {
        assert forall i :: 0 <= i < |sorted| ==> !before(x, sorted[i]);
      }
    }
  }

  lemma {:induction false} InsertMembers<T>(before: (T, T) -> bool, sorted: seq<T>, x: T)
    ensures |Insert(before, sorted, x)| == |sorted| + 1
    ensures forall i :: 0 <= i <= |sorted| ==>
              Insert(before, sorted, x)[i] == x || Insert(before, sorted, x)[i] in sorted
    decreases |sorted|
  {
    if sorted != [] && before(x, sorted[|sorted| - 1]) {
      InsertMembers(before, sorted[..|sorted| - 1], x);
    }
  }

  lemma {:induction false} SortSorts<T(!new)>(before: (T, T) -> bool, s: seq<T>)
    requires IsOrder(before)
    ensures Sorted(before, Sort(before, s))
    decreases |s|
  {
    if s != [] {
      SortSorts(before, s[..|s| - 1]);
      InsertSorts(before, Sort(before, s[..|s| - 1]), s[|s| - 1]);
    }
  }

  /** Ordered by `before`, and among ties by `first`. */
  ghost predicate SortedThen<T>(before: (T, T) -> bool, first: (T, T) -> bool, s: seq<T>) {
    forall i, j :: 0 <= i < j < |s| ==> before(s[i], s[j]) || (!before(s[j], s[i]) && first(s[i], s[j]))
  }

  lemma {:induction false} InsertIsStable<T(!new)>(before: (T, T) -> bool, first: (T, T) -> bool, sorted: seq<T>, x: T)
    requires IsOrder(before) && SortedThen(before, first, sorted)
    requires forall y :: y in sorted ==> first(y, x)
    ensures SortedThen(before, first, Insert(before, sorted, x))
    decreases |sorted|
  {
    if sorted != [] {
      var init, last := sorted[..|sorted| - 1], sorted[|sorted| - 1];
      if before(x, last) {
        InsertIsStable(before, first, init, x);
        InsertMembers(before, init, x);
        assert forall y :: y in init ==> exists i :: 0 <= i < |init| && init[i] == y && sorted[i] == y;
      } else {
        assert forall i :: 0 <= i < |sorted| ==> !before(x, sorted[i]) && sorted[i] in sorted;
      }
    }
  }

  /** The sort is stable: an order the input already had decides between ties. */
  lemma {:induction false} SortIsStable<T(!new)>(before: (T, T) -> bool, first: (T, T) -> bool, s: seq<T>)
    requires IsOrder(before)
    requires forall i, j :: 0 <= i < j < |s| ==> first(s[i], s[j])
    ensures SortedThen(before, first, Sort(before, s))
    decreases |s|
  {
    if s != [] {
      var init := s[..|s| - 1];
      SortIsStable(before, first, init);
      SortKeepsMembers(before, init);
      forall y | y in Sort(before, init)
        ensures first(y, s[|s| - 1])
      {
        var i :| 0 <= i < |init| && init[i] == y;
        assert s[i] == y;
      }
      InsertIsStable(before, first, Sort(before, init), s[|s| - 1]);
    }
  }

  // ----- a sorted list without ties is determined by its members

  ghost predicate StrictlySorted<T>(before: (T, T) -> bool, s: seq<T>) {
    forall i, j :: 0 <= i < j < |s| ==> before(s[i], s[j])
  }

  lemma LastIsGreatest<T(!new)>(before: (T, T) -> bool, s: seq<T>, x: T)
    requires StrictlySorted(before, s) && x in s
    ensures x == s[|s| - 1] || before(x, s[|s| - 1])
  {
    var i :| 0 <= i < |s| && s[i] == x;
  }

  lemma MultisetOfInit<T>(s: seq<T>)
    requires s != []
    ensures multiset(s[..|s| - 1]) == multiset(s) - multiset{s[|s| - 1]}
  {
    assert s == s[..|s| - 1] + [s[|s| - 1]];
  }

  lemma SameLast<T(!new)>(before: (T, T) -> bool, a: seq<T>, b: seq<T>)
    requires IsOrder(before) && StrictlySorted(before, a) && StrictlySorted(before, b)
    requires a != [] && b != [] && multiset(a) == multiset(b)
    ensures a[|a| - 1] == b[|b| - 1]
    ensures multiset(a[..|a| - 1]) == multiset(b[..|b| - 1])
  {
    var x, y := a[|a| - 1], b[|b| - 1];
    assert x in multiset(b) && y in multiset(a);
    LastIsGreatest(before, a, y);
    LastIsGreatest(before, b, x);
    MultisetOfInit(a);
    MultisetOfInit(b);
  }

  lemma {:induction false} StrictlySortedIsUnique<T(!new)>(before: (T, T) -> bool, a: seq<T>, b: seq<T>)
    requires IsOrder(before) && StrictlySorted(before, a) && StrictlySorted(before, b)
    requires multiset(a) == multiset(b)
    ensures a == b
    decreases |a|
  {
    assert |a| == |multiset(a)| == |multiset(b)| == |b|;
    if a != [] {
      var init, init' := a[..|a| - 1], b[..|b| - 1];
      SameLast(before, a, b);
      StrictlySortedIsUnique(before, init, init');
      assert a == init + [a[|a| - 1]] && b == init' + [b[|b| - 1]];
    }
  }

  // ----- sorting and mapping

  function Map<T, U>(f: T -> U, s: seq<T>): (r: seq<U>)
    ensures |r| == |s| && forall i :: 0 <= i < |s| ==> r[i] == f(s[i])
  {
    if s == [] then [] else Map(f, s[..|s| - 1]) + [f(s[|s| - 1])]
  }

  lemma {:induction false} InsertMapped<T(!new)>(before: (T, T) -> bool, f: T -> T, sorted: seq<T>, x: T)
    requires forall a, b :: before(f(a), f(b)) == before(a, b)
    ensures Insert(before, Map(f, sorted), f(x)) == Map(f, Insert(before, sorted, x))
    decreases |sorted|
  {
    if sorted != [] {
      var init, last := sorted[..|sorted| - 1], sorted[|sorted| - 1];
      assert Map(f, sorted)[..|sorted| - 1] == Map(f, init);
      if before(x, last) {
        InsertMapped(before, f, init, x);
        var t := Insert(before, init, x) + [last];
        assert t[..|t| - 1] == Insert(before, init, x);
      } else {
        assert (sorted + [x])[..|sorted|] == sorted;
      }
    } else {
      assert [x][..0] == [];
    }
  }

  /** A map the comparator cannot see may be applied before or after sorting. */
  lemma {:induction false} SortMapped<T(!new)>(before: (T, T) -> bool, f: T -> T, s: seq<T>)
    requires forall a, b :: before(f(a), f(b)) == before(a, b)
    ensures Sort(before, Map(f, s)) == Map(f, Sort(before, s))
    decreases |s|
  {
    if s != [] {
      var init := s[..|s| - 1];
      assert Map(f, s)[..|s| - 1] == Map(f, init);
      SortMapped(before, f, init);
      InsertMapped(before, f, Sort(before, init), s[|s| - 1]);
    }
  }

  /** Without ties or repetitions, sorting leaves no freedom: permutations sort alike. */
  lemma PermutationsSortAlike<T(!new)>(before: (T, T) -> bool, s: seq<T>, t: seq<T>)
    requires IsOrder(before) && multiset(s) == multiset(t)
    requires forall i, j :: 0 <= i < j < |s| ==> before(s[i], s[j]) || before(s[j], s[i])
    ensures Sort(before, s) == Sort(before, t)
  {
    SortsStrictly(before, s);
    SortPermutes(before, s);
    SortPermutes(before, t);
    SortSorts(before, t);
    SortedPermutationIsStrict(before, Sort(before, s), Sort(before, t));
    StrictlySortedIsUnique(before, Sort(before, s), Sort(before, t));
  }

  lemma SortsStrictly<T(!new)>(before: (T, T) -> bool, s: seq<T>)
    requires IsOrder(before)
    requires forall i, j :: 0 <= i < j < |s| ==> before(s[i], s[j]) || before(s[j], s[i])
    ensures StrictlySorted(before, Sort(before, s))
  {
    SortIsStable(before, (x, y) => before(x, y) || before(y, x), s);
  }

  lemma SortedPermutationIsStrict<T(!new)>(before: (T, T) -> bool, strict: seq<T>, s: seq<T>)
    requires IsOrder(before) && StrictlySorted(before, strict) && Sorted(before, s)
    requires multiset(strict) == multiset(s)
    ensures StrictlySorted(before, s)
  {
    forall i, j | 0 <= i < j < |s|
      ensures before(s[i], s[j])
    {
      assert s[i] in multiset(s) && s[j] in multiset(s);
      assert s[i] in multiset(strict) && s[j] in multiset(strict);
      var k :| 0 <= k < |strict| && strict[k] == s[i];
      var l :| 0 <= l < |strict| && strict[l] == s[j];
      if k == l {
        Repeated(s, i, j);
        OccursOnce(before, strict, k);
      }
    }
  }

  lemma Repeated<T>(s: seq<T>, i: nat, j: nat)
    requires i < j < |s| && s[i] == s[j]
    ensures multiset(s)[s[i]] > 1
  {
    assert s == s[..j] + [s[j]] + s[j + 1..];
    assert s[i] in s[..j];
  }

  lemma OccursOnce<T(!new)>(before: (T, T) -> bool, s: seq<T>, k: nat)
    requires IsOrder(before) && StrictlySorted(before, s) && k < |s|
    ensures multiset(s)[s[k]] == 1
  {
    assert s == s[..k] + [s[k]] + s[k + 1..];
    assert s[k] !in s[..k] && s[k] !in s[k + 1..];
  }

  // ----- ties

  function CountIf<T>(p: T -> bool, s: seq<T>): nat {
    if s == [] then 0 else CountIf(p, s[..|s| - 1]) + if p(s[|s| - 1]) then 1 else 0
  }

  lemma {:induction false} CountConcat<T>(p: T -> bool, a: seq<T>, b: seq<T>)
    ensures CountIf(p, a + b) == CountIf(p, a) + CountIf(p, b)
    decreases |b|
  {
    if b == [] {
      assert a + b == a;
    } else {
      CountConcat(p, a, b[..|b| - 1]);
      assert (a + b)[..|a + b| - 1] == a + b[..|b| - 1];
    }
  }

  lemma CountOne<T>(p: T -> bool, x: T)
    ensures CountIf(p, [x]) == if p(x) then 1 else 0
  {
    assert [x][..0] == [];
  }

  lemma SplitAround<T>(t: seq<T>, j: nat)
    requires j < |t|
    ensures t == t[..j] + ([t[j]] + t[j + 1..])
    ensures multiset(t[..j] + t[j + 1..]) == multiset(t) - multiset{t[j]}
  {
    assert t == t[..j] + ([t[j]] + t[j + 1..]);
    assert multiset(t) == multiset(t[..j]) + (multiset{t[j]} + multiset(t[j + 1..]));
  }

  /** How many elements satisfy a predicate does not depend on their order. */
  lemma {:induction false} CountPermutes<T>(p: T -> bool, s: seq<T>, t: seq<T>)
    requires multiset(s) == multiset(t)
    ensures CountIf(p, s) == CountIf(p, t)
    decreases |s|
  {
    if s == [] {
      assert |multiset(t)| == 0 && t == [];
    } else {
      var x := s[|s| - 1];
      assert x in multiset(t);
      var j :| 0 <= j < |t| && t[j] == x;
      MultisetOfInit(s);
      SplitAround(t, j);
      CountPermutes(p, s[..|s| - 1], t[..j] + t[j + 1..]);
      CountAround(p, t, j);
    }
  }

  lemma CountAround<T>(p: T -> bool, t: seq<T>, j: nat)
    requires j < |t|
    ensures CountIf(p, t) == CountIf(p, t[..j] + t[j + 1..]) + if p(t[j]) then 1 else 0
  {
    SplitAround(t, j);
    CountConcat(p, t[..j], [t[j]] + t[j + 1..]);
    CountConcat(p, [t[j]], t[j + 1..]);
    CountConcat(p, t[..j], t[j + 1..]);
    CountOne(p, t[j]);
  }

  lemma {:induction false} CountBounds<T>(p: T -> bool, s: seq<T>)
    ensures CountIf(p, s) <= |s|
    ensures (forall i :: 0 <= i < |s| ==> p(s[i])) ==> CountIf(p, s) == |s|
    ensures (forall i :: 0 <= i < |s| ==> !p(s[i])) ==> CountIf(p, s) == 0
    decreases |s|
  {
    if s != [] {
      CountBounds(p, s[..|s| - 1]);
    }
  }

  lemma CountAtLeast<T>(p: T -> bool, s: seq<T>, n: nat)
    requires n <= |s| && forall i :: 0 <= i < n ==> p(s[i])
    ensures CountIf(p, s) >= n
  {
    assert s == s[..n] + s[n..];
    CountConcat(p, s[..n], s[n..]);
    CountBounds(p, s[..n]);
  }

  lemma CountAtMost<T>(p: T -> bool, s: seq<T>, n: nat)
    requires n <= |s| && forall i :: n <= i < |s| ==> !p(s[i])
    ensures CountIf(p, s) <= n
  {
    assert s == s[..n] + s[n..];
    CountConcat(p, s[..n], s[n..]);
    CountBounds(p, s[..n]);
    CountBounds(p, s[n..]);
  }

  predicate Tied<T>(before: (T, T) -> bool, x: T, y: T) {
    !before(x, y) && !before(y, x)
  }

  lemma NotAhead<T(!new)>(before: (T, T) -> bool, s: seq<T>, t: seq<T>, i: nat)
    requires IsOrder(before) && Sorted(before, s) && Sorted(before, t) && multiset(s) == multiset(t)
    requires i < |s| && i < |t|
    ensures !before(s[i], t[i])
  {
    var p := (z: T) => !before(s[i], z);
    CountPermutes(p, s, t);
    CountAtLeast(p, s, i + 1);
    if before(s[i], t[i]) {
      CountAtMost(p, t, i);
    }
  }

  lemma SameLength<T>(s: seq<T>, t: seq<T>)
    requires multiset(s) == multiset(t)
    ensures |s| == |t|
  {
    assert |multiset(s)| == |multiset(t)|;
  }

  /** Sorted lists with the same members have tied elements at the same places. */
  lemma SortedPermutationsTie<T(!new)>(before: (T, T) -> bool, s: seq<T>, t: seq<T>)
    requires IsOrder(before) && Sorted(before, s) && Sorted(before, t) && multiset(s) == multiset(t)
    ensures |s| == |t| && forall i :: 0 <= i < |s| ==> Tied(before, s[i], t[i])
  {
    SameLength(s, t);
    forall i | 0 <= i < |s|
      ensures Tied(before, s[i], t[i])
    {
      NotAhead(before, s, t, i);
      NotAhead(before, t, s, i);
    }
  }

  /** `x` stands at `p`, behind exactly what comes strictly before it. */
  ghost predicate LeadsTies<T>(before: (T, T) -> bool, s: seq<T>, x: T, p: nat) {
    && p < |s| && s[p] == x
    && (forall i :: 0 <= i < p ==> before(s[i], x))
    && (forall i :: p <= i < |s| ==> !before(s[i], x))
  }

  lemma {:induction false} InsertKeepsLead<T(!new)>(before: (T, T) -> bool, s: seq<T>, x: T, p: nat, z: T)
    requires IsOrder(before) && LeadsTies(before, s, x, p)
    ensures LeadsTies(before, Insert(before, s, z), x, if before(z, x) then p + 1 else p)
    decreases |s|
  {
    var init, last := s[..|s| - 1], s[|s| - 1];
    if before(z, last) {
      if p < |s| - 1 {
        InsertKeepsLead(before, init, x, p, z);
      } else {
        InsertMembers(before, init, z);
        InsertIntoEarlier(before, init, x, z);
      }
    }
  }

  lemma InsertIntoEarlier<T(!new)>(before: (T, T) -> bool, s: seq<T>, x: T, z: T)
    requires (forall i :: 0 <= i < |s| ==> before(s[i], x)) && before(z, x)
    ensures forall i :: 0 <= i < |Insert(before, s, z)| ==> before(Insert(before, s, z)[i], x)
  {
    InsertMembers(before, s, z);
  }

  /** The first element of a list leads the elements tied with it when the list is sorted. */
  lemma {:induction false} FirstLeadsTies<T(!new)>(before: (T, T) -> bool, s: seq<T>) returns (p: nat)
    requires IsOrder(before) && s != []
    ensures LeadsTies(before, Sort(before, s), s[0], p)
    decreases |s|
  {
    if |s| == 1 {
      p := 0;
      assert s[..0] == [] && Sort(before, s) == [s[0]];
    } else {
      var q := FirstLeadsTies(before, s[..|s| - 1]);
      var z := s[|s| - 1];
      InsertKeepsLead(before, Sort(before, s[..|s| - 1]), s[0], q, z);
      p := if before(z, s[0]) then q + 1 else q;
    }
  }

  lemma LeadIsCount<T>(before: (T, T) -> bool, s: seq<T>, x: T, p: nat)
    requires LeadsTies(before, s, x, p)
    ensures CountIf((z: T) => before(z, x), s) == p
  {
    CountAtLeast((z: T) => before(z, x), s, p);
    CountAtMost((z: T) => before(z, x), s, p);
  }

  lemma {:induction false} CountSame<T>(p: T -> bool, q: T -> bool, s: seq<T>)
    requires forall i :: 0 <= i < |s| ==> p(s[i]) == q(s[i])
    ensures CountIf(p, s) == CountIf(q, s)
    decreases |s|
  {
    if s != [] {
      CountSame(p, q, s[..|s| - 1]);
    }
  }

  /** Of two tied elements, the one that comes first in the list takes the same place when it is sorted. */
  lemma TiedSwap<T(!new)>(before: (T, T) -> bool, x: T, y: T, others: seq<T>) returns (p: nat)
    requires IsOrder(before) && Tied(before, x, y)
    ensures var s, t := Sort(before, [x, y] + others), Sort(before, [y, x] + others);
            p < |s| && p < |t| && s[p] == x && t[p] == y
  {
    var a, b := [x, y] + others, [y, x] + others;
    var s, t := Sort(before, a), Sort(before, b);
    p := FirstLeadsTies(before, a);
    var q := FirstLeadsTies(before, b);
    SwapPermutes(x, y, others);
    SortPermutes(before, a);
    SortPermutes(before, b);
    LeadIsCount(before, s, x, p);
    LeadIsCount(before, t, y, q);
    CountPermutes((z: T) => before(z, y), s, t);
    CountSame((z: T) => before(z, x), (z: T) => before(z, y), s);
  }

  lemma SwapPermutes<T>(x: T, y: T, others: seq<T>)
    ensures multiset([x, y] + others) == multiset([y, x] + others)
  {
  }

  lemma TakeOut<T>(t: seq<T>, x: T) returns (rest: seq<T>)
    requires x in t
    ensures multiset(rest) == multiset(t) - multiset{x} && multiset([x] + rest) == multiset(t)
  {
    var i :| 0 <= i < |t| && t[i] == x;
    rest := t[..i] + t[i + 1..];
    SplitAround(t, i);
    assert x in multiset(t);
  }

  /** Two different members can be put in front of the others. */
  lemma TakeTwo<T>(t: seq<T>, x: T, y: T) returns (others: seq<T>)
    requires x in t && y in t && x != y
    ensures multiset([x, y] + others) == multiset(t)
  {
    var rest := TakeOut(t, x);
    assert y in multiset(t) && y in multiset(rest);
    others := TakeOut(rest, y);
    assert [x, y] + others == [x] + ([y] + others);
    assert multiset([x] + ([y] + others)) == multiset{x} + multiset([y] + others);
  }
}
