/**
 Filtering, searching and flattening of lists.

 These are the array methods the search and the merge are written with; the lemmas say
 which elements come out.
 */
module Lists {
  import opened Options

  function Filter<T(!new)>(s: seq<T>, keep: T -> bool): (r: seq<T>)
    ensures |r| <= |s|
    ensures forall x :: x in r <==> x in s && keep(x)
  {
    if s == [] then [] else (if keep(s[0]) then [s[0]] else []) + Filter(s[1..], keep)
  }

  function Find<T>(s: seq<T>, want: T -> bool): (r: Option<T>)
    ensures r.Some? ==> r.value in s && want(r.value)
    ensures r.None? ==> forall x :: x in s ==> !want(x)
  {
    if s == [] then None else if want(s[0]) then Some(s[0]) else Find(s[1..], want)
  }

  /** The elements of `s` in their order, each the first time it occurs. */
  function Unique<T(==)>(s: seq<T>): (r: seq<T>)
    ensures forall i, j :: 0 <= i < j < |r| ==> r[i] != r[j]
  {
    if s == [] then []
    else
      var init := Unique(s[..|s| - 1]);
      if s[|s| - 1] in init then init else init + [s[|s| - 1]]
  }

  lemma {:induction false} InUnique<T>(s: seq<T>, x: T)
    ensures x in Unique(s) <==> x in s
  {
    if s != [] {
      InUnique(s[..|s| - 1], x);
      assert s == s[..|s| - 1] + [s[|s| - 1]];
    }
  }

  /** The results for the first `n` elements, one after the other. */
  function FlatMap<T, U>(s: seq<T>, n: nat, f: T -> seq<U>): seq<U>
    requires n <= |s|
  {
    if n == 0 then [] else FlatMap(s, n - 1, f) + f(s[n - 1])
  }

  lemma {:induction false} InFlatMap<T, U>(s: seq<T>, n: nat, f: T -> seq<U>, i: nat, u: U)
    requires i < n <= |s| && u in f(s[i])
    ensures u in FlatMap(s, n, f)
  {
    if i < n - 1 {
      InFlatMap(s, n - 1, f, i, u);
    }
  }

  lemma {:induction false} FromFlatMap<T, U>(s: seq<T>, n: nat, f: T -> seq<U>, u: U) returns (i: nat)
    requires n <= |s| && u in FlatMap(s, n, f)
    ensures i < n && u in f(s[i])
  {
    if u in f(s[n - 1]) {
      i := n - 1;
    } else {
      i := FromFlatMap(s, n - 1, f, u);
    }
  }
}
