/** Words within a typo or two. What `Osa` computes is said without it: the least cost of an edit script. */
module EditDistance {

  datatype Step =
    | Keep(c: char)
    | Insert(c: char)
    | Delete(c: char)
    | Substitute(c: char, d: char)
    | Swap(c: char, d: char)
  {
    function Consumed(): string {
      match this
      case Keep(c) => [c]
      case Insert(_) => []
      case Delete(c) => [c]
      case Substitute(c, _) => [c]
      case Swap(c, d) => [c, d]
    }

    function Produced(): string {
      match this
      case Keep(c) => [c]
      case Insert(c) => [c]
      case Delete(_) => []
      case Substitute(_, d) => [d]
      case Swap(c, d) => [d, c]
    }

    function Cost(): nat {
      if Keep? then 0 else 1
    }

    function Undo(): Step {
      match this
      case Keep(c) => Keep(c)
      case Insert(c) => Delete(c)
      case Delete(c) => Insert(c)
      case Substitute(c, d) => Substitute(d, c)
      case Swap(c, d) => Swap(d, c)
    }
  }

  type Script = seq<Step>

  function Source(s: Script): string {
    if s == [] then [] else Source(s[..|s| - 1]) + s[|s| - 1].Consumed()
  }

  function Target(s: Script): string {
    if s == [] then [] else Target(s[..|s| - 1]) + s[|s| - 1].Produced()
  }

  function Cost(s: Script): nat {
    if s == [] then 0 else Cost(s[..|s| - 1]) + s[|s| - 1].Cost()
  }

  ghost predicate Turns(s: Script, a: string, b: string) {
    Source(s) == a && Target(s) == b
  }

  ghost predicate IsLeastCost(a: string, b: string, d: nat) {
    && (exists s :: Turns(s, a, b) && Cost(s) == d)
    && (forall s :: Turns(s, a, b) ==> d <= Cost(s))
  }

  function Min(x: nat, y: nat): nat {
    if x <= y then x else y
  }

  /** The distance between the first `i` letters of `a` and the first `j` of `b`. */
  function Osa(a: string, b: string, i: nat, j: nat): nat
    requires i <= |a| && j <= |b|
    decreases i + j
  {
    if i == 0 then j
    else if j == 0 then i
    else
      var cost := if a[i - 1] == b[j - 1] then 0 else 1;
      var d := Min(Min(Osa(a, b, i - 1, j) + 1, Osa(a, b, i, j - 1) + 1), Osa(a, b, i - 1, j - 1) + cost);
      if i > 1 && j > 1 && a[i - 1] == b[j - 2] && a[i - 2] == b[j - 1]
      then Min(d, Osa(a, b, i - 2, j - 2) + 1)
      else d
  }

  function Distance(a: string, b: string): nat {
    Osa(a, b, |a|, |b|)
  }

  // ----- the recurrence is the least cost over all edit scripts

  /** Appending a step to a script appends what it consumes and produces. */
  lemma Extend(s: Script, step: Step)
    ensures Source(s + [step]) == Source(s) + step.Consumed()
    ensures Target(s + [step]) == Target(s) + step.Produced()
    ensures Cost(s + [step]) == Cost(s) + step.Cost()
  {
    assert (s + [step])[..|s|] == s;
  }

  /** `step` consumes what `a` holds from `i` on and produces what `b` holds from `j` on. */
  ghost predicate Fits(step: Step, a: string, b: string, i: nat, j: nat) {
    && i + |step.Consumed()| <= |a|
    && j + |step.Produced()| <= |b|
    && match step {
         case Keep(c) => a[i] == c == b[j]
         case Insert(c) => b[j] == c
         case Delete(c) => a[i] == c
         case Substitute(c, d) => a[i] == c && b[j] == d
         case Swap(c, d) => a[i] == c == b[j + 1] && a[i + 1] == d == b[j]
       }
  }

  lemma FitsMeansPieces(step: Step, a: string, b: string, i: nat, j: nat)
    requires i + |step.Consumed()| <= |a| && j + |step.Produced()| <= |b|
    ensures Fits(step, a, b, i, j) <==>
            && step.Consumed() == a[i..i + |step.Consumed()|]
            && step.Produced() == b[j..j + |step.Produced()|]
  {
    var x, y := a[i..i + |step.Consumed()|], b[j..j + |step.Produced()|];
    assert |x| > 0 ==> x[0] == a[i];
    assert |y| > 0 ==> y[0] == b[j];
    assert |x| > 1 ==> x[1] == a[i + 1];
    assert |y| > 1 ==> y[1] == b[j + 1];
  }

  lemma CellBounds(a: string, b: string, i: nat, j: nat)
    requires 0 < i <= |a| && 0 < j <= |b|
    ensures Osa(a, b, i, j) <= Osa(a, b, i - 1, j) + 1
    ensures Osa(a, b, i, j) <= Osa(a, b, i, j - 1) + 1
    ensures Osa(a, b, i, j) <= Osa(a, b, i - 1, j - 1) + if a[i - 1] == b[j - 1] then 0 else 1
    ensures i > 1 && j > 1 && a[i - 1] == b[j - 2] && a[i - 2] == b[j - 1]
            ==> Osa(a, b, i, j) <= Osa(a, b, i - 2, j - 2) + 1
  {
  }

  /** One step never costs less than the recurrence charges for it. */
  lemma StepIsCharged(step: Step, a: string, b: string, i: nat, j: nat, i': nat, j': nat)
    requires i' == i + |step.Consumed()| && j' == j + |step.Produced()|
    requires Fits(step, a, b, i, j)
    ensures Osa(a, b, i', j') <= Osa(a, b, i, j) + step.Cost()
  {
    if i' == 0 || j' == 0 {
      assert Osa(a, b, i', j') == Osa(a, b, i, j) + 1;
    } else {
      CellBounds(a, b, i', j');
      assert i == i' || i == i' - 1 || i == i' - 2;
      assert j == j' || j == j' - 1 || j == j' - 2;
    }
  }

  lemma ConcatIsPrefix(a: string, i: nat, x: string, y: string)
    requires i <= |a| && a[..i] == x + y
    ensures |y| <= i && x == a[..i - |y|] && y == a[i - |y|..i]
  {
    assert a[..i - |y|] == a[..i][..|x|] && a[i - |y|..i] == a[..i][|x|..];
  }

  lemma LastStepFits(s: Script, a: string, b: string, i: nat, j: nat)
    requires i <= |a| && j <= |b| && s != [] && Turns(s, a[..i], b[..j])
    ensures |s[|s| - 1].Consumed()| <= i && |s[|s| - 1].Produced()| <= j
    ensures Fits(s[|s| - 1], a, b, i - |s[|s| - 1].Consumed()|, j - |s[|s| - 1].Produced()|)
    ensures Turns(s[..|s| - 1], a[..i - |s[|s| - 1].Consumed()|], b[..j - |s[|s| - 1].Produced()|])
  {
    LastStepSplits(s, a, b, i, j);
    PiecesFit(s[|s| - 1], a, b, i, j);
  }

  lemma PiecesFit(step: Step, a: string, b: string, i: nat, j: nat)
    requires |step.Consumed()| <= i <= |a| && step.Consumed() == a[i - |step.Consumed()|..i]
    requires |step.Produced()| <= j <= |b| && step.Produced() == b[j - |step.Produced()|..j]
    ensures Fits(step, a, b, i - |step.Consumed()|, j - |step.Produced()|)
  {
    FitsMeansPieces(step, a, b, i - |step.Consumed()|, j - |step.Produced()|);
  }

  lemma LastStepSplits(s: Script, a: string, b: string, i: nat, j: nat)
    requires i <= |a| && j <= |b| && s != [] && Turns(s, a[..i], b[..j])
    ensures var x, y := s[|s| - 1].Consumed(), s[|s| - 1].Produced();
            && |x| <= i && x == a[i - |x|..i]
            && |y| <= j && y == b[j - |y|..j]
            && Turns(s[..|s| - 1], a[..i - |x|], b[..j - |y|])
  {
    ConcatIsPrefix(a, i, Source(s[..|s| - 1]), s[|s| - 1].Consumed());
    ConcatIsPrefix(b, j, Target(s[..|s| - 1]), s[|s| - 1].Produced());
  }

  lemma {:induction false} NoScriptIsCheaper(s: Script, a: string, b: string, i: nat, j: nat)
    requires i <= |a| && j <= |b| && Turns(s, a[..i], b[..j])
    ensures Osa(a, b, i, j) <= Cost(s)
    decreases |s|
  {
    if s != [] {
      LastStepFits(s, a, b, i, j);
      var step := s[|s| - 1];
      NoScriptIsCheaper(s[..|s| - 1], a, b, i - |step.Consumed()|, j - |step.Produced()|);
      StepIsCharged(step, a, b, i - |step.Consumed()|, j - |step.Produced()|, i, j);
    } else {
      assert a[..i] == [] && b[..j] == [];
    }
  }

  /** Some last step is charged exactly. */
  lemma SomeStepIsExact(a: string, b: string, i: nat, j: nat) returns (step: Step, i': nat, j': nat)
    requires i <= |a| && j <= |b| && i + j > 0
    ensures i == i' + |step.Consumed()| && j == j' + |step.Produced()| && i' + j' < i + j
    ensures Fits(step, a, b, i', j')
    ensures Osa(a, b, i, j) == Osa(a, b, i', j') + step.Cost()
  {
    if j == 0 {
      step, i', j' := Delete(a[i - 1]), i - 1, j;
    } else if i == 0 {
      step, i', j' := Insert(b[j - 1]), i, j - 1;
    } else {
      step, i', j' := ExactInnerStep(a, b, i, j);
    }
  }

  lemma CellIsAttained(a: string, b: string, i: nat, j: nat)
    requires 0 < i <= |a| && 0 < j <= |b|
    ensures var d := Osa(a, b, i, j);
            || d == Osa(a, b, i - 1, j) + 1
            || d == Osa(a, b, i, j - 1) + 1
            || (a[i - 1] == b[j - 1] && d == Osa(a, b, i - 1, j - 1))
            || d == Osa(a, b, i - 1, j - 1) + 1
            || (i > 1 && j > 1 && a[i - 1] == b[j - 2] && a[i - 2] == b[j - 1] && d == Osa(a, b, i - 2, j - 2) + 1)
  {
  }

  lemma ExactInnerStep(a: string, b: string, i: nat, j: nat) returns (step: Step, i': nat, j': nat)
    requires 0 < i <= |a| && 0 < j <= |b|
    ensures i == i' + |step.Consumed()| && j == j' + |step.Produced()| && i' + j' < i + j
    ensures Fits(step, a, b, i', j')
    ensures Osa(a, b, i, j) == Osa(a, b, i', j') + step.Cost()
  {
    var d := Osa(a, b, i, j);
    CellIsAttained(a, b, i, j);
    if d == Osa(a, b, i - 1, j) + 1 {
      step, i', j' := Delete(a[i - 1]), i - 1, j;
    } else if d == Osa(a, b, i, j - 1) + 1 {
      step, i', j' := Insert(b[j - 1]), i, j - 1;
    } else if a[i - 1] == b[j - 1] && d == Osa(a, b, i - 1, j - 1) {
      step, i', j' := Keep(a[i - 1]), i - 1, j - 1;
    } else if d == Osa(a, b, i - 1, j - 1) + 1 {
      step, i', j' := Substitute(a[i - 1], b[j - 1]), i - 1, j - 1;
    } else {
      step, i', j' := Swap(a[i - 2], a[i - 1]), i - 2, j - 2;
    }
  }

  lemma Extended(s: Script, step: Step, a: string, b: string, i: nat, j: nat)
    requires Fits(step, a, b, i, j) && Turns(s, a[..i], b[..j])
    ensures Turns(s + [step], a[..i + |step.Consumed()|], b[..j + |step.Produced()|])
    ensures Cost(s + [step]) == Cost(s) + step.Cost()
  {
    Extend(s, step);
    FitsMeansPieces(step, a, b, i, j);
    assert a[..i + |step.Consumed()|] == a[..i] + a[i..i + |step.Consumed()|];
    assert b[..j + |step.Produced()|] == b[..j] + b[j..j + |step.Produced()|];
  }

  lemma {:induction false} SomeScriptAttains(a: string, b: string, i: nat, j: nat) returns (s: Script)
    requires i <= |a| && j <= |b|
    ensures Turns(s, a[..i], b[..j]) && Cost(s) == Osa(a, b, i, j)
    decreases i + j
  {
    if i + j == 0 {
      s := [];
    } else {
      var step, i', j' := SomeStepIsExact(a, b, i, j);
      s := SomeScriptAttains(a, b, i', j');
      Extended(s, step, a, b, i', j');
      s := s + [step];
    }
  }

  lemma DistanceIsLeastCost(a: string, b: string)
    ensures IsLeastCost(a, b, Distance(a, b))
  {
    assert a[..|a|] == a && b[..|b|] == b;
    var best := SomeScriptAttains(a, b, |a|, |b|);
    forall s | Turns(s, a, b)
      ensures Distance(a, b) <= Cost(s)
    {
      NoScriptIsCheaper(s, a, b, |a|, |b|);
    }
  }

  // ----- what follows from the scripts

  function Undone(s: Script): Script {
    if s == [] then [] else Undone(s[..|s| - 1]) + [s[|s| - 1].Undo()]
  }

  lemma UndoTurnsBack(step: Step)
    ensures step.Undo().Consumed() == step.Produced() && step.Undo().Produced() == step.Consumed()
    ensures step.Undo().Cost() == step.Cost()
  {
  }

  lemma {:induction false} UndoneTurnsBack(s: Script)
    ensures Turns(Undone(s), Target(s), Source(s)) && Cost(Undone(s)) == Cost(s)
  {
    if s != [] {
      UndoneTurnsBack(s[..|s| - 1]);
      Extend(Undone(s[..|s| - 1]), s[|s| - 1].Undo());
      UndoTurnsBack(s[|s| - 1]);
    }
  }

  lemma {:induction false} CostBoundsLengths(s: Script)
    ensures |Source(s)| <= |Target(s)| + Cost(s) && |Target(s)| <= |Source(s)| + Cost(s)
    ensures Cost(s) == 0 ==> Source(s) == Target(s)
  {
    if s != [] {
      CostBoundsLengths(s[..|s| - 1]);
    }
  }

  lemma AtMostReversed(a: string, b: string)
    ensures Distance(a, b) <= Distance(b, a)
  {
    DistanceIsLeastCost(b, a);
    var s :| Turns(s, b, a) && Cost(s) == Distance(b, a);
    UndoneTurnsBack(s);
    DistanceIsLeastCost(a, b);
  }

  lemma DistanceIsSymmetric(a: string, b: string)
    ensures Distance(a, b) == Distance(b, a)
  {
    AtMostReversed(a, b);
    AtMostReversed(b, a);
  }

  lemma DistanceBoundsLengths(a: string, b: string)
    ensures |a| <= |b| + Distance(a, b) && |b| <= |a| + Distance(a, b)
  {
    DistanceIsLeastCost(a, b);
    var s :| Turns(s, a, b) && Cost(s) == Distance(a, b);
    CostBoundsLengths(s);
  }

  lemma ZeroOnlyWhenEqual(a: string, b: string)
    ensures Distance(a, b) == 0 <==> a == b
  {
    DistanceIsLeastCost(a, b);
    var s :| Turns(s, a, b) && Cost(s) == Distance(a, b);
    CostBoundsLengths(s);
    if a == b {
      var free := KeepAll(a);
      assert Distance(a, b) <= Cost(free);
    }
  }

  lemma {:induction false} KeepAll(a: string) returns (s: Script)
    ensures Turns(s, a, a) && Cost(s) == 0
  {
    if a == [] {
      s := [];
    } else {
      var last := Keep(a[|a| - 1]);
      s := KeepAll(a[..|a| - 1]);
      Extend(s, last);
      s := s + [last];
      assert a[..|a| - 1] + [a[|a| - 1]] == a;
    }
  }

  // ----- the early exit on the row minimum

  ghost predicate RowAbove(a: string, b: string, i: nat, max: nat)
    requires i <= |a|
  {
    forall j: nat :: j <= |b| ==> CellAbove(a, b, i, j, max)
  }

  ghost predicate CellAbove(a: string, b: string, i: nat, j: nat, max: nat)
    requires i <= |a| && j <= |b|
  {
    Osa(a, b, i, j) > max
  }

  /**
   A row wholly above the bound keeps the next row above it. A swap reads the row before
   that one, but a cell there is at most one below its diagonal neighbour in the full row.
   */
  lemma {:induction false} NextCellAbove(a: string, b: string, i: nat, j: nat, max: nat)
    requires i < |a| && j <= |b| && RowAbove(a, b, i, max)
    ensures CellAbove(a, b, i + 1, j, max)
    decreases j
  {
    assert CellAbove(a, b, i, j, max);
    if j > 0 {
      NextCellAbove(a, b, i, j - 1, max);
      assert CellAbove(a, b, i, j - 1, max);
    }
  }

  lemma {:induction false} LaterRowsAbove(a: string, b: string, i: nat, k: nat, max: nat)
    requires i <= k <= |a| && RowAbove(a, b, i, max)
    ensures RowAbove(a, b, k, max)
    decreases k - i
  {
    if i < k {
      var next := i + 1;
      forall j: nat | j <= |b|
        ensures CellAbove(a, b, next, j, max)
      {
        NextCellAbove(a, b, i, j, max);
      }
      LaterRowsAbove(a, b, i + 1, k, max);
    }
  }

  ghost predicate IsRow(row: seq<nat>, a: string, b: string, i: nat)
    requires i <= |a|
  {
    |row| <= |b| + 1 && forall j: nat :: j < |row| ==> row[j] == Osa(a, b, i, j)
  }

  /** The next cell, from the row in progress, the row before it and the one before that. */
  function NextCell(a: string, b: string, prev2: seq<nat>, prev: seq<nat>, cur: seq<nat>, i: nat, j: nat): nat
    requires 0 < i <= |a| && 0 < j <= |b|
    requires |prev| == |b| + 1 && |cur| == j && (i > 1 ==> |prev2| == |b| + 1)
  {
    var cost := if a[i - 1] == b[j - 1] then 0 else 1;
    var d := Min(Min(prev[j] + 1, cur[j - 1] + 1), prev[j - 1] + cost);
    if i > 1 && j > 1 && a[i - 1] == b[j - 2] && a[i - 2] == b[j - 1]
    then Min(d, prev2[j - 2] + 1)
    else d
  }

  lemma NextCellExtendsRow(a: string, b: string, prev2: seq<nat>, prev: seq<nat>, cur: seq<nat>, i: nat, j: nat)
    requires 0 < i <= |a| && 0 < j <= |b|
    requires |prev| == |b| + 1 && |cur| == j && (i > 1 ==> |prev2| == |b| + 1)
    requires IsRow(prev, a, b, i - 1) && IsRow(cur, a, b, i) && (i > 1 ==> IsRow(prev2, a, b, i - 2))
    ensures IsRow(cur + [NextCell(a, b, prev2, prev, cur, i, j)], a, b, i)
  {
    assert NextCell(a, b, prev2, prev, cur, i, j) == Osa(a, b, i, j);
  }

  lemma FirstRow(a: string, b: string, row: seq<nat>)
    requires |row| == |b| + 1 && forall j: nat :: j < |row| ==> row[j] == j
    ensures IsRow(row, a, b, 0)
  {
  }

  lemma RowMinimumEndsSearch(a: string, b: string, cur: seq<nat>, i: nat, rowMin: nat, max: nat)
    requires i <= |a| && |cur| == |b| + 1 && IsRow(cur, a, b, i)
    requires rowMin > max && forall k: nat :: k < |cur| ==> rowMin <= cur[k]
    ensures Distance(a, b) > max
  {
    forall j: nat | j <= |b|
      ensures CellAbove(a, b, i, j, max)
    {
      assert cur[j] == Osa(a, b, i, j);
    }
    LaterRowsAbove(a, b, i, |a|, max);
    assert CellAbove(a, b, |a|, |b|, max);
  }

  /**
   The distance when it is at most `max`, and some value above `max` otherwise. Two full
   rows and the row before them are kept; three exits stop early.
   */
  method BoundedDistance(a: string, b: string, max: nat) returns (r: nat)
    ensures Distance(a, b) <= max ==> r == Distance(a, b)
    ensures Distance(a, b) > max ==> r > max
  {
    DistanceBoundsLengths(a, b);
    ZeroOnlyWhenEqual(a, b);
    if |a| - |b| > max || |b| - |a| > max {
      return max + 1;
    }
    if a == b {
      return 0;
    }
    var prev2: seq<nat> := [];
    var prev: seq<nat> := seq(|b| + 1, j requires 0 <= j => j);
    FirstRow(a, b, prev);
    for i := 1 to |a| + 1
      invariant |prev| == |b| + 1 && IsRow(prev, a, b, i - 1)
      invariant i > 1 ==> |prev2| == |b| + 1 && IsRow(prev2, a, b, i - 2)
    {
      var cur: seq<nat> := [i];
      var rowMin := i;
      for j := 1 to |b| + 1
        invariant |cur| == j && IsRow(cur, a, b, i)
        invariant forall k: nat :: k < j ==> rowMin <= cur[k]
      {
        NextCellExtendsRow(a, b, prev2, prev, cur, i, j);
        var d := NextCell(a, b, prev2, prev, cur, i, j);
        cur := cur + [d];
        if d < rowMin {
          rowMin := d;
        }
      }
      if rowMin > max {
        RowMinimumEndsSearch(a, b, cur, i, rowMin, max);
        return max + 1;
      }
      prev2 := prev;
      prev := cur;
    }
    return prev[|b|];
  }
}
