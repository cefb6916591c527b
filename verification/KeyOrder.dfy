/** The order JavaScript keeps the fields of an object in: array indices by number, then names by code unit. */
module KeyOrder {
  import opened Fingerprint
  import opened Json
  import opened Utf16

  function Pow10(n: nat): (p: nat)
    ensures p > 0
  {
    if n == 0 then 1 else 10 * Pow10(n - 1)
  }

  ghost predicate AreDigits(s: seq<Unit>) {
    forall i :: 0 <= i < |s| ==> IsDigit(s[i])
  }

  /** The number a row of digits stands for. */
  function Value(digits: seq<Unit>): int {
    if digits == [] then 0 else (digits[0] - 48) * Pow10(|digits| - 1) + Value(digits[1..])
  }

  lemma TimesGrows(x: int, y: int, p: nat)
    requires x <= y
    ensures x * p <= y * p
  {
  }

  lemma OneMoreTimes(x: int, p: nat)
    ensures (x + 1) * p == x * p + p
  {
  }

  lemma {:induction false} ValueIsBounded(s: seq<Unit>)
    requires AreDigits(s)
    ensures 0 <= Value(s) < Pow10(|s|)
  {
    if s != [] {
      ValueIsBounded(s[1..]);
      TimesGrows(0, s[0] - 48, Pow10(|s| - 1));
      TimesGrows(s[0] - 48, 9, Pow10(|s| - 1));
    }
  }

  lemma ValueAtLeast(s: seq<Unit>)
    requires s != [] && AreDigits(s) && s[0] != 48
    ensures Value(s) >= Pow10(|s| - 1)
  {
    ValueIsBounded(s[1..]);
    TimesGrows(1, s[0] - 48, Pow10(|s| - 1));
  }

  lemma {:induction false} Pow10Grows(m: nat, n: nat)
    requires m <= n
    ensures Pow10(m) <= Pow10(n)
  {
    if m < n {
      Pow10Grows(m, n - 1);
    }
  }

  lemma ShorterIsLess(a: seq<Unit>, b: seq<Unit>)
    requires AreDigits(a) && AreDigits(b) && |a| < |b| && b[0] != 48
    ensures Value(a) < Value(b)
  {
    ValueIsBounded(a);
    ValueAtLeast(b);
    Pow10Grows(|a|, |b| - 1);
  }

  lemma LessByHead(a: seq<Unit>, b: seq<Unit>)
    requires AreDigits(a) && AreDigits(b) && |a| == |b| > 0 && a[0] < b[0]
    ensures Value(a) < Value(b)
  {
    var p := Pow10(|a| - 1);
    ValueIsBounded(a[1..]);
    ValueIsBounded(b[1..]);
    TimesGrows(a[0] - 47, b[0] - 48, p);
    OneMoreTimes(a[0] - 48, p);
  }

  lemma {:induction false} LexIsLess(a: seq<Unit>, b: seq<Unit>)
    requires AreDigits(a) && AreDigits(b) && |a| == |b|
    ensures Lex(a, b) <==> Value(a) < Value(b)
  {
    if a != [] {
      if a[0] < b[0] {
        LessByHead(a, b);
      } else if b[0] < a[0] {
        LessByHead(b, a);
      } else {
        LexIsLess(a[1..], b[1..]);
      }
    }
  }

  lemma LessExactly(a: seq<Unit>, b: seq<Unit>)
    requires IsIndex(a) && IsIndex(b)
    ensures |a| < |b| || (|a| == |b| && Lex(a, b)) <==> Value(a) < Value(b)
  {
    if |a| < |b| {
      ShorterIsLess(a, b);
    } else if |b| < |a| {
      ShorterIsLess(b, a);
    } else {
      LexIsLess(a, b);
    }
  }

  lemma LastIndexValue()
    ensures AreDigits(LAST_INDEX) && Value(LAST_INDEX) == 4294967294
  {
    assert Pow10(0) == 1 && Pow10(1) == 10 && Pow10(2) == 100 && Pow10(3) == 1000;
    assert Pow10(4) == 10000 && Pow10(5) == 100000 && Pow10(6) == 1000000;
    assert Pow10(7) == 10000000 && Pow10(8) == 100000000 && Pow10(9) == 1000000000;
    var s := LAST_INDEX;
    assert Value(s[10..]) == 0;
    assert Value(s[9..]) == 4 by { assert s[9..][1..] == s[10..]; }
    assert Value(s[8..]) == 94 by { assert s[8..][1..] == s[9..]; }
    assert Value(s[7..]) == 294 by { assert s[7..][1..] == s[8..]; }
    assert Value(s[6..]) == 7294 by { assert s[6..][1..] == s[7..]; }
    assert Value(s[5..]) == 67294 by { assert s[5..][1..] == s[6..]; }
    assert Value(s[4..]) == 967294 by { assert s[4..][1..] == s[5..]; }
    assert Value(s[3..]) == 4967294 by { assert s[3..][1..] == s[4..]; }
    assert Value(s[2..]) == 94967294 by { assert s[2..][1..] == s[3..]; }
    assert Value(s[1..]) == 294967294 by { assert s[1..][1..] == s[2..]; }
  }

  /** An array index is a number below 2^32 - 1, written without leading zeros. */
  lemma IndexExactly(k: seq<Unit>)
    ensures IsIndex(k) <==>
            k != [] && AreDigits(k) && (k[0] == 48 ==> |k| == 1) && Value(k) < 0x1_0000_0000 - 1
  {
    LastIndexValue();
    if k != [] && AreDigits(k) && (k[0] == 48 ==> |k| == 1) {
      if |k| < 10 {
        ShorterIsLess(k, LAST_INDEX);
      } else if |k| > 10 {
        ShorterIsLess(LAST_INDEX, k);
      } else {
        LexIsLess(LAST_INDEX, k);
      }
    }
  }

  /** The texts agree before place `n`, where `a` ends or has the smaller unit. */
  ghost predicate PartAt(a: seq<Unit>, b: seq<Unit>, n: nat) {
    n < |b| && n <= |a| && a[..n] == b[..n] && (n == |a| || a[n] < b[n])
  }

  lemma {:induction false} LexParts(a: seq<Unit>, b: seq<Unit>) returns (n: nat)
    requires Lex(a, b)
    ensures PartAt(a, b, n)
  {
    if a == [] || a[0] != b[0] {
      n := 0;
    } else {
      var m := LexParts(a[1..], b[1..]);
      n := m + 1;
      assert a[..n] == [a[0]] + a[1..][..m] && b[..n] == [b[0]] + b[1..][..m];
    }
  }

  lemma {:induction false} PartIsLex(a: seq<Unit>, b: seq<Unit>, n: nat)
    requires PartAt(a, b, n)
    ensures Lex(a, b)
    decreases n
  {
    if n > 0 {
      assert a[0] == a[..n][0] == b[..n][0] == b[0];
      assert a[1..][..n - 1] == a[..n][1..] && b[1..][..n - 1] == b[..n][1..];
      PartIsLex(a[1..], b[1..], n - 1);
    }
  }

  lemma LexExactly(a: seq<Unit>, b: seq<Unit>)
    ensures Lex(a, b) <==> exists n: nat :: PartAt(a, b, n)
  {
    if Lex(a, b) {
      var n := LexParts(a, b);
    }
    if n: nat :| PartAt(a, b, n) {
      PartIsLex(a, b, n);
    }
  }

  /** Indices come first, by number; other names by their code units. */
  lemma KeyOrderExactly(a: seq<Unit>, b: seq<Unit>)
    ensures IsIndex(a) && IsIndex(b) ==> (KeyBefore(a, b) <==> Value(a) < Value(b))
    ensures IsIndex(a) && !IsIndex(b) ==> KeyBefore(a, b) && !KeyBefore(b, a)
    ensures !IsIndex(a) && !IsIndex(b) ==> (KeyBefore(a, b) <==> exists n: nat :: PartAt(a, b, n))
  {
    if IsIndex(a) && IsIndex(b) {
      LessExactly(a, b);
    } else {
      LexExactly(a, b);
    }
  }
}
