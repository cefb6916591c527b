/**
 JavaScript strings: UTF-16 code units, with or without lone surrogates.

 A string is well-formed when every surrogate has its partner next to it; only then do its
 scalars encode to UTF-8 and come back as they were.
 */
module Utf16 {
  import opened Unicode

  type Unit = u: int | 0 <= u < 0x1_0000

  predicate IsHigh(u: Unit) {
    0xD800 <= u < 0xDC00
  }

  predicate IsLow(u: Unit) {
    0xDC00 <= u < 0xE000
  }

  /** A surrogate pair starts the string. */
  predicate StartsPair(s: seq<Unit>) {
    |s| > 1 && IsHigh(s[0]) && IsLow(s[1])
  }

  predicate StartsLone(s: seq<Unit>) {
    |s| > 0 && (IsHigh(s[0]) || IsLow(s[0])) && !StartsPair(s)
  }

  /** How many units the first character takes. */
  function HeadLength(s: seq<Unit>): (n: nat)
    requires s != []
    ensures 0 < n <= |s|
  {
    if StartsPair(s) then 2 else 1
  }

  ghost predicate WellFormed(s: seq<Unit>) {
    s != [] ==> !StartsLone(s) && WellFormed(s[HeadLength(s)..])
  }

  function Combine(high: Unit, low: Unit): Scalar
    requires IsHigh(high) && IsLow(low)
  {
    0x1_0000 + (high - 0xD800) * 0x400 + (low - 0xDC00)
  }

  function HeadScalar(s: seq<Unit>): Scalar
    requires s != []
  {
    if StartsPair(s) then Combine(s[0], s[1]) else if StartsLone(s) then REPLACEMENT else s[0]
  }

  /** The characters of a string, as an encoder sees them: a lone surrogate is replaced. */
  function Scalars(s: seq<Unit>): seq<Scalar> {
    if s == [] then [] else [HeadScalar(s)] + Scalars(s[HeadLength(s)..])
  }

  function CharUnits(c: Scalar): seq<Unit> {
    if c < 0x1_0000 then [c] else [0xD800 + (c - 0x1_0000) / 0x400, 0xDC00 + (c - 0x1_0000) % 0x400]
  }

  function Units(s: seq<Scalar>): seq<Unit> {
    if s == [] then [] else CharUnits(s[0]) + Units(s[1..])
  }

  /** `Buffer.byteLength(s, 'utf8')` */
  function ByteLength(s: seq<Unit>): nat {
    |Encode(Scalars(s))|
  }

  lemma {:induction false} UnitsOfScalars(s: seq<Unit>)
    requires WellFormed(s)
    ensures Units(Scalars(s)) == s
    decreases |s|
  {
    if s != [] {
      UnitsOfScalars(s[HeadLength(s)..]);
      assert s == s[..HeadLength(s)] + s[HeadLength(s)..];
      assert CharUnits(HeadScalar(s)) == s[..HeadLength(s)];
    }
  }

  lemma {:induction false} UnitsConcat(a: seq<Scalar>, b: seq<Scalar>)
    ensures Units(a + b) == Units(a) + Units(b)
  {
    if a == [] {
      assert a + b == b;
    } else {
      var ab := a + b;
      assert ab[0] == a[0] && ab[1..] == a[1..] + b;
      UnitsConcat(a[1..], b);
    }
  }

  /** After a well-formed string the next one is read on its own. */
  lemma {:induction false} ConcatWellFormed(a: seq<Unit>, b: seq<Unit>)
    requires WellFormed(a)
    ensures Scalars(a + b) == Scalars(a) + Scalars(b)
    ensures WellFormed(b) ==> WellFormed(a + b)
    decreases |a|
  {
    if a == [] {
      assert a + b == b;
    } else {
      ConcatWellFormed(a[HeadLength(a)..], b);
      HeadOfConcat(a, b);
      Prepend(HeadScalar(a), Scalars(a[HeadLength(a)..]), Scalars(b));
    }
  }

  lemma HeadOfConcat(a: seq<Unit>, b: seq<Unit>)
    requires a != [] && !StartsLone(a)
    ensures HeadLength(a + b) == HeadLength(a) && HeadScalar(a + b) == HeadScalar(a) && !StartsLone(a + b)
    ensures (a + b)[HeadLength(a)..] == a[HeadLength(a)..] + b
  {
    assert (a + b)[0] == a[0] && (|a| > 1 ==> (a + b)[1] == a[1]);
  }

  lemma Prepend<T>(x: T, s: seq<T>, t: seq<T>)
    ensures [x] + (s + t) == [x] + s + t
  {
  }

  lemma ByteLengthConcat(a: seq<Unit>, b: seq<Unit>)
    requires WellFormed(a)
    ensures ByteLength(a + b) == ByteLength(a) + ByteLength(b)
  {
    ConcatWellFormed(a, b);
    EncodeConcat(Scalars(a), Scalars(b));
  }

  lemma {:induction false} AsciiIsWellFormed(s: seq<Unit>)
    requires forall i :: 0 <= i < |s| ==> s[i] < 0x80
    ensures WellFormed(s) && ByteLength(s) == |s|
  {
    if s != [] {
      AsciiIsWellFormed(s[1..]);
    }
  }

  lemma CharUnitsRead(c: Scalar, rest: seq<Unit>)
    ensures var s := CharUnits(c) + rest;
            !StartsLone(s) && HeadLength(s) == |CharUnits(c)| && HeadScalar(s) == c
  {
  }

  /** The units of characters are well-formed, and stand for these characters. */
  lemma {:induction false} ScalarsOfUnits(s: seq<Scalar>)
    ensures WellFormed(Units(s)) && Scalars(Units(s)) == s
  {
    if s != [] {
      var rest := Units(s[1..]);
      ScalarsOfUnits(s[1..]);
      CharUnitsRead(s[0], rest);
      assert (CharUnits(s[0]) + rest)[|CharUnits(s[0])|..] == rest;
    }
  }

  // ----- units and bytes

  /** By how much the UTF-8 bytes of a string outnumber its units. */
  function Excess(s: seq<Unit>): nat {
    if s == [] then 0 else HeadExcess(s) + Excess(s[HeadLength(s)..])
  }

  /** 0 for ASCII, 1 up to U+07FF, 2 for any other unit and for a pair. */
  function HeadExcess(s: seq<Unit>): nat
    requires s != []
  {
    if s[0] < 0x80 then 0 else if s[0] < 0x800 then 1 else 2
  }

  lemma HeadTakes(s: seq<Unit>)
    requires s != []
    ensures Width(HeadScalar(s)) == HeadLength(s) + HeadExcess(s) <= 3 * HeadLength(s)
  {
  }

  ghost predicate IsAscii(s: seq<Unit>) {
    forall i :: 0 <= i < |s| ==> s[i] < 0x80
  }

  /** At least a byte a unit, and exactly that for ASCII only; at most three. */
  lemma {:induction false} BytesOfUnits(s: seq<Unit>)
    ensures ByteLength(s) == |s| + Excess(s) <= 3 * |s|
    ensures Excess(s) == 0 <==> IsAscii(s)
    decreases |s|
  {
    if s != [] {
      HeadTakes(s);
      BytesOfUnits(s[HeadLength(s)..]);
      AsciiHead(s);
    }
  }

  /** What stays within a limit in units stays within it in bytes exactly when the excess fits as well. */
  lemma LimitOfUnits(s: seq<Unit>, limit: nat)
    requires |s| <= limit
    ensures ByteLength(s) <= limit <==> |s| + Excess(s) <= limit
    ensures ByteLength(s) <= 3 * limit
  {
    BytesOfUnits(s);
    assert 3 * |s| <= 3 * limit;
  }

  lemma AsciiHead(s: seq<Unit>)
    requires s != []
    ensures IsAscii(s) <==> s[0] < 0x80 && IsAscii(s[HeadLength(s)..])
  {
    var n := HeadLength(s);
    assert s == s[..n] + s[n..];
    if s[0] < 0x80 && IsAscii(s[n..]) {
      assert n == 1;
      forall i | 0 <= i < |s|
        ensures s[i] < 0x80
      {
        assert i > 0 ==> s[i] == s[n..][i - 1];
      }
    }
  }
}
