/** The supervisor's one decoder for output, diagnostics and other runs: what comes in between may garble a message. */
module SharedDecoder {
  import opened Unicode
  import opened Utf16
  import opened Json
  import opened LineProtocol

  // ----- what a decoder that was interrupted gives out

  /**
   The text of an output `s` whose first `k` bytes and whose rest come as two chunks, with a
   foreign chunk decoded in between.
   */
  function Interrupted(s: seq<Scalar>, k: nat, foreign: seq<Byte>): seq<Scalar>
    requires k <= |Encode(s)|
  {
    var first := Drain(Encode(s)[..k]);
    first.chars + Drain(HeldAfter(first.held, foreign) + Encode(s)[k..]).chars
  }

  /** Bytes a decoder may hold back: nothing, or a character cut short. */
  predicate IsHeld(bytes: seq<Byte>) {
    bytes == [] || Scan(bytes).CutShort?
  }

  lemma {:induction false} HeldIsHeld(bytes: seq<Byte>)
    ensures IsHeld(Drain(bytes).held)
    decreases |bytes|
  {
    if bytes != [] && !Scan(bytes).CutShort? {
      HeldIsHeld(bytes[Scan(bytes).width..]);
    }
  }

  lemma TwoBytes(a: int, x: int)
    requires 2 <= a < 0x20 && 0 <= x < 0x40
    ensures EncodeChar(a * 0x40 + x) == [0xC0 + a, 0x80 + x]
  {
  }

  lemma ThreeBytes(a: int, x: int, y: int)
    requires 0 <= a < 0x10 && 0 <= x < 0x40 && 0 <= y < 0x40
    requires (a == 0 ==> x >= 0x20) && (a == 0xD ==> x < 0x20)
    ensures EncodeChar(a * 0x1000 + x * 0x40 + y) == [0xE0 + a, 0x80 + x, 0x80 + y]
  {
    var c := a * 0x1000 + x * 0x40 + y;
    assert c / 0x40 == a * 0x40 + x && c % 0x40 == y;
    assert c / 0x1000 == a;
  }

  lemma FourBytes(a: int, x: int, y: int, z: int)
    requires 0 <= a < 5 && 0 <= x < 0x40 && 0 <= y < 0x40 && 0 <= z < 0x40
    requires (a == 0 ==> x >= 0x10) && (a == 4 ==> x < 0x10)
    ensures EncodeChar(a * 0x4_0000 + x * 0x1000 + y * 0x40 + z) == [0xF0 + a, 0x80 + x, 0x80 + y, 0x80 + z]
  {
    var c := a * 0x4_0000 + x * 0x1000 + y * 0x40 + z;
    assert c / 0x40 == a * 0x1000 + x * 0x40 + y && c % 0x40 == z;
    assert c / 0x1000 == a * 0x40 + x;
    assert c / 0x4_0000 == a;
  }

  /** A character that is read was encoded like that. */
  lemma ScanReadsEncoded(s: seq<Byte>)
    requires s != [] && Scan(s).Char?
    ensures Scan(s).width == Width(Scan(s).c) && s[..Scan(s).width] == EncodeChar(Scan(s).c)
  {
    var w := Scan(s).width;
    if w == 2 {
      TwoBytes(s[0] - 0xC0, s[1] - 0x80);
      assert s[..2] == [s[0], s[1]];
    } else if w == 3 {
      ThreeBytes(s[0] - 0xE0, s[1] - 0x80, s[2] - 0x80);
      assert s[..3] == [s[0], s[1], s[2]];
    } else if w == 4 {
      FourBytes(s[0] - 0xF0, s[1] - 0x80, s[2] - 0x80, s[3] - 0x80);
      assert s[..4] == [s[0], s[1], s[2], s[3]];
    }
  }

  /** A character cut short and followed by the start of another one is replaced as a whole. */
  lemma ShortThenLead(x: seq<Byte>, y: seq<Byte>)
    requires x != [] && Scan(x).CutShort? && y != [] && !IsContinuation(y[0])
    ensures Scan(x + y) == Bad(InvalidContinuation, |x|)
  {
    var bytes := x + y;
    assert forall i :: 0 <= i < |x| ==> bytes[i] == x[i];
    assert bytes[|x|] == y[0];
  }

  /** What a held start turns out to be covers at least the start; if it turns out bad, not all of what came. */
  lemma ShortGrows(g: seq<Byte>, y: seq<Byte>)
    requires g != [] && Scan(g).CutShort? && !Scan(g + y).CutShort?
    ensures |g| <= Scan(g + y).width
    ensures Scan(g + y).Bad? ==> Scan(g + y).width < |g + y|
  {
    var bytes := g + y;
    assert forall i :: 0 <= i < |g| ==> bytes[i] == g[i];
  }

  /** As many replacement characters as there are bytes. */
  function Replaced(n: nat): (r: seq<Scalar>)
    ensures |r| == n && forall i :: 0 <= i < n ==> r[i] == REPLACEMENT
  {
    if n == 0 then [] else [REPLACEMENT] + Replaced(n - 1)
  }

  lemma LoneFirst(bytes: seq<Byte>)
    requires bytes != [] && IsContinuation(bytes[0])
    ensures Drain(bytes) == Drain(bytes[1..]).Before(REPLACEMENT)
  {
    assert Scan(bytes) == Bad(InvalidStart, 1);
  }

  lemma {:induction false} LoneContinuations(bytes: seq<Byte>, rest: seq<Byte>)
    requires forall i :: 0 <= i < |bytes| ==> IsContinuation(bytes[i])
    ensures Drain(bytes + rest) == Drain(rest).After(Replaced(|bytes|))
  {
    var d := Drain(rest);
    if bytes == [] {
      assert bytes + rest == rest && [] + d.chars == d.chars;
    } else {
      var n := |bytes| - 1;
      LoneContinuations(bytes[1..], rest);
      LoneFirst(bytes + rest);
      assert (bytes + rest)[1..] == bytes[1..] + rest;
      BeforeThenAfter(d, Replaced(n), REPLACEMENT);
      assert Replaced(n + 1) == [REPLACEMENT] + Replaced(n);
    }
  }

  lemma LeadIsNoContinuation(t: seq<Scalar>)
    requires t != []
    ensures Encode(t) != [] && !IsContinuation(Encode(t)[0])
  {
    assert Encode(t)[0] == EncodeChar(t[0])[0];
  }

  lemma LaterBytesContinue(c: Scalar, k: nat)
    requires 0 < k <= Width(c)
    ensures forall i :: k <= i < Width(c) ==> IsContinuation(EncodeChar(c)[i])
  {
  }

  // ----- an interruption between two characters

  /** Held bytes in front of whole characters become one replacement character. */
  lemma HeldBeforeWhole(g: seq<Byte>, after: seq<Scalar>)
    requires IsHeld(g)
    ensures Drain(g + Encode(after)).chars == (if g == [] || after == [] then [] else [REPLACEMENT]) + after
  {
    var bytes := g + Encode(after);
    DecodeEncoded(after);
    if g == [] {
      assert bytes == Encode(after) && [] + after == after;
    } else if after == [] {
      assert bytes == g;
    } else {
      LeadIsNoContinuation(after);
      ShortThenLead(g, Encode(after));
      assert bytes[|g|..] == Encode(after);
    }
  }

  // ----- an interruption inside a character

  /** The held bytes and the rest of the character are taken together for one that is cut short. */
  predicate Swallows(g: seq<Byte>, rest: seq<Byte>) {
    if g == [] then |rest| == 1 else Scan(g + rest).CutShort?
  }

  /** What comes out for held bytes followed by the rest of a character whose start is gone. */
  function Resumed(g: seq<Byte>, rest: seq<Byte>, more: bool): seq<Scalar>
    requires rest != []
  {
    var x := g + rest;
    if Scan(x).CutShort? then (if more then [REPLACEMENT] else [])
    else [FirstOut(x)] + Replaced(|x| - Scan(x).width)
  }

  lemma ResumedShort(x: seq<Byte>, after: seq<Scalar>)
    requires x != [] && Scan(x).CutShort?
    ensures Drain(x + Encode(after)).chars == (if after == [] then [] else [REPLACEMENT]) + after
  {
    HeldBeforeWhole(x, after);
  }

  /** What is left after the first character read are bytes that continue one. */
  lemma RestContinues(g: seq<Byte>, rest: seq<Byte>)
    requires IsHeld(g) && rest != [] && !Scan(g + rest).CutShort?
    requires forall i :: 0 <= i < |rest| ==> IsContinuation(rest[i])
    ensures var x := g + rest; forall i :: Scan(x).width <= i < |x| ==> IsContinuation(x[i])
  {
    var x := g + rest;
    if g != [] {
      ShortGrows(g, rest);
    }
    forall i | Scan(x).width <= i < |x|
      ensures IsContinuation(x[i])
    {
      assert x[i] == rest[i - |g|];
    }
  }

  lemma FirstOff(x: seq<Byte>, more: seq<Byte>)
    requires x != [] && !Scan(x).CutShort?
    ensures Drain(x + more).chars == [FirstOut(x)] + Drain(x[Scan(x).width..] + more).chars
  {
    DrainPastFirst(x, more);
  }

  lemma LoneThenWhole(tail: seq<Byte>, after: seq<Scalar>)
    requires forall i :: 0 <= i < |tail| ==> IsContinuation(tail[i])
    ensures Drain(tail + Encode(after)).chars == Replaced(|tail|) + after
  {
    LoneContinuations(tail, Encode(after));
    DecodeEncoded(after);
  }

  lemma ContinuesTail(x: seq<Byte>, w: nat)
    requires w <= |x| && forall i :: w <= i < |x| ==> IsContinuation(x[i])
    ensures forall i :: 0 <= i < |x[w..]| ==> IsContinuation(x[w..][i])
  {
  }

  lemma FirstThenLone(x: seq<Byte>, after: seq<Scalar>, w: nat)
    requires x != [] && !Scan(x).CutShort? && w == Scan(x).width
    requires forall i :: w <= i < |x| ==> IsContinuation(x[i])
    ensures Drain(x + Encode(after)).chars == [FirstOut(x)] + Replaced(|x| - w) + after
  {
    FirstOff(x, Encode(after));
    ContinuesTail(x, w);
    LoneThenWhole(x[w..], after);
    Associate([FirstOut(x)], Replaced(|x| - w), after);
  }

  lemma Associate(a: seq<Scalar>, b: seq<Scalar>, c: seq<Scalar>)
    ensures a + (b + c) == a + b + c
  {
  }

  lemma ResumedIs(g: seq<Byte>, rest: seq<Byte>, after: seq<Scalar>)
    requires IsHeld(g) && rest != [] && forall i :: 0 <= i < |rest| ==> IsContinuation(rest[i])
    ensures Drain(g + rest + Encode(after)).chars == Resumed(g, rest, after != []) + after
  {
    if Scan(g + rest).CutShort? {
      ResumedShort(g + rest, after);
    } else {
      RestContinues(g, rest);
      FirstThenLone(g + rest, after, Scan(g + rest).width);
    }
  }

  /** The start of what is resumed is no ASCII byte, so no newline comes out. */
  lemma ResumedHasNoNewline(g: seq<Byte>, rest: seq<Byte>, more: bool)
    requires IsHeld(g) && rest != [] && IsContinuation(rest[0])
    ensures LF !in Resumed(g, rest, more)
  {
    var x := g + rest;
    assert x[0] == if g == [] then rest[0] else g[0];
    if Scan(x).Char? {
      ScanReadsEncoded(x);
      assert x[..Scan(x).width][0] == x[0];
    }
  }

  /** The character comes out as it was exactly when its own start is held again, or by luck of U+FFFD. */
  predicate IsRestored(c: Scalar, t: nat, g: seq<Byte>, more: bool)
    requires 0 < t < Width(c)
  {
    || g == EncodeChar(c)[..t]
    || (c == REPLACEMENT && Swallows(g, EncodeChar(c)[t..]) && (g != [] ==> more))
  }

  lemma OwnStartIsHeld(c: Scalar, t: nat, g: seq<Byte>)
    requires 0 < t < Width(c)
    ensures g == EncodeChar(c)[..t] <==> g + EncodeChar(c)[t..] == EncodeChar(c)
  {
    var bytes := EncodeChar(c);
    assert bytes[..t] + bytes[t..] == bytes;
    if g + bytes[t..] == bytes {
      assert |g| == t && (g + bytes[t..])[..t] == g;
    }
  }

  lemma ResumedOnce(g: seq<Byte>, rest: seq<Byte>, more: bool, c: Scalar)
    requires rest != [] && !Scan(g + rest).CutShort?
    ensures Resumed(g, rest, more) == [c] <==> FirstOut(g + rest) == c && Scan(g + rest).width == |g + rest|
  {
    var r := Resumed(g, rest, more);
    assert |r| == 1 + |g + rest| - Scan(g + rest).width && r[0] == FirstOut(g + rest);
  }

  lemma RestoredByOwnStart(c: Scalar, t: nat, g: seq<Byte>, more: bool)
    requires 0 < t < Width(c) && g == EncodeChar(c)[..t]
    ensures Resumed(g, EncodeChar(c)[t..], more) == [c]
  {
    OwnStartIsHeld(c, t, g);
    ScanEncoded(c, []);
    assert EncodeChar(c) + [] == EncodeChar(c);
    ResumedOnce(g, EncodeChar(c)[t..], more, c);
  }

  lemma RestoredFromNothing(c: Scalar, t: nat, more: bool)
    requires 0 < t < Width(c)
    ensures Resumed([], EncodeChar(c)[t..], more) == [c] <==> c == REPLACEMENT && t + 1 == Width(c)
  {
    var rest := EncodeChar(c)[t..];
    RestIsContinuations(c, t);
    assert [] + rest == rest;
    assert Scan(rest) == Bad(InvalidStart, 1);
    ResumedOnce([], rest, more, c);
  }

  lemma RestoredFromOther(c: Scalar, t: nat, g: seq<Byte>, more: bool)
    requires 0 < t < Width(c) && g != [] && Scan(g).CutShort? && g != EncodeChar(c)[..t]
    requires !Scan(g + EncodeChar(c)[t..]).CutShort?
    ensures Resumed(g, EncodeChar(c)[t..], more) != [c]
  {
    var x := g + EncodeChar(c)[t..];
    OwnStartIsHeld(c, t, g);
    ShortGrows(g, EncodeChar(c)[t..]);
    ResumedOnce(g, EncodeChar(c)[t..], more, c);
    if Scan(x).Char? {
      ScanReadsEncoded(x);
      OnlyOwnCharacter(c, x);
    }
  }

  lemma RestoredIff(c: Scalar, t: nat, g: seq<Byte>, more: bool)
    requires 0 < t < Width(c) && IsHeld(g)
    ensures Resumed(g, EncodeChar(c)[t..], more) == [c] <==> IsRestored(c, t, g, more)
  {
    if g == EncodeChar(c)[..t] {
      RestoredByOwnStart(c, t, g, more);
    } else if g == [] {
      RestoredFromNothing(c, t, more);
    } else if !Scan(g + EncodeChar(c)[t..]).CutShort? {
      RestoredFromOther(c, t, g, more);
    }
  }

  lemma OnlyOwnCharacter(c: Scalar, x: seq<Byte>)
    requires x != [] && Scan(x).Char? && x[..Scan(x).width] == EncodeChar(Scan(x).c) && x != EncodeChar(c)
    ensures Scan(x).c != c || Scan(x).width < |x|
  {
    if Scan(x).width == |x| {
      assert x[..|x|] == x;
    }
  }

  // ----- a text that is cut

  /** The bytes from a cut on: what is left of the character it splits, then whole characters. */
  ghost predicate SplitsAt(s: seq<Scalar>, n: nat, tail: seq<Byte>, rest: seq<Byte>) {
    if tail == [] then n <= |s| && rest == Encode(s[n..])
    else
      && n < |s| && |tail| < Width(s[n]) && tail == EncodeChar(s[n])[..|tail|]
      && rest == EncodeChar(s[n])[|tail|..] + Encode(s[n + 1..])
  }

  lemma SplitsLater(s: seq<Scalar>, n: nat, tail: seq<Byte>, rest: seq<Byte>)
    requires s != [] && SplitsAt(s[1..], n, tail, rest)
    ensures SplitsAt(s, n + 1, tail, rest)
  {
    assert s[1..][n..] == s[n + 1..];
    if tail != [] {
      assert s[1..][n] == s[n + 1] && s[1..][n + 1..] == s[n + 2..];
    }
  }

  lemma DropEncoded(s: seq<Scalar>, k: nat)
    requires s != [] && Width(s[0]) <= k <= |Encode(s)|
    ensures k - Width(s[0]) <= |Encode(s[1..])| && Encode(s)[k..] == Encode(s[1..])[k - Width(s[0])..]
  {
  }

  lemma CutsFirst(s: seq<Scalar>, k: nat)
    requires s != [] && k < Width(s[0]) && k <= |Encode(s)|
    ensures SplitsAt(s, 0, EncodeChar(s[0])[..k], Encode(s)[k..])
  {
    var c, rest := EncodeChar(s[0]), Encode(s[1..]);
    assert (c + rest)[k..] == c[k..] + rest;
    assert s[0..] == s && c[..0] == [];
  }

  lemma {:induction false} AfterCut(s: seq<Scalar>, k: nat)
    requires k <= |Encode(s)|
    ensures SplitsAt(s, WholeChars(s, k), CutTail(s, k), Encode(s)[k..])
    decreases |s|
  {
    if s == [] {
      assert s[0..] == [] && Encode(s)[k..] == [];
    } else if Width(s[0]) <= k {
      DropEncoded(s, k);
      AfterCut(s[1..], k - Width(s[0]));
      SplitsLater(s, WholeChars(s[1..], k - Width(s[0])), CutTail(s, k), Encode(s)[k..]);
    } else {
      CutsFirst(s, k);
    }
  }

  // ----- when an interruption does no harm

  /**
   The decoder held nothing when it was interrupted and holds nothing after it; or it holds
   the start of the same character again; or the character is U+FFFD and what is left of it
   is replaced by one U+FFFD.
   */
  predicate IsHarmless(s: seq<Scalar>, k: nat, g: seq<Byte>) {
    IsHarmlessAt(s, WholeChars(s, k), CutTail(s, k), g)
  }

  predicate IsHarmlessAt(s: seq<Scalar>, n: nat, tail: seq<Byte>, g: seq<Byte>) {
    if tail == [] then g == [] || n == |s|
    else n < |s| && |tail| < Width(s[n]) && IsRestored(s[n], |tail|, g, n + 1 < |s|)
  }

  /** What the decoder holds after the foreign chunk. */
  function HeldThen(s: seq<Scalar>, k: nat, foreign: seq<Byte>): seq<Byte> {
    HeldAfter(CutTail(s, k), foreign)
  }

  lemma InterruptedIs(s: seq<Scalar>, k: nat, foreign: seq<Byte>)
    requires k <= |Encode(s)|
    ensures IsHeld(HeldThen(s, k, foreign))
    ensures Interrupted(s, k, foreign) ==
            s[..WholeChars(s, k)] + Drain(HeldThen(s, k, foreign) + Encode(s)[k..]).chars
  {
    DrainCut(s, k);
    HeldIsHeld(CutTail(s, k) + foreign);
  }

  /** `z` is `s` with the characters from `n` to `m` replaced by `y`: no newline is lost or added. */
  ghost predicate Replaces(s: seq<Scalar>, n: nat, m: nat, y: seq<Scalar>, z: seq<Scalar>) {
    && n <= m <= |s| && z == s[..n] + (y + s[m..])
    && LF !in y && LF !in s[n..m] && (n == |s| ==> y == [])
  }

  /** An interruption replaces at most the character it splits. */
  lemma InterruptedParts(s: seq<Scalar>, k: nat, foreign: seq<Byte>) returns (y: seq<Scalar>, m: nat)
    requires k <= |Encode(s)|
    ensures Replaces(s, WholeChars(s, k), m, y, Interrupted(s, k, foreign))
    ensures y == s[WholeChars(s, k)..m] <==> IsHarmless(s, k, HeldThen(s, k, foreign))
  {
    InterruptedIs(s, k, foreign);
    AfterCut(s, k);
    y, m := PartsOf(s, WholeChars(s, k), CutTail(s, k), Encode(s)[k..], HeldThen(s, k, foreign));
  }

  lemma PartsOf(s: seq<Scalar>, n: nat, tail: seq<Byte>, rest: seq<Byte>, g: seq<Byte>) returns (y: seq<Scalar>, m: nat)
    requires SplitsAt(s, n, tail, rest) && IsHeld(g)
    ensures Replaces(s, n, m, y, s[..n] + Drain(g + rest).chars)
    ensures y == s[n..m] <==> IsHarmlessAt(s, n, tail, g)
  {
    if tail == [] {
      m := n;
      y := BetweenParts(s, n, g);
    } else {
      y, m := SplitParts(s, n, |tail|, g);
    }
  }

  lemma BetweenParts(s: seq<Scalar>, n: nat, g: seq<Byte>) returns (y: seq<Scalar>)
    requires n <= |s| && IsHeld(g)
    ensures Drain(g + Encode(s[n..])).chars == y + s[n..]
    ensures LF !in y && s[n..n] == [] && (y == [] <==> g == [] || n == |s|)
  {
    y := if g == [] || n == |s| then [] else [REPLACEMENT];
    HeldBeforeWhole(g, s[n..]);
  }

  lemma ResumedCharacter(c: Scalar, t: nat, g: seq<Byte>, after: seq<Scalar>) returns (y: seq<Scalar>)
    requires 0 < t < Width(c) && IsHeld(g)
    ensures LF !in y && (y == [c] <==> IsRestored(c, t, g, after != []))
    ensures Drain(g + (EncodeChar(c)[t..] + Encode(after))).chars == y + after
  {
    var rest := EncodeChar(c)[t..];
    y := Resumed(g, rest, after != []);
    RestIsContinuations(c, t);
    ResumedIs(g, rest, after);
    ResumedHasNoNewline(g, rest, after != []);
    RestoredIff(c, t, g, after != []);
    AssociateBytes(g, rest, Encode(after));
  }

  lemma RestIsContinuations(c: Scalar, t: nat)
    requires 0 < t < Width(c)
    ensures EncodeChar(c)[t..] != []
    ensures forall i :: 0 <= i < |EncodeChar(c)[t..]| ==> IsContinuation(EncodeChar(c)[t..][i])
  {
    LaterBytesContinue(c, t);
  }

  lemma AssociateBytes(a: seq<Byte>, b: seq<Byte>, c: seq<Byte>)
    ensures a + (b + c) == a + b + c
  {
  }

  lemma SplitParts(s: seq<Scalar>, n: nat, t: nat, g: seq<Byte>) returns (y: seq<Scalar>, m: nat)
    requires n < |s| && 0 < t < Width(s[n]) && IsHeld(g)
    ensures m == n + 1 && LF !in y && LF !in s[n..m]
    ensures Drain(g + (EncodeChar(s[n])[t..] + Encode(s[n + 1..]))).chars == y + s[m..]
    ensures y == s[n..m] <==> IsRestored(s[n], t, g, n + 1 < |s|)
  {
    m := n + 1;
    y := ResumedCharacter(s[n], t, g, s[m..]);
    assert s[n..m] == [s[n]];
  }

  lemma SameMiddle(a: seq<Scalar>, y: seq<Scalar>, z: seq<Scalar>, b: seq<Scalar>)
    ensures a + (y + b) == a + (z + b) <==> y == z
  {
    var u, v := a + (y + b), a + (z + b);
    if u == v {
      assert |y| == |z|;
      forall i | 0 <= i < |y|
        ensures y[i] == z[i]
      {
        assert u[|a| + i] == y[i] && v[|a| + i] == z[i];
      }
    }
  }

  lemma Reassembled(s: seq<Scalar>, n: nat, m: nat)
    requires n <= m <= |s|
    ensures s == s[..n] + (s[n..m] + s[m..])
  {
  }

  lemma ReplacesNothingIff(s: seq<Scalar>, n: nat, m: nat, y: seq<Scalar>, z: seq<Scalar>)
    requires Replaces(s, n, m, y, z)
    ensures z == s <==> y == s[n..m]
  {
    Reassembled(s, n, m);
    SameMiddle(s[..n], y, s[n..m], s[m..]);
  }

  /** Exactly when decoding a foreign chunk in between leaves the text of the output as it is. */
  lemma SharedDecoderIsHarmlessIff(s: seq<Scalar>, k: nat, foreign: seq<Byte>)
    requires k <= |Encode(s)|
    ensures Interrupted(s, k, foreign) == s <==> IsHarmless(s, k, HeldThen(s, k, foreign))
  {
    var y, m := InterruptedParts(s, k, foreign);
    ReplacesNothingIff(s, WholeChars(s, k), m, y, Interrupted(s, k, foreign));
  }

  /** A foreign chunk that is a whole text, such as ASCII diagnostics, leaves nothing held. */
  lemma WholeTextLeavesNothing(s: seq<Scalar>, k: nat, t: seq<Scalar>)
    requires k <= |Encode(s)| && t != []
    ensures HeldThen(s, k, Encode(t)) == []
  {
    var tail := CutTail(s, k);
    DrainCut(s, k);
    HeldIsHeld(Encode(s)[..k]);
    DecodeEncoded(t);
    if tail == [] {
      assert tail + Encode(t) == Encode(t);
    } else {
      LeadIsNoContinuation(t);
      ShortThenLead(tail, Encode(t));
      assert (tail + Encode(t))[|tail|..] == Encode(t);
    }
  }

  /**
   So it does no harm exactly when it comes between two characters of the output, or when it
   splits U+FFFD after its second byte.
   */
  lemma WholeTextIsHarmlessIff(s: seq<Scalar>, k: nat, t: seq<Scalar>)
    requires k <= |Encode(s)| && t != []
    ensures Interrupted(s, k, Encode(t)) == s <==>
            || CutTail(s, k) == []
            || (WholeChars(s, k) < |s| && s[WholeChars(s, k)] == REPLACEMENT && |CutTail(s, k)| == 2)
  {
    SharedDecoderIsHarmlessIff(s, k, Encode(t));
    WholeTextLeavesNothing(s, k, t);
    AfterCut(s, k);
  }

  // ----- the messages

  lemma {:induction false} LinesAreCounted(z: seq<Scalar>)
    ensures |Lines(Units(z))| == multiset(z)[LF]
    decreases |z|
  {
    if z != [] {
      var init, c := z[..|z| - 1], z[|z| - 1];
      LinesAreCounted(init);
      assert z == init + [c];
      LinesOfOneMore(init, c);
    }
  }

  lemma LinesOfOneMore(z: seq<Scalar>, c: Scalar)
    ensures |Lines(Units(z + [c]))| == |Lines(Units(z))| + if c == LF then 1 else 0
    ensures c == LF ==> Rest(Units(z + [c])) == []
  {
    var rest := Rest(Units(z));
    UnitsConcat(z, [c]);
    UnitsOfOne(c);
    LinesInParts(Units(z), CharUnits(c));
    RestHasNoNewline(Units(z));
    CharEndsLineIff(rest, c);
  }

  lemma CharEndsLineIff(rest: seq<Unit>, c: Scalar)
    requires LF !in rest
    ensures |Lines(rest + CharUnits(c))| == if c == LF then 1 else 0
    ensures c == LF ==> Rest(rest + CharUnits(c)) == []
  {
    if c == LF {
      OneLineOff(rest, []);
      assert rest + [LF] + [] == rest + CharUnits(c);
    } else {
      UnfinishedLine(rest + CharUnits(c));
    }
  }

  lemma UnitsOfOne(c: Scalar)
    ensures Units([c]) == CharUnits(c)
  {
    assert [c][1..] == [] && CharUnits(c) + [] == CharUnits(c);
  }

  lemma {:induction false} PrintsMakeWire(lines: seq<seq<Unit>>, ms: seq<Json>)
    requires |lines| == |ms| && forall i :: 0 <= i < |ms| ==> lines[i] == Print(ms[i])
    ensures Unlines(lines) == Wire(ms)
  {
    if ms != [] {
      PrintsMakeWire(lines[..|lines| - 1], ms[..|ms| - 1]);
    }
  }

  /** As many complete lines as messages, and they give the messages: it is the text that was sent. */
  lemma OnlyWireGivesMessages(text: seq<Unit>, ms: seq<Json>)
    requires |Lines(text)| == |ms| && Rest(text) == [] && Messages(Lines(text)) == ms
    ensures text == Wire(ms)
  {
    OneMessageALine(Lines(text));
    PrintsMakeWire(Lines(text), ms);
    LinesMakeUp(text);
    assert Wire(ms) + [] == Wire(ms);
  }

  /** The characters of the lines sent. */
  function Sent(ms: seq<Json>): seq<Scalar> {
    Scalars(Wire(ms))
  }

  lemma {:induction false} WireLines(ms: seq<Json>)
    ensures |Lines(Wire(ms))| == |ms|
    decreases |ms|
  {
    if ms != [] {
      var init, m := ms[..|ms| - 1], ms[|ms| - 1];
      WireLines(init);
      WireReadsBack(init);
      LineAlone(m);
      LinesInParts(Wire(init), Line(m));
      assert [] + Line(m) == Line(m);
    }
  }

  lemma SentIsWire(ms: seq<Json>)
    ensures Units(Sent(ms)) == Wire(ms) && multiset(Sent(ms))[LF] == |ms|
    ensures Messages(Lines(Units(Sent(ms)))) == ms
  {
    WireReadsBack(ms);
    UnitsOfScalars(Wire(ms));
    WireLines(ms);
    LinesAreCounted(Sent(ms));
  }

  lemma SentEndsLine(ms: seq<Json>)
    requires ms != []
    ensures Sent(ms) != [] && Sent(ms)[|Sent(ms)| - 1] == LF
  {
    var init, m := ms[..|ms| - 1], ms[|ms| - 1];
    LineIsWellFormed(m);
    PrintIsOneLine(m);
    WireReadsBack(init);
    assert Wire(ms) == Wire(init) + (Print(m) + [LF]);
    assert Wire(ms) == Wire(init) + Print(m) + [LF];
    ConcatWellFormed(Wire(init), Print(m));
    ConcatWellFormed(Wire(init) + Print(m), [LF]);
    assert Scalars([LF]) == [LF];
  }

  lemma NewlinesOfParts(a: seq<Scalar>, y: seq<Scalar>, b: seq<Scalar>)
    requires LF !in y
    ensures multiset(a + (y + b))[LF] == multiset(a)[LF] + multiset(b)[LF]
  {
    assert multiset(a + (y + b)) == multiset(a) + (multiset(y) + multiset(b));
    assert LF !in multiset(y);
  }

  lemma EndsLine(z: seq<Scalar>)
    requires z != [] && z[|z| - 1] == LF
    ensures Rest(Units(z)) == []
  {
    assert z == z[..|z| - 1] + [LF];
    LinesOfOneMore(z[..|z| - 1], LF);
  }

  /** Replacing part of a line keeps the number of lines. */
  lemma SameLines(s: seq<Scalar>, n: nat, m: nat, y: seq<Scalar>)
    requires n <= m <= |s| && LF !in y && LF !in s[n..m]
    ensures multiset(s[..n] + (y + s[m..]))[LF] == multiset(s)[LF]
  {
    Reassembled(s, n, m);
    NewlinesOfParts(s[..n], y, s[m..]);
    NewlinesOfParts(s[..n], s[n..m], s[m..]);
  }

  lemma SameEnd(s: seq<Scalar>, n: nat, m: nat, y: seq<Scalar>)
    requires n <= m < |s|
    ensures var z := s[..n] + (y + s[m..]); z != [] && z[|z| - 1] == s[|s| - 1]
  {
  }

  lemma SameTextFromMessages(ms: seq<Json>, z: seq<Scalar>)
    requires multiset(z)[LF] == |ms| && z != [] && z[|z| - 1] == LF && Messages(Lines(Units(z))) == ms
    ensures z == Sent(ms)
  {
    LinesAreCounted(z);
    EndsLine(z);
    OnlyWireGivesMessages(Units(z), ms);
    ScalarsOfUnits(z);
  }

  lemma LastIn(s: seq<Scalar>, n: nat)
    requires n < |s|
    ensures s[|s| - 1] in s[n..]
  {
    assert s[n..][|s| - 1 - n] == s[|s| - 1];
  }

  /** Where the last character is a newline, nothing is replaced at the end. */
  lemma NothingReplacedAtEnd(s: seq<Scalar>, n: nat, m: nat, y: seq<Scalar>, z: seq<Scalar>)
    requires Replaces(s, n, m, y, z) && (s != [] ==> s[|s| - 1] == LF)
    ensures m < |s| || z == s
  {
    if n < |s| {
      LastIn(s, n);
    }
    ReplacesNothingIff(s, n, m, y, z);
    assert s[n..|s|] == s[n..];
  }

  /** Anywhere else the number of lines stays, and the last one stays complete. */
  lemma ReplacedKeepsLines(ms: seq<Json>, n: nat, m: nat, y: seq<Scalar>, z: seq<Scalar>)
    requires Replaces(Sent(ms), n, m, y, z) && m < |Sent(ms)| && ms != []
    ensures multiset(z)[LF] == |ms| && z != [] && z[|z| - 1] == LF
  {
    SentIsWire(ms);
    SentEndsLine(ms);
    SameLines(Sent(ms), n, m, y);
    SameEnd(Sent(ms), n, m, y);
  }

  lemma SentEndsAnyLine(ms: seq<Json>)
    ensures Sent(ms) != [] ==> ms != [] && Sent(ms)[|Sent(ms)| - 1] == LF
  {
    if ms == [] {
      SentOfNothing();
    } else {
      SentEndsLine(ms);
    }
  }

  /** Replacing part of a line: the same messages mean the same text. */
  lemma MessagesTellTexts(ms: seq<Json>, n: nat, m: nat, y: seq<Scalar>, z: seq<Scalar>)
    requires Replaces(Sent(ms), n, m, y, z) && Messages(Lines(Units(z))) == ms
    ensures z == Sent(ms)
  {
    SentEndsAnyLine(ms);
    NothingReplacedAtEnd(Sent(ms), n, m, y, z);
    if m < |Sent(ms)| {
      ReplacedKeepsLines(ms, n, m, y, z);
      SameTextFromMessages(ms, z);
    }
  }

  lemma SentOfNothing()
    ensures Sent([]) == []
  {
  }

  /** The messages of an interrupted output are those sent exactly when the interruption does no harm. */
  lemma InterruptedMessagesIff(ms: seq<Json>, k: nat, foreign: seq<Byte>)
    requires k <= |Encode(Sent(ms))|
    ensures Messages(Lines(Units(Interrupted(Sent(ms), k, foreign)))) == ms <==>
            IsHarmless(Sent(ms), k, HeldThen(Sent(ms), k, foreign))
  {
    SharedDecoderIsHarmlessIff(Sent(ms), k, foreign);
    var z := Interrupted(Sent(ms), k, foreign);
    SentIsWire(ms);
    if Messages(Lines(Units(z))) == ms {
      var y, m := InterruptedParts(Sent(ms), k, foreign);
      MessagesTellTexts(ms, WholeChars(Sent(ms), k), m, y, z);
    }
  }

  // ----- a run that is interrupted

  lemma RunOneMore(before: seq<Action>, a: Action)
    ensures Run(before + [a]) == Act(Run(before), a)
  {
    assert (before + [a])[..|before|] == before;
  }

  lemma RunTwoMore(before: seq<Action>, a: Action, b: Action)
    ensures Run(before + [a] + [b]) == Act(Act(Run(before), a), b)
  {
    RunOneMore(before, a);
    RunOneMore(before + [a], b);
  }

  function WireBytes(ms: seq<Json>): seq<Byte> {
    EncodeText(Wire(ms))
  }

  /** The whole of `ms` is in the pipe, and nothing has been read. */
  ghost function InPipe(ms: seq<Json>): Channel {
    Channel(ms, [], WireBytes(ms), [], Reader([], []), [])
  }

  ghost predicate FillsPipe(actions: seq<Action>, ms: seq<Json>) {
    Run(actions) == InPipe(ms)
  }

  /** Every message is sent and written. */
  function SendAll(ms: seq<Json>): seq<Action> {
    if ms == [] then []
    else
      var m := ms[|ms| - 1];
      SendAll(ms[..|ms| - 1]) + [Send(m)] + [Write(|EncodeText(Line(m))|)]
  }

  /** There is such a run for all messages. */
  lemma {:induction false} SendAllFillsPipe(ms: seq<Json>)
    ensures FillsPipe(SendAll(ms), ms)
    decreases |ms|
  {
    if ms != [] {
      var init, m := ms[..|ms| - 1], ms[|ms| - 1];
      SendAllFillsPipe(init);
      OneMoreInPipe(SendAll(init), init, m);
      assert ms == init + [m];
    }
  }

  lemma OneMoreInPipe(before: seq<Action>, ms: seq<Json>, m: Json)
    requires FillsPipe(before, ms)
    ensures FillsPipe(before + [Send(m)] + [Write(|EncodeText(Line(m))|)], ms + [m])
  {
    RunTwoMore(before, Send(m), Write(|EncodeText(Line(m))|));
    SendAndWrite(InPipe(ms), m);
    EncodeWireAppend(ms, m);
  }

  lemma SendAndWrite(c: Channel, m: Json)
    requires c.chain == []
    ensures Act(Act(c, Send(m)), Write(|EncodeText(Line(m))|)) ==
            c.(sent := c.sent + [m], pipe := c.pipe + EncodeText(Line(m)))
  {
    var bytes := EncodeText(Line(m));
    var chain: Chain := [bytes];
    assert [] + chain == chain && chain[1..] == [] && bytes[..|bytes|] == bytes;
  }

  /** A foreign chunk is decoded after the first `k` bytes were read; then `n` more are. */
  function Interrupting(before: seq<Action>, k: nat, foreign: seq<Byte>, n: nat): seq<Action> {
    before + [Read(k)] + [Foreign(foreign)] + [Read(n)]
  }

  ghost function InterruptedRun(before: seq<Action>, k: nat, foreign: seq<Byte>, n: nat): Channel {
    Run(Interrupting(before, k, foreign, n))
  }

  /** What an interrupted reader does with a full pipe. */
  ghost function InterruptedReads(c: Channel, k: nat, foreign: seq<Byte>, n: nat): Channel {
    Act(Act(Act(c, Read(k)), Foreign(foreign)), Read(n))
  }

  lemma InterruptingRuns(before: seq<Action>, c: Channel, k: nat, foreign: seq<Byte>, n: nat)
    requires Run(before) == c
    ensures InterruptedRun(before, k, foreign, n) == InterruptedReads(c, k, foreign, n)
  {
    RunTwoMore(before, Read(k), Foreign(foreign));
    RunOneMore(before + [Read(k)] + [Foreign(foreign)], Read(n));
  }

  lemma ReadInTwo(a: seq<Scalar>, b: seq<Scalar>)
    ensures Messages(Lines(Units(a))) + Messages(Lines(Rest(Units(a)) + Units(b))) == Messages(Lines(Units(a + b)))
  {
    UnitsConcat(a, b);
    LinesInParts(Units(a), Units(b));
    MessagesConcat(Lines(Units(a)), Lines(Rest(Units(a)) + Units(b)));
  }

  lemma FirstRead(c: Channel, k: nat)
    requires c.reader == Reader([], []) && c.got == [] && k <= |c.pipe|
    ensures var d, first := Act(c, Read(k)), Drain(c.pipe[..k]);
            && d.sent == c.sent && d.chain == c.chain && d.pipe == c.pipe[k..]
            && d.reader == Reader(first.held, Rest(Units(first.chars)))
            && d.got == Messages(Lines(Units(first.chars)))
  {
    FreshReaderReads(c.pipe[..k]);
    assert [] + Messages(LinesAt(c.pipe[..k])) == Messages(LinesAt(c.pipe[..k]));
  }

  lemma FreshReaderReads(chunk: seq<Byte>)
    ensures AfterChunk(Reader([], []), chunk) == ReaderAt(chunk)
    ensures LinesOfChunk(Reader([], []), chunk) == LinesAt(chunk)
  {
    assert [] + chunk == chunk && [] + Units(Drain(chunk).chars) == Units(Drain(chunk).chars);
  }

  lemma SecondRead(c: Channel, g: seq<Byte>, n: nat)
    requires n == |c.pipe| && c.reader.held == g
    ensures var d := Act(c, Read(n));
            && d.sent == c.sent && d.chain == c.chain && d.pipe == []
            && d.got == c.got + Messages(Lines(c.reader.buf + Units(Drain(g + c.pipe).chars)))
  {
    assert c.pipe[..n] == c.pipe && c.pipe[n..] == [];
  }

  /** Everything was read, and the handler has got the messages of a text. */
  ghost predicate HasGot(c: Channel, sent: seq<Json>, text: seq<Scalar>) {
    c.sent == sent && c.chain == [] && c.pipe == [] && c.got == Messages(Lines(Units(text)))
  }

  lemma InterruptedReadsGet(c: Channel, k: nat, foreign: seq<Byte>, n: nat)
    requires c.reader == Reader([], []) && c.got == [] && c.chain == [] && k <= |c.pipe| && n == |c.pipe| - k
    ensures var first := Drain(c.pipe[..k]);
            HasGot(InterruptedReads(c, k, foreign, n), c.sent,
                   first.chars + Drain(HeldAfter(first.held, foreign) + c.pipe[k..]).chars)
  {
    var first := Drain(c.pipe[..k]);
    var g := HeldAfter(first.held, foreign);
    FirstRead(c, k);
    SecondRead(Act(Act(c, Read(k)), Foreign(foreign)), g, n);
    ReadInTwo(first.chars, Drain(g + c.pipe[k..]).chars);
  }

  lemma FullPipeGets(ms: seq<Json>, k: nat, foreign: seq<Byte>)
    requires k <= |WireBytes(ms)|
    ensures HasGot(InterruptedReads(InPipe(ms), k, foreign, |WireBytes(ms)| - k), ms,
                   Interrupted(Sent(ms), k, foreign))
  {
    InterruptedReadsGet(InPipe(ms), k, foreign, |WireBytes(ms)| - k);
  }

  /** However the messages got into the pipe, the handler gets those of the interrupted output. */
  lemma InterruptedRunGets(before: seq<Action>, ms: seq<Json>, k: nat, foreign: seq<Byte>)
    requires FillsPipe(before, ms) && k <= |WireBytes(ms)|
    ensures HasGot(InterruptedRun(before, k, foreign, |WireBytes(ms)| - k), ms, Interrupted(Sent(ms), k, foreign))
  {
    InterruptingRuns(before, InPipe(ms), k, foreign, |WireBytes(ms)| - k);
    FullPipeGets(ms, k, foreign);
  }

  /**
   All messages sent arrive as they were sent, with a foreign chunk decoded in between, exactly
   when the interruption does no harm.
   */
  lemma InterruptionIsHarmlessIff(before: seq<Action>, ms: seq<Json>, k: nat, foreign: seq<Byte>)
    requires FillsPipe(before, ms) && k <= |WireBytes(ms)|
    ensures var c := InterruptedRun(before, k, foreign, |WireBytes(ms)| - k);
            && c.sent == ms && c.chain == [] && c.pipe == []
            && (c.got == c.sent <==> IsHarmless(Sent(ms), k, HeldThen(Sent(ms), k, foreign)))
  {
    InterruptedRunGets(before, ms, k, foreign);
    InterruptedMessagesIff(ms, k, foreign);
  }

  // ----- a run that goes wrong

  const E_ACUTE: Json := String([0xE9])
  const REPLACED: Json := String([0xFFFD])

  lemma QuotedOne(u: Unit)
    requires u == 0xE9 || u == 0xFFFD
    ensures Print(String([u])) == [0x22, u, 0x22]
  {
    assert [u][1..] == [];
    assert EscapeHead([u]) == [u];
    assert Escape([u]) == [u] + Escape([]);
  }

  const LINE_SENT: seq<Unit> := [0x22, 0xE9, 0x22, 0x0A]
  const LINE_GOT: seq<Unit> := [0x22, 0xFFFD, 0x22, 0x0A]

  lemma LinesOfRun()
    ensures Line(E_ACUTE) == LINE_SENT && Wire([E_ACUTE]) == LINE_SENT && Line(REPLACED) == LINE_GOT
  {
    QuotedOne(0xE9);
    QuotedOne(0xFFFD);
    assert [E_ACUTE][..0] == [] && Wire([]) + Line(E_ACUTE) == Line(E_ACUTE);
  }

  const CHARS_SENT: seq<Scalar> := [0x22, 0xE9, 0x22, 0x0A]

  lemma {:induction false} PlainScalars(s: seq<Unit>, z: seq<Scalar>)
    requires |s| == |z| && forall i :: 0 <= i < |s| ==> s[i] == z[i] && !IsHigh(s[i]) && !IsLow(s[i])
    ensures Scalars(s) == z && Units(z) == s
  {
    if s != [] {
      PlainScalars(s[1..], z[1..]);
    }
  }

  lemma SplitOfRun()
    ensures var s := CHARS_SENT;
            && Encode(s) == [0x22, 0xC3, 0xA9, 0x22, 0x0A] && WholeChars(s, 2) == 1 && CutTail(s, 2) == [0xC3]
  {
    var s := CHARS_SENT;
    assert s[1..] == [0xE9, 0x22, 0x0A] && s[1..][1..] == [0x22, 0x0A];
    assert s[1..][1..][1..] == [0x0A] && s[1..][1..][1..][1..] == [];
    assert EncodeChar(0xE9) == [0xC3, 0xA9] && EncodeChar(0xE9)[..1] == [0xC3];
  }

  const CHARS_GOT: seq<Scalar> := [0x22, 0xFFFD, 0x22, 0x0A]

  lemma RestOfRun()
    ensures Drain([0xA9, 0x22, 0x0A]).chars == [REPLACEMENT, 0x22, 0x0A]
  {
    var after := [0x22, 0x0A];
    assert after[1..] == [0x0A] && after[1..][1..] == [];
    assert Encode(after) == after;
    LoneThenWhole([0xA9], after);
    assert Replaced(1) == [REPLACEMENT];
    assert [0xA9] + after == [0xA9, 0x22, 0x0A];
  }

  lemma HeldInRun()
    ensures HeldThen(CHARS_SENT, 2, [0x41]) == []
  {
    SplitOfRun();
    assert [0x41][1..] == [] && Encode([0x41]) == [0x41];
    WholeTextLeavesNothing(CHARS_SENT, 2, [0x41]);
  }

  lemma TextOfRun()
    ensures |Encode(CHARS_SENT)| == 5 && Interrupted(CHARS_SENT, 2, [0x41]) == CHARS_GOT
  {
    var s := CHARS_SENT;
    SplitOfRun();
    HeldInRun();
    RestOfRun();
    InterruptedIs(s, 2, [0x41]);
    assert [] + Encode(s)[2..] == [0xA9, 0x22, 0x0A];
    assert s[..1] + [REPLACEMENT, 0x22, 0x0A] == CHARS_GOT;
  }

  lemma SentInRun()
    ensures Sent([E_ACUTE]) == CHARS_SENT && WireBytes([E_ACUTE]) == Encode(CHARS_SENT)
  {
    LinesOfRun();
    PlainScalars(LINE_SENT, CHARS_SENT);
  }

  lemma GotInRun()
    ensures Messages(Lines(Units(CHARS_GOT))) == [REPLACED]
  {
    LinesOfRun();
    PlainScalars(LINE_GOT, CHARS_GOT);
    LineAlone(REPLACED);
  }

  lemma OtherMessage()
    ensures REPLACED != E_ACUTE && !([REPLACED] <= [E_ACUTE])
  {
    assert REPLACED.s[0] != E_ACUTE.s[0];
    assert [REPLACED][0] != [E_ACUTE][0];
  }

  /**
   A run in which the handler gets another message: the string "\u00E9" is sent, one ASCII
   character of diagnostics is decoded between its two bytes, and "\uFFFD" arrives.
   */
  lemma InterruptionGarbles()
    ensures |WireBytes([E_ACUTE])| == 5
    ensures var c := InterruptedRun(SendAll([E_ACUTE]), 2, [0x41], 3);
            c.sent == [E_ACUTE] && c.got == [REPLACED] && !(c.got <= c.sent)
  {
    SentInRun();
    GotInRun();
    TextOfRun();
    SendAllFillsPipe([E_ACUTE]);
    InterruptedRunGets(SendAll([E_ACUTE]), [E_ACUTE], 2, [0x41]);
    OtherMessage();
  }
}
