/**
 UTF-8 (sections 3 and 4 of RFC 3629), as the strict Python decoder and the streaming decoder
 of the JavaScript runtime read it.

 Strict decoding stops at the first sequence that is not well-formed; streaming decoding
 replaces what cannot be completed and holds back what still may be.
 */
module Unicode {

  type Byte = b: int | 0 <= b < 0x100

  type Scalar = c: int | 0 <= c < 0xD800 || 0xE000 <= c < 0x11_0000

  const REPLACEMENT: Scalar := 0xFFFD

  // ----- encoding

  function Width(c: Scalar): (w: nat)
    ensures 1 <= w <= 4
  {
    if c < 0x80 then 1 else if c < 0x800 then 2 else if c < 0x1_0000 then 3 else 4
  }

  function EncodeChar(c: Scalar): (s: seq<Byte>)
    ensures |s| == Width(c)
  {
    if c < 0x80 then [c]
    else if c < 0x800 then [0xC0 + c / 0x40, 0x80 + c % 0x40]
    else if c < 0x1_0000 then [0xE0 + c / 0x1000, 0x80 + c / 0x40 % 0x40, 0x80 + c % 0x40]
    else [0xF0 + c / 0x4_0000, 0x80 + c / 0x1000 % 0x40, 0x80 + c / 0x40 % 0x40, 0x80 + c % 0x40]
  }

  function Encode(s: seq<Scalar>): seq<Byte> {
    if s == [] then [] else EncodeChar(s[0]) + Encode(s[1..])
  }

  lemma {:induction false} EncodeConcat(a: seq<Scalar>, b: seq<Scalar>)
    ensures Encode(a + b) == Encode(a) + Encode(b)
  {
    if a == [] {
      assert a + b == b;
    } else {
      var ab := a + b;
      assert ab[0] == a[0] && ab[1..] == a[1..] + b;
      EncodeConcat(a[1..], b);
    }
  }

  // ----- reading one character

  datatype Reason = InvalidStart | InvalidContinuation | UnexpectedEnd

  /** What a byte string starts with. A bad start covers the longest prefix of a character. */
  datatype Scanned =
    | Char(c: Scalar, width: nat)
    | CutShort
    | Bad(reason: Reason, width: nat)

  predicate IsContinuation(b: Byte) {
    0x80 <= b < 0xC0
  }

  /** Whether `b` may follow the lead byte of a character of three or four bytes. */
  predicate IsSecond(lead: int, b: Byte) {
    && IsContinuation(b)
    && (lead == 0xE0 ==> b >= 0xA0)
    && (lead == 0xED ==> b < 0xA0)
    && (lead == 0xF0 ==> b >= 0x90)
    && (lead == 0xF4 ==> b < 0x90)
  }

  function Scan(s: seq<Byte>): (r: Scanned)
    requires s != []
    ensures r.Char? || r.Bad? ==> 0 < r.width <= |s|
    ensures r.CutShort? ==> |s| < 4
  {
    var lead: int := s[0];
    if lead < 0x80 then Char(lead, 1)
    else if lead < 0xC2 then Bad(InvalidStart, 1)
    else if lead < 0xE0 then
      if |s| < 2 then CutShort
      else if !IsContinuation(s[1]) then Bad(InvalidContinuation, 1)
      else Char((lead - 0xC0) * 0x40 + (s[1] as int - 0x80), 2)
    else if lead < 0xF0 then
      if |s| < 2 then CutShort
      else if !IsSecond(lead, s[1]) then Bad(InvalidContinuation, 1)
      else if |s| < 3 then CutShort
      else if !IsContinuation(s[2]) then Bad(InvalidContinuation, 2)
      else Char((lead - 0xE0) * 0x1000 + (s[1] as int - 0x80) * 0x40 + (s[2] as int - 0x80), 3)
    else if lead < 0xF5 then
      if |s| < 2 then CutShort
      else if !IsSecond(lead, s[1]) then Bad(InvalidContinuation, 1)
      else if |s| < 3 then CutShort
      else if !IsContinuation(s[2]) then Bad(InvalidContinuation, 2)
      else if |s| < 4 then CutShort
      else if !IsContinuation(s[3]) then Bad(InvalidContinuation, 3)
      else Char((lead - 0xF0) * 0x4_0000 + (s[1] as int - 0x80) * 0x1000
                + (s[2] as int - 0x80) * 0x40 + (s[3] as int - 0x80), 4)
    else Bad(InvalidStart, 1)
  }

  /** An encoded character is read back, whatever follows it. */
  lemma ScanEncoded(c: Scalar, rest: seq<Byte>)
    ensures Scan(EncodeChar(c) + rest) == Char(c, Width(c))
  {
    if c < 0x80 {
      assert (EncodeChar(c) + rest)[0] == c;
    } else if c < 0x800 {
      ScanTwo(c / 0x40, c % 0x40, rest);
    } else if c < 0x1_0000 {
      Sextets(c);
      ScanThree(c / 0x1000, c / 0x40 % 0x40, c % 0x40, rest);
    } else {
      Sextets(c);
      Sextets(c / 0x40);
      ScanFour(c / 0x4_0000, c / 0x1000 % 0x40, c / 0x40 % 0x40, c % 0x40, rest);
    }
  }

  /** Digits to the base of 64. */
  lemma Sextets(c: nat)
    ensures c == c / 0x1000 * 0x1000 + c / 0x40 % 0x40 * 0x40 + c % 0x40
    ensures c / 0x40 / 0x40 == c / 0x1000 && c / 0x40 / 0x1000 == c / 0x4_0000
  {
  }

  lemma ScanTwo(h: nat, l: nat, rest: seq<Byte>)
    requires 2 <= h < 0x20 && l < 0x40
    ensures Scan([0xC0 + h, 0x80 + l] + rest) == Char(h * 0x40 + l, 2)
  {
    var s := [0xC0 + h, 0x80 + l] + rest;
    assert s[0] == 0xC0 + h && s[1] == 0x80 + l;
  }

  lemma ScanThree(h: nat, m: nat, l: nat, rest: seq<Byte>)
    requires h < 0x10 && m < 0x40 && l < 0x40
    requires (h == 0 ==> m >= 0x20) && (h == 0xD ==> m < 0x20)
    ensures Scan([0xE0 + h, 0x80 + m, 0x80 + l] + rest) == Char(h * 0x1000 + m * 0x40 + l, 3)
  {
    var s := [0xE0 + h, 0x80 + m, 0x80 + l] + rest;
    assert s[0] == 0xE0 + h && s[1] == 0x80 + m && s[2] == 0x80 + l;
  }

  lemma ScanFour(g: nat, h: nat, m: nat, l: nat, rest: seq<Byte>)
    requires g < 5 && h < 0x40 && m < 0x40 && l < 0x40
    requires (g == 0 ==> h >= 0x10) && (g == 4 ==> h < 0x10)
    ensures Scan([0xF0 + g, 0x80 + h, 0x80 + m, 0x80 + l] + rest) ==
            Char(g * 0x4_0000 + h * 0x1000 + m * 0x40 + l, 4)
  {
    var s := [0xF0 + g, 0x80 + h, 0x80 + m, 0x80 + l] + rest;
    assert s[0] == 0xF0 + g && s[1] == 0x80 + h && s[2] == 0x80 + m && s[3] == 0x80 + l;
  }

  /** A character cut anywhere inside is seen as cut short, not as an error. */
  lemma ScanCut(c: Scalar, k: nat)
    requires 0 < k < Width(c)
    ensures Scan(EncodeChar(c)[..k]) == CutShort
  {
    if c < 0x800 {
    } else if c < 0x1_0000 {
      Sextets(c);
      CutThree(c / 0x1000, c / 0x40 % 0x40, c % 0x40, k);
    } else {
      Sextets(c);
      Sextets(c / 0x40);
      CutFour(c / 0x4_0000, c / 0x1000 % 0x40, c / 0x40 % 0x40, c % 0x40, k);
    }
  }

  lemma CutThree(h: nat, m: nat, l: nat, k: nat)
    requires h < 0x10 && m < 0x40 && l < 0x40 && 0 < k < 3
    requires (h == 0 ==> m >= 0x20) && (h == 0xD ==> m < 0x20)
    ensures Scan([0xE0 + h, 0x80 + m, 0x80 + l][..k]) == CutShort
  {
    var s := [0xE0 + h, 0x80 + m, 0x80 + l][..k];
    assert s[0] == 0xE0 + h && (k > 1 ==> s[1] == 0x80 + m);
  }

  lemma CutFour(g: nat, h: nat, m: nat, l: nat, k: nat)
    requires g < 5 && h < 0x40 && m < 0x40 && l < 0x40 && 0 < k < 4
    requires (g == 0 ==> h >= 0x10) && (g == 4 ==> h < 0x10)
    ensures Scan([0xF0 + g, 0x80 + h, 0x80 + m, 0x80 + l][..k]) == CutShort
  {
    var s := [0xF0 + g, 0x80 + h, 0x80 + m, 0x80 + l][..k];
    assert s[0] == 0xF0 + g && (k > 1 ==> s[1] == 0x80 + h) && (k > 2 ==> s[2] == 0x80 + m);
  }

  /** What has been recognised stays recognised when more bytes arrive. */
  lemma ScanIsStable(s: seq<Byte>, more: seq<Byte>)
    requires s != [] && !Scan(s).CutShort?
    ensures Scan(s + more) == Scan(s)
  {
    assert forall k :: 0 <= k < |s| ==> (s + more)[k] == s[k];
  }

  // ----- the strict decoder

  datatype Decoded =
    | Decoded(chars: seq<Scalar>)
    | Failed(start: nat, reason: Reason)

  /** `bytes.decode("utf-8")`; a failure names where it starts and why. */
  function Decode(s: seq<Byte>): Decoded {
    if s == [] then Decoded([])
    else
      match Scan(s)
      case CutShort => Failed(0, UnexpectedEnd)
      case Bad(reason, _) => Failed(0, reason)
      case Char(c, w) =>
        match Decode(s[w..])
        case Decoded(chars) => Decoded([c] + chars)
        case Failed(start, reason) => Failed(w + start, reason)
  }

  /** What precedes the first failure always decodes. */
  lemma {:induction false} BeforeFailureDecodes(s: seq<Byte>)
    requires Decode(s).Failed?
    ensures Decode(s).start <= |s| && Decode(s[..Decode(s).start]).Decoded?
    decreases |s|
  {
    match Scan(s)
    case CutShort =>
    case Bad(_, _) =>
    case Char(c, w) =>
      BeforeFailureDecodes(s[w..]);
      var start := Decode(s).start;
      assert s == s[..w] + s[w..];
      assert s[..start][w..] == s[w..][..start - w];
      assert s[..start] == s[..w] + s[w..start];
      ScanOfPrefix(s, start);
  }

  lemma ScanOfPrefix(s: seq<Byte>, n: nat)
    requires s != [] && Scan(s).Char? && Scan(s).width <= n <= |s|
    ensures Scan(s[..n]) == Scan(s)
  {
    assert forall k :: 0 <= k < n ==> s[..n][k] == s[k];
  }

  // ----- the streaming decoder

  /** The characters a streaming decoder can give out, and the bytes it holds back. */
  datatype Drained = Drained(chars: seq<Scalar>, held: seq<Byte>)
  {
    function Before(c: Scalar): Drained {
      Drained([c] + chars, held)
    }

    function After(first: seq<Scalar>): Drained {
      Drained(first + chars, held)
    }
  }

  function Drain(s: seq<Byte>): Drained {
    if s == [] then Drained([], [])
    else
      match Scan(s)
      case CutShort => Drained([], s)
      case Bad(_, w) => Drain(s[w..]).Before(REPLACEMENT)
      case Char(c, w) => Drain(s[w..]).Before(c)
  }

  lemma BeforeThenAfter(d: Drained, first: seq<Scalar>, c: Scalar)
    ensures d.After(first).Before(c) == d.After([c] + first)
  {
    assert [c] + (first + d.chars) == [c] + first + d.chars;
  }

  /** Draining in two steps, carrying over what was held back, is draining at once. */
  lemma {:induction false} DrainInParts(a: seq<Byte>, b: seq<Byte>)
    ensures Drain(a + b) == Drain(Drain(a).held + b).After(Drain(a).chars)
    decreases |a|
  {
    if a == [] || Scan(a).CutShort? {
      var d := Drain(Drain(a).held + b);
      assert Drain(a).chars == [] && Drain(a).held == a;
      assert d.After([]) == d by { assert [] + d.chars == d.chars; }
    } else {
      DrainPastFirst(a, b);
      DrainInParts(a[Scan(a).width..], b);
      BeforeThenAfter(Drain(Drain(a).held + b), Drain(a[Scan(a).width..]).chars, FirstOut(a));
    }
  }

  function FirstOut(s: seq<Byte>): Scalar
    requires s != [] && !Scan(s).CutShort?
  {
    if Scan(s).Char? then Scan(s).c else REPLACEMENT
  }

  lemma DrainPastFirst(a: seq<Byte>, b: seq<Byte>)
    requires a != [] && !Scan(a).CutShort?
    ensures Drain(a + b) == Drain(a[Scan(a).width..] + b).Before(FirstOut(a))
    ensures Drain(a) == Drain(a[Scan(a).width..]).Before(FirstOut(a))
  {
    ScanIsStable(a, b);
    assert (a + b)[Scan(a).width..] == a[Scan(a).width..] + b;
  }

  // ----- cutting an encoded text

  /** How many characters of `s` lie wholly in the first `k` bytes of its encoding. */
  function WholeChars(s: seq<Scalar>, k: nat): (n: nat)
    ensures n <= |s|
  {
    if s == [] || Width(s[0]) > k then 0 else 1 + WholeChars(s[1..], k - Width(s[0]))
  }

  lemma {:induction false} WholeCharsAreThoseThatFit(s: seq<Scalar>, k: nat, n: nat)
    requires n <= |s|
    ensures |Encode(s[..n])| <= k <==> n <= WholeChars(s, k)
  {
    if n > 0 {
      assert s[..n][1..] == s[1..][..n - 1];
      if Width(s[0]) <= k {
        WholeCharsAreThoseThatFit(s[1..], k - Width(s[0]), n - 1);
      }
    }
  }

  /** The bytes the cut leaves of the character it splits; none when it splits none. */
  function CutTail(s: seq<Scalar>, k: nat): (tail: seq<Byte>)
    ensures |tail| < 4 && |tail| <= k
  {
    if s == [] then []
    else if Width(s[0]) > k then EncodeChar(s[0])[..k]
    else CutTail(s[1..], k - Width(s[0]))
  }

  lemma EncodePrefix(s: seq<Scalar>, k: nat)
    requires s != [] && Width(s[0]) <= k <= |Encode(s)|
    ensures k - Width(s[0]) <= |Encode(s[1..])|
    ensures Encode(s)[..k] == EncodeChar(s[0]) + Encode(s[1..])[..k - Width(s[0])]
  {
  }

  /** A cut gives the whole characters, followed by the bytes left of the next one. */
  lemma {:induction false} CutIsWholeCharsAndTail(s: seq<Scalar>, k: nat)
    requires k <= |Encode(s)|
    ensures Encode(s)[..k] == Encode(s[..WholeChars(s, k)]) + CutTail(s, k)
    decreases |s|
  {
    if s != [] && Width(s[0]) <= k {
      var w, n := Width(s[0]), WholeChars(s, k);
      EncodePrefix(s, k);
      CutIsWholeCharsAndTail(s[1..], k - w);
      assert s[..n][0] == s[0] && s[..n][1..] == s[1..][..n - 1];
    }
  }

  lemma CutInLaterChar(s: seq<Scalar>, k: nat)
    requires s != [] && Width(s[0]) <= k <= |Encode(s)|
    ensures k - Width(s[0]) <= |Encode(s[1..])|
    ensures var cut, w := Encode(s)[..k], Width(s[0]);
            cut != [] && Scan(cut) == Char(s[0], w) && cut[w..] == Encode(s[1..])[..k - w]
    ensures s[..WholeChars(s, k)] == [s[0]] + s[1..][..WholeChars(s, k) - 1]
  {
    EncodePrefix(s, k);
    var tail := Encode(s[1..])[..k - Width(s[0])];
    ScanEncoded(s[0], tail);
    AfterFirst(EncodeChar(s[0]), tail);
    FirstThenRest(s, WholeChars(s, k));
  }

  lemma AfterFirst<T>(a: seq<T>, b: seq<T>)
    ensures (a + b)[|a|..] == b
  {
  }

  lemma FirstThenRest<T>(s: seq<T>, n: nat)
    requires 0 < n <= |s|
    ensures s[..n] == [s[0]] + s[1..][..n - 1]
  {
  }

  lemma CutInFirstChar(s: seq<Scalar>, k: nat)
    requires s != [] && 0 < k < Width(s[0])
    ensures k <= |Encode(s)| && Encode(s)[..k] == EncodeChar(s[0])[..k]
    ensures Scan(Encode(s)[..k]) == CutShort
  {
    ScanCut(s[0], k);
    assert Encode(s)[..k] == EncodeChar(s[0])[..k];
  }

  /** A streaming decoder gives out the whole characters and holds back the rest. */
  lemma {:induction false} DrainCut(s: seq<Scalar>, k: nat)
    requires k <= |Encode(s)|
    ensures Drain(Encode(s)[..k]) == Drained(s[..WholeChars(s, k)], CutTail(s, k))
    decreases |s|
  {
    if s != [] && Width(s[0]) <= k {
      CutInLaterChar(s, k);
      DrainCut(s[1..], k - Width(s[0]));
    } else if k > 0 {
      CutInFirstChar(s, k);
    }
  }

  /** A strict decoder reads the whole characters, and fails at the one that is cut. */
  lemma {:induction false} DecodeCut(s: seq<Scalar>, k: nat)
    requires k <= |Encode(s)|
    ensures Decode(Encode(s)[..k]) ==
            if CutTail(s, k) == [] then Decoded(s[..WholeChars(s, k)]) else Failed(k - |CutTail(s, k)|, UnexpectedEnd)
    decreases |s|
  {
    if s != [] && Width(s[0]) <= k {
      CutInLaterChar(s, k);
      DecodeCut(s[1..], k - Width(s[0]));
    } else if k > 0 {
      CutInFirstChar(s, k);
    }
  }

  lemma {:induction false} EncodedTextIsWhole(s: seq<Scalar>)
    ensures WholeChars(s, |Encode(s)|) == |s| && CutTail(s, |Encode(s)|) == []
  {
    if s != [] {
      EncodedTextIsWhole(s[1..]);
    }
  }

  /** Both decoders undo the encoder. */
  lemma DecodeEncoded(s: seq<Scalar>)
    ensures Decode(Encode(s)) == Decoded(s) && Drain(Encode(s)) == Drained(s, [])
  {
    EncodedTextIsWhole(s);
    DecodeCut(s, |Encode(s)|);
    DrainCut(s, |Encode(s)|);
    assert Encode(s)[..|Encode(s)|] == Encode(s) && s[..|s|] == s;
  }
}
