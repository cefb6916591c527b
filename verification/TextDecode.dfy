/** Turning the bytes of a file, read up to a cap, into text. */
module TextDecode {
  import opened Unicode

  datatype Encoding = Utf32Le | Utf32Be | Utf8 | Utf16Le | Utf16Be

  /** The byte-order marks, in the order they are tried. */
  const MARKS: seq<(seq<Byte>, Encoding)> := [
    ([0xFF, 0xFE, 0x00, 0x00], Utf32Le),
    ([0x00, 0x00, 0xFE, 0xFF], Utf32Be),
    ([0xEF, 0xBB, 0xBF], Utf8),
    ([0xFF, 0xFE], Utf16Le),
    ([0xFE, 0xFF], Utf16Be)
  ]

  const MARK: Scalar := 0xFEFF

  /** The first mark from `i` on that `data` starts with. */
  function FindMark(data: seq<Byte>, i: nat): (k: nat)
    requires i <= |MARKS|
    ensures i <= k <= |MARKS|
    ensures k < |MARKS| ==> MARKS[k].0 <= data
    decreases |MARKS| - i
  {
    if i == |MARKS| || MARKS[i].0 <= data then i else FindMark(data, i + 1)
  }

  /** A cap may cut the last character in half: such a failure near the end is forgiven. */
  predicate LooksCut(data: seq<Byte>, start: nat, reason: Reason) {
    start + 4 >= |data| && (reason == UnexpectedEnd || reason == InvalidContinuation)
  }

  /**
   `decodeAs` stands for decoding with replacement under a named encoding, and `guess` for
   the detection tried on data that is not UTF-8.
   */
  function DecodeBytes(data: seq<Byte>, decodeAs: (Encoding, seq<Byte>) -> seq<Scalar>,
                       guess: seq<Byte> -> seq<Scalar>): seq<Scalar> {
    if data == [] then []
    else
      var k := FindMark(data, 0);
      if k < |MARKS| then decodeAs(MARKS[k].1, data[|MARKS[k].0|..])
      else
        var strict := Decode(data);
        if strict.Decoded? then strict.chars
        else if LooksCut(data, strict.start, strict.reason) then
          BeforeFailureDecodes(data);
          Decode(data[..strict.start]).chars
        else guess(data)
  }

  /** No byte of UTF-8 is one that the other marks hold. */
  lemma {:induction false} BytesAreLow(s: seq<Scalar>)
    ensures forall i :: 0 <= i < |Encode(s)| ==> Encode(s)[i] < 0xF5
  {
    if s != [] {
      BytesAreLow(s[1..]);
    }
  }

  lemma Utf8MarkIsFirst(s: seq<Scalar>, k: nat)
    requires k <= |Encode(s)| && [0xEF, 0xBB, 0xBF] <= Encode(s)[..k]
    ensures s != [] && s[0] == MARK
  {
    var data := Encode(s)[..k];
    assert data[0] == 0xEF && data[1] == 0xBB && data[2] == 0xBF;
    assert Scan(data) == Char(MARK, 3);
    if Width(s[0]) <= k {
      EncodePrefix(s, k);
      ScanEncoded(s[0], Encode(s[1..])[..k - Width(s[0])]);
    }
  }

  /** No cut of a UTF-8 text that does not start with the mark is taken to start with one. */
  lemma CutTextHasNoMark(s: seq<Scalar>, k: nat)
    requires k <= |Encode(s)| && (s == [] || s[0] != MARK)
    ensures FindMark(Encode(s)[..k], 0) == |MARKS|
  {
    var data := Encode(s)[..k];
    BytesAreLow(s);
    if [0xEF, 0xBB, 0xBF] <= data {
      Utf8MarkIsFirst(s, k);
    }
    assert !(MARKS[0].0 <= data) by { assert MARKS[0].0[0] == 0xFF; }
    assert !(MARKS[1].0 <= data) by { assert MARKS[1].0[3] == 0xFF; }
    assert !(MARKS[2].0 <= data);
    assert !(MARKS[3].0 <= data) by { assert MARKS[3].0[0] == 0xFF; }
    assert !(MARKS[4].0 <= data) by { assert MARKS[4].0[0] == 0xFE; }
    NoMarkFound(data, 0);
  }

  lemma {:induction false} NoMarkFound(data: seq<Byte>, i: nat)
    requires i <= |MARKS| && forall k :: i <= k < |MARKS| ==> !(MARKS[k].0 <= data)
    ensures FindMark(data, i) == |MARKS|
    decreases |MARKS| - i
  {
    if i < |MARKS| {
      NoMarkFound(data, i + 1);
    }
  }

  /** Exactly the characters whose bytes are all present, for every text and every cut. */
  lemma DecodeBytesOfCutText(s: seq<Scalar>, k: nat, decodeAs: (Encoding, seq<Byte>) -> seq<Scalar>,
                             guess: seq<Byte> -> seq<Scalar>)
    requires k <= |Encode(s)| && (s == [] || s[0] != MARK)
    ensures DecodeBytes(Encode(s)[..k], decodeAs, guess) == s[..WholeChars(s, k)]
  {
    var data, n := Encode(s)[..k], WholeChars(s, k);
    CutTextHasNoMark(s, k);
    DecodeCut(s, k);
    if k == 0 {
      assert s[..n] == [];
    } else if CutTail(s, k) != [] {
      CutIsWholeCharsAndTail(s, k);
      DecodeEncoded(s[..n]);
      assert data[..k - |CutTail(s, k)|] == Encode(s[..n]);
    }
  }

  /** U+FEFF in each encoding: what a marked file starts with. */
  function MarkBytes(e: Encoding): seq<Byte> {
    match e
    case Utf8 => Encode([MARK])
    case Utf16Be => [MARK / 0x100, MARK % 0x100]
    case Utf16Le => [MARK % 0x100, MARK / 0x100]
    case Utf32Be => [0, 0, MARK / 0x100, MARK % 0x100]
    case Utf32Le => [MARK % 0x100, MARK / 0x100, 0, 0]
  }

  function Place(e: Encoding): (k: nat)
    ensures k < |MARKS|
  {
    match e
    case Utf32Le => 0
    case Utf32Be => 1
    case Utf8 => 2
    case Utf16Le => 3
    case Utf16Be => 4
  }

  lemma MarkIsPlaced(e: Encoding)
    ensures MARKS[Place(e)] == (MarkBytes(e), e)
  {
    assert Encode([MARK]) == [0xEF, 0xBB, 0xBF];
  }

  lemma {:induction false} FirstMarkIsFound(data: seq<Byte>, i: nat, k: nat)
    requires i <= k < |MARKS| && MARKS[k].0 <= data && forall j :: i <= j < k ==> !(MARKS[j].0 <= data)
    ensures FindMark(data, i) == k
    decreases |MARKS| - i
  {
    if i < k {
      FirstMarkIsFound(data, i + 1, k);
    }
  }

  lemma OnlyMark(data: seq<Byte>, e: Encoding, d: Encoding)
    requires MarkBytes(e) <= data && MarkBytes(d) <= data && d != e
    ensures (e == Utf16Le && d == Utf32Le) || (e == Utf32Le && d == Utf16Le)
  {
    MarkIsPlaced(e);
    MarkIsPlaced(d);
    assert data[0] == MarkBytes(e)[0] == MarkBytes(d)[0];
  }

  /** A marked file is decoded as its mark says, without it. Only the mark of UTF-32 LE goes on from another. */
  lemma MarkedFileDecodes(data: seq<Byte>, e: Encoding, decodeAs: (Encoding, seq<Byte>) -> seq<Scalar>,
                          guess: seq<Byte> -> seq<Scalar>)
    requires MarkBytes(e) <= data && (e.Utf16Le? ==> !(MarkBytes(Utf32Le) <= data))
    ensures DecodeBytes(data, decodeAs, guess) == decodeAs(e, data[|MarkBytes(e)|..])
  {
    forall j | 0 <= j < Place(e)
      ensures !(MARKS[j].0 <= data)
    {
      var d := MARKS[j].1;
      MarkIsPlaced(d);
      if MarkBytes(d) <= data {
        OnlyMark(data, e, d);
      }
    }
    MarkIsPlaced(e);
    FirstMarkIsFound(data, 0, Place(e));
  }

  predicate IsMarked(data: seq<Byte>) {
    || MarkBytes(Utf8) <= data || MarkBytes(Utf16Le) <= data || MarkBytes(Utf16Be) <= data
    || MarkBytes(Utf32Le) <= data || MarkBytes(Utf32Be) <= data
  }

  lemma NoMarkIsFound(data: seq<Byte>)
    requires !IsMarked(data)
    ensures FindMark(data, 0) == |MARKS|
  {
    forall k | 0 <= k < |MARKS|
      ensures !(MARKS[k].0 <= data)
    {
      MarkIsPlaced(MARKS[k].1);
      assert !(MarkBytes(MARKS[k].1) <= data);
    }
    NoMarkFound(data, 0);
  }

  /** Bytes that stop being UTF-8 more than four before the end are left to the guess, all of them. */
  lemma BadBytesAreGuessed(data: seq<Byte>, decodeAs: (Encoding, seq<Byte>) -> seq<Scalar>,
                           guess: seq<Byte> -> seq<Scalar>)
    requires !IsMarked(data)
    requires Decode(data).Failed? && (Decode(data).start + 4 < |data| || Decode(data).reason == InvalidStart)
    ensures DecodeBytes(data, decodeAs, guess) == guess(data)
  {
    NoMarkIsFound(data);
    NotCutIsGuessed(data, decodeAs, guess);
  }

  lemma NotCutIsGuessed(data: seq<Byte>, decodeAs: (Encoding, seq<Byte>) -> seq<Scalar>,
                        guess: seq<Byte> -> seq<Scalar>)
    requires FindMark(data, 0) == |MARKS| && Decode(data).Failed?
    requires !LooksCut(data, Decode(data).start, Decode(data).reason)
    ensures DecodeBytes(data, decodeAs, guess) == guess(data)
  {
    assert data != [];
  }

  // ----- reading a file up to a cap

  /** The bytes read, and whether the file was longer. */
  function ReadCapped(file: seq<Byte>, maxChars: nat): (seq<Byte>, bool) {
    var limit := maxChars * 4 + 4;
    if |file| <= limit then (file, false) else (file[..limit], true)
  }

  lemma {:induction false} WholeCharsAtLeast(s: seq<Scalar>, k: nat)
    requires k <= |Encode(s)|
    ensures 4 * WholeChars(s, k) + 3 >= k
  {
    if s != [] && Width(s[0]) <= k {
      WholeCharsAtLeast(s[1..], k - Width(s[0]));
    }
  }

  /** A file that was not read to its end decodes to more characters than the budget takes. */
  lemma CappedReadOverfills(s: seq<Scalar>, maxChars: nat, decodeAs: (Encoding, seq<Byte>) -> seq<Scalar>,
                            guess: seq<Byte> -> seq<Scalar>)
    requires (s == [] || s[0] != MARK) && ReadCapped(Encode(s), maxChars).1
    ensures var text := DecodeBytes(ReadCapped(Encode(s), maxChars).0, decodeAs, guess);
            maxChars < |text| && text <= s
  {
    var limit := maxChars * 4 + 4;
    var n := WholeChars(s, limit);
    DecodeBytesOfCutText(s, limit, decodeAs, guess);
    WholeCharsAtLeast(s, limit);
    assert maxChars < n && s[..n] <= s;
  }

  /** A file read to its end decodes to the whole text. */
  lemma WholeReadIsExact(s: seq<Scalar>, maxChars: nat, decodeAs: (Encoding, seq<Byte>) -> seq<Scalar>,
                         guess: seq<Byte> -> seq<Scalar>)
    requires (s == [] || s[0] != MARK) && !ReadCapped(Encode(s), maxChars).1
    ensures DecodeBytes(ReadCapped(Encode(s), maxChars).0, decodeAs, guess) == s
  {
    var bytes := Encode(s);
    DecodeBytesOfCutText(s, |bytes|, decodeAs, guess);
    EncodedTextIsWhole(s);
    assert bytes == bytes[..|bytes|] && s[..|s|] == s;
  }
}
