/**
 Python text: sequences of code points, its whitespace, trimming and lines.

 The ink of a text is what is left without whitespace: normalising and splitting may move
 or drop whitespace and control characters, and keep the ink.
 */
module Text {

  type CodePoint = c: int | 0 <= c < 0x11_0000

  type Text = seq<CodePoint>

  const NEWLINE: CodePoint := 10
  const RETURN: CodePoint := 13
  const TAB: CodePoint := 9
  const SPACE: CodePoint := 32

  /** The characters `str.strip` and `str.isspace` count as whitespace. */
  predicate IsSpace(c: CodePoint) {
    || 0x09 <= c <= 0x0D
    || 0x1C <= c <= 0x20
    || c == 0x85 || c == 0xA0 || c == 0x1680
    || 0x2000 <= c <= 0x200A
    || c == 0x2028 || c == 0x2029 || c == 0x202F || c == 0x205F || c == 0x3000
  }

  const WHITE := (c: CodePoint) => IsSpace(c)
  const NEWLINES := (c: CodePoint) => c == NEWLINE

  function TrimLeft(drop: CodePoint -> bool, s: Text): Text {
    if s != [] && drop(s[0]) then TrimLeft(drop, s[1..]) else s
  }

  function TrimRight(drop: CodePoint -> bool, s: Text): Text {
    if s != [] && drop(s[|s| - 1]) then TrimRight(drop, s[..|s| - 1]) else s
  }

  function Trim(drop: CodePoint -> bool, s: Text): Text {
    TrimRight(drop, TrimLeft(drop, s))
  }

  /** What is left of a text when its whitespace is disregarded. */
  function Ink(s: Text): Text {
    if s == [] then [] else (if IsSpace(s[0]) then [] else [s[0]]) + Ink(s[1..])
  }

  predicate IsBlank(s: Text) {
    Ink(s) == []
  }

  lemma {:induction false} InkConcat(a: Text, b: Text)
    ensures Ink(a + b) == Ink(a) + Ink(b)
  {
    if a == [] {
      assert a + b == b;
    } else {
      var ab := a + b;
      assert ab[0] == a[0] && ab[1..] == a[1..] + b;
      InkConcat(a[1..], b);
    }
  }

  lemma InkLast(s: Text)
    requires s != []
    ensures Ink(s) == Ink(s[..|s| - 1]) + Ink([s[|s| - 1]])
  {
    InkConcat(s[..|s| - 1], [s[|s| - 1]]);
    assert s == s[..|s| - 1] + [s[|s| - 1]];
  }

  ghost predicate OnlySpace(drop: CodePoint -> bool) {
    forall c :: drop(c) ==> IsSpace(c)
  }

  lemma {:induction false} TrimLeftKeepsInk(drop: CodePoint -> bool, s: Text)
    requires OnlySpace(drop)
    ensures Ink(TrimLeft(drop, s)) == Ink(s) && |TrimLeft(drop, s)| <= |s|
  {
    if s != [] && drop(s[0]) {
      TrimLeftKeepsInk(drop, s[1..]);
    }
  }

  lemma {:induction false} TrimRightKeepsInk(drop: CodePoint -> bool, s: Text)
    requires OnlySpace(drop)
    ensures Ink(TrimRight(drop, s)) == Ink(s) && |TrimRight(drop, s)| <= |s|
    decreases |s|
  {
    if s != [] && drop(s[|s| - 1]) {
      TrimRightKeepsInk(drop, s[..|s| - 1]);
      InkLast(s);
    }
  }

  lemma TrimKeepsInk(drop: CodePoint -> bool, s: Text)
    requires OnlySpace(drop)
    ensures Ink(Trim(drop, s)) == Ink(s) && |Trim(drop, s)| <= |s|
  {
    TrimLeftKeepsInk(drop, s);
    TrimRightKeepsInk(drop, TrimLeft(drop, s));
  }

  // ----- lines

  /** `"\n".join(lines)` */
  function Join(lines: seq<Text>): Text {
    if lines == [] then []
    else if |lines| == 1 then lines[0]
    else Join(lines[..|lines| - 1]) + [NEWLINE] + lines[|lines| - 1]
  }

  /** `text.split("\n")` */
  function Split(s: Text): (lines: seq<Text>)
    ensures |lines| > 0
  {
    if s == [] then [[]]
    else
      var before := Split(s[..|s| - 1]);
      if s[|s| - 1] == NEWLINE then before + [[]]
      else before[|before| - 1 := before[|before| - 1] + [s[|s| - 1]]]
  }

  lemma JoinAppend(lines: seq<Text>, line: Text)
    ensures Join(lines + [line]) == if lines == [] then line else Join(lines) + [NEWLINE] + line
  {
    assert (lines + [line])[..|lines|] == lines;
  }

  /** Characters appended to the last line are appended to the joined text. */
  lemma JoinExtendLast(lines: seq<Text>, more: Text)
    requires lines != []
    ensures Join(lines[|lines| - 1 := lines[|lines| - 1] + more]) == Join(lines) + more
  {
    var init, last := lines[..|lines| - 1], lines[|lines| - 1];
    var longer := lines[|lines| - 1 := last + more];
    assert longer[..|lines| - 1] == init;
    if |lines| > 1 {
      assert Join(init) + [NEWLINE] + (last + more) == Join(init) + [NEWLINE] + last + more;
    }
  }

  lemma {:induction false} JoinSplit(s: Text)
    ensures Join(Split(s)) == s
    decreases |s|
  {
    if s != [] {
      var init, last := s[..|s| - 1], s[|s| - 1];
      assert s == init + [last];
      JoinSplit(init);
      if last == NEWLINE {
        JoinAppend(Split(init), []);
      } else {
        JoinExtendLast(Split(init), [last]);
      }
    }
  }

  /** The ink of a list of lines, in order. */
  function InkOf(lines: seq<Text>): Text {
    if lines == [] then [] else InkOf(lines[..|lines| - 1]) + Ink(lines[|lines| - 1])
  }

  lemma InkOfAppend(lines: seq<Text>, line: Text)
    ensures InkOf(lines + [line]) == InkOf(lines) + Ink(line)
  {
    assert (lines + [line])[..|lines|] == lines;
  }

  lemma {:induction false} InkOfJoin(lines: seq<Text>)
    ensures Ink(Join(lines)) == InkOf(lines)
    decreases |lines|
  {
    if |lines| == 1 {
      assert InkOf(lines) == Ink(lines[0]) by { assert lines[..0] == []; }
    } else if |lines| > 1 {
      InkOfJoin(lines[..|lines| - 1]);
      InkConcat(Join(lines[..|lines| - 1]) + [NEWLINE], lines[|lines| - 1]);
      InkConcat(Join(lines[..|lines| - 1]), [NEWLINE]);
    }
  }

  // ----- normalisation before anything is counted

  /** `"\r\n"` and a lone `"\r"` become a newline. */
  function UnixNewlines(s: Text): Text {
    if s == [] then []
    else if s[0] == RETURN then
      [NEWLINE] + UnixNewlines(if |s| > 1 && s[1] == NEWLINE then s[2..] else s[1..])
    else [s[0]] + UnixNewlines(s[1..])
  }

  predicate IsControl(c: CodePoint) {
    c <= 0x08 || 0x0B <= c <= 0x1F || c == 0x7F || c == 0xFFFE || c == 0xFFFF
  }

  predicate IsSurrogate(c: CodePoint) {
    0xD800 <= c < 0xE000
  }

  const QUESTION_MARK: CodePoint := 63

  /** Control characters go, and a lone surrogate becomes what encoding it would have left. */
  function Encodable(s: Text): Text {
    if s == [] then []
    else EncodableChar(s[0]) + Encodable(s[1..])
  }

  function EncodableChar(c: CodePoint): Text {
    if IsControl(c) then [] else if IsSurrogate(c) then [QUESTION_MARK] else [c]
  }

  predicate IsPad(c: CodePoint) {
    c == SPACE || c == TAB
  }

  /** A run of spaces and tabs in front of a newline goes. */
  function DropTrailingPads(s: Text): Text {
    if s == [] then []
    else
      var rest := DropTrailingPads(s[1..]);
      if IsPad(s[0]) && rest != [] && rest[0] == NEWLINE then rest else [s[0]] + rest
  }

  /** Three newlines or more become two. */
  function DropBlankLines(s: Text): Text {
    if s == [] then []
    else
      var rest := DropBlankLines(s[1..]);
      if s[0] == NEWLINE && |rest| > 1 && rest[0] == rest[1] == NEWLINE then rest else [s[0]] + rest
  }

  function CleanText(s: Text): Text {
    DropBlankLines(DropTrailingPads(Encodable(UnixNewlines(s))))
  }

  ghost predicate Encodes(s: Text) {
    forall k :: 0 <= k < |s| ==> !IsControl(s[k]) && !IsSurrogate(s[k])
  }

  ghost predicate NoTrailingPads(s: Text) {
    forall j, k :: 0 <= j && k == j + 1 < |s| && s[k] == NEWLINE ==> !IsPad(s[j])
  }

  ghost predicate NoBlankLineRuns(s: Text) {
    forall j, k, l :: 0 <= j && k == j + 1 && l == k + 1 < |s| ==> !(s[j] == s[k] == s[l] == NEWLINE)
  }

  ghost predicate IsClean(s: Text) {
    Encodes(s) && NoTrailingPads(s) && NoBlankLineRuns(s)
  }

  lemma {:induction false} EncodableEncodes(s: Text)
    ensures Encodes(Encodable(s))
  {
    if s != [] {
      EncodableEncodes(s[1..]);
    }
  }

  lemma {:induction false} InkOfEncodable(s: Text)
    ensures Ink(Encodable(s)) == Encodable(Ink(s))
  {
    if s != [] {
      InkOfEncodable(s[1..]);
      InkConcat(EncodableChar(s[0]), Encodable(s[1..]));
      InkHead(s);
      EncodableOfInk(s[0], Ink(s[1..]));
    }
  }

  lemma InkHead(s: Text)
    requires s != []
    ensures Ink(s) == if IsSpace(s[0]) then Ink(s[1..]) else [s[0]] + Ink(s[1..])
  {
  }

  lemma EncodableOfInk(c: CodePoint, ink: Text)
    ensures Encodable(if IsSpace(c) then ink else [c] + ink) == Ink(EncodableChar(c)) + Encodable(ink)
  {
    assert ([c] + ink)[1..] == ink;
    assert IsSpace(c) ==> Ink([c]) == [];
    assert [c][1..] == [];
  }

  /** Each part of a text is converted on its own, unless they part a `"\r\n"`. */
  lemma {:induction false} UnixNewlinesInParts(a: Text, b: Text)
    requires a != [] && a[|a| - 1] == RETURN ==> b == [] || b[0] != NEWLINE
    ensures UnixNewlines(a + b) == UnixNewlines(a) + UnixNewlines(b)
    decreases |a|
  {
    if a == [] {
      assert a + b == b;
    } else {
      var n := LineEndLength(a);
      HeadOfParts(a, b);
      UnixNewlinesInParts(a[n..], b);
      var u, v := UnixNewlines(a[n..]), UnixNewlines(b);
      var c := if a[0] == RETURN then NEWLINE else a[0];
      assert [c] + (u + v) == [c] + u + v;
    }
  }

  /** How many characters the first one is converted with. */
  function LineEndLength(s: Text): (n: nat)
    requires s != []
    ensures 0 < n <= |s|
  {
    if s[0] == RETURN && |s| > 1 && s[1] == NEWLINE then 2 else 1
  }

  lemma HeadOfParts(a: Text, b: Text)
    requires a != []
    requires a[|a| - 1] == RETURN ==> b == [] || b[0] != NEWLINE
    ensures LineEndLength(a + b) == LineEndLength(a) && (a + b)[LineEndLength(a)..] == a[LineEndLength(a)..] + b
    ensures (a + b)[0] == a[0]
  {
    assert |a| > 1 ==> (a + b)[1] == a[1];
    assert |a| == 1 && b != [] ==> (a + b)[1] == b[0];
  }

  /** All three line ends become a newline, and other characters stay. */
  lemma {:induction false} LineEndsBecomeNewlines(s: Text)
    ensures UnixNewlines([RETURN, NEWLINE]) == UnixNewlines([RETURN]) == UnixNewlines([NEWLINE]) == [NEWLINE]
    ensures RETURN !in s ==> UnixNewlines(s) == s
  {
    if s != [] && RETURN !in s {
      LineEndsBecomeNewlines(s[1..]);
      assert s == [s[0]] + s[1..];
    }
    assert [RETURN, NEWLINE][2..] == [] && [RETURN][1..] == [] && [NEWLINE][1..] == [];
  }

  lemma {:induction false} UnixNewlinesKeepInk(s: Text)
    ensures Ink(UnixNewlines(s)) == Ink(s)
    decreases |s|
  {
    if s != [] {
      var after := if s[0] == RETURN && |s| > 1 && s[1] == NEWLINE then s[2..] else s[1..];
      UnixNewlinesKeepInk(after);
      InkConcat([s[0]], UnixNewlines(after));
      assert |s| > 1 && s[1] == NEWLINE ==> Ink(s[1..]) == Ink(s[1..][1..]) && s[1..][1..] == s[2..];
    }
  }

  lemma {:induction false} PadsDropped(s: Text)
    requires Encodes(s)
    ensures Encodes(DropTrailingPads(s)) && NoTrailingPads(DropTrailingPads(s))
    ensures Ink(DropTrailingPads(s)) == Ink(s)
  {
    if s != [] {
      PadsDropped(s[1..]);
    }
  }

  lemma {:induction false} BlankLinesDropped(s: Text)
    requires Encodes(s) && NoTrailingPads(s)
    ensures IsClean(DropBlankLines(s))
    ensures s != [] ==> DropBlankLines(s) != [] && DropBlankLines(s)[0] == s[0]
    ensures Ink(DropBlankLines(s)) == Ink(s)
  {
    if s != [] {
      var rest := DropBlankLines(s[1..]);
      TailStaysFree(s);
      BlankLinesDropped(s[1..]);
      if !(s[0] == NEWLINE && |rest| > 1 && rest[0] == rest[1] == NEWLINE) {
        CleanPrepend(s[0], rest);
      }
    }
  }

  lemma TailStaysFree(s: Text)
    requires s != [] && Encodes(s) && NoTrailingPads(s)
    ensures Encodes(s[1..]) && NoTrailingPads(s[1..])
    ensures |s| > 1 && s[1..][0] == NEWLINE ==> !IsPad(s[0])
  {
  }

  lemma CleanPrepend(c: CodePoint, rest: Text)
    requires IsClean(rest) && !IsControl(c) && !IsSurrogate(c)
    requires rest != [] && rest[0] == NEWLINE ==> !IsPad(c)
    requires !(c == NEWLINE && |rest| > 1 && rest[0] == rest[1] == NEWLINE)
    ensures IsClean([c] + rest) && Ink([c] + rest) == Ink([c]) + Ink(rest)
  {
    InkConcat([c], rest);
    PadsPrepend(c, rest);
    BlankLinesPrepend(c, rest);
  }

  lemma PadsPrepend(c: CodePoint, rest: Text)
    requires NoTrailingPads(rest) && (rest != [] && rest[0] == NEWLINE ==> !IsPad(c))
    ensures NoTrailingPads([c] + rest)
  {
    var s := [c] + rest;
    forall j, k | 0 <= j && k == j + 1 < |s| && s[k] == NEWLINE
      ensures !IsPad(s[j])
    {
      assert s[k] == rest[j];
      if j > 0 {
        assert s[j] == rest[j - 1];
      }
    }
  }

  lemma BlankLinesPrepend(c: CodePoint, rest: Text)
    requires NoBlankLineRuns(rest) && !(c == NEWLINE && |rest| > 1 && rest[0] == rest[1] == NEWLINE)
    ensures NoBlankLineRuns([c] + rest)
  {
    var s := [c] + rest;
    forall j, k, l | 0 <= j && k == j + 1 && l == k + 1 < |s|
      ensures !(s[j] == s[k] == s[l] == NEWLINE)
    {
      assert s[k] == rest[j] && s[l] == rest[k];
      if j > 0 {
        assert s[j] == rest[j - 1];
      }
    }
  }

  /** Normalising gives clean text, and drops nothing but whitespace and control characters. */
  lemma CleanTextIsClean(s: Text)
    ensures IsClean(CleanText(s))
    ensures Ink(CleanText(s)) == Encodable(Ink(s))
  {
    UnixNewlinesKeepInk(s);
    EncodableEncodes(UnixNewlines(s));
    InkOfEncodable(UnixNewlines(s));
    PadsDropped(Encodable(UnixNewlines(s)));
    BlankLinesDropped(DropTrailingPads(Encodable(UnixNewlines(s))));
  }

  lemma {:induction false} EncodableFixed(s: Text)
    requires Encodes(s)
    ensures UnixNewlines(s) == s && Encodable(s) == s
  {
    if s != [] {
      EncodableFixed(s[1..]);
    }
  }

  lemma {:induction false} PadsFixed(s: Text)
    requires NoTrailingPads(s)
    ensures DropTrailingPads(s) == s
  {
    if s != [] {
      PadsFixed(s[1..]);
    }
  }

  lemma {:induction false} BlankLinesFixed(s: Text)
    requires NoBlankLineRuns(s)
    ensures DropBlankLines(s) == s
  {
    if s != [] {
      BlankLinesFixed(s[1..]);
    }
  }

  /** Clean text is left alone, so normalising twice is normalising once. */
  lemma CleanTextIsIdempotent(s: Text)
    ensures IsClean(s) ==> CleanText(s) == s
    ensures CleanText(CleanText(s)) == CleanText(s)
  {
    CleanTextIsClean(s);
    CleanFixed(CleanText(s));
    if IsClean(s) {
      CleanFixed(s);
    }
  }

  lemma CleanFixed(s: Text)
    requires IsClean(s)
    ensures CleanText(s) == s
  {
    EncodableFixed(s);
    PadsFixed(s);
    BlankLinesFixed(s);
  }
}
