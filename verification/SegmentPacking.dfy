/** How full the segments of the file extractor are: lines are packed together, in the text's own layout. */
module SegmentPacking {
  import opened Text
  import opened SegmentOutput

  // ----- what trimming leaves

  lemma {:induction false} TrimLeftExactly(drop: CodePoint -> bool, s: Text) returns (i: nat)
    ensures i <= |s| && TrimLeft(drop, s) == s[i..] && (i < |s| ==> !drop(s[i]))
    ensures forall k :: 0 <= k < i ==> drop(s[k])
  {
    if s != [] && drop(s[0]) {
      var j := TrimLeftExactly(drop, s[1..]);
      i := j + 1;
      assert s[1..][j..] == s[i..];
      assert forall k :: 0 < k < i ==> s[k] == s[1..][k - 1];
    } else {
      i := 0;
    }
  }

  lemma {:induction false} TrimRightExactly(drop: CodePoint -> bool, s: Text) returns (j: nat)
    ensures j <= |s| && TrimRight(drop, s) == s[..j] && (j > 0 ==> !drop(s[j - 1]))
    ensures forall k :: j <= k < |s| ==> drop(s[k])
    decreases |s|
  {
    if s != [] && drop(s[|s| - 1]) {
      j := TrimRightExactly(drop, s[..|s| - 1]);
      assert s[..|s| - 1][..j] == s[..j];
      assert forall k :: j <= k < |s| - 1 ==> s[k] == s[..|s| - 1][k];
    } else {
      j := |s|;
    }
  }

  /** Trimming takes off the characters to drop at both ends, all of them and no others. */
  lemma TrimExactly(drop: CodePoint -> bool, s: Text) returns (i: nat, j: nat)
    ensures i <= j <= |s| && Trim(drop, s) == s[i..j]
    ensures forall k :: (0 <= k < i || j <= k < |s|) ==> drop(s[k])
    ensures i < j ==> !drop(s[i]) && !drop(s[j - 1])
  {
    i := TrimLeftExactly(drop, s);
    var n := TrimRightExactly(drop, s[i..]);
    j := i + n;
    assert s[i..][..n] == s[i..j];
    assert forall k :: j <= k < |s| ==> s[k] == s[i..][k - i];
    assert n > 0 ==> s[i..][n - 1] == s[j - 1];
  }

  lemma NothingToTrim(drop: CodePoint -> bool, s: Text)
    requires s != [] && !drop(s[0]) && !drop(s[|s| - 1])
    ensures Trim(drop, s) == s
  {
  }

  // ----- when a segment is closed

  /** The open segment as it would be emitted. */
  function OpenText(s: Segments): Text {
    Join(s.lines)
  }

  /** The open segment was emitted, and what follows is all of the new one. */
  ghost predicate Closes(s: Segments, t: Segments, lines: seq<Text>) {
    t.pages == s.pages + [Page(NoPage, Trim(NEWLINES, OpenText(s)))] && t.lines == lines
  }

  ghost predicate Continues(s: Segments, t: Segments, more: seq<Text>) {
    t.pages == s.pages && t.lines == s.lines + more
  }

  lemma ClosingEmits(s: Segments)
    requires Packed(s) && s.lines != []
    ensures Closes(s, Flush(s), [])
  {
    FlushEmits(s);
  }

  lemma FlushEmits(s: Segments)
    requires Packed(s) && s.lines != []
    ensures !IsBlank(Trim(NEWLINES, OpenText(s)))
  {
    TrimKeepsInk(NEWLINES, OpenText(s));
    InkOfJoin(s.lines);
    OpenSegmentShows(s.lines);
  }

  /** A line with ink is put behind the open segment unless that would take it over 4000 characters. */
  lemma LineClosesOnlyWhenFull(s: Segments, line: Text)
    requires Packed(s) && |line| <= 4000 && !IsBlank(line)
    ensures if s.lines != [] && |Join(s.lines + [line])| > 4000
            then Closes(s, AddShortLine(s, line), [line])
            else Continues(s, AddShortLine(s, line), [line])
  {
    JoinAppend(s.lines, line);
    if s.lines != [] {
      FlushEmits(s);
    }
  }

  /** A blank line closes a segment of 3000 characters or more; else it is kept behind a line that is not. */
  lemma BlankLineClosesOnlyWhenFull(s: Segments, line: Text)
    requires Packed(s) && IsBlank(line)
    ensures if |OpenText(s)| >= 3000 then Closes(s, AddShortLine(s, line), [])
            else Continues(s, AddShortLine(s, line), if s.lines == [] || s.lines[|s.lines| - 1] == [] then [] else [[]])
  {
    if s.lines != [] {
      FlushEmits(s);
    }
  }

  /** The end of a block closes a segment of 3000 characters or more, and no other. */
  lemma BlockEndClosesOnlyWhenFull(s: Segments, taken: Text)
    requires Packed(s)
    ensures var t := AddLines(s, Split(taken));
            if |OpenText(t)| >= 3000 then Closes(t, AddTaken(s, taken), []) else AddTaken(s, taken) == t
  {
    var t := AddLines(s, Split(taken));
    AddLinesKeeps(s, Split(taken));
    if t.lines != [] {
      ClosingEmits(t);
    }
  }

  // ----- where an over-long line is cut

  /** A piece ends before the last space of the second half of what fits, and at the limit where there is none. */
  lemma PiecesCutAtSpaces(line: Text, limit: nat) returns (cut: nat)
    requires 0 < limit < |line|
    ensures cut <= limit
    ensures Pieces(line, limit) == [TrimRight(WHITE, line[..cut])] + Pieces(TrimLeft(WHITE, line[cut..]), limit)
    ensures if cut == limit then forall k :: limit / 2 <= k < limit ==> line[k] != SPACE
            else limit / 2 <= cut && line[cut] == SPACE && forall k :: cut < k < limit ==> line[k] != SPACE
  {
    cut := CutPoint(line, limit);
  }

  // ----- a text that fits comes out as it is

  /** No line of the text is made of whitespace only, but for empty ones. */
  ghost predicate NoWhiteLines(lines: seq<Text>) {
    forall i :: 0 <= i < |lines| ==> (IsBlank(lines[i]) ==> lines[i] == [])
  }

  lemma SplitOneMore(s: Text)
    requires s != []
    ensures var init, c := Split(s[..|s| - 1]), s[|s| - 1];
            Split(s) == if c == NEWLINE then init + [[]] else init[|init| - 1 := init[|init| - 1] + [c]]
  {
  }

  lemma LastLineEmpty(s: Text)
    ensures Split(s)[|Split(s)| - 1] == [] <==> s == [] || s[|s| - 1] == NEWLINE
  {
  }

  /** A text with no blank line in front and no run of blank lines: nor has the list of its lines, the last aside. */
  lemma {:induction false} EarlierLinesAreKept(s: Text)
    requires NoBlankLineRuns(s) && (s != [] ==> s[0] != NEWLINE)
    requires NoWhiteLines(Split(s)[..|Split(s)| - 1])
    ensures NoStrayBlanks(Split(s)[..|Split(s)| - 1])
    decreases |s|
  {
    if s != [] {
      var init := s[..|s| - 1];
      var before := Split(init);
      SplitOneMore(s);
      if s[|s| - 1] == NEWLINE {
        assert Split(s)[..|Split(s)| - 1] == before;
        EarlierWhite(before);
        EarlierLinesAreKept(init);
        LastLineCanFollow(s);
      } else {
        assert Split(s)[..|Split(s)| - 1] == before[..|before| - 1];
        EarlierLinesAreKept(init);
      }
    }
  }

  lemma EarlierWhite(lines: seq<Text>)
    requires NoWhiteLines(lines) && lines != []
    ensures NoWhiteLines(lines[..|lines| - 1])
  {
  }

  lemma LastLineCanFollow(s: Text)
    requires NoBlankLineRuns(s) && s != [] && s[0] != NEWLINE && s[|s| - 1] == NEWLINE
    requires NoWhiteLines(Split(s[..|s| - 1]))
    ensures var before := Split(s[..|s| - 1]); CanFollow(before[..|before| - 1], before[|before| - 1])
  {
    var init := s[..|s| - 1];
    var before := Split(init);
    LastLineEmpty(init);
    if before[|before| - 1] == [] {
      assert init[0] == s[0];
      var start := init[..|init| - 1];
      SplitOneMore(init);
      assert before[..|before| - 1] == Split(start);
      LastLineEmpty(start);
      assert start[|start| - 1] == s[|s| - 3];
    }
  }

  /** A text that fits in one segment as it is: what trimming and normalising can leave of a block. */
  ghost predicate IsPlain(t: Text) {
    && t != [] && t[0] != NEWLINE && t[|t| - 1] != NEWLINE
    && NoBlankLineRuns(t) && NoWhiteLines(Split(t))
  }

  lemma PlainLinesAreKept(t: Text)
    requires IsPlain(t)
    ensures NoStrayBlanks(Split(t)) && !IsBlank(Split(t)[0])
  {
    var lines := Split(t);
    EarlierWhite(lines);
    EarlierLinesAreKept(t);
    LastLineEmpty(t);
    FirstShows(lines);
  }

  lemma {:induction false} FirstShows(lines: seq<Text>)
    requires lines != [] && NoStrayBlanks(lines)
    ensures !IsBlank(lines[0])
    decreases |lines|
  {
    if |lines| > 1 {
      FirstShows(lines[..|lines| - 1]);
    } else {
      assert lines[..0] == [];
    }
  }

  lemma {:induction false} BlanksInParts(a: seq<Text>, b: seq<Text>)
    requires NoStrayBlanks(a) && NoStrayBlanks(b)
    ensures NoStrayBlanks(a + b)
    decreases |b|
  {
    if b == [] {
      assert a + b == a;
    } else {
      var init, last := b[..|b| - 1], b[|b| - 1];
      BlanksInParts(a, init);
      FollowsInParts(a, init, last);
      AppendKeepsBlanks(a + init, last);
      SnocLines(a, b);
    }
  }

  lemma FollowsInParts(a: seq<Text>, b: seq<Text>, line: Text)
    requires CanFollow(b, line)
    ensures CanFollow(a + b, line)
  {
  }

  lemma {:induction false} JoinInParts(a: seq<Text>, b: seq<Text>)
    requires a != [] && b != []
    ensures Join(a + b) == Join(a) + [NEWLINE] + Join(b)
    decreases |b|
  {
    var init, last := b[..|b| - 1], b[|b| - 1];
    SnocLines(a, b);
    JoinAppend(a + init, last);
    if init == [] {
      assert a + init == a && b == [last];
    } else {
      JoinInParts(a, init);
      JoinLast(b);
      Regroup(Join(a), Join(init), last);
    }
  }

  lemma JoinLast(b: seq<Text>)
    requires |b| > 1
    ensures Join(b) == Join(b[..|b| - 1]) + [NEWLINE] + b[|b| - 1]
  {
  }

  lemma Regroup(x: Text, y: Text, z: Text)
    ensures x + [NEWLINE] + y + [NEWLINE] + z == x + [NEWLINE] + (y + [NEWLINE] + z)
  {
  }

  function JoinedLength(lines: seq<Text>): nat {
    |Join(lines)|
  }

  lemma FewerAreShorter(lines: seq<Text>, line: Text)
    ensures JoinedLength(lines) <= JoinedLength(lines + [line])
    ensures NoStrayBlanks(lines + [line]) ==> NoStrayBlanks(lines) && CanFollow(lines, line)
  {
    JoinAppend(lines, line);
    assert (lines + [line])[..|lines|] == lines;
  }

  /** The lines are all in the open segment, and nothing new was emitted. */
  ghost predicate AllOpen(s: Segments, pages: seq<Page>, lines: seq<Text>) {
    s == Segments(pages, lines, JoinedLength(lines))
  }

  /** Lines that fit below 3000 characters are all put in the open segment. */
  lemma {:induction false} FittingLinesStay(s: Segments, lines: seq<Text>)
    requires Packed(s) && NoStrayBlanks(s.lines + lines) && JoinedLength(s.lines + lines) < 3000
    ensures AllOpen(AddLines(s, lines), s.pages, s.lines + lines)
    decreases |lines|
  {
    if lines == [] {
      assert s.lines + lines == s.lines;
    } else {
      var init, last := lines[..|lines| - 1], lines[|lines| - 1];
      SnocLines(s.lines, lines);
      FewerAreShorter(s.lines + init, last);
      FittingLinesStay(s, init);
      AddLinesKeeps(s, init);
      LastLineStays(AddLines(s, init), last);
    }
  }

  lemma SnocLines(a: seq<Text>, lines: seq<Text>)
    requires lines != []
    ensures a + lines == a + lines[..|lines| - 1] + [lines[|lines| - 1]]
  {
  }

  lemma LastLineStays(s: Segments, line: Text)
    requires Packed(s) && CanFollow(s.lines, line) && JoinedLength(s.lines + [line]) < 3000
    ensures AllOpen(AddLine(s, line), s.pages, s.lines + [line])
  {
    PushLength(s, line);
    JoinAppend(s.lines, line);
  }

  // ----- blocks that share a segment

  /** What is left of a block's text: normalised, and trimmed of newlines. */
  function BlockText(raw: Text): Text {
    Trim(NEWLINES, CleanText(raw))
  }

  /** A block that is within the budget, and with the open segment below 3000 characters. */
  ghost predicate FitsIn(l: Log, raw: Text) {
    var t, open := BlockText(raw), OpenText(l.segments);
    && IsPlain(t) && |l.offered| + |t| <= l.max
    && (if l.segments.lines == [] then |t| else |open| + 1 + |t|) < 3000
  }

  lemma PlainShows(t: Text)
    requires IsPlain(t)
    ensures !IsBlank(t)
  {
    PlainLinesAreKept(t);
    OpenSegmentShows(Split(t));
    JoinSplit(t);
    InkOfJoin(Split(t));
  }

  /** Such a block is added to the open segment behind a newline, nothing being emitted. */
  lemma FittingBlockJoinsSegment(l: Log, raw: Text)
    requires Faithful(l) && FitsIn(l, raw)
    ensures var s, l' := l.segments, Step(l, AddBlock(raw));
            && l'.segments.pages == s.pages && l'.segments.lines != []
            && OpenText(l'.segments) ==
               (if s.lines == [] then BlockText(raw) else OpenText(s) + [NEWLINE] + BlockText(raw))
            && l'.offered == l.offered + BlockText(raw) && l'.max == l.max && l'.Truncated() == l.Truncated()
  {
    var t, s := BlockText(raw), l.segments;
    PlainShows(t);
    BlockIsTaken(l, t);
    FittingTextStays(s, t);
  }

  lemma BlockIsTaken(l: Log, t: Text)
    requires |l.offered| + |t| <= l.max
    ensures l.Allowed(t) == t
  {
  }

  lemma FittingTextStays(s: Segments, t: Text)
    requires Packed(s) && IsPlain(t)
    requires (if s.lines == [] then |t| else |OpenText(s)| + 1 + |t|) < 3000
    ensures var u := AddTaken(s, t);
            && u.pages == s.pages && u.lines != []
            && OpenText(u) == if s.lines == [] then t else OpenText(s) + [NEWLINE] + t
  {
    PlainLinesAreKept(t);
    JoinSplit(t);
    BlanksInParts(s.lines, Split(t));
    if s.lines == [] {
      assert s.lines + Split(t) == Split(t);
    } else {
      JoinInParts(s.lines, Split(t));
    }
    FittingLinesStay(s, Split(t));
  }

  /** A break puts a newline behind the open segment: with that of the next block, a blank line. */
  lemma BreakAddsNewline(l: Log)
    requires Faithful(l)
    ensures var s, l' := l.segments, Step(l, AddBreak);
            && l'.segments.pages == s.pages
            && OpenText(l'.segments) ==
               if s.lines == [] || s.lines[|s.lines| - 1] == [] then OpenText(s) else OpenText(s) + [NEWLINE]
  {
    JoinAppend(l.segments.lines, []);
  }

  lemma FinishEmits(l: Log)
    requires Faithful(l) && l.segments.lines != []
    ensures Step(l, Finish).segments.pages ==
            l.segments.pages + [Page(NoPage, Trim(NEWLINES, OpenText(l.segments)))]
  {
    FlushEmits(l.segments);
  }

  lemma RunOneMore(l: Log, calls: seq<Call>, call: Call)
    ensures Run(l, calls + [call]) == Step(Run(l, calls), call)
  {
    assert (calls + [call])[..|calls|] == calls;
  }

  function Blocks(raws: seq<Text>): seq<Call> {
    seq(|raws|, i requires 0 <= i < |raws| => AddBlock(raws[i]))
  }

  function BlockTexts(raws: seq<Text>): seq<Text> {
    seq(|raws|, i requires 0 <= i < |raws| => BlockText(raws[i]))
  }

  function TotalLength(texts: seq<Text>): nat {
    if texts == [] then 0 else TotalLength(texts[..|texts| - 1]) + |texts[|texts| - 1]|
  }

  /** The texts of the blocks, each behind a newline. */
  function BlocksText(raws: seq<Text>): Text {
    Join(BlockTexts(raws))
  }

  function BlocksLength(raws: seq<Text>): nat {
    TotalLength(BlockTexts(raws))
  }

  /** Blocks that fit together below 3000 characters, and within the budget. */
  ghost predicate FitTogether(max: nat, raws: seq<Text>) {
    && (forall i :: 0 <= i < |raws| ==> IsPlain(BlockText(raws[i])))
    && |BlocksText(raws)| < 3000 && BlocksLength(raws) <= max
  }

  lemma LastBlock(raws: seq<Text>)
    requires raws != []
    ensures var init, t := raws[..|raws| - 1], BlockText(raws[|raws| - 1]);
            && BlocksText(raws) == (if init == [] then t else BlocksText(init) + [NEWLINE] + t)
            && BlocksLength(raws) == BlocksLength(init) + |t|
  {
    var init, t := raws[..|raws| - 1], BlockText(raws[|raws| - 1]);
    assert BlockTexts(raws) == BlockTexts(init) + [t];
    assert BlockTexts(raws)[..|raws| - 1] == BlockTexts(init);
    JoinAppend(BlockTexts(init), t);
  }

  lemma FewerFit(max: nat, raws: seq<Text>)
    requires FitTogether(max, raws) && raws != []
    ensures FitTogether(max, raws[..|raws| - 1])
  {
    LastBlock(raws);
    if |raws| == 1 {
      assert BlockTexts(raws[..0]) == [];
    }
  }

  /** After such blocks nothing is emitted yet, and the open segment is their texts, a line each. */
  ghost predicate HoldsBlocks(l: Log, max: nat, raws: seq<Text>) {
    && l.max == max && l.segments.pages == [] && !l.Truncated()
    && (l.segments.lines == [] <==> raws == [])
    && OpenText(l.segments) == BlocksText(raws)
    && |l.offered| == BlocksLength(raws)
  }

  function AfterBlocks(max: nat, raws: seq<Text>): Log {
    Run(Start(max), Blocks(raws))
  }

  lemma AfterOneMoreBlock(max: nat, raws: seq<Text>)
    requires raws != []
    ensures AfterBlocks(max, raws) == Step(AfterBlocks(max, raws[..|raws| - 1]), AddBlock(raws[|raws| - 1]))
  {
    var init, last := raws[..|raws| - 1], raws[|raws| - 1];
    assert Blocks(raws) == Blocks(init) + [AddBlock(last)];
    RunOneMore(Start(max), Blocks(init), AddBlock(last));
  }

  lemma OneMoreBlockShares(l: Log, max: nat, raws: seq<Text>)
    requires raws != [] && FitTogether(max, raws) && Faithful(l) && HoldsBlocks(l, max, raws[..|raws| - 1])
    ensures HoldsBlocks(Step(l, AddBlock(raws[|raws| - 1])), max, raws)
  {
    LastBlock(raws);
    FittingBlockJoinsSegment(l, raws[|raws| - 1]);
  }

  lemma {:induction false} FittingBlocksShare(max: nat, raws: seq<Text>)
    requires FitTogether(max, raws)
    ensures Faithful(AfterBlocks(max, raws)) && HoldsBlocks(AfterBlocks(max, raws), max, raws)
    decreases |raws|
  {
    RunIsFaithful(max, Blocks(raws));
    if raws == [] {
      NoBlocksHold(max);
    } else {
      FewerFit(max, raws);
      FittingBlocksShare(max, raws[..|raws| - 1]);
      AfterOneMoreBlock(max, raws);
      OneMoreBlockShares(AfterBlocks(max, raws[..|raws| - 1]), max, raws);
    }
  }

  lemma NoBlocksHold(max: nat)
    ensures HoldsBlocks(AfterBlocks(max, []), max, [])
  {
  }

  ghost predicate StartsAndEndsWithout(c: CodePoint, t: Text) {
    t != [] && t[0] != c && t[|t| - 1] != c
  }

  lemma {:induction false} BlocksNeedNoTrim(raws: seq<Text>)
    requires raws != [] && forall i :: 0 <= i < |raws| ==> IsPlain(BlockText(raws[i]))
    ensures StartsAndEndsWithout(NEWLINE, BlocksText(raws))
    decreases |raws|
  {
    var init, t := raws[..|raws| - 1], BlockText(raws[|raws| - 1]);
    LastBlock(raws);
    if init != [] {
      BlocksNeedNoTrim(init);
      BetweenEnds(BlocksText(init), t);
    }
  }

  lemma BetweenEnds(a: Text, b: Text)
    requires StartsAndEndsWithout(NEWLINE, a) && StartsAndEndsWithout(NEWLINE, b)
    ensures StartsAndEndsWithout(NEWLINE, a + [NEWLINE] + b)
  {
    var t := a + [NEWLINE] + b;
    assert t[0] == a[0] && t[|t| - 1] == b[|b| - 1];
  }

  /** Blocks that fit together come out as one segment: their texts, each on its own line, and nothing else. */
  lemma BlocksShareASegment(max: nat, raws: seq<Text>)
    requires FitTogether(max, raws) && raws != []
    ensures var l := Run(Start(max), Blocks(raws) + [Finish]);
            l.segments.pages == [Page(NoPage, BlocksText(raws))] && !l.Truncated()
  {
    FittingBlocksShare(max, raws);
    RunOneMore(Start(max), Blocks(raws), Finish);
    HeldBlocksAreEmitted(AfterBlocks(max, raws), max, raws);
  }

  lemma HeldBlocksAreEmitted(l: Log, max: nat, raws: seq<Text>)
    requires raws != [] && FitTogether(max, raws) && Faithful(l) && HoldsBlocks(l, max, raws)
    ensures var l' := Step(l, Finish);
            l'.segments.pages == [Page(NoPage, BlocksText(raws))] && !l'.Truncated()
  {
    BlocksNeedNoTrim(raws);
    FinishEmitsOnly(l, BlocksText(raws));
  }

  lemma FinishEmitsOnly(l: Log, t: Text)
    requires Faithful(l) && l.segments.lines != [] && l.segments.pages == [] && OpenText(l.segments) == t
    requires StartsAndEndsWithout(NEWLINE, t)
    ensures var l' := Step(l, Finish);
            l'.segments.pages == [Page(NoPage, t)] && l'.Truncated() == l.Truncated()
  {
    FinishEmits(l);
    NothingToTrim(NEWLINES, t);
    assert [] + [Page(NoPage, t)] == [Page(NoPage, t)];
  }

  /** A clean text that fits comes out as one segment, trimmed of newlines and otherwise as it is. */
  lemma CleanTextIsOneSegment(max: nat, t: Text)
    requires IsClean(t) && !IsBlank(t) && NoWhiteLines(Split(Trim(NEWLINES, t))) && |t| < 3000 && |t| <= max
    ensures var l := Run(Start(max), [AddBlock(t), Finish]);
            l.segments.pages == [Page(NoPage, Trim(NEWLINES, t))] && !l.Truncated()
  {
    CleanTextIsIdempotent(t);
    TrimmedIsPlain(t);
    var raws := [t];
    LastBlock(raws);
    assert raws[..0] == [] && BlockTexts([]) == [];
    assert Blocks(raws) + [Finish] == [AddBlock(t), Finish];
    BlocksShareASegment(max, raws);
  }

  lemma TrimmedIsPlain(t: Text)
    requires IsClean(t) && !IsBlank(t) && NoWhiteLines(Split(Trim(NEWLINES, t)))
    ensures IsPlain(Trim(NEWLINES, t)) && |Trim(NEWLINES, t)| <= |t|
  {
    var i, j := TrimExactly(NEWLINES, t);
    TrimKeepsInk(NEWLINES, t);
    PartHasNoRuns(t, i, j);
  }

  lemma PartHasNoRuns(t: Text, i: nat, j: nat)
    requires i <= j <= |t| && NoBlankLineRuns(t)
    ensures NoBlankLineRuns(t[i..j])
  {
    forall a, b, c | 0 <= a && b == a + 1 && c == b + 1 < j - i
      ensures !(t[i..j][a] == t[i..j][b] == t[i..j][c] == NEWLINE)
    {
      var x, y, z := i + a, i + b, i + c;
      assert !(t[x] == t[y] == t[z] == NEWLINE);
    }
  }
}
