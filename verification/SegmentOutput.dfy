/**
 The output collector of the file extractor: a character budget, and how it fills flowing text into
 bounded segments.
 */
module SegmentOutput {
  import opened Text

  const SEGMENT_CHARS: nat := 4000
  const SOFT_SEGMENT_CHARS: nat := 3000

  datatype PageNumber = NoPage | Numbered(n: int)

  datatype Page = Page(page: PageNumber, text: Text)

  // ----- splitting an over-long line

  /** `line.rfind(" ", 0, limit)` */
  function LastSpace(line: Text, limit: nat): (k: int)
    requires limit <= |line|
    ensures -1 <= k < limit
    ensures k >= 0 ==> line[k] == SPACE
    ensures forall j :: k < j < limit ==> line[j] != SPACE
  {
    if limit == 0 then -1
    else if line[limit - 1] == SPACE then limit - 1
    else LastSpace(line, limit - 1)
  }

  function CutPoint(line: Text, limit: nat): (cut: nat)
    requires 0 < limit < |line|
    ensures cut <= limit
    ensures cut == 0 ==> line[0] == SPACE
  {
    var space := LastSpace(line, limit);
    if space < limit / 2 then limit else space
  }

  lemma LeftTrimShortens(line: Text, cut: nat)
    requires cut <= |line| && line != [] && (cut == 0 ==> line[0] == SPACE)
    ensures |TrimLeft(WHITE, line[cut..])| < |line|
  {
    TrimLeftKeepsInk(WHITE, line[cut..]);
    if cut == 0 {
      assert line[0..] == line;
      TrimLeftKeepsInk(WHITE, line[1..]);
    }
  }

  /** The pieces a line over the limit is cut into: at its last space in the second half, else hard. */
  function Pieces(line: Text, limit: nat): seq<Text>
    requires limit > 0
    decreases |line|
  {
    if |line| <= limit then (if line == [] then [] else [line])
    else
      var cut := CutPoint(line, limit);
      LeftTrimShortens(line, cut);
      [TrimRight(WHITE, line[..cut])] + Pieces(TrimLeft(WHITE, line[cut..]), limit)
  }

  ghost predicate Fit(pieces: seq<Text>, limit: nat) {
    forall i :: 0 <= i < |pieces| ==> |pieces[i]| <= limit
  }

  lemma {:induction false} PiecesFitAndKeepInk(line: Text, limit: nat)
    requires limit > 0
    ensures Fit(Pieces(line, limit), limit)
    ensures InkOf(Pieces(line, limit)) == Ink(line)
    decreases |line|
  {
    if |line| <= limit {
      InkOfOne(line);
    } else {
      var cut := CutPoint(line, limit);
      LeftTrimShortens(line, cut);
      CutKeepsInk(line, cut);
      var first, rest := TrimRight(WHITE, line[..cut]), TrimLeft(WHITE, line[cut..]);
      PiecesFitAndKeepInk(rest, limit);
      OneMorePiece(first, Pieces(rest, limit), limit);
    }
  }

  lemma InkOfOne(line: Text)
    ensures InkOf([line]) == Ink(line)
  {
    InkOfAppend([], line);
    assert [line] == [] + [line];
  }

  lemma OneMorePiece(first: Text, pieces: seq<Text>, limit: nat)
    requires |first| <= limit && Fit(pieces, limit)
    ensures Fit([first] + pieces, limit)
    ensures InkOf([first] + pieces) == Ink(first) + InkOf(pieces)
  {
    InkOfPrepend(first, pieces);
  }

  lemma CutKeepsInk(line: Text, cut: nat)
    requires cut <= |line|
    ensures |TrimRight(WHITE, line[..cut])| <= cut
    ensures Ink(TrimRight(WHITE, line[..cut])) + Ink(TrimLeft(WHITE, line[cut..])) == Ink(line)
  {
    TrimRightKeepsInk(WHITE, line[..cut]);
    TrimLeftKeepsInk(WHITE, line[cut..]);
    InkConcat(line[..cut], line[cut..]);
    assert line == line[..cut] + line[cut..];
  }

  lemma Associate(a: Text, b: Text, c: Text)
    ensures a + (b + c) == a + b + c
  {
  }

  lemma {:induction false} InkOfPrepend(first: Text, lines: seq<Text>)
    ensures InkOf([first] + lines) == Ink(first) + InkOf(lines)
    decreases |lines|
  {
    if lines == [] {
      InkOfAppend([], first);
      assert [first] + lines == [] + [first];
    } else {
      var init, last := lines[..|lines| - 1], lines[|lines| - 1];
      InkOfPrepend(first, init);
      assert lines == init + [last];
      InkOfPrependAppend(first, init, last);
    }
  }

  lemma InkOfPrependAppend(first: Text, init: seq<Text>, last: Text)
    requires InkOf([first] + init) == Ink(first) + InkOf(init)
    ensures InkOf([first] + (init + [last])) == Ink(first) + InkOf(init + [last])
  {
    InkOfAppend([first] + init, last);
    InkOfAppend(init, last);
    assert [first] + (init + [last]) == [first] + init + [last];
    Associate(Ink(first), InkOf(init), Ink(last));
  }

  method SplitLongLine(text: Text, limit: nat) returns (pieces: seq<Text>)
    requires limit > 0
    ensures pieces == Pieces(text, limit)
  {
    pieces := [];
    var line := text;
    while |line| > limit
      invariant pieces + Pieces(line, limit) == Pieces(text, limit)
      decreases |line|
    {
      var cut: int := LastSpace(line, limit);
      if cut < limit / 2 {
        cut := limit;
      }
      assert cut == CutPoint(line, limit);
      LeftTrimShortens(line, cut);
      pieces := pieces + [TrimRight(WHITE, line[..cut])];
      line := TrimLeft(WHITE, line[cut..]);
    }
    if line != [] {
      pieces := pieces + [line];
    }
  }

  // ----- the open segment and the emitted pages

  /** `pages`, `_seg_lines` and `_seg_len`. */
  datatype Segments = Segments(pages: seq<Page>, lines: seq<Text>, len: nat)

  function Flush(s: Segments): Segments {
    var text := Trim(NEWLINES, Join(s.lines));
    Segments(if s.lines != [] && !IsBlank(text) then s.pages + [Page(NoPage, text)] else s.pages, [], 0)
  }

  function Push(s: Segments, line: Text): Segments {
    Segments(s.pages, s.lines + [line], s.len + |line| + if s.len > 0 then 1 else 0)
  }

  /** `_add_line` for a line that fits a segment. */
  function AddShortLine(s: Segments, line: Text): Segments {
    if IsBlank(line) then
      if s.len >= SOFT_SEGMENT_CHARS then Flush(s)
      else if s.lines == [] || s.lines[|s.lines| - 1] == [] then s
      else if s.len + 1 > SEGMENT_CHARS then Flush(s)
      else Push(s, [])
    else if s.lines != [] && s.len + 1 + |line| > SEGMENT_CHARS then Push(Flush(s), line)
    else Push(s, line)
  }

  function AddShortLines(s: Segments, lines: seq<Text>): Segments {
    if lines == [] then s
    else AddShortLine(AddShortLines(s, lines[..|lines| - 1]), lines[|lines| - 1])
  }

  function AddLine(s: Segments, line: Text): Segments {
    if |line| > SEGMENT_CHARS then AddShortLines(s, Pieces(line, SEGMENT_CHARS)) else AddShortLine(s, line)
  }

  function AddLines(s: Segments, lines: seq<Text>): Segments {
    if lines == [] then s
    else AddLine(AddLines(s, lines[..|lines| - 1]), lines[|lines| - 1])
  }

  /** What `add_block` does with the text it was allowed to take. */
  function AddTaken(s: Segments, taken: Text): Segments {
    var added := AddLines(s, Split(taken));
    if added.len >= SOFT_SEGMENT_CHARS then Flush(added) else added
  }

  function Break(s: Segments): Segments {
    if s.lines != [] && s.lines[|s.lines| - 1] != []
    then Segments(s.pages, s.lines + [[]], s.len + 1)
    else s
  }

  // ----- what every operation keeps

  ghost predicate GoodPage(p: Page) {
    p.page == NoPage ==> 0 < |p.text| <= SEGMENT_CHARS && !IsBlank(p.text)
  }

  /**
   The kept length is that of the joined buffer, which never outgrows a segment, never
   starts with a blank line and never doubles one; every emitted segment is good.
   */
  ghost predicate Packed(s: Segments) {
    && s.len == |Join(s.lines)| <= SEGMENT_CHARS
    && NoStrayBlanks(s.lines)
    && (forall p :: p in s.pages ==> GoodPage(p))
  }

  /** A blank line is kept as `""`, and only after a line that is not. */
  ghost predicate CanFollow(lines: seq<Text>, line: Text) {
    IsBlank(line) ==> line == [] && lines != [] && lines[|lines| - 1] != []
  }

  ghost predicate NoStrayBlanks(lines: seq<Text>) {
    lines != [] ==>
      NoStrayBlanks(lines[..|lines| - 1]) && CanFollow(lines[..|lines| - 1], lines[|lines| - 1])
  }

  /** Between calls the open segment is below the soft limit, a pending blank line aside. */
  ghost predicate Settled(s: Segments) {
    && Packed(s)
    && s.len <= SOFT_SEGMENT_CHARS
    && (s.len == SOFT_SEGMENT_CHARS ==> s.lines[|s.lines| - 1] == [])
  }

  /** The ink of the page-less segments, in order. */
  function FlowInk(pages: seq<Page>): Text {
    if pages == [] then []
    else
      var p := pages[|pages| - 1];
      FlowInk(pages[..|pages| - 1]) + if p.page == NoPage then Ink(p.text) else []
  }

  /** Everything kept of the flowing text: the emitted segments, then the open one. */
  function Content(s: Segments): Text {
    FlowInk(s.pages) + InkOf(s.lines)
  }

  lemma FlowInkAppend(pages: seq<Page>, p: Page)
    ensures FlowInk(pages + [p]) == FlowInk(pages) + if p.page == NoPage then Ink(p.text) else []
  {
    assert (pages + [p])[..|pages|] == pages;
  }

  lemma {:induction false} OpenSegmentShows(lines: seq<Text>)
    requires lines != [] && NoStrayBlanks(lines)
    ensures InkOf(lines) != []
    decreases |lines|
  {
    if IsBlank(lines[|lines| - 1]) {
      OpenSegmentShows(lines[..|lines| - 1]);
    }
  }

  lemma FlushKeeps(s: Segments)
    requires Packed(s)
    ensures Packed(Flush(s)) && Flush(s).lines == []
    ensures Content(Flush(s)) == Content(s)
  {
    var text := Trim(NEWLINES, Join(s.lines));
    TrimKeepsInk(NEWLINES, Join(s.lines));
    InkOfJoin(s.lines);
    if s.lines != [] {
      OpenSegmentShows(s.lines);
      FlowInkAppend(s.pages, Page(NoPage, text));
    }
  }

  lemma OpenSegmentHasLength(s: Segments)
    requires Packed(s) && s.lines != []
    ensures s.len > 0
  {
    OpenSegmentShows(s.lines);
    InkOfJoin(s.lines);
  }

  lemma AppendKeepsBlanks(lines: seq<Text>, line: Text)
    requires NoStrayBlanks(lines) && CanFollow(lines, line)
    ensures NoStrayBlanks(lines + [line])
  {
    assert (lines + [line])[..|lines|] == lines;
  }

  lemma PushLength(s: Segments, line: Text)
    requires Packed(s)
    ensures Push(s, line).len == |Join(s.lines + [line])| == |line| + if s.lines == [] then 0 else s.len + 1
  {
    JoinAppend(s.lines, line);
    if s.lines != [] {
      OpenSegmentHasLength(s);
    }
  }

  lemma PushContent(s: Segments, line: Text)
    ensures Content(Push(s, line)) == Content(s) + Ink(line)
  {
    InkOfAppend(s.lines, line);
    Associate(FlowInk(s.pages), InkOf(s.lines), Ink(line));
  }

  lemma PushKeeps(s: Segments, line: Text)
    requires Packed(s) && CanFollow(s.lines, line)
    requires |line| + (if s.lines == [] then 0 else s.len + 1) <= SEGMENT_CHARS
    ensures Packed(Push(s, line))
    ensures Content(Push(s, line)) == Content(s) + Ink(line)
  {
    AppendKeepsBlanks(s.lines, line);
    PushLength(s, line);
    PushContent(s, line);
  }

  lemma AddShortLineKeeps(s: Segments, line: Text)
    requires Packed(s) && |line| <= SEGMENT_CHARS
    ensures Packed(AddShortLine(s, line))
    ensures Content(AddShortLine(s, line)) == Content(s) + Ink(line)
  {
    if IsBlank(line) {
      AddBlankLineKeeps(s, line);
    } else if s.lines != [] && s.len + 1 + |line| > SEGMENT_CHARS {
      FlushKeeps(s);
      PushKeeps(Flush(s), line);
    } else {
      PushKeeps(s, line);
    }
  }

  lemma AddBlankLineKeeps(s: Segments, line: Text)
    requires Packed(s) && |line| <= SEGMENT_CHARS && IsBlank(line)
    ensures Packed(AddShortLine(s, line)) && Content(AddShortLine(s, line)) == Content(s)
  {
    if s.len >= SOFT_SEGMENT_CHARS {
      FlushKeeps(s);
    } else if s.lines != [] && s.lines[|s.lines| - 1] != [] {
      PushKeeps(s, []);
    }
  }

  /** `t` is packed and holds `ink` after what `s` holds. */
  ghost predicate Extends(s: Segments, t: Segments, ink: Text) {
    Packed(t) && Content(t) == Content(s) + ink
  }

  lemma ExtendsNothing(s: Segments)
    requires Packed(s)
    ensures Extends(s, s, [])
  {
  }

  lemma ExtendsMore(s: Segments, t: Segments, u: Segments, ink: Text, more: Text)
    requires Extends(s, t, ink) && Extends(t, u, more)
    ensures Extends(s, u, ink + more)
  {
    Associate(Content(s), ink, more);
  }

  lemma {:induction false} AddShortLinesKeeps(s: Segments, lines: seq<Text>)
    requires Packed(s) && Fit(lines, SEGMENT_CHARS)
    ensures Extends(s, AddShortLines(s, lines), InkOf(lines))
    decreases |lines|
  {
    if lines == [] {
      ExtendsNothing(s);
    } else {
      var init, line := lines[..|lines| - 1], lines[|lines| - 1];
      var t := AddShortLines(s, init);
      AddShortLinesKeeps(s, init);
      AddShortLineKeeps(t, line);
      ExtendsMore(s, t, AddShortLine(t, line), InkOf(init), Ink(line));
    }
  }

  lemma AddLineKeeps(s: Segments, line: Text)
    requires Packed(s)
    ensures Extends(s, AddLine(s, line), Ink(line))
  {
    if |line| > SEGMENT_CHARS {
      PiecesFitAndKeepInk(line, SEGMENT_CHARS);
      AddShortLinesKeeps(s, Pieces(line, SEGMENT_CHARS));
    } else {
      AddShortLineKeeps(s, line);
    }
  }

  lemma {:induction false} AddLinesKeeps(s: Segments, lines: seq<Text>)
    requires Packed(s)
    ensures Extends(s, AddLines(s, lines), InkOf(lines))
    decreases |lines|
  {
    if lines == [] {
      ExtendsNothing(s);
    } else {
      var init, line := lines[..|lines| - 1], lines[|lines| - 1];
      var t := AddLines(s, init);
      AddLinesKeeps(s, init);
      AddLineKeeps(t, line);
      ExtendsMore(s, t, AddLine(t, line), InkOf(init), Ink(line));
    }
  }

  /** A block keeps the buffer in order and adds exactly its own ink. */
  lemma AddTakenKeeps(s: Segments, taken: Text)
    requires Settled(s)
    ensures Settled(AddTaken(s, taken))
    ensures Content(AddTaken(s, taken)) == Content(s) + Ink(taken)
  {
    AddLinesKeeps(s, Split(taken));
    InkOfJoin(Split(taken));
    JoinSplit(taken);
    FlushKeeps(AddLines(s, Split(taken)));
  }

  lemma BreakKeeps(s: Segments)
    requires Settled(s)
    ensures Settled(Break(s)) && Content(Break(s)) == Content(s)
  {
    if s.lines != [] && s.lines[|s.lines| - 1] != [] {
      PushKeeps(s, []);
      OpenSegmentHasLength(s);
    }
  }

  // ----- the collector as a whole

  datatype Call =
    | AddPage(page: int, text: Text)
    | AddBlock(text: Text)
    | AddBreak
    | MarkTruncated
    | Finish

  /**
   What a collector has seen. `offered` is every normalised non-blank input in one piece,
   `taken` the pieces the budget let through, a flowing piece being a page without number.
   */
  datatype Log = Log(max: nat, offered: Text, taken: seq<Page>, marked: bool, segments: Segments)
  {
    function Total(): nat {
      if |offered| <= max then |offered| else max
    }

    predicate Truncated() {
      marked || |offered| > max
    }

    /** As much of `text` as the budget still holds. */
    function Allowed(text: Text): Text {
      if |text| <= max - Total() then text else text[..max - Total()]
    }
  }

  function Start(max: nat): Log {
    Log(max, [], [], false, Segments([], [], 0))
  }

  function Offer(l: Log, text: Text, page: PageNumber): Log {
    var piece := l.Allowed(text);
    l.(offered := l.offered + text, taken := if piece == [] then l.taken else l.taken + [Page(page, piece)])
  }

  function Step(l: Log, call: Call): Log {
    match call
    case AddPage(n, raw) =>
      var text := Trim(WHITE, CleanText(raw));
      var piece := l.Allowed(text);
      if piece == [] then Offer(l, text, Numbered(n))
      else Offer(l, text, Numbered(n)).(segments := l.segments.(pages := l.segments.pages + [Page(Numbered(n), piece)]))
    case AddBlock(raw) =>
      var text := Trim(NEWLINES, CleanText(raw));
      if IsBlank(text) then l
      else if l.Allowed(text) == [] then Offer(l, text, NoPage)
      else Offer(l, text, NoPage).(segments := AddTaken(l.segments, l.Allowed(text)))
    case AddBreak => l.(segments := Break(l.segments))
    case MarkTruncated => l.(marked := true)
    case Finish => l.(segments := Flush(l.segments))
  }

  function Run(l: Log, calls: seq<Call>): Log {
    if calls == [] then l else Step(Run(l, calls[..|calls| - 1]), calls[|calls| - 1])
  }

  function Texts(pages: seq<Page>): Text {
    if pages == [] then [] else Texts(pages[..|pages| - 1]) + pages[|pages| - 1].text
  }

  function NumberedPages(pages: seq<Page>): seq<Page> {
    if pages == [] then []
    else
      var p := pages[|pages| - 1];
      NumberedPages(pages[..|pages| - 1]) + if p.page == NoPage then [] else [p]
  }

  /**
   The budget lets through exactly the first `max` characters offered. Numbered units come
   out as taken, in order; flowing text keeps all its ink, in order; segments stay bounded.
   */
  ghost predicate Faithful(l: Log) {
    && Settled(l.segments)
    && Texts(l.taken) == l.offered[..l.Total()]
    && NumberedPages(l.segments.pages) == NumberedPages(l.taken)
    && Content(l.segments) == FlowInk(l.taken)
  }

  lemma PagesAppend(pages: seq<Page>, p: Page)
    ensures Texts(pages + [p]) == Texts(pages) + p.text
    ensures NumberedPages(pages + [p]) == NumberedPages(pages) + if p.page == NoPage then [] else [p]
    ensures FlowInk(pages + [p]) == FlowInk(pages) + if p.page == NoPage then Ink(p.text) else []
  {
    assert (pages + [p])[..|pages|] == pages;
  }

  lemma OfferKeepsBudget(l: Log, text: Text, page: PageNumber)
    requires Texts(l.taken) == l.offered[..l.Total()]
    ensures var l' := Offer(l, text, page); Texts(l'.taken) == l'.offered[..l'.Total()]
  {
    var piece := l.Allowed(text);
    PagesAppend(l.taken, Page(page, piece));
    assert (l.offered + text)[..Offer(l, text, page).Total()] == l.offered[..l.Total()] + piece;
  }

  lemma FlushKeepsNumbered(s: Segments)
    ensures NumberedPages(Flush(s).pages) == NumberedPages(s.pages)
  {
    PagesAppend(s.pages, Page(NoPage, Trim(NEWLINES, Join(s.lines))));
  }

  lemma ShortLineKeepsNumbered(s: Segments, line: Text)
    ensures NumberedPages(AddShortLine(s, line).pages) == NumberedPages(s.pages)
  {
    FlushKeepsNumbered(s);
  }

  lemma {:induction false} ShortLinesKeepNumbered(s: Segments, lines: seq<Text>)
    ensures NumberedPages(AddShortLines(s, lines).pages) == NumberedPages(s.pages)
    decreases |lines|
  {
    if lines != [] {
      ShortLinesKeepNumbered(s, lines[..|lines| - 1]);
      ShortLineKeepsNumbered(AddShortLines(s, lines[..|lines| - 1]), lines[|lines| - 1]);
    }
  }

  lemma LineKeepsNumbered(s: Segments, line: Text)
    ensures NumberedPages(AddLine(s, line).pages) == NumberedPages(s.pages)
  {
    if |line| > SEGMENT_CHARS {
      ShortLinesKeepNumbered(s, Pieces(line, SEGMENT_CHARS));
    } else {
      ShortLineKeepsNumbered(s, line);
    }
  }

  lemma {:induction false} LinesKeepNumbered(s: Segments, lines: seq<Text>)
    ensures NumberedPages(AddLines(s, lines).pages) == NumberedPages(s.pages)
    decreases |lines|
  {
    if lines != [] {
      LinesKeepNumbered(s, lines[..|lines| - 1]);
      LineKeepsNumbered(AddLines(s, lines[..|lines| - 1]), lines[|lines| - 1]);
    }
  }

  lemma AddTakenKeepsNumbered(s: Segments, taken: Text)
    ensures NumberedPages(AddTaken(s, taken).pages) == NumberedPages(s.pages)
  {
    LinesKeepNumbered(s, Split(taken));
    FlushKeepsNumbered(AddLines(s, Split(taken)));
  }

  lemma StepIsFaithful(l: Log, call: Call)
    requires Faithful(l)
    ensures Faithful(Step(l, call))
  {
    match call
    case AddPage(n, raw) => AddPageIsFaithful(l, n, raw);
    case AddBlock(raw) => AddBlockIsFaithful(l, raw);
    case AddBreak => BreakKeeps(l.segments);
    case MarkTruncated =>
    case Finish => FlushKeeps(l.segments); FlushKeepsNumbered(l.segments);
  }

  lemma NumberedPageKeeps(s: Segments, page: Page)
    requires Settled(s) && page.page != NoPage
    ensures Settled(s.(pages := s.pages + [page]))
    ensures Content(s.(pages := s.pages + [page])) == Content(s)
    ensures NumberedPages(s.pages + [page]) == NumberedPages(s.pages) + [page]
  {
    PagesAppend(s.pages, page);
  }

  lemma AddPageIsFaithful(l: Log, n: int, raw: Text)
    requires Faithful(l)
    ensures Faithful(Step(l, AddPage(n, raw)))
  {
    var text := Trim(WHITE, CleanText(raw));
    var page := Page(Numbered(n), l.Allowed(text));
    OfferKeepsBudget(l, text, Numbered(n));
    if page.text != [] {
      NumberedPageIsFaithful(l, Step(l, AddPage(n, raw)), page);
    }
  }

  lemma NumberedPageIsFaithful(l: Log, l': Log, page: Page)
    requires Faithful(l) && page.page != NoPage
    requires l'.taken == l.taken + [page]
    requires l'.segments == l.segments.(pages := l.segments.pages + [page])
    requires Texts(l'.taken) == l'.offered[..l'.Total()]
    ensures Faithful(l')
  {
    PagesAppend(l.taken, page);
    NumberedPageKeeps(l.segments, page);
  }

  lemma AddBlockIsFaithful(l: Log, raw: Text)
    requires Faithful(l)
    ensures Faithful(Step(l, AddBlock(raw)))
  {
    var text := Trim(NEWLINES, CleanText(raw));
    var piece := l.Allowed(text);
    OfferKeepsBudget(l, text, NoPage);
    PagesAppend(l.taken, Page(NoPage, piece));
    AddTakenKeeps(l.segments, piece);
    AddTakenKeepsNumbered(l.segments, piece);
  }

  lemma FinishEmptiesBuffer(l: Log)
    requires Faithful(l)
    ensures var l' := Step(l, Finish); l'.segments.lines == [] && FlowInk(l'.segments.pages) == FlowInk(l'.taken)
  {
    FlushKeeps(l.segments);
    assert InkOf([]) == [];
  }

  /** Every run of calls is faithful, and one that ends in `finish` leaves nothing in the buffer. */
  lemma {:induction false} RunIsFaithful(max: nat, calls: seq<Call>)
    ensures Faithful(Run(Start(max), calls))
    ensures calls != [] && calls[|calls| - 1] == Finish ==>
              var l := Run(Start(max), calls);
              l.segments.lines == [] && FlowInk(l.segments.pages) == FlowInk(l.taken)
    decreases |calls|
  {
    if calls != [] {
      RunIsFaithful(max, calls[..|calls| - 1]);
      StepIsFaithful(Run(Start(max), calls[..|calls| - 1]), calls[|calls| - 1]);
      FinishEmptiesBuffer(Run(Start(max), calls[..|calls| - 1]));
    }
  }

  class Output {
    const maxChars: nat
    var pages: seq<Page>
    var totalChars: nat
    var truncated: bool
    var segLines: seq<Text>
    var segLen: nat
    ghost var calls: seq<Call>
    ghost var log: Log

    /** The log is that of the calls made so far, and the fields are those of the log. */
    ghost predicate Valid()
      reads this
    {
      && log == Run(Start(maxChars), calls)
      && log.max == maxChars
      && log.segments == Segments(pages, segLines, segLen)
      && totalChars == log.Total()
      && truncated == log.Truncated()
    }

    constructor (max: int)
      ensures Valid() && calls == [] && log == Start(if max < 1 then 1 else max)
    {
      maxChars := if max < 1 then 1 else max;
      pages, totalChars, truncated, segLines, segLen := [], 0, false, [], 0;
      calls, log := [], Start(if max < 1 then 1 else max);
    }

    lemma IsFaithful()
      requires Valid()
      ensures Faithful(log)
    {
      RunIsFaithful(maxChars, calls);
    }

    ghost method Note(call: Call)
      requires log == Run(Start(maxChars), calls)
      modifies this`calls, this`log
      ensures calls == old(calls) + [call] && log == Step(old(log), call) == Run(Start(maxChars), calls)
    {
      assert (calls + [call])[..|calls|] == calls;
      calls, log := calls + [call], Step(log, call);
    }

    method MarkAsTruncated()
      requires Valid()
      modifies this`truncated, this`calls, this`log
      ensures Valid() && log == Step(old(log), MarkTruncated)
    {
      truncated := true;
      Note(MarkTruncated);
    }

    /** Charges `text` to the budget; nothing is let through once it is used up. */
    method Take(text: Text, ghost l: Log) returns (taken: Text)
      requires totalChars == l.Total() && truncated == l.Truncated() && l.max == maxChars
      modifies this`totalChars, this`truncated
      ensures taken == l.Allowed(text)
      ensures totalChars == l.(offered := l.offered + text).Total()
      ensures truncated == l.(offered := l.offered + text).Truncated()
    {
      var remaining := maxChars - totalChars;
      if remaining <= 0 {
        if text != [] {
          truncated := true;
        }
        return [];
      }
      taken := text;
      if |text| > remaining {
        taken := text[..remaining];
        truncated := true;
      }
      totalChars := totalChars + |taken|;
    }

    method AddPageText(page: int, raw: Text)
      requires Valid()
      modifies this
      ensures Valid() && log == Step(old(log), AddPage(page, raw))
    {
      Note(AddPage(page, raw));
      var text := Trim(WHITE, CleanText(raw));
      if text == [] {
        return;
      }
      var taken := Take(text, old(log));
      if taken != [] {
        pages := pages + [Page(Numbered(page), taken)];
      }
    }

    method AddBlockText(raw: Text)
      requires Valid()
      modifies this
      ensures Valid() && log == Step(old(log), AddBlock(raw))
    {
      Note(AddBlock(raw));
      var text := Trim(NEWLINES, CleanText(raw));
      if IsBlank(text) {
        return;
      }
      var taken := Take(text, old(log));
      if taken != [] {
        AddAllLines(Split(taken));
        if segLen >= SOFT_SEGMENT_CHARS {
          FlushSegment();
        }
      }
    }

    method AddAllLines(lines: seq<Text>)
      modifies this`pages, this`segLines, this`segLen
      ensures Segments(pages, segLines, segLen) == AddLines(old(Segments(pages, segLines, segLen)), lines)
    {
      ghost var before := Segments(pages, segLines, segLen);
      for i := 0 to |lines|
        invariant Segments(pages, segLines, segLen) == AddLines(before, lines[..i])
      {
        AddOneLine(lines[i]);
        assert lines[..i + 1][..i] == lines[..i];
      }
      assert lines[..|lines|] == lines;
    }

    method AddBlankBreak()
      requires Valid()
      modifies this`segLines, this`segLen, this`calls, this`log
      ensures Valid() && log == Step(old(log), AddBreak)
    {
      ghost var s := log.segments;
      if segLines != [] && segLines[|segLines| - 1] != [] {
        segLines := segLines + [[]];
        segLen := segLen + 1;
        assert Break(s) == Segments(pages, segLines, segLen);
      } else {
        assert Break(s) == s;
      }
      Note(AddBreak);
    }

    method AddOneLine(line: Text)
      modifies this`pages, this`segLines, this`segLen
      ensures Segments(pages, segLines, segLen) == AddLine(old(Segments(pages, segLines, segLen)), line)
      decreases |line| > SEGMENT_CHARS
    {
      if |line| > SEGMENT_CHARS {
        var pieces := SplitLongLine(line, SEGMENT_CHARS);
        PiecesFitAndKeepInk(line, SEGMENT_CHARS);
        ghost var before := Segments(pages, segLines, segLen);
        for i := 0 to |pieces|
          invariant Segments(pages, segLines, segLen) == AddShortLines(before, pieces[..i])
        {
          AddOneLine(pieces[i]);
          assert pieces[..i + 1][..i] == pieces[..i];
        }
        assert pieces[..|pieces|] == pieces;
        return;
      }
      var kept := line;
      if IsBlank(line) {
        if segLen >= SOFT_SEGMENT_CHARS {
          FlushSegment();
          return;
        }
        if segLines == [] || segLines[|segLines| - 1] == [] {
          return;
        }
        kept := [];
      }
      if segLines != [] && segLen + 1 + |kept| > SEGMENT_CHARS {
        FlushSegment();
        if kept == [] {
          return;
        }
      }
      segLines := segLines + [kept];
      segLen := segLen + |kept| + (if segLen > 0 then 1 else 0);
    }

    method FlushSegment()
      modifies this`pages, this`segLines, this`segLen
      ensures Segments(pages, segLines, segLen) == Flush(old(Segments(pages, segLines, segLen)))
    {
      if segLines != [] {
        var text := Trim(NEWLINES, Join(segLines));
        if !IsBlank(text) {
          pages := pages + [Page(NoPage, text)];
        }
      }
      segLines := [];
      segLen := 0;
    }

    method FinishAll()
      requires Valid()
      modifies this`pages, this`segLines, this`segLen, this`calls, this`log
      ensures Valid() && log == Step(old(log), Finish)
      ensures segLines == [] && FlowInk(pages) == FlowInk(log.taken)
    {
      Note(Finish);
      FlushSegment();
      RunIsFaithful(maxChars, calls);
    }
  }
}
