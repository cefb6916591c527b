/**
 Newline-delimited JSON between the sandbox harness and its supervisor: lines written in
 pieces, read in chunks, decoded as a stream and split again.
 */
module LineProtocol {
  import opened Unicode
  import opened Utf16
  import opened Json

  const LF: Unit := 10

  // ----- complete lines and the unfinished one

  /** The complete lines of a text, without their newlines. */
  function Lines(text: seq<Unit>): seq<seq<Unit>> {
    if text == [] then []
    else
      var init := text[..|text| - 1];
      if text[|text| - 1] == LF then Lines(init) + [Rest(init)] else Lines(init)
  }

  /** What follows the last newline. */
  function Rest(text: seq<Unit>): seq<Unit> {
    if text == [] || text[|text| - 1] == LF then [] else Rest(text[..|text| - 1]) + [text[|text| - 1]]
  }

  lemma {:induction false} UnfinishedLine(text: seq<Unit>)
    requires LF !in text
    ensures Lines(text) == [] && Rest(text) == text
    decreases |text|
  {
    if text != [] {
      assert text == text[..|text| - 1] + [text[|text| - 1]];
      UnfinishedLine(text[..|text| - 1]);
    }
  }

  lemma {:induction false} RestHasNoNewline(text: seq<Unit>)
    ensures LF !in Rest(text)
    decreases |text|
  {
    if text != [] && text[|text| - 1] != LF {
      RestHasNoNewline(text[..|text| - 1]);
    }
  }

  lemma LastUnit(a: seq<Unit>, b: seq<Unit>)
    requires b != []
    ensures (a + b)[..|a + b| - 1] == a + b[..|b| - 1] && (a + b)[|a + b| - 1] == b[|b| - 1]
  {
  }

  /** Text that arrives in two pieces is split as if it had arrived at once. */
  lemma {:induction false} LinesInParts(a: seq<Unit>, b: seq<Unit>)
    ensures Lines(a + b) == Lines(a) + Lines(Rest(a) + b)
    ensures Rest(a + b) == Rest(Rest(a) + b)
    decreases |b|
  {
    if b == [] {
      RestHasNoNewline(a);
      UnfinishedLine(Rest(a));
      assert a + b == a && Rest(a) + b == Rest(a);
    } else {
      var init, last := b[..|b| - 1], b[|b| - 1];
      LinesInParts(a, init);
      LastUnit(a, b);
      LastUnit(Rest(a), b);
    }
  }

  lemma OneLineOff(line: seq<Unit>, rest: seq<Unit>)
    requires LF !in line
    ensures Lines(line + [LF] + rest) == [line] + Lines(rest)
    ensures Rest(line + [LF] + rest) == Rest(rest)
  {
    UnfinishedLine(line);
    assert (line + [LF])[..|line|] == line;
    LinesInParts(line + [LF], rest);
    assert [] + rest == rest;
  }

  /** What `trim` takes for whitespace. */
  predicate IsTrimmed(u: Unit) {
    || 0x09 <= u <= 0x0D || u == 0x20 || u == 0xA0 || u == 0x1680 || 0x2000 <= u <= 0x200A
    || u == 0x2028 || u == 0x2029 || u == 0x202F || u == 0x205F || u == 0x3000 || u == 0xFEFF
  }

  predicate IsBlankLine(line: seq<Unit>) {
    forall i :: 0 <= i < |line| ==> IsTrimmed(line[i])
  }

  /** The values of the lines that hold one: blank and malformed lines are skipped. */
  ghost function Messages(lines: seq<seq<Unit>>): seq<Json> {
    if lines == [] then []
    else
      var line := lines[|lines| - 1];
      Messages(lines[..|lines| - 1]) +
      if IsBlankLine(line) || Parse(line).NotJson? then [] else [Parse(line).value]
  }

  lemma {:induction false} MessagesConcat(a: seq<seq<Unit>>, b: seq<seq<Unit>>)
    ensures Messages(a + b) == Messages(a) + Messages(b)
    decreases |b|
  {
    if b == [] {
      assert a + b == a;
    } else {
      MessagesConcat(a, b[..|b| - 1]);
      assert (a + b)[..|a + b| - 1] == a + b[..|b| - 1];
    }
  }

  /** A text is its lines, each with its newline, and what follows. */
  function Unlines(lines: seq<seq<Unit>>): seq<Unit> {
    if lines == [] then [] else Unlines(lines[..|lines| - 1]) + (lines[|lines| - 1] + [LF])
  }

  lemma UnlinesAppend(lines: seq<seq<Unit>>, line: seq<Unit>)
    ensures Unlines(lines + [line]) == Unlines(lines) + (line + [LF])
  {
    assert (lines + [line])[..|lines|] == lines;
  }

  lemma {:induction false} LinesMakeUp(text: seq<Unit>)
    ensures Unlines(Lines(text)) + Rest(text) == text
    decreases |text|
  {
    if text != [] {
      var init, last := text[..|text| - 1], text[|text| - 1];
      LinesMakeUp(init);
      UnlinesAppend(Lines(init), Rest(init));
      OneMore(Unlines(Lines(init)), Rest(init), last);
      assert text == init + [last];
    }
  }

  lemma OneMore(a: seq<Unit>, b: seq<Unit>, u: Unit)
    ensures a + (b + [u]) == a + b + [u] && a + (b + [u]) + [] == a + b + [u]
  {
  }

  /** No line gives more than one message; where every line gives one, the lines are their texts. */
  lemma {:induction false} OneMessageALine(lines: seq<seq<Unit>>)
    ensures |Messages(lines)| <= |lines|
    ensures |Messages(lines)| == |lines| ==> forall i :: 0 <= i < |lines| ==> lines[i] == Print(Messages(lines)[i])
    decreases |lines|
  {
    if lines != [] {
      OneMessageALine(lines[..|lines| - 1]);
    }
  }

  // ----- what a list of messages looks like on the wire

  /** A message as it is sent: its JSON text and a newline. */
  function Line(m: Json): seq<Unit> {
    Print(m) + [LF]
  }

  function Wire(ms: seq<Json>): seq<Unit> {
    if ms == [] then [] else Wire(ms[..|ms| - 1]) + Line(ms[|ms| - 1])
  }

  function EncodeText(text: seq<Unit>): seq<Byte> {
    Encode(Scalars(text))
  }

  lemma LineIsWellFormed(m: Json)
    ensures WellFormed(Line(m)) && LF !in Print(m) && !IsBlankLine(Print(m))
  {
    PrintIsOneLine(m);
    AsciiIsWellFormed([LF]);
    ConcatWellFormed(Print(m), [LF]);
    FirstUnitTellsKind(m);
    assert !IsTrimmed(Print(m)[0]);
  }

  lemma LineAlone(m: Json)
    ensures Lines(Line(m)) == [Print(m)] && Rest(Line(m)) == []
    ensures Messages(Lines(Line(m))) == [m]
  {
    LineIsWellFormed(m);
    OneLineOff(Print(m), []);
    assert Line(m) + [] == Line(m);
    ParsePrinted(m);
    MessageOfLine(Print(m), m);
  }

  lemma MessageOfLine(line: seq<Unit>, m: Json)
    requires !IsBlankLine(line) && Parse(line) == Parsed(m)
    ensures Messages([line]) == [m]
  {
    assert [line][..0] == [];
  }

  /** A text made of complete lines that hold `ms`. */
  ghost predicate Holds(text: seq<Unit>, ms: seq<Json>) {
    WellFormed(text) && Rest(text) == [] && Messages(Lines(text)) == ms
  }

  lemma LineAdded(text: seq<Unit>, ms: seq<Json>, m: Json)
    requires Holds(text, ms)
    ensures Holds(text + Line(m), ms + [m])
  {
    LineAlone(m);
    LineIsWellFormed(m);
    ConcatWellFormed(text, Line(m));
    LinesInParts(text, Line(m));
    assert Rest(text) + Line(m) == Line(m);
    MessagesConcat(Lines(text), Lines(Line(m)));
  }

  /** Everything sent is read back, in order, once. */
  lemma {:induction false} WireReadsBack(ms: seq<Json>)
    ensures Holds(Wire(ms), ms)
    decreases |ms|
  {
    if ms != [] {
      var init, m := ms[..|ms| - 1], ms[|ms| - 1];
      WireReadsBack(init);
      LineAdded(Wire(init), init, m);
      assert ms == init + [m];
    }
  }

  lemma EncodeWireAppend(ms: seq<Json>, m: Json)
    ensures EncodeText(Wire(ms + [m])) == EncodeText(Wire(ms)) + EncodeText(Line(m))
  {
    WireReadsBack(ms);
    ConcatWellFormed(Wire(ms), Line(m));
    EncodeConcat(Scalars(Wire(ms)), Scalars(Line(m)));
    assert (ms + [m])[..|ms|] == ms;
  }

  // ----- the two ends as state

  /** What is left to write, one entry a message; only the first can be half written. */
  type Chain = seq<seq<Byte>>

  function Unwritten(chain: Chain): seq<Byte> {
    if chain == [] then [] else chain[0] + Unwritten(chain[1..])
  }

  lemma {:induction false} UnwrittenAppend(chain: Chain, bytes: seq<Byte>)
    ensures Unwritten(chain + [bytes]) == Unwritten(chain) + bytes
  {
    if chain != [] {
      UnwrittenAppend(chain[1..], bytes);
      assert (chain + [bytes])[1..] == chain[1..] + [bytes];
    } else {
      assert [bytes][1..] == [];
    }
  }

  /** The first `n` bytes of the line at the head have been written. */
  function WriteSome(chain: Chain, n: nat): Chain
    requires chain != [] && n <= |chain[0]|
  {
    if n == |chain[0]| then chain[1..] else chain[0 := chain[0][n..]]
  }

  lemma WriteSomeKeeps(chain: Chain, n: nat)
    requires chain != [] && n <= |chain[0]|
    ensures Unwritten(chain) == chain[0][..n] + Unwritten(WriteSome(chain, n))
  {
    assert chain[0] == chain[0][..n] + chain[0][n..];
    if n == |chain[0]| {
      assert chain[0][n..] == [];
    } else {
      assert chain[0 := chain[0][n..]][1..] == chain[1..];
    }
  }

  /** A reader: the bytes its decoder holds back and the text after the last newline. */
  datatype Reader = Reader(held: seq<Byte>, buf: seq<Unit>)

  function Decoded(r: Reader, chunk: seq<Byte>): seq<Unit> {
    r.buf + Units(Drain(r.held + chunk).chars)
  }

  function AfterChunk(r: Reader, chunk: seq<Byte>): Reader {
    Reader(Drain(r.held + chunk).held, Rest(Decoded(r, chunk)))
  }

  function LinesOfChunk(r: Reader, chunk: seq<Byte>): seq<seq<Unit>> {
    Lines(Decoded(r, chunk))
  }

  /** What a reader has read of `bytes`, whatever the chunks: its state follows from the bytes alone. */
  function ReaderAt(bytes: seq<Byte>): Reader {
    Reader(Drain(bytes).held, Rest(Units(Drain(bytes).chars)))
  }

  function LinesAt(bytes: seq<Byte>): seq<seq<Unit>> {
    Lines(Units(Drain(bytes).chars))
  }

  lemma ChunkAdvances(bytes: seq<Byte>, chunk: seq<Byte>)
    ensures ReaderAt(bytes + chunk) == AfterChunk(ReaderAt(bytes), chunk)
    ensures LinesAt(bytes + chunk) == LinesAt(bytes) + LinesOfChunk(ReaderAt(bytes), chunk)
  {
    var d := Drain(bytes);
    var next := Drain(d.held + chunk);
    DrainInParts(bytes, chunk);
    UnitsConcat(d.chars, next.chars);
    LinesInParts(Units(d.chars), Units(next.chars));
  }

  // ----- one direction of the conversation

  /**
   `sent` and `got` are the messages given to `send` and to the handler; `read` is every
   byte taken from the pipe so far.
   */
  datatype Channel = Channel(
    sent: seq<Json>, chain: Chain, pipe: seq<Byte>, read: seq<Byte>, reader: Reader, got: seq<Json>)

  /** `Foreign` is a chunk of another stream that the reader's decoder decodes in between. */
  datatype Action = Send(m: Json) | Write(n: nat) | Read(n: nat) | Foreign(chunk: seq<Byte>)

  /** A write takes any part of the line at the head; a read takes any part of what is in the pipe. */
  predicate Enabled(c: Channel, a: Action) {
    match a
    case Send(_) => true
    case Write(n) => c.chain != [] && n <= |c.chain[0]|
    case Read(n) => n <= |c.pipe|
    case Foreign(_) => true
  }

  /** An action that is not possible does not happen. */
  ghost function Act(c: Channel, a: Action): Channel {
    if !Enabled(c, a) then c
    else
      match a
      case Send(m) => c.(sent := c.sent + [m], chain := c.chain + [EncodeText(Line(m))])
      case Write(n) => c.(pipe := c.pipe + c.chain[0][..n], chain := WriteSome(c.chain, n))
      case Read(n) => Receive(c.(pipe := c.pipe[n..]), c.pipe[..n])
      case Foreign(chunk) => c.(reader := c.reader.(held := HeldAfter(c.reader.held, chunk)))
  }

  /** What a decoder that held `held` holds after a chunk. */
  function HeldAfter(held: seq<Byte>, chunk: seq<Byte>): seq<Byte> {
    Drain(held + chunk).held
  }

  ghost function Receive(c: Channel, chunk: seq<Byte>): Channel {
    c.(read := c.read + chunk, reader := AfterChunk(c.reader, chunk),
       got := c.got + Messages(LinesOfChunk(c.reader, chunk)))
  }

  const IDLE: Channel := Channel([], [], [], [], Reader([], []), [])

  /** Any interleaving of sends, partial writes and reads is a list of actions. */
  ghost function Run(actions: seq<Action>): Channel {
    if actions == [] then IDLE else Act(Run(actions[..|actions| - 1]), actions[|actions| - 1])
  }

  /** The decoder reads nothing but this channel. */
  predicate OwnDecoder(actions: seq<Action>) {
    forall i :: 0 <= i < |actions| ==> !actions[i].Foreign?
  }

  /** Every foreign chunk leaves the decoder holding what it found it holding. */
  ghost predicate Undisturbed(actions: seq<Action>) {
    actions != [] ==>
      var before, a := actions[..|actions| - 1], actions[|actions| - 1];
      && Undisturbed(before)
      && (a.Foreign? ==> HeldAfter(Run(before).reader.held, a.chunk) == Run(before).reader.held)
  }

  lemma {:induction false} OwnDecoderIsUndisturbed(actions: seq<Action>)
    requires OwnDecoder(actions)
    ensures Undisturbed(actions)
  {
    if actions != [] {
      OwnDecoderIsUndisturbed(actions[..|actions| - 1]);
    }
  }

  /** Nothing is lost, doubled or reordered on the way. */
  ghost predicate InTransit(c: Channel) {
    && c.read + c.pipe + Unwritten(c.chain) == EncodeText(Wire(c.sent))
    && c.reader == ReaderAt(c.read)
    && c.got == Messages(LinesAt(c.read))
  }

  lemma SendKeepsTransit(c: Channel, m: Json)
    requires InTransit(c)
    ensures InTransit(Act(c, Send(m)))
  {
    var c' := Act(c, Send(m));
    var before, bytes := Unwritten(c.chain), EncodeText(Line(m));
    UnwrittenAppend(c.chain, bytes);
    EncodeWireAppend(c.sent, m);
    AddedLast(c.read, c.pipe, before, bytes);
    assert c'.read + c'.pipe + Unwritten(c'.chain) == c.read + c.pipe + (before + bytes);
  }

  lemma AddedLast(a: seq<Byte>, b: seq<Byte>, c: seq<Byte>, d: seq<Byte>)
    ensures a + b + (c + d) == a + b + c + d
  {
  }

  lemma WriteKeepsTransit(c: Channel, n: nat)
    requires InTransit(c) && Enabled(c, Write(n))
    ensures InTransit(Act(c, Write(n)))
  {
    var part, left := c.chain[0][..n], Unwritten(WriteSome(c.chain, n));
    WriteSomeKeeps(c.chain, n);
    assert c.read + (c.pipe + part) + left == c.read + c.pipe + (part + left);
  }

  lemma ReadKeepsTransit(c: Channel, n: nat)
    requires InTransit(c) && Enabled(c, Read(n))
    ensures InTransit(Act(c, Read(n)))
  {
    var chunk, left, rest := c.pipe[..n], c.pipe[n..], Unwritten(c.chain);
    assert c.pipe == chunk + left;
    assert c.read + chunk + left + rest == c.read + c.pipe + rest;
    ChunkAdvances(c.read, chunk);
    MessagesConcat(LinesAt(c.read), LinesOfChunk(c.reader, chunk));
  }

  /** The characters decoded from a part of a text's bytes are the start of the text. */
  lemma DecodedIsStart(text: seq<Unit>, k: nat)
    requires WellFormed(text) && k <= |EncodeText(text)|
    ensures Units(Drain(EncodeText(text)[..k]).chars) <= text
    ensures k == |EncodeText(text)| ==> Units(Drain(EncodeText(text)[..k]).chars) == text
  {
    var s := Scalars(text);
    var n := WholeChars(s, k);
    UnitsOfScalars(text);
    DrainCut(s, k);
    UnitsOfStart(s, n);
    EncodedTextIsWhole(s);
  }

  lemma UnitsOfStart(s: seq<Scalar>, n: nat)
    requires n <= |s|
    ensures Units(s[..n]) <= Units(s) && (n == |s| ==> s[..n] == s)
  {
    UnitsConcat(s[..n], s[n..]);
    assert s == s[..n] + s[n..];
  }

  lemma StartHoldsFirstMessages(start: seq<Unit>, text: seq<Unit>)
    requires start <= text
    ensures Messages(Lines(start)) <= Messages(Lines(text))
  {
    var end := text[|start|..];
    assert text == start + end;
    LinesInParts(start, end);
    MessagesConcat(Lines(start), Lines(Rest(start) + end));
  }

  /** The messages of the bytes read so far are the first messages sent. */
  lemma ReadIsPrefix(ms: seq<Json>, k: nat)
    requires k <= |EncodeText(Wire(ms))|
    ensures Messages(LinesAt(EncodeText(Wire(ms))[..k])) <= ms
    ensures k == |EncodeText(Wire(ms))| ==> Messages(LinesAt(EncodeText(Wire(ms))[..k])) == ms
  {
    WireReadsBack(ms);
    DecodedIsStart(Wire(ms), k);
    StartHoldsFirstMessages(Units(Drain(EncodeText(Wire(ms))[..k]).chars), Wire(ms));
  }

  lemma {:induction false} RunKeepsTransit(actions: seq<Action>)
    requires Undisturbed(actions)
    ensures InTransit(Run(actions))
    decreases |actions|
  {
    if actions != [] {
      var c, a := Run(actions[..|actions| - 1]), actions[|actions| - 1];
      RunKeepsTransit(actions[..|actions| - 1]);
      StepKeepsTransit(c, a);
    }
  }

  lemma StepKeepsTransit(c: Channel, a: Action)
    requires InTransit(c)
    requires a.Foreign? ==> HeldAfter(c.reader.held, a.chunk) == c.reader.held
    ensures InTransit(Act(c, a))
  {
    if Enabled(c, a) {
      match a
      case Send(m) => SendKeepsTransit(c, m);
      case Write(n) => WriteKeepsTransit(c, n);
      case Read(n) => ReadKeepsTransit(c, n);
      case Foreign(_) =>
    }
  }

  /** The handler has got the first messages sent, and all of them once the pipe has drained. */
  ghost predicate ArrivesInOrder(c: Channel) {
    c.got <= c.sent && (c.chain == [] && c.pipe == [] ==> c.got == c.sent)
  }

  /**
   In every run whose foreign chunks leave the decoder as they find it, whatever the partial
   writes and read chunks, messages arrive whole and in order.
   */
  lemma UndisturbedMessagesArriveInOrder(actions: seq<Action>)
    requires Undisturbed(actions)
    ensures ArrivesInOrder(Run(actions))
  {
    var c := Run(actions);
    RunKeepsTransit(actions);
    assert EncodeText(Wire(c.sent))[..|c.read|] == c.read;
    ReadIsPrefix(c.sent, |c.read|);
  }

  /**
   So they do in every run of a reader with a decoder of its own, and what was sent before
   the result is handled before it.
   */
  lemma MessagesArriveInOrder(actions: seq<Action>)
    requires OwnDecoder(actions)
    ensures ArrivesInOrder(Run(actions))
  {
    OwnDecoderIsUndisturbed(actions);
    UndisturbedMessagesArriveInOrder(actions);
  }

  // ----- the writer and the reader in place

  lemma LineIsNotEmpty(text: seq<Unit>)
    ensures EncodeText(text + [LF]) != []
  {
    assert Scalars(text + [LF]) != [];
  }

  lemma WrittenPart(line: seq<Byte>, off: nat, n: nat, next: Chain)
    requires off + n <= |line|
    ensures var left := WriteSome([line[off..]] + next, n);
            left == if off + n == |line| then next else [line[off + n..]] + next
    ensures next != [] ==> next == [next[0][0..]] + next[1..]
  {
    assert line[off..][n..] == line[off + n..];
    assert ([line[off..]] + next)[1..] == next;
  }

  class LineWriter {
    var chain: Chain
    var off: nat

    ghost predicate Valid()
      reads this
    {
      && (forall i :: 0 <= i < |chain| ==> chain[i] != [])
      && (if chain == [] then off == 0 else off < |chain[0]|)
    }

    /** What is left to write, the written part of the first line left out. */
    ghost function Left(): Chain
      requires Valid()
      reads this
    {
      if chain == [] then [] else [chain[0][off..]] + chain[1..]
    }

    constructor ()
      ensures Valid() && Left() == []
    {
      chain, off := [], 0;
    }

    /** Chains one whole line behind everything sent before. */
    method Send(text: seq<Unit>)
      requires Valid()
      modifies this`chain
      ensures Valid() && Left() == old(Left()) + [EncodeText(text + [LF])]
    {
      LineIsNotEmpty(text);
      chain := chain + [EncodeText(text + [LF])];
    }

    /** The output took `n` bytes of the line it was offered. */
    method Written(n: nat) returns (bytes: seq<Byte>)
      requires Valid() && chain != [] && n <= |chain[0]| - off
      modifies this
      ensures Valid() && bytes == old(Left())[0][..n] && Left() == WriteSome(old(Left()), n)
    {
      bytes := chain[0][off..][..n];
      ghost var next := chain[1..];
      WrittenPart(chain[0], off, n, next);
      off := off + n;
      if off == |chain[0]| {
        chain, off := chain[1..], 0;
      }
    }
  }

  /** `text.indexOf('\n')`, or the length where there is none. */
  function IndexOfNewline(text: seq<Unit>): (k: nat)
    ensures k <= |text| && LF !in text[..k] && (k < |text| ==> text[k] == LF)
  {
    if text == [] || text[0] == LF then 0 else 1 + IndexOfNewline(text[1..])
  }

  lemma SplitAtNewline(text: seq<Unit>, nl: nat)
    requires nl < |text| && text[nl] == LF
    ensures text[..nl] + [LF] + text[nl + 1..] == text
  {
  }

  lemma Regroup(done: seq<seq<Unit>>, line: seq<Unit>, more: seq<seq<Unit>>)
    ensures done + [line] + more == done + ([line] + more)
  {
  }

  lemma FirstLineOff(done: seq<seq<Unit>>, text: seq<Unit>, nl: nat)
    requires nl < |text| && LF !in text[..nl] && text[nl] == LF
    ensures done + [text[..nl]] + Lines(text[nl + 1..]) == done + Lines(text)
    ensures Rest(text) == Rest(text[nl + 1..])
  {
    var line, more := text[..nl], text[nl + 1..];
    SplitAtNewline(text, nl);
    OneLineOff(line, more);
    Regroup(done, line, Lines(more));
  }

  lemma NoLineLeft(text: seq<Unit>, nl: nat)
    requires nl == |text| && LF !in text[..nl]
    ensures Lines(text) == [] && Rest(text) == text
  {
    assert text == text[..nl];
    UnfinishedLine(text);
  }

  class LineReader {
    var held: seq<Byte>
    var buf: seq<Unit>

    constructor ()
      ensures held == [] && buf == []
    {
      held, buf := [], [];
    }

    /** Takes a chunk in and gives out the lines it completes. */
    method Feed(chunk: seq<Byte>) returns (lines: seq<seq<Unit>>)
      modifies this
      ensures Reader(held, buf) == AfterChunk(old(Reader(held, buf)), chunk)
      ensures lines == LinesOfChunk(old(Reader(held, buf)), chunk)
    {
      var decoded := Drain(held + chunk);
      held := decoded.held;
      buf := buf + Units(decoded.chars);
      ghost var text := buf;
      lines := [];
      var nl := IndexOfNewline(buf);
      while nl < |buf|
        invariant nl == IndexOfNewline(buf) && held == decoded.held
        invariant lines + Lines(buf) == Lines(text) && Rest(buf) == Rest(text)
        decreases |buf|
      {
        FirstLineOff(lines, buf, nl);
        lines := lines + [buf[..nl]];
        buf := buf[nl + 1..];
        nl := IndexOfNewline(buf);
      }
      NoLineLeft(buf, nl);
    }
  }
}
