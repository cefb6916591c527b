/**
 Tool calls out of the sandbox: numbered by the harness, registered by the supervisor,
 answered by the backend in any order, and settled once. What a run may log, and how it
 ends, is at the end.
 */
module CallBridge {
  import opened Utf16

  const MAX_CALLS: nat := 500
  const MAX_CONCURRENT_CALLS: nat := 16
  const MAX_ARG_BYTES: nat := 256 * 1024

  datatype Reply = Reply(ok: bool, value: string)

  datatype Outcome =
    | Answered(reply: Reply)
    | SendFailed
    | RunEnded

  datatype Refusal = TooManyCalls | TooManyOutstanding | NotSerializable | ArgumentsTooLarge

  datatype Arguments = Unserializable | Serialized(json: seq<Unit>)

  datatype HostCallResult = Refused(why: Refusal) | Called(id: nat)

  // ----- the harness

  /** `settled` records how the promise of each call was settled, the first time. */
  datatype Harness = Harness(callsMade: nat, nextId: nat, pending: set<nat>, settled: map<nat, Outcome>, finished: bool)

  const FRESH: Harness := Harness(0, 1, {}, map[], false)

  function RefusalOf(h: Harness, args: Arguments): HostCallResult {
    if h.callsMade >= MAX_CALLS then Refused(TooManyCalls)
    else if |h.pending| >= MAX_CONCURRENT_CALLS then Refused(TooManyOutstanding)
    else if args.Unserializable? then Refused(NotSerializable)
    else if |args.json| > MAX_ARG_BYTES then Refused(ArgumentsTooLarge)
    else Called(h.nextId)
  }

  function AfterHostCall(h: Harness, args: Arguments): Harness {
    if RefusalOf(h, args).Refused? then h
    else h.(callsMade := h.callsMade + 1, nextId := h.nextId + 1, pending := h.pending + {h.nextId})
  }

  /** A promise settles once: later attempts do nothing. */
  function Settle(h: Harness, id: nat, how: Outcome): Harness {
    h.(pending := h.pending - {id}, settled := if id in h.settled then h.settled else h.settled[id := how])
  }

  function CallResult(h: Harness, id: nat, reply: Reply): Harness {
    if id in h.pending then Settle(h, id, Answered(reply)) else h
  }

  function WriteError(h: Harness, id: nat): Harness {
    if 0 < id < h.nextId then Settle(h, id, SendFailed) else h
  }

  /** After the result is sent, everything still waiting is rejected. */
  function EndRun(h: Harness): Harness {
    h.(pending := {}, settled := map id | id in h.settled.Keys + h.pending ::
                                   if id in h.settled then h.settled[id] else RunEnded)
  }

  // ----- the supervisor and the lines in between

  /**
   `calls` and `answers` are the lines on their way to the supervisor and back. `waiting`
   holds the calls the backend has been asked, `first` the first reply to each.
   */
  datatype Bridge = Bridge(
    harness: Harness,
    calls: seq<nat>,
    waiting: set<nat>,
    first: map<nat, Reply>,
    answers: multiset<(nat, Reply)>,
    results: nat)

  const START: Bridge := Bridge(FRESH, [], {}, map[], multiset{}, 0)

  const LOST: Reply := Reply(false, "backend connection lost")

  datatype Action =
    | Call(args: Arguments)
    | CallWriteFails(id: nat)
    | Register
    | RegisterWithoutBackend
    | Answer(id: nat, reply: Reply)
    | Deliver(id: nat, reply: Reply)
    | Finish
    | RejectPending

  function Do(b: Bridge, a: Action): Bridge {
    match a
    case Call(args) =>
      var r := RefusalOf(b.harness, args);
      if r.Refused? then b else b.(harness := AfterHostCall(b.harness, args), calls := b.calls + [r.id])
    case CallWriteFails(id) => b.(harness := WriteError(b.harness, id))
    case Register =>
      if b.calls == [] then b else b.(calls := b.calls[1..], waiting := b.waiting + {b.calls[0]})
    case RegisterWithoutBackend =>
      if b.calls == [] then b
      else Resolve(b.(calls := b.calls[1..], waiting := b.waiting + {b.calls[0]}), b.calls[0], LOST)
    case Answer(id, reply) =>
      if id in b.waiting then Resolve(b.(waiting := b.waiting - {id}), id, reply) else b
    case Deliver(id, reply) =>
      if (id, reply) in b.answers
      then b.(answers := b.answers - multiset{(id, reply)}, harness := CallResult(b.harness, id, reply))
      else b
    case Finish =>
      if b.harness.finished then b
      else b.(harness := b.harness.(finished := true), results := b.results + 1)
    case RejectPending => if b.harness.finished then b.(harness := EndRun(b.harness)) else b
  }

  /** Only the first reply to a call is written back. */
  function Resolve(b: Bridge, id: nat, reply: Reply): Bridge {
    if id in b.first then b
    else b.(first := b.first[id := reply], answers := b.answers + multiset{(id, reply)})
  }

  /** Any interleaving of both ends and of the backend is a list of actions. */
  function Run(b: Bridge, actions: seq<Action>): Bridge
    decreases |actions|
  {
    if actions == [] then b else Run(Do(b, actions[0]), actions[1..])
  }

  // ----- what every run keeps

  ghost predicate WithinCaps(h: Harness) {
    && h.callsMade <= MAX_CALLS
    && |h.pending| <= MAX_CONCURRENT_CALLS
    && h.nextId == h.callsMade + 1
    && (forall id :: id in h.pending ==> 0 < id < h.nextId && id !in h.settled)
    && (forall id :: id in h.settled ==> 0 < id < h.nextId)
    && (forall id :: 0 < id < h.nextId ==> id in h.pending || id in h.settled)
  }

  ghost predicate InFlight(b: Bridge) {
    && (forall i, j :: 0 <= i < j < |b.calls| ==> b.calls[i] < b.calls[j])
    && (forall i :: 0 <= i < |b.calls| ==>
          0 < b.calls[i] < b.harness.nextId && b.calls[i] !in b.waiting && b.calls[i] !in b.first)
    && (forall id :: id in b.waiting ==> 0 < id < b.harness.nextId)
    && (forall id :: id in b.first ==> 0 < id < b.harness.nextId)
  }

  /** What is on its way back, or settled as answered, is the first reply to that very call. */
  ghost predicate FirstReplies(b: Bridge) {
    && (forall id, reply :: (id, reply) in b.answers ==> id in b.first && b.first[id] == reply)
    && (forall id :: id in b.harness.settled && b.harness.settled[id].Answered? ==>
          id in b.first && b.harness.settled[id].reply == b.first[id])
  }

  ghost predicate Sound(b: Bridge) {
    && WithinCaps(b.harness)
    && InFlight(b)
    && FirstReplies(b)
    && b.results == (if b.harness.finished then 1 else 0)
  }

  lemma HostCallKeepsCaps(h: Harness, args: Arguments)
    requires WithinCaps(h) && RefusalOf(h, args).Called?
    ensures WithinCaps(AfterHostCall(h, args))
  {
    assert h.nextId !in h.pending;
  }

  lemma SettleKeepsCaps(h: Harness, id: nat, how: Outcome)
    requires WithinCaps(h) && 0 < id < h.nextId
    ensures WithinCaps(Settle(h, id, how))
  {
    assert h.pending - {id} <= h.pending;
    SubsetSize(h.pending - {id}, h.pending);
  }

  lemma SubsetSize(a: set<nat>, b: set<nat>)
    requires a <= b
    ensures |a| <= |b|
  {
    assert b == a + (b - a);
  }

  lemma EndRunKeepsCaps(h: Harness)
    requires WithinCaps(h)
    ensures WithinCaps(EndRun(h))
  {
  }

  lemma CallKeepsSound(b: Bridge, args: Arguments)
    requires Sound(b)
    ensures Sound(Do(b, Call(args)))
  {
    if RefusalOf(b.harness, args).Called? {
      HostCallKeepsCaps(b.harness, args);
      var b' := Do(b, Call(args));
      assert b'.calls == b.calls + [b.harness.nextId];
    }
  }

  lemma WriteErrorKeepsSound(b: Bridge, id: nat)
    requires Sound(b)
    ensures Sound(Do(b, CallWriteFails(id)))
  {
    if 0 < id < b.harness.nextId {
      SettleKeepsCaps(b.harness, id, SendFailed);
    }
  }

  lemma RegisterKeepsSound(b: Bridge)
    requires Sound(b)
    ensures Sound(Do(b, Register))
  {
  }

  lemma ResolveKeepsFirstReplies(b: Bridge, id: nat, reply: Reply)
    requires FirstReplies(b)
    ensures FirstReplies(Resolve(b, id, reply))
  {
  }

  lemma RegisterAloneKeepsSound(b: Bridge)
    requires Sound(b)
    ensures Sound(Do(b, RegisterWithoutBackend))
  {
    if b.calls != [] {
      var registered := b.(calls := b.calls[1..], waiting := b.waiting + {b.calls[0]});
      assert FirstReplies(registered);
      ResolveKeepsFirstReplies(registered, b.calls[0], LOST);
    }
  }

  lemma AnswerKeepsSound(b: Bridge, id: nat, reply: Reply)
    requires Sound(b)
    ensures Sound(Do(b, Answer(id, reply)))
  {
    if id in b.waiting {
      var answered := b.(waiting := b.waiting - {id});
      assert FirstReplies(answered);
      ResolveKeepsFirstReplies(answered, id, reply);
    }
  }

  lemma DeliverKeepsSound(b: Bridge, id: nat, reply: Reply)
    requires Sound(b)
    ensures Sound(Do(b, Deliver(id, reply)))
  {
    if (id, reply) in b.answers && id in b.harness.pending {
      SettleKeepsCaps(b.harness, id, Answered(reply));
    }
  }

  /** The steps keep the caps, the distinct ids and the match of replies to calls. */
  lemma DoKeepsSound(b: Bridge, a: Action)
    requires Sound(b)
    ensures Sound(Do(b, a))
  {
    match a
    case Call(args) => CallKeepsSound(b, args);
    case CallWriteFails(id) => WriteErrorKeepsSound(b, id);
    case Register => RegisterKeepsSound(b);
    case RegisterWithoutBackend => RegisterAloneKeepsSound(b);
    case Answer(id, reply) => AnswerKeepsSound(b, id, reply);
    case Deliver(id, reply) => DeliverKeepsSound(b, id, reply);
    case Finish =>
    case RejectPending => if b.harness.finished { EndRunKeepsCaps(b.harness); }
  }

  /** In every run from the start, and at every point of it. */
  lemma {:induction false} RunIsSound(b: Bridge, actions: seq<Action>)
    requires b == START || Sound(b)
    ensures Sound(Run(b, actions))
    decreases |actions|
  {
    if actions != [] {
      DoKeepsSound(b, actions[0]);
      RunIsSound(Do(b, actions[0]), actions[1..]);
    }
  }

  /** A settled call stays settled as it was, the first reply stays the first, and the run ends once. */
  ghost predicate Later(b: Bridge, c: Bridge) {
    HarnessLater(b.harness, c.harness) && Keeps(b.first, c.first)
  }

  ghost predicate HarnessLater(h: Harness, k: Harness) {
    Keeps(h.settled, k.settled) && (h.finished ==> k.finished) && h.callsMade <= k.callsMade
  }

  ghost predicate Keeps<K, V>(m: map<K, V>, n: map<K, V>) {
    forall key :: key in m ==> key in n && n[key] == m[key]
  }

  lemma DoIsLater(b: Bridge, a: Action)
    ensures Later(b, Do(b, a))
  {
    match a
    case CallWriteFails(id) => SettleIsLater(b.harness, id, SendFailed);
    case Deliver(id, reply) => SettleIsLater(b.harness, id, Answered(reply));
    case RejectPending => EndRunIsLater(b.harness);
    case _ =>
  }

  lemma SettleIsLater(h: Harness, id: nat, how: Outcome)
    ensures HarnessLater(h, Settle(h, id, how))
  {
  }

  lemma EndRunIsLater(h: Harness)
    ensures HarnessLater(h, EndRun(h))
  {
  }

  lemma LaterIsTransitive(a: Bridge, b: Bridge, c: Bridge)
    requires Later(a, b) && Later(b, c)
    ensures Later(a, c)
  {
  }

  /** Whatever happens from any point of a run on leaves what was settled by then as it was. */
  lemma {:induction false} NothingSettlesTwice(b: Bridge, actions: seq<Action>)
    ensures Later(b, Run(b, actions))
    decreases |actions|
  {
    if actions != [] {
      DoIsLater(b, actions[0]);
      NothingSettlesTwice(Do(b, actions[0]), actions[1..]);
      LaterIsTransitive(b, Do(b, actions[0]), Run(b, actions));
    }
  }

  /** An answer nobody waits for, a second answer and a line for a settled call change nothing. */
  lemma StrayAnswersChangeNothing(b: Bridge, id: nat, reply: Reply, again: Reply)
    ensures id !in b.waiting ==> Do(b, Answer(id, reply)) == b
    ensures Do(Do(b, Answer(id, reply)), Answer(id, again)) == Do(b, Answer(id, reply))
    ensures id !in b.harness.pending ==> Do(b, Deliver(id, reply)).harness == b.harness
  {
  }

  lemma CallResultsCommute(h: Harness, id: nat, reply: Reply, id': nat, reply': Reply)
    requires id != id'
    ensures CallResult(CallResult(h, id, reply), id', reply') == CallResult(CallResult(h, id', reply'), id, reply)
  {
    var x, y := CallResult(CallResult(h, id, reply), id', reply'), CallResult(CallResult(h, id', reply'), id, reply);
    assert x.pending == y.pending;
    assert x.settled == y.settled;
  }

  /** The order in which two answers arrive does not matter. */
  lemma DeliveriesCommute(b: Bridge, id: nat, reply: Reply, id': nat, reply': Reply)
    requires (id, reply) in b.answers && (id', reply') in b.answers && id != id'
    ensures Do(Do(b, Deliver(id, reply)), Deliver(id', reply')).harness
         == Do(Do(b, Deliver(id', reply')), Deliver(id, reply)).harness
  {
    assert (id', reply') in Do(b, Deliver(id, reply)).answers;
    assert (id, reply) in Do(b, Deliver(id', reply')).answers;
    CallResultsCommute(b.harness, id, reply, id', reply');
  }

  // ----- the table of calls in place

  class CallTable {
    var callsMade: nat
    var nextCallId: nat
    var pending: set<nat>
    var finished: bool
    ghost var settled: map<nat, Outcome>

    ghost function State(): Harness
      reads this
    {
      Harness(callsMade, nextCallId, pending, settled, finished)
    }

    constructor ()
      ensures State() == FRESH
    {
      callsMade, nextCallId, pending, finished, settled := 0, 1, {}, false, map[];
    }

    method HostCall(args: Arguments) returns (r: HostCallResult)
      modifies this`callsMade, this`nextCallId, this`pending
      ensures r == RefusalOf(old(State()), args)
      ensures State() == AfterHostCall(old(State()), args)
    {
      if callsMade >= MAX_CALLS {
        return Refused(TooManyCalls);
      }
      if |pending| >= MAX_CONCURRENT_CALLS {
        return Refused(TooManyOutstanding);
      }
      if args == Unserializable {
        return Refused(NotSerializable);
      }
      if |args.json| > MAX_ARG_BYTES {
        return Refused(ArgumentsTooLarge);
      }
      callsMade := callsMade + 1;
      r := Called(nextCallId);
      pending := pending + {nextCallId};
      nextCallId := nextCallId + 1;
    }

    method HandleCallResult(id: nat, reply: Reply)
      modifies this`pending, this`settled
      ensures State() == CallResult(old(State()), id, reply)
    {
      if id !in pending {
        return;
      }
      pending := pending - {id};
      settled := if id in settled then settled else settled[id := Answered(reply)];
    }

    /** Sends the result the first time only. */
    method Finish() returns (send: bool)
      modifies this`finished
      ensures send == !old(finished) && finished
    {
      send := !finished;
      finished := true;
    }

    method RejectAll()
      modifies this`pending, this`settled
      ensures State() == EndRun(old(State()))
    {
      settled := map id | id in settled.Keys + pending :: if id in settled then settled[id] else RunEnded;
      pending := {};
    }
  }

  // ----- the supervisor's table of calls the backend has been asked

  ghost predicate IsWritten(written: seq<(nat, Reply)>, id: nat) {
    exists k :: 0 <= k < |written| && written[k].0 == id
  }

  /** Exactly the first reply to each call was written back, once. */
  ghost predicate FirstWritten(first: map<nat, Reply>, written: seq<(nat, Reply)>) {
    && (forall k :: 0 <= k < |written| ==> written[k].0 in first && first[written[k].0] == written[k].1)
    && (forall id :: id in first ==> IsWritten(written, id))
    && (forall i, j :: 0 <= i < j < |written| ==> written[i].0 != written[j].0)
  }

  lemma WriteFirst(first: map<nat, Reply>, written: seq<(nat, Reply)>, id: nat, reply: Reply)
    requires FirstWritten(first, written) && id !in first
    ensures FirstWritten(first[id := reply], written + [(id, reply)])
  {
    var longer := written + [(id, reply)];
    forall i | i in first[id := reply]
      ensures IsWritten(longer, i)
    {
      if i == id {
        assert longer[|written|].0 == id;
      } else {
        var k :| 0 <= k < |written| && written[k].0 == i;
        assert longer[k].0 == i;
      }
    }
  }

  class AnswerTable {
    var resolvers: set<nat>
    /** The first reply to each call: a promise resolves once. */
    ghost var first: map<nat, Reply>
    ghost var written: seq<(nat, Reply)>

    ghost predicate Valid()
      reads this
    {
      FirstWritten(first, written)
    }

    constructor ()
      ensures Valid() && resolvers == {} && written == []
    {
      resolvers, first, written := {}, map[], [];
    }

    /** Writes a reply back to the sandbox unless one was written for this call. */
    ghost method ResolveOnce(id: nat, reply: Reply)
      requires Valid()
      modifies this`first, this`written
      ensures Valid()
      ensures id in old(first) ==> first == old(first) && written == old(written)
      ensures id !in old(first) ==> first == old(first)[id := reply] && written == old(written) + [(id, reply)]
    {
      if id !in first {
        WriteFirst(first, written, id, reply);
        first := first[id := reply];
        written := written + [(id, reply)];
      }
    }

    /** Registers a call; without a backend it is answered at once. */
    method Ask(id: nat, connected: bool)
      requires Valid()
      modifies this
      ensures Valid() && resolvers == old(resolvers) + {id}
      ensures connected || id in old(first) ==> first == old(first) && written == old(written)
      ensures !connected && id !in old(first) ==>
              first == old(first)[id := LOST] && written == old(written) + [(id, LOST)]
    {
      resolvers := resolvers + {id};
      if !connected {
        ResolveOnce(id, LOST);
      }
    }

    /** Only a call still registered takes an answer. */
    method HandleAnswer(id: nat, reply: Reply)
      requires Valid()
      modifies this
      ensures Valid() && resolvers == old(resolvers) - {id}
      ensures id !in old(resolvers) || id in old(first) ==> first == old(first) && written == old(written)
      ensures id in old(resolvers) && id !in old(first) ==>
                first == old(first)[id := reply] && written == old(written) + [(id, reply)]
    {
      if id in resolvers {
        resolvers := resolvers - {id};
        ResolveOnce(id, reply);
      }
    }
  }

  // ----- how a job ends

  datatype Line = CallLine(id: nat) | LogLine(text: string) | ResultLine(result: string)

  datatype JobOutcome = Reported(result: string) | TimedOut | NoResult

  /** The result line handled last, -1 where there is none. */
  method LastResult(lines: seq<Line>) returns (last: int)
    ensures -1 <= last < |lines| && (last >= 0 ==> lines[last].ResultLine?)
    ensures forall k :: last < k < |lines| ==> !lines[k].ResultLine?
  {
    last := -1;
    for i := 0 to |lines|
      invariant -1 <= last < i && (last >= 0 ==> lines[last].ResultLine?)
      invariant forall k :: last < k < i ==> !lines[k].ResultLine?
    {
      if lines[i].ResultLine? {
        last := i;
      }
    }
  }

  /** A result counts even when the time ran out before the child was gone. */
  method EndJob(lines: seq<Line>, timedOut: bool) returns (outcome: JobOutcome)
    ensures outcome.Reported? <==> exists i :: 0 <= i < |lines| && lines[i].ResultLine?
    ensures forall i ::
              (0 <= i < |lines| && lines[i].ResultLine? && forall k :: i < k < |lines| ==> !lines[k].ResultLine?) ==>
                outcome == Reported(lines[i].result)
    ensures outcome.TimedOut? ==> timedOut
    ensures outcome.NoResult? ==> !timedOut
  {
    var last := LastResult(lines);
    outcome := if last >= 0 then Reported(lines[last].result) else if timedOut then TimedOut else NoResult;
  }

  // ----- captured console output

  const MAX_LOG_MESSAGES: nat := 1000
  const MAX_LOG_CHARS: nat := 64 * 1024

  class Console {
    var messages: nat
    var chars: nat
    ghost var logged: seq<seq<Unit>>

    /** Everything logged so far stays within both limits. */
    ghost predicate Valid()
      reads this
    {
      messages == |logged| <= MAX_LOG_MESSAGES && chars == Total(logged) <= MAX_LOG_CHARS
    }

    constructor ()
      ensures Valid() && logged == []
    {
      messages, chars, logged := 0, 0, [];
    }

    /** Logs as much of the text as the limits allow, or nothing once one is reached. */
    method Capture(text: seq<Unit>) returns (sent: seq<seq<Unit>>)
      requires Valid()
      modifies this
      ensures Valid() && logged == old(logged) + sent
      ensures sent == if old(messages) >= MAX_LOG_MESSAGES || old(chars) >= MAX_LOG_CHARS then []
                      else if |text| <= MAX_LOG_CHARS - old(chars) then [text]
                      else [text[..MAX_LOG_CHARS - old(chars)]]
    {
      if messages >= MAX_LOG_MESSAGES || chars >= MAX_LOG_CHARS {
        return [];
      }
      var kept := text;
      if |text| > MAX_LOG_CHARS - chars {
        kept := text[..MAX_LOG_CHARS - chars];
      }
      chars := chars + |kept|;
      messages := messages + 1;
      assert (logged + [kept])[..|logged|] == logged;
      logged := logged + [kept];
      return [kept];
    }
  }

  function Total(texts: seq<seq<Unit>>): nat {
    if texts == [] then 0 else Total(texts[..|texts| - 1]) + |texts[|texts| - 1]|
  }

  function TotalBytes(texts: seq<seq<Unit>>): nat {
    if texts == [] then 0 else TotalBytes(texts[..|texts| - 1]) + ByteLength(texts[|texts| - 1])
  }

  function TotalExcess(texts: seq<seq<Unit>>): nat {
    if texts == [] then 0 else TotalExcess(texts[..|texts| - 1]) + Excess(texts[|texts| - 1])
  }

  /** The bytes of what was logged: between one and three for each unit counted. */
  lemma {:induction false} LoggedBytes(texts: seq<seq<Unit>>)
    ensures TotalBytes(texts) == Total(texts) + TotalExcess(texts) <= 3 * Total(texts)
    decreases |texts|
  {
    if texts != [] {
      LoggedBytes(texts[..|texts| - 1]);
      BytesOfUnits(texts[|texts| - 1]);
    }
  }

  /**
   The limit named in bytes counts units: what was logged stays within that many bytes exactly
   when its units and their excess do, and within three times as many in any case.
   */
  lemma LogLimitCountsUnits(texts: seq<seq<Unit>>)
    requires Total(texts) <= MAX_LOG_CHARS
    ensures TotalBytes(texts) <= MAX_LOG_CHARS <==> Total(texts) + TotalExcess(texts) <= MAX_LOG_CHARS
    ensures TotalBytes(texts) <= 3 * MAX_LOG_CHARS
  {
    LoggedBytes(texts);
  }

  /** So does the one on the arguments of a call: an accepted call may carry up to three times as many. */
  lemma ArgumentLimitCountsUnits(h: Harness, json: seq<Unit>)
    requires RefusalOf(h, Serialized(json)).Called?
    ensures ByteLength(json) <= MAX_ARG_BYTES <==> |json| + Excess(json) <= MAX_ARG_BYTES
    ensures ByteLength(json) <= 3 * MAX_ARG_BYTES
  {
    LimitOfUnits(json, MAX_ARG_BYTES);
  }

  const EURO: Unit := 0x20AC

  lemma {:induction false} EurosTakeThree(s: seq<Unit>)
    requires forall i :: 0 <= i < |s| ==> s[i] == EURO
    ensures Excess(s) == 2 * |s|
  {
    if s != [] {
      EurosTakeThree(s[1..]);
    }
  }

  /** A console that captures one text of 65,536 euro signs logs three times the limit in bytes. */
  method LogEuros() returns (c: Console)
    ensures fresh(c) && c.Valid() && TotalBytes(c.logged) == 3 * MAX_LOG_CHARS
  {
    c := new Console();
    var text := seq(MAX_LOG_CHARS, _ => EURO);
    var sent := c.Capture(text);
    assert c.logged == [text];
    BytesOfEuros(text);
  }

  lemma BytesOfEuros(text: seq<Unit>)
    requires forall i :: 0 <= i < |text| ==> text[i] == EURO
    ensures TotalBytes([text]) == 3 * |text|
  {
    EurosTakeThree(text);
    BytesOfUnits(text);
    assert [text][..0] == [];
  }
}
