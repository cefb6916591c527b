/** Any number of processes sweeping one row with stale copies of it, stopping anywhere, and mailing the owner once. */
module ApprovalWatcher {
  import opened Options
  import opened ApprovalWatch

  datatype Answer = Unknown | Refused | Accepted

  datatype Setup = Ready | NotWaiting | NeedsAuthorization

  /** Where a process is in its sweep of the row, with what it has read so far. */
  datatype Process =
    | Idle
    | HasRow(now: int, row: Watch)
    | HasEvents(now: int, row: Watch, since: Option<int>)
    | Asking(now: int, row: Watch, since: Option<int>)
    | Answered(now: int, row: Watch, since: Option<int>, answer: Answer)
    | LoggingPending(now: int)
    | Claimed
    | Sending
    | Sent

  /**
   The row's watch, the events recorded about the connector, the processes, and what has
   happened: emails sent, whether a refusal was ever recorded, whether an acceptance was seen.
   */
  datatype World = World(
    createdAt: int,
    watch: Stored,
    evidence: Option<int>,
    notified: bool,
    processes: map<nat, Process>,
    emails: nat,
    refused: bool,
    accepted: bool)
  {
    function At(p: nat): Process {
      if p in processes then processes[p] else Idle
    }

    function Put(p: nat, state: Process): World {
      this.(processes := processes[p := state])
    }
  }

  /** A row about which nobody was mailed yet. */
  function Start(createdAt: int, watch: Stored): World
    requires NotifiedAt !in watch
  {
    World(createdAt, watch, None, false, map[], 0, PendingSince in ReadWatch(watch), false)
  }

  datatype Action =
    | FetchRow(p: nat, now: int)
    | FetchEvents(p: nat)
    | SetupState(p: nat, setup: Setup)
    | AskProvider(p: nat, answer: Answer)
    | WriteOutcome(p: nat)
    | LogPending(p: nat, recorded: bool)
    | CheckEarlier(p: nat)
    | SendEmail(p: nat, reachable: bool)
    | LogNotified(p: nat, recorded: bool)
    | Stop(p: nat)
    | SetupPageSeesRefusal(t: int)
    | Overwrite(stored: Stored)

  /** `watch || patch`: fields are added or overwritten, never removed. */
  function Merge(watch: Stored, patch: Watch): Stored {
    watch + (map key | key in patch :: ApprovalWatch.At(patch[key]))
  }

  function Outcome(w: World, p: nat, now: int, row: Watch, since: Option<int>, answer: Answer): World {
    match answer
    case Unknown =>
      var patch := map[LastCheckedAt := now];
      var full := if since.Some? && PendingSince !in row then patch[PendingSince := since.value] else patch;
      w.(watch := Merge(w.watch, full)).Put(p, Idle)
    case Refused =>
      var patch := map[LastCheckedAt := now, PendingSince := if since.Some? then since.value else now];
      w.(watch := Merge(w.watch, patch)).Put(p, if PendingSince in row then Idle else LoggingPending(now))
    case Accepted =>
      if since.None? then
        w.(watch := Merge(w.watch, map[LastCheckedAt := now, NotPending := now])).Put(p, Idle)
      else if NotifiedAt in w.watch then w.Put(p, Idle)
      else
        var patch := map[LastCheckedAt := now, PendingSince := since.value, ApprovedAt := now, NotifiedAt := now];
        w.(watch := Merge(w.watch, patch)).Put(p, Claimed)
  }

  /** One atomic step. An action the process is not ready for does nothing. */
  function Do(w: World, a: Action): World {
    match a
    case FetchRow(p, now) =>
      if w.At(p).Idle? && IsCheckDue(ReadWatch(w.watch), w.createdAt, now)
      then w.Put(p, HasRow(now, ReadWatch(w.watch))) else w
    case FetchEvents(p) =>
      if w.At(p).HasRow? then
        var s := w.At(p);
        w.Put(p, HasEvents(s.now, s.row, if PendingSince in s.row then Some(s.row[PendingSince]) else w.evidence))
      else w
    case SetupState(p, setup) =>
      if w.At(p).HasEvents? then
        var s := w.At(p);
        match setup
        case Ready => w.(watch := Merge(w.watch, map[DoneAt := s.now])).Put(p, Idle)
        case NotWaiting => w.Put(p, Idle)
        case NeedsAuthorization => w.Put(p, Asking(s.now, s.row, s.since))
      else w
    case AskProvider(p, answer) =>
      if w.At(p).Asking? then
        var s := w.At(p);
        w.Put(p, Answered(s.now, s.row, s.since, answer)).(
          refused := w.refused || answer == Refused, accepted := w.accepted || answer == Accepted)
      else w
    case WriteOutcome(p) =>
      if w.At(p).Answered? then Outcome(w, p, w.At(p).now, w.At(p).row, w.At(p).since, w.At(p).answer) else w
    case LogPending(p, recorded) =>
      if w.At(p).LoggingPending?
      then w.Put(p, Idle).(evidence := if recorded && w.evidence.None? then Some(w.At(p).now) else w.evidence)
      else w
    case CheckEarlier(p) =>
      if w.At(p).Claimed? then w.Put(p, if w.notified then Idle else Sending) else w
    case SendEmail(p, reachable) =>
      if w.At(p).Sending? then w.Put(p, Sent).(emails := w.emails + if reachable then 1 else 0) else w
    case LogNotified(p, recorded) =>
      if w.At(p).Sent? then w.Put(p, Idle).(notified := w.notified || recorded) else w
    case Stop(p) => w.Put(p, Idle)
    case SetupPageSeesRefusal(t) => w.(evidence := if w.evidence.None? then Some(t) else w.evidence, refused := true)
    case Overwrite(stored) => w.(watch := stored)
  }

  function Run(w: World, actions: seq<Action>): World
    decreases |actions|
  {
    if actions == [] then w else Run(Do(w, actions[0]), actions[1..])
  }

  // ----- at most one email

  /** A process that may still send: it won the claim and no record of an email will stop it. */
  predicate MaySend(w: World, p: nat) {
    w.At(p).Sending? || (w.At(p).Claimed? && !w.notified)
  }

  ghost predicate OneEmail(w: World) {
    && w.emails <= 1
    && (forall p, q :: MaySend(w, p) && MaySend(w, q) ==> p == q)
    && (forall p :: MaySend(w, p) ==> (NotifiedAt in w.watch || w.notified) && w.emails == 0)
    && (w.emails == 1 ==> NotifiedAt in w.watch || w.notified)
  }

  /** No record in the row is needed: an email is on record, or none was sent and nobody is about to. */
  ghost predicate LossIsSafe(w: World) {
    w.notified || (w.emails == 0 && forall p :: !MaySend(w, p))
  }

  /**
   Another write may replace the whole config, with a copy that has an older watch or none,
   without a second email following.
   */
  ghost predicate OverwriteIsSafe(w: World, stored: Stored) {
    NotifiedAt in stored || LossIsSafe(w)
  }

  ghost predicate OverwritesAreSafe(w: World, actions: seq<Action>)
    decreases |actions|
  {
    actions != [] ==>
      && (actions[0].Overwrite? ==> OverwriteIsSafe(w, actions[0].stored))
      && OverwritesAreSafe(Do(w, actions[0]), actions[1..])
  }

  /** From `w` to `v` only process `p` moved, and no field of the watch and no record was lost. */
  ghost predicate OnlyMoved(w: World, v: World, p: nat) {
    && (forall q :: q != p ==> v.At(q) == w.At(q))
    && w.watch.Keys <= v.watch.Keys
    && (w.notified ==> v.notified)
  }

  /** A step keeps the rule when it sends nothing and whoever may send afterwards might before. */
  lemma QuietMove(w: World, v: World, p: nat)
    requires OneEmail(w) && OnlyMoved(w, v, p) && v.emails == w.emails
    requires MaySend(v, p) ==> MaySend(w, p)
    ensures OneEmail(v)
  {
    forall q | MaySend(v, q)
      ensures MaySend(w, q)
    {
      if q != p {
        assert v.At(q) == w.At(q);
      }
    }
  }

  lemma ClaimMove(w: World, v: World, p: nat)
    requires OneEmail(w) && OnlyMoved(w, v, p) && v.emails == w.emails && !w.notified && !v.notified
    requires NotifiedAt !in w.watch && NotifiedAt in v.watch && v.At(p).Claimed?
    ensures OneEmail(v)
  {
    forall q | MaySend(v, q)
      ensures q == p
    {
      if q != p {
        assert MaySend(w, q);
      }
    }
  }

  lemma SendMove(w: World, v: World, p: nat)
    requires OneEmail(w) && OnlyMoved(w, v, p) && MaySend(w, p)
    requires w.emails <= v.emails <= w.emails + 1 && v.At(p).Sent?
    ensures OneEmail(v)
  {
    forall q
      ensures !MaySend(v, q)
    {
      if MaySend(v, q) {
        assert q != p && MaySend(w, q);
      }
    }
  }

  lemma OutcomeMoves(w: World, p: nat, now: int, row: Watch, since: Option<int>, answer: Answer)
    ensures var v := Outcome(w, p, now, row, since, answer);
            OnlyMoved(w, v, p) && v.emails == w.emails && v.notified == w.notified
  {
  }

  lemma OutcomeKeepsOneEmail(w: World, p: nat, now: int, row: Watch, since: Option<int>, answer: Answer)
    requires OneEmail(w)
    ensures OneEmail(Outcome(w, p, now, row, since, answer))
  {
    var v := Outcome(w, p, now, row, since, answer);
    OutcomeMoves(w, p, now, row, since, answer);
    match answer
    case Unknown => QuietMove(w, v, p);
    case Refused => QuietMove(w, v, p);
    case Accepted =>
      if since.None? || NotifiedAt in w.watch || w.notified {
        QuietMove(w, v, p);
      } else {
        ClaimMove(w, v, p);
      }
  }

  lemma QuietFetch(w: World, p: nat, now: int)
    requires OneEmail(w)
    ensures OneEmail(Do(w, FetchRow(p, now)))
  {
    QuietMove(w, Do(w, FetchRow(p, now)), p);
  }

  lemma QuietEvents(w: World, p: nat)
    requires OneEmail(w)
    ensures OneEmail(Do(w, FetchEvents(p)))
  {
    QuietMove(w, Do(w, FetchEvents(p)), p);
  }

  lemma QuietSetup(w: World, p: nat, setup: Setup)
    requires OneEmail(w)
    ensures OneEmail(Do(w, SetupState(p, setup)))
  {
    if w.At(p).HasEvents? && setup == Ready {
      MergeReads(w.watch, map[DoneAt := w.At(p).now]);
    }
    QuietMove(w, Do(w, SetupState(p, setup)), p);
  }

  lemma QuietAsk(w: World, p: nat, answer: Answer)
    requires OneEmail(w)
    ensures OneEmail(Do(w, AskProvider(p, answer)))
  {
    QuietMove(w, Do(w, AskProvider(p, answer)), p);
  }

  lemma QuietLog(w: World, p: nat, recorded: bool)
    requires OneEmail(w)
    ensures OneEmail(Do(w, LogPending(p, recorded)))
  {
    QuietMove(w, Do(w, LogPending(p, recorded)), p);
  }

  lemma QuietCheck(w: World, p: nat)
    requires OneEmail(w)
    ensures OneEmail(Do(w, CheckEarlier(p)))
  {
    QuietMove(w, Do(w, CheckEarlier(p)), p);
  }

  lemma QuietRecord(w: World, p: nat, recorded: bool)
    requires OneEmail(w)
    ensures OneEmail(Do(w, LogNotified(p, recorded)))
  {
    QuietMove(w, Do(w, LogNotified(p, recorded)), p);
  }

  lemma OverwriteKeepsOneEmail(w: World, stored: Stored)
    requires OneEmail(w) && OverwriteIsSafe(w, stored)
    ensures OneEmail(Do(w, Overwrite(stored)))
  {
    assert forall p :: MaySend(Do(w, Overwrite(stored)), p) ==> MaySend(w, p);
  }

  lemma DoKeepsOneEmail(w: World, a: Action)
    requires OneEmail(w) && (a.Overwrite? ==> OverwriteIsSafe(w, a.stored))
    ensures OneEmail(Do(w, a))
  {
    match a
    case WriteOutcome(p) =>
      if w.At(p).Answered? {
        OutcomeKeepsOneEmail(w, p, w.At(p).now, w.At(p).row, w.At(p).since, w.At(p).answer);
      }
    case SendEmail(p, _) => if w.At(p).Sending? { SendMove(w, Do(w, a), p); }
    case Overwrite(stored) => OverwriteKeepsOneEmail(w, stored);
    case SetupPageSeesRefusal(_) => QuietMove(w, Do(w, a), 0);
    case FetchRow(p, now) => QuietFetch(w, p, now);
    case FetchEvents(p) => QuietEvents(w, p);
    case SetupState(p, setup) => QuietSetup(w, p, setup);
    case AskProvider(p, answer) => QuietAsk(w, p, answer);
    case LogPending(p, recorded) => QuietLog(w, p, recorded);
    case CheckEarlier(p) => QuietCheck(w, p);
    case LogNotified(p, recorded) => QuietRecord(w, p, recorded);
    case Stop(p) => QuietMove(w, w.Put(p, Idle), p);
  }

  /**
   However the processes interleave, with whatever stale rows and wherever they stop, at most
   one email goes out, as long as the watch is only overwritten where that is safe.
   */
  lemma {:induction false} AtMostOneEmail(w: World, actions: seq<Action>)
    requires OneEmail(w) && OverwritesAreSafe(w, actions)
    ensures OneEmail(Run(w, actions))
    decreases |actions|
  {
    if actions != [] {
      DoKeepsOneEmail(w, actions[0]);
      AtMostOneEmail(Do(w, actions[0]), actions[1..]);
    }
  }

  lemma StartKeepsOneEmail(createdAt: int, watch: Stored)
    requires NotifiedAt !in watch
    ensures OneEmail(Start(createdAt, watch))
  {
    assert forall p :: !MaySend(Start(createdAt, watch), p);
  }

  // ----- when overwriting the watch is not safe

  lemma RunStep(w: World, a: Action, rest: seq<Action>)
    ensures Run(w, [a] + rest) == Run(Do(w, a), rest)
  {
    assert ([a] + rest)[1..] == rest;
  }

  lemma {:induction false} RunConcat(w: World, a: seq<Action>, b: seq<Action>)
    ensures Run(w, a + b) == Run(Run(w, a), b)
    decreases |a|
  {
    if a == [] {
      assert a + b == b;
    } else {
      assert (a + b)[1..] == a[1..] + b;
      RunConcat(Do(w, a[0]), a[1..], b);
    }
  }

  /** The last two steps of a process that won the claim. */
  function SendSteps(p: nat): seq<Action> {
    [CheckEarlier(p)] + ([SendEmail(p, true)] + [])
  }

  lemma ClaimedProcessSends(w: World, p: nat)
    requires MaySend(w, p)
    ensures var v := Run(w, SendSteps(p));
            && v.emails == w.emails + 1 && v.notified == w.notified
            && v.watch == w.watch && v.createdAt == w.createdAt
            && forall q :: q != p ==> v.At(q) == w.At(q)
  {
    RunStep(w, CheckEarlier(p), [SendEmail(p, true)] + []);
    RunStep(Do(w, CheckEarlier(p)), SendEmail(p, true), []);
  }

  /** A sweep that finds the keys accepted after the setup page saw them refused. */
  function ReadSteps(q: nat, now: int): seq<Action> {
    [SetupPageSeesRefusal(now)] + ([FetchRow(q, now)] + ([FetchEvents(q)] + []))
  }

  function ClaimSteps(q: nat): seq<Action> {
    [SetupState(q, NeedsAuthorization)] + ([AskProvider(q, Accepted)] + ([WriteOutcome(q)] + []))
  }

  /** The row as stored is due at `now`: a process that reads it then goes on to check. */
  lemma FreshProcessReads(w: World, q: nat, now: int)
    requires IsCheckDue(ReadWatch(w.watch), w.createdAt, now) && w.At(q).Idle?
    ensures var v := Run(w, ReadSteps(q, now));
            && v.At(q).HasEvents? && v.At(q).since.Some?
            && v.watch == w.watch && v.notified == w.notified && v.emails == w.emails
  {
    var w1 := Do(w, SetupPageSeesRefusal(now));
    var w2 := Do(w1, FetchRow(q, now));
    assert w2.At(q) == HasRow(now, ReadWatch(w.watch));
    RunStep(w, SetupPageSeesRefusal(now), [FetchRow(q, now)] + ([FetchEvents(q)] + []));
    RunStep(w1, FetchRow(q, now), [FetchEvents(q)] + []);
    RunStep(w2, FetchEvents(q), []);
  }

  lemma FreshProcessClaims(w: World, q: nat)
    requires NotifiedAt !in w.watch && !w.notified && w.At(q).HasEvents? && w.At(q).since.Some?
    ensures MaySend(Run(w, ClaimSteps(q)), q) && Run(w, ClaimSteps(q)).emails == w.emails
  {
    var w1 := Do(w, SetupState(q, NeedsAuthorization));
    var w2 := Do(w1, AskProvider(q, Accepted));
    RunStep(w, SetupState(q, NeedsAuthorization), [AskProvider(q, Accepted)] + ([WriteOutcome(q)] + []));
    RunStep(w1, AskProvider(q, Accepted), [WriteOutcome(q)] + []);
    RunStep(w2, WriteOutcome(q), []);
  }

  function SweepSteps(q: nat, now: int): seq<Action> {
    ReadSteps(q, now) + (ClaimSteps(q) + SendSteps(q))
  }

  /** With a row that is due and no record of an email anywhere, a fresh process mails the owner. */
  lemma FreshProcessSends(w: World, q: nat, now: int)
    requires IsCheckDue(ReadWatch(w.watch), w.createdAt, now) && w.At(q).Idle?
    requires NotifiedAt !in w.watch && !w.notified
    ensures Run(w, SweepSteps(q, now)).emails == w.emails + 1
  {
    RunConcat(w, ReadSteps(q, now), ClaimSteps(q) + SendSteps(q));
    FreshProcessReads(w, q, now);
    var v := Run(w, ReadSteps(q, now));
    RunConcat(v, ClaimSteps(q), SendSteps(q));
    FreshProcessClaims(v, q);
    ClaimedProcessSends(Run(v, ClaimSteps(q)), q);
  }

  predicate NoOverwrite(actions: seq<Action>) {
    forall i :: 0 <= i < |actions| ==> !actions[i].Overwrite?
  }

  lemma StepsOverwriteNothing(p: nat, now: int)
    ensures NoOverwrite(SendSteps(p)) && NoOverwrite(SweepSteps(p, now))
  {
    assert NoOverwrite(ReadSteps(p, now)) && NoOverwrite(ClaimSteps(p)) && NoOverwrite(SendSteps(p));
  }

  /** Some process is idle, and the watch as overwritten can still come due: a second email may follow. */
  lemma UnsafeOverwriteAllowsTwoEmails(w: World, stored: Stored, q: nat, now: int) returns (actions: seq<Action>)
    requires OneEmail(w) && !OverwriteIsSafe(w, stored)
    requires w.At(q).Idle? && IsCheckDue(ReadWatch(stored), w.createdAt, now)
    ensures Run(Do(w, Overwrite(stored)), actions).emails == 2 && NoOverwrite(actions)
  {
    StepsOverwriteNothing(q, now);
    var over := Do(w, Overwrite(stored));
    if w.emails == 1 {
      actions := SweepSteps(q, now);
      FreshProcessSends(over, q, now);
    } else {
      var p :| MaySend(w, p);
      actions := SecondSweep(over, p, q, now);
    }
  }

  lemma SecondSweep(w: World, p: nat, q: nat, now: int) returns (actions: seq<Action>)
    requires w.emails == 0 && !w.notified && MaySend(w, p) && NotifiedAt !in w.watch
    requires w.At(q).Idle? && IsCheckDue(ReadWatch(w.watch), w.createdAt, now)
    ensures Run(w, actions).emails == 2 && NoOverwrite(actions)
  {
    StepsOverwriteNothing(p, now);
    StepsOverwriteNothing(q, now);
    actions := SendSteps(p) + SweepSteps(q, now);
    RunConcat(w, SendSteps(p), SweepSteps(q, now));
    ClaimedProcessSends(w, p);
    FreshProcessSends(Run(w, SendSteps(p)), q, now);
  }

  /**
   Overwriting the watch is safe exactly when no run without a further overwriting then brings
   a second email, some process being idle and the watch as overwritten being due at some time.
   */
  lemma OverwriteIsSafeIff(w: World, stored: Stored, q: nat, now: int)
    requires OneEmail(w) && w.At(q).Idle? && IsCheckDue(ReadWatch(stored), w.createdAt, now)
    ensures OverwriteIsSafe(w, stored) <==>
            forall actions :: NoOverwrite(actions) ==> Run(Do(w, Overwrite(stored)), actions).emails <= 1
  {
    if OverwriteIsSafe(w, stored) {
      SafeOverwriteKeepsOneEmail(w, stored);
    } else {
      var actions := UnsafeOverwriteAllowsTwoEmails(w, stored, q, now);
      assert Run(Do(w, Overwrite(stored)), actions).emails == 2;
    }
  }

  lemma SafeOverwriteKeepsOneEmail(w: World, stored: Stored)
    requires OneEmail(w) && OverwriteIsSafe(w, stored)
    ensures forall actions :: NoOverwrite(actions) ==> Run(Do(w, Overwrite(stored)), actions).emails <= 1
  {
    OverwriteKeepsOneEmail(w, stored);
    forall actions | NoOverwrite(actions)
      ensures Run(Do(w, Overwrite(stored)), actions).emails <= 1
    {
      NoOverwriteIsSafe(Do(w, Overwrite(stored)), actions);
      AtMostOneEmail(Do(w, Overwrite(stored)), actions);
    }
  }

  /** A row without a watch is due as long as it is young, so losing the watch altogether is such a case. */
  lemma LossIsSafeIff(w: World, q: nat)
    requires OneEmail(w) && w.At(q).Idle?
    ensures LossIsSafe(w) <==>
            forall actions :: NoOverwrite(actions) ==> Run(Do(w, Overwrite(map[])), actions).emails <= 1
  {
    OverwriteIsSafeIff(w, map[], q, w.createdAt);
  }

  lemma {:induction false} NoOverwriteIsSafe(w: World, actions: seq<Action>)
    requires NoOverwrite(actions)
    ensures OverwritesAreSafe(w, actions)
    decreases |actions|
  {
    if actions != [] {
      NoOverwriteIsSafe(Do(w, actions[0]), actions[1..]);
    }
  }

  // ----- what an email means, and what stays in the row

  /** Every trace of an earlier refusal goes back to one, and a decision to send to an acceptance. */
  ghost predicate Justified(w: World) {
    && (PendingSince in ReadWatch(w.watch) ==> w.refused)
    && (w.evidence.Some? ==> w.refused)
    && (forall p :: JustifiedProcess(w, w.At(p)))
    && (w.emails > 0 ==> w.refused && w.accepted)
  }

  ghost predicate JustifiedProcess(w: World, s: Process) {
    match s
    case HasRow(_, row) => PendingSince in row ==> w.refused
    case HasEvents(_, row, since) => PendingSince in row || since.Some? ==> w.refused
    case Asking(_, row, since) => PendingSince in row || since.Some? ==> w.refused
    case Answered(_, row, since, answer) =>
      && (PendingSince in row || since.Some? || answer == Refused ==> w.refused)
      && (answer == Accepted ==> w.accepted)
    case LoggingPending(_) => w.refused
    case Claimed => w.refused && w.accepted
    case Sending => w.refused && w.accepted
    case _ => true
  }

  lemma JustifiedMove(w: World, v: World, p: nat)
    requires Justified(w) && (forall q :: q != p ==> v.At(q) == w.At(q)) && JustifiedProcess(v, v.At(p))
    requires (w.refused ==> v.refused) && (w.accepted ==> v.accepted)
    requires PendingSince in ReadWatch(v.watch) || v.evidence.Some? ==> v.refused
    requires v.emails > w.emails ==> v.refused && v.accepted
    ensures Justified(v)
  {
    forall q
      ensures JustifiedProcess(v, v.At(q))
    {
      if q != p {
        assert JustifiedProcess(w, w.At(q));
      }
    }
  }

  lemma MergeReads(watch: Stored, patch: Watch)
    ensures ReadWatch(Merge(watch, patch)).Keys == ReadWatch(watch).Keys + patch.Keys
    ensures Merge(watch, patch).Keys == watch.Keys + patch.Keys
  {
  }

  lemma OutcomeIsJustified(w: World, p: nat)
    requires Justified(w) && w.At(p).Answered?
    ensures Justified(Do(w, WriteOutcome(p)))
  {
    var v := Do(w, WriteOutcome(p));
    assert JustifiedProcess(w, w.At(p));
    assert PendingSince in ReadWatch(v.watch) ==> v.refused;
    JustifiedMove(w, v, p);
  }

  lemma DoIsJustified(w: World, a: Action)
    requires Justified(w) && PutsBack(w, a)
    ensures Justified(Do(w, a))
  {
    var p := Mover(a);
    assert JustifiedProcess(w, w.At(p));
    if a.WriteOutcome? && w.At(p).Answered? {
      OutcomeIsJustified(w, p);
    } else if a.SetupState? {
      SetupIsJustified(w, p, a.setup);
    } else {
      MoverIsJustified(w, a, p);
      JustifiedMove(w, Do(w, a), p);
    }
  }

  function Mover(a: Action): nat {
    if a.SetupPageSeesRefusal? || a.Overwrite? then 0 else a.p
  }

  /** What is put back was in the row before: a refusal in it is one that happened. */
  ghost predicate PutsBack(w: World, a: Action) {
    a.Overwrite? && PendingSince in ReadWatch(a.stored) ==> w.refused
  }

  ghost predicate OverwritesPutBack(w: World, actions: seq<Action>)
    decreases |actions|
  {
    actions != [] ==> PutsBack(w, actions[0]) && OverwritesPutBack(Do(w, actions[0]), actions[1..])
  }

  lemma {:induction false} RefusalsStay(w: World, actions: seq<Action>)
    ensures w.refused ==> Run(w, actions).refused
    decreases |actions|
  {
    if actions != [] {
      RefusalStays(w, actions[0]);
      RefusalsStay(Do(w, actions[0]), actions[1..]);
    }
  }

  lemma RefusalStays(w: World, a: Action)
    ensures w.refused ==> Do(w, a).refused
  {
  }

  /** Writing back a copy of the row taken at any earlier point of the run is of that kind. */
  lemma StaleCopyPutsBack(w: World, actions: seq<Action>)
    requires Justified(w)
    ensures PutsBack(Run(w, actions), Overwrite(w.watch))
  {
    RefusalsStay(w, actions);
  }

  lemma SetupIsJustified(w: World, p: nat, setup: Setup)
    requires Justified(w) && JustifiedProcess(w, w.At(p))
    ensures Justified(Do(w, SetupState(p, setup)))
  {
    var v := Do(w, SetupState(p, setup));
    if w.At(p).HasEvents? && setup == Ready {
      MergeReads(w.watch, map[DoneAt := w.At(p).now]);
    }
    JustifiedMove(w, v, p);
  }

  lemma MoverIsJustified(w: World, a: Action, p: nat)
    requires Justified(w) && p == Mover(a) && JustifiedProcess(w, w.At(p)) && PutsBack(w, a)
    requires !a.SetupState? && (a.WriteOutcome? ==> !w.At(p).Answered?)
    ensures var v := Do(w, a);
            && JustifiedProcess(v, v.At(p))
            && (w.refused ==> v.refused) && (w.accepted ==> v.accepted)
            && (PendingSince in ReadWatch(v.watch) || v.evidence.Some? ==> v.refused)
            && (v.emails > w.emails ==> v.refused && v.accepted)
            && forall q :: q != p ==> v.At(q) == w.At(q)
  {
    match a
    case FetchRow(_, _) =>
    case FetchEvents(_) =>
    case AskProvider(_, _) =>
    case LogPending(_, _) =>
    case CheckEarlier(_) =>
    case _ =>
  }

  /** In every run an email implies that a refusal was recorded before and an acceptance seen. */
  lemma {:induction false} EmailsAreJustified(w: World, actions: seq<Action>)
    requires Justified(w) && OverwritesPutBack(w, actions)
    ensures Justified(Run(w, actions))
    decreases |actions|
  {
    if actions != [] {
      DoIsJustified(w, actions[0]);
      EmailsAreJustified(Do(w, actions[0]), actions[1..]);
    }
  }

  lemma StartIsJustified(createdAt: int, watch: Stored)
    requires NotifiedAt !in watch
    ensures Justified(Start(createdAt, watch)) && OneEmail(Start(createdAt, watch))
  {
    StartKeepsOneEmail(createdAt, watch);
  }

  lemma MergeNothing(watch: Stored)
    ensures Merge(watch, map[]) == watch
  {
  }

  lemma DoMergesOnly(w: World, a: Action) returns (patch: Watch)
    requires !a.Overwrite?
    ensures Do(w, a).watch == Merge(w.watch, patch)
  {
    MergeNothing(w.watch);
    match a
    case SetupState(p, setup) =>
      patch := if w.At(p).HasEvents? && setup == Ready then map[DoneAt := w.At(p).now] else map[];
    case WriteOutcome(p) =>
      patch := map[];
      if w.At(p).Answered? {
        patch := OutcomeMergesOnly(w, p, w.At(p).now, w.At(p).row, w.At(p).since, w.At(p).answer);
      }
    case _ => patch := map[];
  }

  lemma OutcomeMergesOnly(w: World, p: nat, now: int, row: Watch, since: Option<int>, answer: Answer)
    returns (patch: Watch)
    ensures Outcome(w, p, now, row, since, answer).watch == Merge(w.watch, patch)
  {
    MergeNothing(w.watch);
    match answer
    case Unknown =>
      patch := map[LastCheckedAt := now];
      if since.Some? && PendingSince !in row {
        patch := patch[PendingSince := since.value];
      }
    case Refused => patch := map[LastCheckedAt := now, PendingSince := if since.Some? then since.value else now];
    case Accepted =>
      if since.None? {
        patch := map[LastCheckedAt := now, NotPending := now];
      } else if NotifiedAt in w.watch {
        patch := map[];
      } else {
        patch := map[LastCheckedAt := now, PendingSince := since.value, ApprovedAt := now, NotifiedAt := now];
      }
  }

  /** No write of any process removes a field of the watch, so a finished watch stays finished. */
  lemma {:induction false} FieldsStay(w: World, actions: seq<Action>)
    requires NoOverwrite(actions)
    ensures w.watch.Keys <= Run(w, actions).watch.Keys
    ensures ReadWatch(w.watch).Keys <= ReadWatch(Run(w, actions).watch).Keys
    ensures Finished(ReadWatch(w.watch)) ==> Finished(ReadWatch(Run(w, actions).watch))
    decreases |actions|
  {
    if actions != [] {
      var patch := DoMergesOnly(w, actions[0]);
      MergeReads(w.watch, patch);
      FieldsStay(Do(w, actions[0]), actions[1..]);
    }
  }

  lemma FinishedStartsNothing(w: World, a: Action, p: nat)
    requires Finished(ReadWatch(w.watch))
    ensures Do(w, a).At(p).HasRow? ==> w.At(p).HasRow?
  {
    if a.WriteOutcome? && w.At(a.p).Answered? {
      OutcomeLeavesRowsAlone(w, a.p, w.At(a.p).now, w.At(a.p).row, w.At(a.p).since, w.At(a.p).answer, p);
    }
  }

  lemma OutcomeLeavesRowsAlone(
      w: World, p: nat, now: int, row: Watch, since: Option<int>, answer: Answer, q: nat)
    ensures Outcome(w, p, now, row, since, answer).At(q).HasRow? ==> w.At(q).HasRow?
  {
  }

  /** From then on no process starts another check: only those under way go on. */
  lemma {:induction false} FinishedIsLeftAlone(w: World, actions: seq<Action>, p: nat)
    requires Finished(ReadWatch(w.watch)) && NoOverwrite(actions)
    ensures Run(w, actions).At(p).HasRow? ==> w.At(p).HasRow?
    decreases |actions|
  {
    if actions != [] {
      FinishedStartsNothing(w, actions[0], p);
      FieldsStay(w, [actions[0]]);
      RunStep(w, actions[0], []);
      FinishedIsLeftAlone(Do(w, actions[0]), actions[1..], p);
    }
  }
}
