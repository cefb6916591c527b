/** What each answer of the provider leaves in the row, and what may end a watch. */
module ApprovalProgress {
  import opened Options
  import opened ApprovalWatch
  import opened ApprovalWatcher

  // ----- what an answer leaves

  /** From `w` to `v` the fields of the patch were written, and the others are as they were. */
  ghost predicate Writes(w: World, v: World, patch: Watch) {
    && v.watch.Keys == w.watch.Keys + patch.Keys
    && forall key :: key in v.watch ==>
         v.watch[key] == if key in patch then ApprovalWatch.At(patch[key]) else w.watch[key]
  }

  lemma MergeWrites(w: World, patch: Watch, p: nat, s: Process)
    ensures Writes(w, w.(watch := Merge(w.watch, patch)).Put(p, s), patch)
  {
  }

  /** No answer: the check is noted, and a refusal known from elsewhere; the watch goes on. */
  lemma UnknownKeepsWatching(w: World, p: nat, now: int, row: Watch, since: Option<int>)
    requires w.At(p) == Answered(now, row, since, Unknown)
    ensures var v := Do(w, WriteOutcome(p));
            && v.At(p) == Idle
            && Writes(w, v, if since.Some? && PendingSince !in row
                            then map[LastCheckedAt := now, PendingSince := since.value] else map[LastCheckedAt := now])
  {
    var patch := map[LastCheckedAt := now];
    var full := if since.Some? && PendingSince !in row then patch[PendingSince := since.value] else patch;
    MergeWrites(w, full, p, Idle);
  }

  /** A refusal is remembered, from the earliest time known, and logged where the row did not have it. */
  lemma RefusalIsRemembered(w: World, p: nat, now: int, row: Watch, since: Option<int>)
    requires w.At(p) == Answered(now, row, since, Refused)
    ensures var v := Do(w, WriteOutcome(p));
            && v.At(p) == (if PendingSince in row then Idle else LoggingPending(now))
            && Writes(w, v, map[LastCheckedAt := now, PendingSince := if since.Some? then since.value else now])
  {
    var patch := map[LastCheckedAt := now, PendingSince := if since.Some? then since.value else now];
    MergeWrites(w, patch, p, if PendingSince in row then Idle else LoggingPending(now));
  }

  /** What the process writes that gets to send the email. */
  function Claim(now: int, since: int): Watch {
    map[LastCheckedAt := now, PendingSince := since, ApprovedAt := now, NotifiedAt := now]
  }

  /**
   Keys accepted that were never seen refused end the watch. Those seen refused claim the email;
   whoever finds it claimed writes nothing.
   */
  lemma AcceptanceEndsTheWatch(w: World, p: nat, now: int, row: Watch, since: Option<int>)
    requires w.At(p) == Answered(now, row, since, Accepted)
    ensures var v := Do(w, WriteOutcome(p));
            if since.None? then v.At(p) == Idle && Writes(w, v, map[LastCheckedAt := now, NotPending := now])
            else if NotifiedAt in w.watch then v.At(p) == Idle && v.watch == w.watch
            else
              && v.At(p) == Claimed
              && Writes(w, v, Claim(now, since.value))
  {
    if since.None? {
      MergeWrites(w, map[LastCheckedAt := now, NotPending := now], p, Idle);
    } else if NotifiedAt !in w.watch {
      MergeWrites(w, Claim(now, since.value), p, Claimed);
    }
  }

  /** A refusal that is logged is evidence from then on, and the earliest one stays it. */
  lemma LoggedRefusalIsEvidence(w: World, p: nat, now: int, recorded: bool, t: int)
    ensures w.At(p) == LoggingPending(now) ==>
              var v := Do(w, LogPending(p, recorded));
              && v.At(p) == Idle && v.watch == w.watch
              && v.evidence == (if w.evidence.Some? || !recorded then w.evidence else Some(now))
    ensures var v := Do(w, SetupPageSeesRefusal(t));
            v.watch == w.watch && v.evidence == if w.evidence.Some? then w.evidence else Some(t)
  {
  }

  /** A process goes by the refusal in the row it read, else by the earliest one logged. */
  lemma KnownRefusalIsRead(w: World, p: nat, now: int, row: Watch)
    requires w.At(p) == HasRow(now, row)
    ensures Do(w, FetchEvents(p)).At(p) ==
            HasEvents(now, row, if PendingSince in row then Some(row[PendingSince]) else w.evidence)
  {
  }

  /** An email that went out is on record for all later processes, where the record could be written. */
  lemma EmailIsRecorded(w: World, p: nat, recorded: bool)
    requires w.At(p) == Sent
    ensures var v := Do(w, LogNotified(p, recorded)); v.At(p) == Idle && v.notified == (w.notified || recorded)
  {
  }

  // ----- what may end a watch

  lemma WritesRead(w: World, v: World, patch: Watch)
    requires Writes(w, v, patch)
    ensures ReadWatch(v.watch).Keys == ReadWatch(w.watch).Keys + patch.Keys
  {
  }

  lemma OtherAnswersDoNotEnd(w: World, p: nat)
    requires !Finished(ReadWatch(w.watch)) && (w.At(p).Answered? ==> w.At(p).answer != Accepted)
    ensures !Finished(ReadWatch(Do(w, WriteOutcome(p)).watch))
  {
    if w.At(p).Answered? {
      OtherAnswersWrite(w, p);
    }
  }

  /** The step of a process that saw the keys accepted, the email not being claimed yet where one is due. */
  ghost predicate IsAcceptance(w: World, a: Action) {
    && a.WriteOutcome? && w.At(a.p).Answered? && w.At(a.p).answer == Accepted
    && (w.At(a.p).since.Some? ==> NotifiedAt !in w.watch)
  }

  /** The step of a process that found the connector signed in. */
  ghost predicate IsSignIn(w: World, a: Action) {
    a.SetupState? && a.setup == Ready && w.At(a.p).HasEvents?
  }

  lemma AcceptanceEnds(w: World, p: nat)
    requires w.At(p).Answered? && w.At(p).answer == Accepted && !Finished(ReadWatch(w.watch))
    ensures Finished(ReadWatch(Do(w, WriteOutcome(p)).watch)) <==> IsAcceptance(w, WriteOutcome(p))
  {
    var s, v := w.At(p), Do(w, WriteOutcome(p));
    AcceptanceEndsTheWatch(w, p, s.now, s.row, s.since);
    if s.since.None? {
      WritesRead(w, v, map[LastCheckedAt := s.now, NotPending := s.now]);
    } else if NotifiedAt !in w.watch {
      WritesRead(w, v, Claim(s.now, s.since.value));
    }
  }

  lemma SignInEnds(w: World, p: nat, setup: Setup)
    requires !Finished(ReadWatch(w.watch))
    ensures Finished(ReadWatch(Do(w, SetupState(p, setup)).watch)) <==> IsSignIn(w, SetupState(p, setup))
  {
    if w.At(p).HasEvents? && setup == Ready {
      MergeReads(w.watch, map[DoneAt := w.At(p).now]);
    }
  }

  /** A watch under way is ended exactly by an acceptance or a sign-in: no other step of the watcher ends it. */
  lemma EndsExactly(w: World, a: Action)
    requires !a.Overwrite? && !Finished(ReadWatch(w.watch))
    ensures Finished(ReadWatch(Do(w, a).watch)) <==> IsAcceptance(w, a) || IsSignIn(w, a)
  {
    match a
    case WriteOutcome(p) =>
      if w.At(p).Answered? && w.At(p).answer == Accepted {
        AcceptanceEnds(w, p);
      } else {
        OtherAnswersDoNotEnd(w, p);
      }
    case SetupState(p, setup) => SignInEnds(w, p, setup);
    case _ =>
  }

  // ----- over whole runs

  /** An end by the keys goes back to an acceptance, and one that is announced to a refusal as well. */
  ghost predicate EndsAreSeen(w: World) {
    var r := ReadWatch(w.watch);
    && (NotPending in r ==> w.accepted)
    && (ApprovedAt in r || NotifiedAt in r ==> w.accepted && w.refused)
  }

  lemma EndsAreSeenAfter(w: World, a: Action)
    requires Justified(w) && EndsAreSeen(w) && !a.Overwrite?
    ensures EndsAreSeen(Do(w, a))
  {
    match a
    case WriteOutcome(p) => OutcomeEndsAreSeen(w, p);
    case SetupState(p, setup) =>
      if w.At(p).HasEvents? && setup == Ready {
        MergeReads(w.watch, map[DoneAt := w.At(p).now]);
      }
    case _ =>
  }

  lemma OutcomeEndsAreSeen(w: World, p: nat)
    requires Justified(w) && EndsAreSeen(w)
    ensures EndsAreSeen(Do(w, WriteOutcome(p)))
  {
    var s, v := w.At(p), Do(w, WriteOutcome(p));
    assert JustifiedProcess(w, s);
    if s.Answered? {
      if s.answer == Accepted {
        AcceptedEndsAreSeen(w, p);
      } else {
        OtherAnswersWrite(w, p);
        AnswersChangeNoHistory(w, p);
      }
    }
  }

  lemma AnswersChangeNoHistory(w: World, p: nat)
    ensures var v := Do(w, WriteOutcome(p)); v.refused == w.refused && v.accepted == w.accepted
  {
  }

  lemma AcceptedEndsAreSeen(w: World, p: nat)
    requires Justified(w) && EndsAreSeen(w) && w.At(p).Answered? && w.At(p).answer == Accepted
    ensures EndsAreSeen(Do(w, WriteOutcome(p)))
  {
    var s, v := w.At(p), Do(w, WriteOutcome(p));
    assert JustifiedProcess(w, s);
    AcceptanceEndsTheWatch(w, p, s.now, s.row, s.since);
    if s.since.None? {
      WritesRead(w, v, map[LastCheckedAt := s.now, NotPending := s.now]);
    } else if NotifiedAt !in w.watch {
      WritesRead(w, v, Claim(s.now, s.since.value));
    }
  }

  /** In every run from a row under way, an end by the keys implies an acceptance, an announced one a refusal before. */
  lemma {:induction false} RunEndsAreSeen(w: World, actions: seq<Action>)
    requires Justified(w) && EndsAreSeen(w) && NoOverwrite(actions)
    ensures Justified(Run(w, actions)) && EndsAreSeen(Run(w, actions))
    decreases |actions|
  {
    if actions != [] {
      DoIsJustified(w, actions[0]);
      EndsAreSeenAfter(w, actions[0]);
      RunEndsAreSeen(Do(w, actions[0]), actions[1..]);
    }
  }

  /** At some step of the run a process found the connector signed in. */
  ghost predicate SomeSignIn(w: World, actions: seq<Action>)
    decreases |actions|
  {
    actions != [] && (IsSignIn(w, actions[0]) || SomeSignIn(Do(w, actions[0]), actions[1..]))
  }

  ghost predicate SomeAcceptance(w: World, actions: seq<Action>)
    decreases |actions|
  {
    actions != [] && (IsAcceptance(w, actions[0]) || SomeAcceptance(Do(w, actions[0]), actions[1..]))
  }

  /** A watch under way has ended after a run exactly when the run has an acceptance or a sign-in. */
  lemma {:induction false} RunEndsExactly(w: World, actions: seq<Action>)
    requires NoOverwrite(actions) && !Finished(ReadWatch(w.watch))
    ensures Finished(ReadWatch(Run(w, actions).watch)) <==> SomeAcceptance(w, actions) || SomeSignIn(w, actions)
    decreases |actions|
  {
    if actions != [] {
      EndsExactly(w, actions[0]);
      if Finished(ReadWatch(Do(w, actions[0]).watch)) {
        FieldsStay(Do(w, actions[0]), actions[1..]);
      } else {
        RunEndsExactly(Do(w, actions[0]), actions[1..]);
      }
    }
  }

  // ----- what a process knows of refusals

  /** A refusal in the row a process read is the one it goes by. */
  ghost predicate GoesByRow(s: Process) {
    s.HasEvents? || s.Asking? || s.Answered? ==> PendingSince in s.row ==> s.since == Some(s.row[PendingSince])
  }

  ghost predicate AllGoByRow(w: World) {
    forall p :: GoesByRow(w.At(p))
  }

  lemma DoGoesByRow(w: World, a: Action)
    requires AllGoByRow(w)
    ensures AllGoByRow(Do(w, a))
  {
    forall q
      ensures GoesByRow(Do(w, a).At(q))
    {
      assert GoesByRow(w.At(q));
      if a.WriteOutcome? && w.At(a.p).Answered? {
        OutcomeMovesOn(w, a.p, w.At(a.p).now, w.At(a.p).row, w.At(a.p).since, w.At(a.p).answer, q);
      }
    }
  }

  lemma OutcomeMovesOn(w: World, p: nat, now: int, row: Watch, since: Option<int>, answer: Answer, q: nat)
    ensures var v := Outcome(w, p, now, row, since, answer);
            if q == p then v.At(q).Idle? || v.At(q).LoggingPending? || v.At(q).Claimed? else v.At(q) == w.At(q)
  {
  }

  lemma {:induction false} RunGoesByRow(w: World, actions: seq<Action>)
    requires AllGoByRow(w)
    ensures AllGoByRow(Run(w, actions))
    decreases |actions|
  {
    if actions != [] {
      DoGoesByRow(w, actions[0]);
      RunGoesByRow(Do(w, actions[0]), actions[1..]);
    }
  }

  /**
   "Not pending" is written only by a process that saw the keys accepted and knew of no refusal,
   from the row or elsewhere.
   */
  lemma NotPendingMeansNeverRefused(w: World, before: seq<Action>, a: Action)
    requires AllGoByRow(w) && !a.Overwrite?
    requires NotPending !in ReadWatch(Run(w, before).watch) && NotPending in ReadWatch(Do(Run(w, before), a).watch)
    ensures var v := Run(w, before);
            && a.WriteOutcome? && v.At(a.p).Answered? && v.At(a.p).answer == Accepted
            && v.At(a.p).since == None && PendingSince !in v.At(a.p).row
  {
    RunGoesByRow(w, before);
    NotPendingStep(Run(w, before), a);
  }

  lemma NotPendingStep(w: World, a: Action)
    requires AllGoByRow(w) && !a.Overwrite?
    requires NotPending !in ReadWatch(w.watch) && NotPending in ReadWatch(Do(w, a).watch)
    ensures a.WriteOutcome? && w.At(a.p).Answered? && w.At(a.p).answer == Accepted
    ensures w.At(a.p).since == None && PendingSince !in w.At(a.p).row
  {
    match a
    case WriteOutcome(p) =>
      assert GoesByRow(w.At(p));
      if w.At(p).Answered? && w.At(p).answer != Accepted {
        OtherAnswersWrite(w, p);
      }
    case _ =>
  }

  /** Any other answer writes no more than the time of the check and that of the refusal. */
  lemma OtherAnswersWrite(w: World, p: nat)
    requires w.At(p).Answered? && w.At(p).answer != Accepted
    ensures ReadWatch(Do(w, WriteOutcome(p)).watch).Keys <= ReadWatch(w.watch).Keys + {LastCheckedAt, PendingSince}
  {
    var s, v := w.At(p), Do(w, WriteOutcome(p));
    if s.answer == Unknown {
      UnknownKeepsWatching(w, p, s.now, s.row, s.since);
      WritesRead(w, v, if s.since.Some? && PendingSince !in s.row
                       then map[LastCheckedAt := s.now, PendingSince := s.since.value]
                       else map[LastCheckedAt := s.now]);
    } else {
      RefusalIsRemembered(w, p, s.now, s.row, s.since);
      WritesRead(w, v, map[LastCheckedAt := s.now, PendingSince := if s.since.Some? then s.since.value else s.now]);
    }
  }
}
