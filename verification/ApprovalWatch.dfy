/** The state and the schedule of watching for a provider to approve a user's app. Times are in milliseconds. */
module ApprovalWatch {
  import opened Options

  const HOUR: int := 60 * 60 * 1000
  const DAY: int := 24 * HOUR
  const WATCH_FOR: int := 14 * DAY
  const LATER_EVERY: int := 6 * HOUR
  const DUE_SLACK: int := 5 * 60 * 1000

  datatype Key = PendingSince | LastCheckedAt | NotPending | ApprovedAt | NotifiedAt | DoneAt

  /** A stored field: a date, or text that is not one. */
  datatype Stamp = At(t: int) | Unreadable

  type Stored = map<Key, Stamp>

  type Watch = map<Key, int>

  /** The fields that hold a date. */
  function ReadWatch(stored: Stored): Watch {
    map key | key in stored && stored[key].At? :: stored[key].t
  }

  predicate Finished(w: Watch) {
    NotifiedAt in w || ApprovedAt in w || NotPending in w || DoneAt in w
  }

  function CheckInterval(w: Watch, now: int): int {
    if PendingSince !in w || now - w[PendingSince] < DAY then HOUR else LATER_EVERY
  }

  predicate IsCheckDue(w: Watch, createdAt: int, now: int) {
    && !Finished(w)
    && now - createdAt <= WATCH_FOR
    && (PendingSince in w ==> now - w[PendingSince] <= WATCH_FOR)
    && (LastCheckedAt in w ==> now - w[LastCheckedAt] >= CheckInterval(w, now) - DUE_SLACK)
  }

  // ----- how often a connector is checked

  /** Successive checks of a connector refused at `since`, each due when it was made. */
  ghost predicate Scheduled(checks: seq<int>, createdAt: int, since: int) {
    && (checks != [] ==> since <= checks[0] <= since + WATCH_FOR)
    && forall i, j :: 0 <= i && j == i + 1 < |checks| ==>
         IsCheckDue(map[PendingSince := since, LastCheckedAt := checks[i]], createdAt, checks[j])
  }

  const FIRST_DAY_GAP: int := HOUR - DUE_SLACK
  const LATER_GAP: int := LATER_EVERY - DUE_SLACK

  lemma {:induction false} FirstDayChecks(checks: seq<int>, createdAt: int, since: int, k: nat)
    requires Scheduled(checks, createdAt, since) && k < |checks|
    ensures since + k * FIRST_DAY_GAP <= checks[k] <= since + WATCH_FOR
  {
    if k > 0 {
      var i := k - 1;
      FirstDayChecks(checks, createdAt, since, i);
      assert IsCheckDue(map[PendingSince := since, LastCheckedAt := checks[i]], createdAt, checks[k]);
    }
  }

  lemma {:induction false} LaterChecks(checks: seq<int>, createdAt: int, since: int, m: nat, k: nat)
    requires Scheduled(checks, createdAt, since) && m <= k < |checks| && checks[m] >= since + DAY
    ensures checks[m] + (k - m) * LATER_GAP <= checks[k]
    decreases k
  {
    if m < k {
      var i := k - 1;
      LaterChecks(checks, createdAt, since, m, i);
      assert IsCheckDue(map[PendingSince := since, LastCheckedAt := checks[i]], createdAt, checks[k]);
    }
  }

  /** At most 27 checks on the first day and 53 in the 13 days after it. */
  lemma ChecksAreBounded(checks: seq<int>, createdAt: int, since: int)
    requires Scheduled(checks, createdAt, since)
    ensures |checks| <= 80
  {
    if |checks| > 27 {
      FirstDayChecks(checks, createdAt, since, 27);
      var last := |checks| - 1;
      FirstDayChecks(checks, createdAt, since, last);
      LaterChecks(checks, createdAt, since, 27, last);
    }
  }

  const SWEEP_EVERY: int := 15 * 60 * 1000

  /**
   With a sweep every quarter of an hour, up to five minutes early or almost ten late, the
   checks of the first day come every hour: the fourth sweep after a check takes it, no other.
   */
  lemma ChecksComeHourly(since: int, createdAt: int, last: int, sweeps: nat, late: int)
    requires 1 <= sweeps <= 4 && -DUE_SLACK <= late < 2 * DUE_SLACK
    requires since <= last && last + HOUR + 2 * DUE_SLACK <= since + DAY && last + 2 * HOUR <= createdAt + WATCH_FOR
    ensures IsCheckDue(map[PendingSince := since, LastCheckedAt := last], createdAt, last + sweeps * SWEEP_EVERY + late)
            <==> sweeps == 4
  {
  }

  /** After the first day they come every six hours: the twenty-fourth sweep after a check takes it, no other. */
  lemma ChecksComeEverySixHours(since: int, createdAt: int, last: int, sweeps: nat, late: int)
    requires 1 <= sweeps <= 24 && -DUE_SLACK <= late < 2 * DUE_SLACK
    requires since + DAY <= last && last + 7 * HOUR <= since + WATCH_FOR && last + 7 * HOUR <= createdAt + WATCH_FOR
    ensures IsCheckDue(map[PendingSince := since, LastCheckedAt := last], createdAt, last + sweeps * SWEEP_EVERY + late)
            <==> sweeps == 24
  {
    if sweeps < 24 {
      assert sweeps * SWEEP_EVERY <= 23 * SWEEP_EVERY;
    }
  }

  /** A connector is watched for fourteen days, from its creation and from the first refusal, and no longer. */
  lemma WatchLastsTwoWeeks(w: Watch, createdAt: int, now: int)
    requires !Finished(w)
    ensures LastCheckedAt !in w ==>
              (IsCheckDue(w, createdAt, now) <==>
               now <= createdAt + 14 * DAY && (PendingSince in w ==> now <= w[PendingSince] + 14 * DAY))
    ensures LastCheckedAt in w && now >= w[LastCheckedAt] + LATER_EVERY ==>
              (IsCheckDue(w, createdAt, now) <==>
               now <= createdAt + 14 * DAY && (PendingSince in w ==> now <= w[PendingSince] + 14 * DAY))
  {
  }

  // ----- evidence of an earlier refusal

  /** An event names a connector, or none. */
  datatype Event = Event(
    kind: string,
    organization: string,
    createdAt: int,
    slug: string,
    connector: Option<string>,
    status: int)

  datatype Connector = Connector(id: string, organization: string, createdAt: int, slug: string)

  predicate Counts(c: Connector, e: Event, pendingEvent: string) {
    && e.organization == c.organization
    && e.createdAt >= c.createdAt - DAY
    && e.slug == c.slug
    && (e.connector.Some? ==> e.connector.value == c.id)
    && (e.kind == pendingEvent || (e.kind == "setup_verify_failed" && e.status == 403))
  }

  /** The earliest time of an event that counts. */
  method PendingEvidence(c: Connector, events: seq<Event>, pendingEvent: string) returns (earliest: Option<int>)
    ensures earliest.None? <==> forall e :: e in events ==> !Counts(c, e, pendingEvent)
    ensures earliest.Some? ==>
              && (exists e :: e in events && Counts(c, e, pendingEvent) && e.createdAt == earliest.value)
              && (forall e :: e in events && Counts(c, e, pendingEvent) ==> earliest.value <= e.createdAt)
  {
    earliest := None;
    for i := 0 to |events|
      invariant earliest.None? <==> forall e :: e in events[..i] ==> !Counts(c, e, pendingEvent)
      invariant earliest.Some? ==>
                  && (exists e :: e in events[..i] && Counts(c, e, pendingEvent) && e.createdAt == earliest.value)
                  && (forall e :: e in events[..i] && Counts(c, e, pendingEvent) ==> earliest.value <= e.createdAt)
    {
      var e := events[i];
      assert events[..i + 1] == events[..i] + [e];
      if Counts(c, e, pendingEvent) && (earliest.None? || e.createdAt < earliest.value) {
        earliest := Some(e.createdAt);
      }
    }
    assert events[..|events|] == events;
  }
}
