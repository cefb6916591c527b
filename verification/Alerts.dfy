/** Alerts about a connector that keeps failing: windows, a threshold and a cooldown, in memory or in Redis. */
module Alerts {
  import opened Options

  /** Below, `key` names an organisation and connector; times are in milliseconds. */
  datatype Config = Config(threshold: int, windowMs: int, cooldownMs: int)

  datatype Counter = Counter(count: nat, expiresAt: int)

  /** One failure: when it is counted, when the cooldown is looked up, when it is set. */
  datatype Failure = Failure(key: string, config: Config, counted: int, checked: int, decided: int)

  // ----- the reference: the counter and the cooldown of one key, nothing ever swept

  /** `open` is the window counted into, if any failure was; `cooldownUntil` the end of the last cooldown set. */
  datatype Account = Account(open: Option<Counter>, cooldownUntil: Option<int>)

  const NO_FAILURES: Account := Account(None, None)

  /** A failure opens a new window unless the last one has not ended. */
  function Count(a: Account, f: Failure): Counter {
    if a.open.None? || a.open.value.expiresAt <= f.counted
    then Counter(1, f.counted + f.config.windowMs)
    else Counter(a.open.value.count + 1, a.open.value.expiresAt)
  }

  predicate CoolingDown(a: Account, now: int) {
    a.cooldownUntil.Some? && a.cooldownUntil.value > now
  }

  predicate Alerts(a: Account, f: Failure) {
    Count(a, f).count == f.config.threshold && !CoolingDown(a, f.checked)
  }

  function Record(a: Account, f: Failure): Account {
    Account(Some(Count(a, f)), if Alerts(a, f) then Some(f.decided + f.config.cooldownMs) else a.cooldownUntil)
  }

  /** The account of `key` after a history of failures of all keys. */
  function AccountOf(key: string, history: seq<Failure>): Account {
    if history == [] then NO_FAILURES
    else
      var f := history[|history| - 1];
      var before := AccountOf(key, history[..|history| - 1]);
      if f.key == key then Record(before, f) else before
  }

  /** The clock never runs backwards, within a failure or between two. */
  ghost predicate InOrder(history: seq<Failure>) {
    && (forall i :: 0 <= i < |history| ==> history[i].counted <= history[i].checked <= history[i].decided)
    && (forall i, j :: 0 <= i < j < |history| ==> history[i].decided <= history[j].counted)
  }

  predicate AlertsAt(history: seq<Failure>, i: nat)
    requires i < |history|
  {
    Alerts(AccountOf(history[i].key, history[..i]), history[i])
  }

  // ----- what an alert means, in terms of the history alone

  predicate Covers(opener: Failure, f: Failure) {
    opener.key == f.key && f.counted < opener.counted + opener.config.windowMs
  }

  /** A failure opens a window when no window opened before covers it. */
  predicate Opens(history: seq<Failure>, i: nat)
    requires i < |history|
    decreases i
  {
    forall j | 0 <= j < i :: Covers(history[j], history[i]) ==> !Opens(history, j)
  }

  /** Failure `i` falls into the window that failure `j` opened. */
  predicate InWindowOf(history: seq<Failure>, j: nat, i: nat)
    requires j <= i < |history|
  {
    Opens(history, j) && (j == i || Covers(history[j], history[i]))
  }

  lemma SomeWindow(history: seq<Failure>, i: nat)
    requires i < |history|
    ensures exists j: nat :: j <= i && InWindowOf(history, j, i)
  {
    if Opens(history, i) {
      assert InWindowOf(history, i, i);
    } else {
      var j :| 0 <= j < i && Covers(history[j], history[i]) && Opens(history, j);
      assert InWindowOf(history, j, i);
    }
  }

  /** A window that covers a failure covers those before it. */
  lemma EarlierIsCovered(history: seq<Failure>, j: nat, k: nat, i: nat)
    requires InOrder(history) && j < k <= i < |history| && Covers(history[j], history[i])
    requires history[k].key == history[i].key
    ensures Covers(history[j], history[k])
  {
    if k < i {
      assert history[k].decided <= history[i].counted;
    }
  }

  /** Every failure falls into exactly one window. */
  lemma OneWindow(history: seq<Failure>, j: nat, k: nat, i: nat)
    requires InOrder(history) && j <= i < |history| && k <= i
    requires InWindowOf(history, j, i) && InWindowOf(history, k, i)
    ensures j == k
  {
    if j < k {
      EarlierIsCovered(history, j, k, i);
    } else if k < j {
      EarlierIsCovered(history, k, j, i);
    }
  }

  /** How many failures of `key` there are from index `lo` up to but not including `hi`. */
  function CountKey(history: seq<Failure>, key: string, lo: nat, hi: nat): nat
    requires hi <= |history|
    decreases hi
  {
    if hi <= lo then 0
    else CountKey(history, key, lo, hi - 1) + if history[hi - 1].key == key then 1 else 0
  }

  /** Failure `i` is the `n`-th of the window it falls into. */
  ghost predicate IsNth(history: seq<Failure>, i: nat, n: nat)
    requires i < |history|
  {
    exists j: nat :: j <= i && InWindowOf(history, j, i) && n == CountKey(history, history[i].key, j, i + 1)
  }

  /** An alert of the same key before failure `i` whose cooldown is still on when it is looked up. */
  ghost predicate CooldownActive(history: seq<Failure>, i: nat)
    requires i < |history|
  {
    exists j: nat :: j < i && history[j].key == history[i].key && AlertsAt(history, j)
                  && history[i].checked < history[j].decided + history[j].config.cooldownMs
  }

  /** The last failure of `key` before index `n`. */
  ghost predicate IsLast(history: seq<Failure>, key: string, n: nat, i: nat)
    requires n <= |history|
  {
    i < n && history[i].key == key && forall k :: i < k < n ==> history[k].key != key
  }

  /** The open window of an account is that of the last failure, with its count so far. */
  ghost predicate Tracks(history: seq<Failure>, key: string, n: nat, a: Account)
    requires n <= |history|
  {
    if a.open.None? then forall k :: 0 <= k < n ==> history[k].key != key
    else exists i: nat, j: nat :: TracksFrom(history, key, n, i, j, a.open.value)
  }

  /** The last failure of the key is `i`, its window opened at `j`, and `c` counts those of the window. */
  ghost predicate TracksFrom(history: seq<Failure>, key: string, n: nat, i: nat, j: nat, c: Counter)
    requires n <= |history|
  {
    && IsLast(history, key, n, i) && j <= i && InWindowOf(history, j, i)
    && c == Counter(CountKey(history, key, j, i + 1), history[j].counted + history[j].config.windowMs)
  }

  lemma {:induction false} NoneBetween(history: seq<Failure>, key: string, lo: nat, i: nat, n: nat)
    requires lo <= i <= n <= |history| && forall k :: i <= k < n ==> history[k].key != key
    ensures CountKey(history, key, lo, n) == CountKey(history, key, lo, i)
    decreases n
  {
    if i < n {
      NoneBetween(history, key, lo, i, n - 1);
    }
  }

  /** The window a failure is counted into, given the last failure before it and its window. */
  lemma NextInWindow(history: seq<Failure>, key: string, n: nat, i: nat, j: nat)
    requires InOrder(history) && n < |history| && history[n].key == key
    requires IsLast(history, key, n, i) && j <= i && InWindowOf(history, j, i)
    ensures Covers(history[j], history[n]) ==> InWindowOf(history, j, n)
    ensures !Covers(history[j], history[n]) ==> Opens(history, n)
  {
    if !Covers(history[j], history[n]) {
      forall k | 0 <= k < n && Covers(history[k], history[n])
        ensures !Opens(history, k)
      {
        if Opens(history, k) {
          OpenerBeforeLast(history, n, i, k);
          OneWindow(history, j, k, i);
        }
      }
    }
  }

  lemma OpenerBeforeLast(history: seq<Failure>, n: nat, i: nat, k: nat)
    requires InOrder(history) && i < n < |history| && k <= i && Opens(history, k)
    requires history[i].key == history[n].key && Covers(history[k], history[n])
    ensures InWindowOf(history, k, i)
  {
    if k < i {
      EarlierIsCovered(history, k, i, n);
    }
  }

  lemma FirstOpens(history: seq<Failure>, n: nat)
    requires n < |history| && forall k :: 0 <= k < n ==> history[k].key != history[n].key
    ensures Opens(history, n)
  {
  }

  lemma CountKeyStep(history: seq<Failure>, key: string, j: nat, i: nat, n: nat)
    requires n < |history| && history[n].key == key && IsLast(history, key, n, i) && j <= i
    ensures CountKey(history, key, j, n + 1) == CountKey(history, key, j, i + 1) + 1
    ensures CountKey(history, key, n, n + 1) == 1
  {
    NoneBetween(history, key, j, i + 1, n);
  }

  /** Counting a failure tracks its window. */
  lemma CountTracks(history: seq<Failure>, key: string, n: nat, a: Account) returns (j: nat)
    requires InOrder(history) && n < |history| && history[n].key == key && Tracks(history, key, n, a)
    ensures j <= n && InWindowOf(history, j, n)
    ensures Count(a, history[n]) ==
            Counter(CountKey(history, key, j, n + 1), history[j].counted + history[j].config.windowMs)
  {
    if a.open.None? {
      FirstOpens(history, n);
      j := n;
      NoneBetween(history, key, n, n, n);
    } else {
      var i: nat, o: nat :| TracksFrom(history, key, n, i, o, a.open.value);
      NextInWindow(history, key, n, i, o);
      CountKeyStep(history, key, o, i, n);
      j := if Covers(history[o], history[n]) then o else n;
    }
  }

  lemma {:induction false} AccountTracks(history: seq<Failure>, key: string, n: nat)
    requires InOrder(history) && n <= |history|
    ensures Tracks(history, key, n, AccountOf(key, history[..n]))
    decreases n
  {
    if n > 0 {
      var before := AccountOf(key, history[..n - 1]);
      assert history[..n][..n - 1] == history[..n - 1];
      AccountTracks(history, key, n - 1);
      if history[n - 1].key == key {
        var j := CountTracks(history, key, n - 1, before);
        assert TracksFrom(history, key, n, n - 1, j, Count(before, history[n - 1]));
      } else if before.open.Some? {
        var i: nat, j: nat :| TracksFrom(history, key, n - 1, i, j, before.open.value);
        assert TracksFrom(history, key, n, i, j, before.open.value);
      }
    }
  }

  /** The end of cooldown kept for a key is that of its last alert. */
  ghost predicate TracksCooldown(history: seq<Failure>, key: string, n: nat, a: Account)
    requires n <= |history|
  {
    forall now: int :: (n > 0 ==> history[n - 1].decided <= now) ==>
      (CoolingDown(a, now) <==> CooldownAt(history, key, n, now))
  }

  ghost predicate CooldownAt(history: seq<Failure>, key: string, n: nat, now: int)
    requires n <= |history|
  {
    exists j: nat :: j < n && EndsAfter(history, key, j, now)
  }

  ghost predicate EndsAfter(history: seq<Failure>, key: string, j: nat, now: int)
    requires j < |history|
  {
    history[j].key == key && AlertsAt(history, j) && now < history[j].decided + history[j].config.cooldownMs
  }

  lemma OnNowOnBefore(history: seq<Failure>, key: string, j: nat, early: int, late: int)
    requires j < |history| && early <= late
    ensures EndsAfter(history, key, j, late) ==> EndsAfter(history, key, j, early)
  {
  }

  lemma {:induction false} AccountTracksCooldown(history: seq<Failure>, key: string, n: nat)
    requires InOrder(history) && n <= |history|
    ensures TracksCooldown(history, key, n, AccountOf(key, history[..n]))
    decreases n
  {
    if n > 0 {
      var f := history[n - 1];
      var before, after := AccountOf(key, history[..n - 1]), AccountOf(key, history[..n]);
      assert history[..n][..n - 1] == history[..n - 1];
      AccountTracksCooldown(history, key, n - 1);
      forall now: int | f.decided <= now
        ensures CoolingDown(after, now) <==> CooldownAt(history, key, n, now)
      {
        CooldownStep(history, key, n - 1, now, before, after);
      }
    }
  }

  lemma CooldownStep(history: seq<Failure>, key: string, n: nat, now: int, before: Account, after: Account)
    requires InOrder(history) && n < |history| && history[n].decided <= now
    requires before == AccountOf(key, history[..n]) && TracksCooldown(history, key, n, before)
    requires after == if history[n].key == key then Record(before, history[n]) else before
    ensures CoolingDown(after, now) <==> CooldownAt(history, key, n + 1, now)
  {
    var f := history[n];
    assert n > 0 ==> history[n - 1].decided <= f.counted;
    assert CoolingDown(before, f.checked) <==> CooldownAt(history, key, n, f.checked);
    assert CoolingDown(before, now) <==> CooldownAt(history, key, n, now);
    if f.key == key && Alerts(before, f) {
      forall j: nat | j < n
        ensures !EndsAfter(history, key, j, now)
      {
        OnNowOnBefore(history, key, j, f.checked, now);
      }
      assert CooldownAt(history, key, n + 1, now) <==> EndsAfter(history, key, n, now);
    } else {
      assert !EndsAfter(history, key, n, now);
    }
  }

  /**
   A failure alerts exactly when it is the threshold-th of its window and no cooldown set by
   an earlier alert of its key is still on.
   */
  lemma AlertIff(history: seq<Failure>, i: nat)
    requires InOrder(history) && i < |history|
    ensures AlertsAt(history, i) <==>
            history[i].config.threshold >= 0 && IsNth(history, i, history[i].config.threshold)
            && !CooldownActive(history, i)
  {
    var f := history[i];
    var a := AccountOf(f.key, history[..i]);
    AccountTracks(history, f.key, i);
    AccountTracksCooldown(history, f.key, i);
    var j := CountTracks(history, f.key, i, a);
    forall k: nat | k <= i && InWindowOf(history, k, i)
      ensures k == j
    {
      OneWindow(history, j, k, i);
    }
    assert i > 0 ==> history[i - 1].decided <= f.checked;
    assert CoolingDown(a, f.checked) <==> CooldownAt(history, f.key, i, f.checked);
    CooldownsAgree(history, i);
  }

  lemma CooldownsAgree(history: seq<Failure>, i: nat)
    requires i < |history|
    ensures CooldownActive(history, i) <==> CooldownAt(history, history[i].key, i, history[i].checked)
  {
    if CooldownActive(history, i) {
      var j: nat :| j < i && history[j].key == history[i].key && AlertsAt(history, j)
                    && history[i].checked < history[j].decided + history[j].config.cooldownMs;
      assert EndsAfter(history, history[i].key, j, history[i].checked);
    }
  }

  /** Two alerts of one key are at least the cooldown apart. */
  lemma AlertsAreSpaced(history: seq<Failure>, i: nat, k: nat)
    requires InOrder(history) && i < k < |history| && history[i].key == history[k].key
    requires AlertsAt(history, i) && AlertsAt(history, k)
    ensures history[i].decided + history[i].config.cooldownMs <= history[k].checked
  {
    AlertIff(history, k);
  }

  lemma {:induction false} CountKeyGrows(history: seq<Failure>, key: string, j: nat, m: nat, n: nat)
    requires j <= m <= n <= |history|
    ensures CountKey(history, key, j, m) <= CountKey(history, key, j, n)
    decreases n
  {
    if m < n {
      CountKeyGrows(history, key, j, m, n - 1);
    }
  }

  /** At most one alert in a window, while the threshold of the key stays the same. */
  lemma OneAlertPerWindow(history: seq<Failure>, j: nat, i: nat, k: nat)
    requires InOrder(history) && j <= i < k < |history| && history[i].key == history[k].key
    requires history[i].config.threshold == history[k].config.threshold
    requires InWindowOf(history, j, i) && InWindowOf(history, j, k)
    ensures !(AlertsAt(history, i) && AlertsAt(history, k))
  {
    var key := history[i].key;
    AlertIff(history, i);
    AlertIff(history, k);
    NthIsCount(history, j, i);
    NthIsCount(history, j, k);
    CountKeyGrows(history, key, j, i + 1, k);
    assert CountKey(history, key, j, k + 1) == CountKey(history, key, j, k) + 1;
  }

  lemma NthIsCount(history: seq<Failure>, j: nat, i: nat)
    requires InOrder(history) && j <= i < |history| && InWindowOf(history, j, i)
    ensures forall n: nat :: IsNth(history, i, n) <==> n == CountKey(history, history[i].key, j, i + 1)
  {
    forall k: nat | k <= i && InWindowOf(history, k, i)
      ensures k == j
    {
      OneWindow(history, j, k, i);
    }
  }

  // ----- the counters in memory

  const SWEEP_ABOVE: nat := 1000

  /** The maps hold the account of a key at time `now`, save for a window that is over. */
  ghost predicate Holds(
      counters: map<string, Counter>, cooldowns: map<string, int>, a: Account, key: string, now: int) {
    && (key in counters ==> a.open == Some(counters[key]))
    && (key !in counters && a.open.Some? ==> a.open.value.expiresAt <= now)
    && a.cooldownUntil == (if key in cooldowns then Some(cooldowns[key]) else None)
  }

  function LastTime(history: seq<Failure>): int
    requires history != []
  {
    history[|history| - 1].decided
  }

  ghost predicate HoldsAll(counters: map<string, Counter>, cooldowns: map<string, int>, history: seq<Failure>) {
    if history == [] then counters == map[] && cooldowns == map[]
    else forall key :: Holds(counters, cooldowns, AccountOf(key, history), key, LastTime(history))
  }

  /** Windows that are over may go at any time. */
  function Swept(counters: map<string, Counter>, now: int): map<string, Counter> {
    map key | key in counters && counters[key].expiresAt > now :: counters[key]
  }

  function Incremented(counters: map<string, Counter>, f: Failure): map<string, Counter> {
    var kept := if |counters| > SWEEP_ABOVE then Swept(counters, f.counted) else counters;
    kept[f.key := if f.key !in kept || kept[f.key].expiresAt <= f.counted
                  then Counter(1, f.counted + f.config.windowMs)
                  else Counter(kept[f.key].count + 1, kept[f.key].expiresAt)]
  }

  /** Sweeping never changes what a failure counts. */
  lemma IncrementedHolds(
      counters: map<string, Counter>, cooldowns: map<string, int>, a: Account, f: Failure, key: string, now: int)
    requires Holds(counters, cooldowns, a, key, now) && now <= f.counted <= f.decided
    ensures key == f.key ==> Incremented(counters, f)[key] == Count(a, f)
    ensures key != f.key ==> Holds(Incremented(counters, f), cooldowns, a, key, f.decided)
  {
  }

  lemma EmptyHolds(history: seq<Failure>, key: string, now: int)
    requires history == []
    ensures Holds(map[], map[], AccountOf(key, history), key, now)
  {
  }

  /** After a failure the maps hold the account of every key again. */
  lemma RecordHolds(counters: map<string, Counter>, cooldowns: map<string, int>, history: seq<Failure>, f: Failure)
    requires HoldsAll(counters, cooldowns, history) && InOrder(history + [f])
    ensures var a := AccountOf(f.key, history);
            var next := if Alerts(a, f) then cooldowns[f.key := f.decided + f.config.cooldownMs] else cooldowns;
            && Incremented(counters, f)[f.key] == Count(a, f)
            && a.cooldownUntil == (if f.key in cooldowns then Some(cooldowns[f.key]) else None)
            && HoldsAll(Incremented(counters, f), next, history + [f])
  {
    var all := history + [f];
    var now := if history == [] then f.counted else LastTime(history);
    assert all[..|history|] == history && all[|history|] == f;
    assert history != [] ==> all[|history| - 1] == history[|history| - 1];
    forall key
      ensures Holds(counters, cooldowns, AccountOf(key, history), key, now)
    {
      if history == [] {
        EmptyHolds(history, key, now);
      }
    }
    forall key
      ensures var a := AccountOf(f.key, history);
              var next := if Alerts(a, f) then cooldowns[f.key := f.decided + f.config.cooldownMs] else cooldowns;
              Holds(Incremented(counters, f), next, AccountOf(key, all), key, f.decided)
    {
      IncrementedHolds(counters, cooldowns, AccountOf(key, history), f, key, now);
    }
    IncrementedHolds(counters, cooldowns, AccountOf(f.key, history), f, f.key, now);
  }

  class MemoryAlerts {
    var counters: map<string, Counter>
    var cooldowns: map<string, int>
    ghost var history: seq<Failure>

    ghost predicate Valid()
      reads this
    {
      InOrder(history) && HoldsAll(counters, cooldowns, history)
    }

    constructor ()
      ensures Valid() && history == []
    {
      counters, cooldowns, history := map[], map[], [];
    }

    /** Drops the windows that are over; only their order of removal is arbitrary. */
    method Sweep(now: int)
      modifies this`counters
      ensures counters == Swept(old(counters), now)
    {
      var todo := counters.Keys;
      ghost var was := counters;
      while todo != {}
        invariant todo <= was.Keys && counters.Keys <= was.Keys
        invariant forall key :: key in todo ==> key in counters
        invariant forall key :: key in counters ==> counters[key] == was[key]
        invariant forall key :: key in was && key !in todo ==> (key in counters <==> was[key].expiresAt > now)
        decreases todo
      {
        var key :| key in todo;
        if counters[key].expiresAt <= now {
          counters := counters - {key};
        }
        todo := todo - {key};
      }
    }

    method IncrementWithExpiry(f: Failure) returns (count: nat)
      modifies this`counters
      ensures counters == Incremented(old(counters), f) && count == counters[f.key].count
    {
      if |counters| > SWEEP_ABOVE {
        Sweep(f.counted);
      }
      if f.key !in counters || counters[f.key].expiresAt <= f.counted {
        counters := counters[f.key := Counter(1, f.counted + f.config.windowMs)];
        return 1;
      }
      counters := counters[f.key := Counter(counters[f.key].count + 1, counters[f.key].expiresAt)];
      return counters[f.key].count;
    }

    /** Decides as the reference does, whatever has been swept. */
    method RecordFailure(f: Failure) returns (alert: bool)
      requires Valid() && InOrder(history + [f])
      modifies this
      ensures Valid() && history == old(history) + [f]
      ensures alert == AlertsAt(history, |history| - 1)
    {
      RecordHolds(counters, cooldowns, history, f);
      var count := IncrementWithExpiry(f);
      var on := f.key in cooldowns && cooldowns[f.key] > f.checked;
      alert := count == f.config.threshold && !on;
      if alert {
        cooldowns := cooldowns[f.key := f.decided + f.config.cooldownMs];
      }
      history := history + [f];
      assert history[..|history| - 1] == old(history);
    }
  }

  // ----- the counters in Redis

  /** A counter key: its count, whether it will expire, and which life of the key this is. */
  datatype Key = Absent(lives: nat) | Present(count: nat, expires: bool, life: nat)

  /** What a call has done: the count it got and in which life, and what it has left to do. */
  datatype Call = Counted(count: nat, life: nat, next: Next)

  datatype Next = SetExpiry | AskExpiry | Decided

  datatype Redis = Redis(key: Key, calls: map<nat, Call>)

  datatype Action =
    | Increment(call: nat)
    | Expire(call: nat)
    | ReadExpiry(call: nat)
    | Lapse
    | Abandon(call: nat)

  function NextStep(count: nat, threshold: nat): Next {
    if count == 1 then SetExpiry
    else if count > threshold && count % 20 == 0 then AskExpiry
    else Decided
  }

  function Do(r: Redis, threshold: nat, a: Action): Redis {
    match a
    case Increment(c) =>
      if c in r.calls then r
      else
        var key := if r.key.Absent? then Present(1, false, r.key.lives + 1) else r.key.(count := r.key.count + 1);
        Redis(key, r.calls[c := Counted(key.count, key.life, NextStep(key.count, threshold))])
    case Expire(c) =>
      if c in r.calls && r.calls[c].next.SetExpiry? then
        Redis(if r.key.Present? then r.key.(expires := true) else r.key, r.calls[c := r.calls[c].(next := Decided)])
      else r
    case ReadExpiry(c) =>
      if c in r.calls && r.calls[c].next.AskExpiry? then
        r.(calls := r.calls[c := r.calls[c].(next := if r.key.Present? && !r.key.expires then SetExpiry else Decided)])
      else r
    case Lapse => if r.key.Present? && r.key.expires then r.(key := Absent(r.key.life)) else r
    case Abandon(c) => if c in r.calls then r.(calls := r.calls[c := r.calls[c].(next := Decided)]) else r
  }

  function Run(r: Redis, threshold: nat, actions: seq<Action>): Redis
    decreases |actions|
  {
    if actions == [] then r else Run(Do(r, threshold, actions[0]), threshold, actions[1..])
  }

  const EMPTY: Redis := Redis(Absent(0), map[])

  function Life(k: Key): nat {
    match k
    case Absent(lives) => lives
    case Present(_, _, life) => life
  }

  /** No two calls get the same count in the same life of the key. */
  ghost predicate CountsAreUnique(r: Redis) {
    && (forall c, d :: c in r.calls && d in r.calls && c != d ==>
          r.calls[c].life != r.calls[d].life || r.calls[c].count != r.calls[d].count)
    && (forall c :: c in r.calls ==>
          && r.calls[c].life <= Life(r.key)
          && (r.key.Present? && r.calls[c].life == r.key.life ==> r.calls[c].count <= r.key.count))
  }

  lemma DoKeepsCountsUnique(r: Redis, threshold: nat, a: Action)
    requires CountsAreUnique(r)
    ensures CountsAreUnique(Do(r, threshold, a))
  {
    match a
    case Increment(c) => IncrementKeepsCountsUnique(r, threshold, c);
    case _ => SameCountsAreUnique(r, Do(r, threshold, a));
  }

  lemma IncrementKeepsCountsUnique(r: Redis, threshold: nat, c: nat)
    requires CountsAreUnique(r)
    ensures CountsAreUnique(Do(r, threshold, Increment(c)))
  {
  }

  lemma SameCountsAreUnique(r: Redis, s: Redis)
    requires CountsAreUnique(r) && s.calls.Keys == r.calls.Keys && Life(s.key) == Life(r.key)
    requires forall c :: c in s.calls ==> s.calls[c].life == r.calls[c].life && s.calls[c].count == r.calls[c].count
    requires s.key.Present? ==> r.key.Present? && s.key.count == r.key.count
    ensures CountsAreUnique(s)
  {
  }

  lemma {:induction false} RunKeepsCountsUnique(r: Redis, threshold: nat, actions: seq<Action>)
    requires CountsAreUnique(r)
    ensures CountsAreUnique(Run(r, threshold, actions))
    decreases |actions|
  {
    if actions != [] {
      DoKeepsCountsUnique(r, threshold, actions[0]);
      RunKeepsCountsUnique(Do(r, threshold, actions[0]), threshold, actions[1..]);
    }
  }

  /** However the calls interleave and stop, at most one per life of the key passes the threshold test. */
  lemma OnePassesPerLife(threshold: nat, actions: seq<Action>, r: Redis, c: nat, d: nat)
    requires r == Run(EMPTY, threshold, actions) && c in r.calls && d in r.calls
    requires r.calls[c].count == r.calls[d].count == threshold
    ensures r.calls[c].life == r.calls[d].life ==> c == d
  {
    RunKeepsCountsUnique(EMPTY, threshold, actions);
  }

  // ----- the expiry that was lost

  lemma {:induction false} RunConcat(r: Redis, threshold: nat, a: seq<Action>, b: seq<Action>)
    ensures Run(r, threshold, a + b) == Run(Run(r, threshold, a), threshold, b)
    decreases |a|
  {
    if a == [] {
      assert a + b == b;
    } else {
      assert (a + b)[1..] == a[1..] + b;
      RunConcat(Do(r, threshold, a[0]), threshold, a[1..], b);
    }
  }

  /** One call run to its end on its own; `lost` when what follows its INCR never arrives. */
  function WholeCall(c: nat, lost: bool): seq<Action> {
    if lost then [Increment(c), Abandon(c)] else [Increment(c), ReadExpiry(c), Expire(c)]
  }

  /** `n` calls one after the other, of which only the first loses its EXPIRE. */
  function Calls(n: nat): seq<Action> {
    if n == 0 then [] else Calls(n - 1) + WholeCall(n - 1, n == 1)
  }

  lemma RunTwo(r: Redis, threshold: nat, a: Action, b: Action)
    ensures Run(r, threshold, [a, b]) == Do(Do(r, threshold, a), threshold, b)
  {
    var v := Do(r, threshold, a);
    assert [a, b][1..] == [b] && [b][1..] == [];
    assert Run(v, threshold, [b]) == Run(Do(v, threshold, b), threshold, []);
  }

  lemma RunThree(r: Redis, threshold: nat, a: Action, b: Action, c: Action)
    ensures Run(r, threshold, [a, b, c]) == Do(Do(Do(r, threshold, a), threshold, b), threshold, c)
  {
    assert [a, b, c][1..] == [b, c];
    RunTwo(Do(r, threshold, a), threshold, b, c);
  }

  /**
   A key that lost its expiry counts on, and the call that gets a multiple of 20 above the
   threshold sets it again.
   */
  lemma WholeCallCounts(r: Redis, threshold: nat, c: nat)
    requires r.key.Present? && r.key.count > 0 && c !in r.calls
    ensures var v, n := Run(r, threshold, WholeCall(c, false)), r.key.count + 1;
            && v.key == Present(n, r.key.expires || (n > threshold && n % 20 == 0), r.key.life)
            && v.calls.Keys == r.calls.Keys + {c}
  {
    RunThree(r, threshold, Increment(c), ReadExpiry(c), Expire(c));
  }

  lemma LostCallCounts(r: Redis, threshold: nat, c: nat)
    requires r.key.Absent? && c !in r.calls
    ensures var v := Run(r, threshold, WholeCall(c, true));
            v.key == Present(1, false, r.key.lives + 1) && v.calls.Keys == r.calls.Keys + {c}
  {
    RunTwo(r, threshold, Increment(c), Abandon(c));
  }

  /** The first multiple of 20 above the threshold, and above the very first call. */
  function RepairedAt(threshold: nat): nat {
    (threshold / 20 + 1) * 20
  }

  lemma FirstMultiple(threshold: nat, n: nat)
    ensures RepairedAt(threshold) % 20 == 0 && RepairedAt(threshold) > threshold
    ensures n % 20 == 0 && n > threshold ==> n >= RepairedAt(threshold)
  {
  }

  /** After `n` calls the key has counted them, and expires from the first such multiple on. */
  ghost predicate HasCounted(r: Redis, n: nat, threshold: nat) {
    && r.key == (if n == 0 then Absent(0) else Present(n, n >= RepairedAt(threshold), 1))
    && forall c :: c in r.calls ==> c < n
  }

  lemma OneMoreCall(r: Redis, n: nat, threshold: nat)
    requires n > 0 && HasCounted(r, n - 1, threshold)
    ensures HasCounted(Run(r, threshold, WholeCall(n - 1, n == 1)), n, threshold)
  {
    FirstMultiple(threshold, n);
    if n == 1 {
      LostCallCounts(r, threshold, 0);
    } else {
      WholeCallCounts(r, threshold, n - 1);
    }
  }

  /** The key regains an expiry exactly at the first multiple of 20 above the threshold. */
  lemma {:induction false} LostExpiryIsRepaired(n: nat, threshold: nat)
    ensures HasCounted(Run(EMPTY, threshold, Calls(n)), n, threshold)
    decreases n
  {
    if n > 0 {
      LostExpiryIsRepaired(n - 1, threshold);
      RunConcat(EMPTY, threshold, Calls(n - 1), WholeCall(n - 1, n == 1));
      OneMoreCall(Run(EMPTY, threshold, Calls(n - 1)), n, threshold);
    }
  }

  // ----- the expiry that is not lost

  /** A call on its own that finds no key counts 1 and gives the key its expiry. */
  lemma FirstCallSetsExpiry(r: Redis, threshold: nat, c: nat)
    requires r.key.Absent? && c !in r.calls
    ensures Run(r, threshold, WholeCall(c, false)).key == Present(1, true, r.key.lives + 1)
  {
    RunThree(r, threshold, Increment(c), ReadExpiry(c), Expire(c));
  }

  /** A key without an expiry has a call that counted 1 in its life and has yet to set it. */
  ghost predicate ExpiryIsOwed(r: Redis) {
    r.key.Present? && !r.key.expires ==> exists c :: Owes(r, c)
  }

  ghost predicate Owes(r: Redis, c: nat) {
    && r.key.Present? && c in r.calls
    && r.calls[c].life == r.key.life && r.calls[c].count == 1 && r.calls[c].next.SetExpiry?
  }

  lemma ExpiryStaysOwed(r: Redis, threshold: nat, a: Action)
    requires ExpiryIsOwed(r) && !a.Abandon?
    ensures ExpiryIsOwed(Do(r, threshold, a))
  {
    var s := Do(r, threshold, a);
    if s.key.Present? && !s.key.expires {
      if r.key.Absent? {
        assert Owes(s, a.call);
      } else {
        var c :| Owes(r, c);
        assert Owes(s, c);
      }
    }
  }

  /** However calls interleave, as long as none is stopped: once all are decided, the key expires or is gone. */
  lemma {:induction false} RunOwesExpiry(r: Redis, threshold: nat, actions: seq<Action>)
    requires ExpiryIsOwed(r) && forall i :: 0 <= i < |actions| ==> !actions[i].Abandon?
    ensures ExpiryIsOwed(Run(r, threshold, actions))
    decreases |actions|
  {
    if actions != [] {
      ExpiryStaysOwed(r, threshold, actions[0]);
      RunOwesExpiry(Do(r, threshold, actions[0]), threshold, actions[1..]);
    }
  }

  lemma UndisturbedKeyExpires(threshold: nat, actions: seq<Action>)
    requires forall i :: 0 <= i < |actions| ==> !actions[i].Abandon?
    ensures var r := Run(EMPTY, threshold, actions);
            (forall c :: c in r.calls ==> r.calls[c].next.Decided?) ==> r.key.Absent? || r.key.expires
  {
    RunOwesExpiry(EMPTY, threshold, actions);
  }
}
