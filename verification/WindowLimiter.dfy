/** At most so many events per key within a sliding window, kept in memory. */
module WindowLimiter {

  datatype Grant = Grant(key: string, time: int)

  /** How many grants of `key` lie less than `windowMs` before `now`. */
  function Recent(grants: seq<Grant>, key: string, windowMs: int, now: int): nat {
    if grants == [] then 0
    else
      var g := grants[|grants| - 1];
      Recent(grants[..|grants| - 1], key, windowMs, now) + if g.key == key && now - g.time < windowMs then 1 else 0
  }

  /** The places of the grants of `key` in the `windowMs` before `now`. */
  function PlacesWithin(grants: seq<Grant>, key: string, windowMs: int, now: int): set<nat> {
    set i: nat | i < |grants| && grants[i].key == key && grants[i].time > now - windowMs
  }

  /** `Recent` counts them. */
  lemma {:induction false} RecentCounts(grants: seq<Grant>, key: string, windowMs: int, now: int)
    ensures Recent(grants, key, windowMs, now) == |PlacesWithin(grants, key, windowMs, now)|
    decreases |grants|
  {
    if grants != [] {
      var last := |grants| - 1;
      var before := PlacesWithin(grants[..last], key, windowMs, now);
      RecentCounts(grants[..last], key, windowMs, now);
      assert last !in before;
      assert PlacesWithin(grants, key, windowMs, now) ==
             before + if grants[last].key == key && grants[last].time > now - windowMs then {last} else {};
    }
  }

  /** The times of the grants of `key` within the window, oldest first. */
  function RecentTimes(grants: seq<Grant>, key: string, windowMs: int, now: int): (times: seq<int>)
    ensures |times| == Recent(grants, key, windowMs, now)
  {
    if grants == [] then []
    else
      var g := grants[|grants| - 1];
      RecentTimes(grants[..|grants| - 1], key, windowMs, now) +
      if g.key == key && now - g.time < windowMs then [g.time] else []
  }

  /** `times.filter((t) => now - t < windowMs)` */
  function Within(times: seq<int>, windowMs: int, now: int): (kept: seq<int>)
    ensures |kept| <= |times|
  {
    if times == [] then []
    else
      var t := times[|times| - 1];
      Within(times[..|times| - 1], windowMs, now) + if now - t < windowMs then [t] else []
  }

  lemma {:induction false} WithinNone(times: seq<int>, windowMs: int, now: int)
    ensures Within(times, windowMs, now) == [] <==> forall i :: 0 <= i < |times| ==> now - times[i] >= windowMs
    decreases |times|
  {
    if times != [] {
      WithinNone(times[..|times| - 1], windowMs, now);
      assert forall i :: 0 <= i < |times| - 1 ==> times[i] == times[..|times| - 1][i];
    }
  }

  lemma WithinAppend(times: seq<int>, t: int, windowMs: int, now: int)
    ensures Within(times + [t], windowMs, now) == Within(times, windowMs, now) + if now - t < windowMs then [t] else []
  {
    assert (times + [t])[..|times|] == times;
  }

  /** Pruning at an earlier time loses nothing a later look would keep. */
  lemma {:induction false} PruningIsUnobservable(times: seq<int>, windowMs: int, early: int, late: int)
    requires early <= late
    ensures Within(Within(times, windowMs, early), windowMs, late) == Within(times, windowMs, late)
    decreases |times|
  {
    if times != [] {
      var init, t := times[..|times| - 1], times[|times| - 1];
      PruningIsUnobservable(init, windowMs, early, late);
      if early - t < windowMs {
        WithinAppend(Within(init, windowMs, early), t, windowMs, late);
      } else {
        assert Within(init, windowMs, early) + [] == Within(init, windowMs, early);
      }
    }
  }

  /** Grants in the order of a clock that does not run backwards. */
  ghost predicate InOrder(grants: seq<Grant>) {
    forall i, j :: 0 <= i < j < |grants| ==> grants[i].time <= grants[j].time
  }

  lemma RecentTimesAppend(grants: seq<Grant>, g: Grant, key: string, windowMs: int, now: int)
    ensures RecentTimes(grants + [g], key, windowMs, now) ==
            RecentTimes(grants, key, windowMs, now) + if g.key == key && now - g.time < windowMs then [g.time] else []
  {
    assert (grants + [g])[..|grants|] == grants;
  }

  /** What the map keeps of a key agrees with the full history as far as any later look can tell. */
  ghost predicate Holds(hits: map<string, seq<int>>, grants: seq<Grant>, windowMs: int, key: string, now: int) {
    Within(HitsOf(hits, key), windowMs, now) == RecentTimes(grants, key, windowMs, now)
  }

  ghost predicate HoldsFrom(hits: map<string, seq<int>>, grants: seq<Grant>, windowMs: int, last: int) {
    forall key, now :: last <= now ==> Holds(hits, grants, windowMs, key, now)
  }

  const SWEEP_ABOVE: nat := 10_000

  function HitsOf(hits: map<string, seq<int>>, key: string): seq<int> {
    if key in hits then hits[key] else []
  }

  /** What is recorded for a look at `key`: the recent hits, and this one when it is granted. */
  lemma LookHolds(
      hits: map<string, seq<int>>, grants: seq<Grant>, windowMs: int, last: int, key: string, now: int, granted: bool)
    requires HoldsFrom(hits, grants, windowMs, last) && last <= now
    ensures var recent := Within(HitsOf(hits, key), windowMs, now);
            HoldsFrom(hits[key := if granted then recent + [now] else recent],
                      if granted then grants + [Grant(key, now)] else grants, windowMs, now)
  {
    var recent := Within(HitsOf(hits, key), windowMs, now);
    var hits' := hits[key := if granted then recent + [now] else recent];
    var grants' := if granted then grants + [Grant(key, now)] else grants;
    forall k, t: int | now <= t
      ensures Holds(hits', grants', windowMs, k, t)
    {
      assert Holds(hits, grants, windowMs, k, t);
      RecentTimesAppend(grants, Grant(key, now), k, windowMs, t);
      if k == key {
        PruningIsUnobservable(HitsOf(hits, key), windowMs, now, t);
        WithinAppend(recent, now, windowMs, t);
      }
    }
  }

  /** The keys with a hit in the window. */
  function Swept(hits: map<string, seq<int>>, windowMs: int, now: int): map<string, seq<int>> {
    map key | key in hits && Within(hits[key], windowMs, now) != [] :: hits[key]
  }

  /** Dropping the other keys cannot be told from keeping them. */
  lemma SweepHolds(hits: map<string, seq<int>>, grants: seq<Grant>, windowMs: int, now: int)
    requires HoldsFrom(hits, grants, windowMs, now)
    ensures HoldsFrom(Swept(hits, windowMs, now), grants, windowMs, now)
  {
    forall k, t: int | now <= t
      ensures Holds(Swept(hits, windowMs, now), grants, windowMs, k, t)
    {
      assert Holds(hits, grants, windowMs, k, t);
      if k in hits {
        PruningIsUnobservable(hits[k], windowMs, now, t);
      }
    }
  }

  lemma LookCounts(hits: map<string, seq<int>>, grants: seq<Grant>, windowMs: int, last: int, key: string, now: int)
    requires HoldsFrom(hits, grants, windowMs, last) && last <= now
    ensures |Within(HitsOf(hits, key), windowMs, now)| == Recent(grants, key, windowMs, now)
  {
    assert Holds(hits, grants, windowMs, key, now);
  }

  /** Each grant was made with fewer than `max` recent ones before it. */
  ghost predicate Granted(grants: seq<Grant>, max: int, windowMs: int) {
    forall i :: 0 <= i < |grants| ==> Recent(grants[..i], grants[i].key, windowMs, grants[i].time) < max
  }

  lemma GrantedAppend(grants: seq<Grant>, g: Grant, max: int, windowMs: int)
    requires Granted(grants, max, windowMs) && Recent(grants, g.key, windowMs, g.time) < max
    ensures Granted(grants + [g], max, windowMs)
  {
    var more := grants + [g];
    forall i | 0 <= i < |more|
      ensures Recent(more[..i], more[i].key, windowMs, more[i].time) < max
    {
      assert i < |grants| ==> more[..i] == grants[..i];
      assert i == |grants| ==> more[..i] == grants;
    }
  }

  class PerKeyWindowLimiter {
    const max: int
    const windowMs: int
    var hits: map<string, seq<int>>
    ghost var grants: seq<Grant>
    ghost var last: int

    ghost predicate Valid()
      reads this
    {
      && HoldsFrom(hits, grants, windowMs, last)
      && InOrder(grants)
      && (forall i :: 0 <= i < |grants| ==> grants[i].time <= last)
      && Granted(grants, max, windowMs)
    }

    constructor (max: int, windowMs: int, now: int)
      ensures Valid() && grants == [] && last == now && this.max == max && this.windowMs == windowMs
    {
      this.max, this.windowMs := max, windowMs;
      hits, grants, last := map[], [], now;
    }

    /** Drops the keys all of whose hits are out of the window. */
    method Sweep(now: int)
      modifies this`hits
      ensures hits == Swept(old(hits), windowMs, now)
    {
      var todo := hits.Keys;
      ghost var was := hits;
      while todo != {}
        invariant todo <= was.Keys && hits.Keys <= was.Keys
        invariant forall key :: key in todo ==> key in hits
        invariant forall key :: key in hits ==> hits[key] == was[key]
        invariant forall key :: key in was && key !in todo ==> (key in hits <==> Within(was[key], windowMs, now) != [])
        decreases todo
      {
        var key :| key in todo;
        WithinNone(hits[key], windowMs, now);
        if forall i | 0 <= i < |hits[key]| :: now - hits[key][i] >= windowMs {
          hits := hits - {key};
        }
        todo := todo - {key};
      }
    }

    /** Grants exactly when the full history holds fewer than `max` recent grants of the key. */
    method Take(key: string, now: int) returns (granted: bool)
      requires Valid() && last <= now
      modifies this
      ensures Valid() && last == now
      ensures granted <==> Recent(old(grants), key, windowMs, now) < max
      ensures grants == if granted then old(grants) + [Grant(key, now)] else old(grants)
    {
      var recent := Within(HitsOf(hits, key), windowMs, now);
      LookCounts(hits, grants, windowMs, last, key, now);
      LookHolds(hits, grants, windowMs, last, key, now, |recent| < max);
      last := now;
      if |recent| >= max {
        hits := hits[key := recent];
        return false;
      }
      GrantedAppend(grants, Grant(key, now), max, windowMs);
      recent := recent + [now];
      hits := hits[key := recent];
      grants := grants + [Grant(key, now)];
      if |hits| > SWEEP_ABOVE {
        SweepHolds(hits, grants, windowMs, now);
        Sweep(now);
      }
      return true;
    }
  }

  // ----- no window ever holds more than the cap

  /** How many grants of `key` fall after `end - windowMs` and no later than `end`. */
  function InWindow(grants: seq<Grant>, key: string, windowMs: int, end: int): nat {
    if grants == [] then 0
    else
      var g := grants[|grants| - 1];
      InWindow(grants[..|grants| - 1], key, windowMs, end)
      + if g.key == key && end - windowMs < g.time <= end then 1 else 0
  }

  lemma {:induction false} WindowIsRecent(grants: seq<Grant>, key: string, windowMs: int, end: int, now: int)
    requires (forall i :: 0 <= i < |grants| ==> grants[i].time <= now) && now <= end
    ensures InWindow(grants, key, windowMs, end) <= Recent(grants, key, windowMs, now)
    decreases |grants|
  {
    if grants != [] {
      WindowIsRecent(grants[..|grants| - 1], key, windowMs, end, now);
    }
  }

  /** No window of that length, wherever it lies, holds more than `max` grants of a key. */
  lemma {:induction false} WindowNeverExceeded(grants: seq<Grant>, key: string, max: nat, windowMs: int, end: int)
    requires InOrder(grants) && Granted(grants, max, windowMs)
    ensures InWindow(grants, key, windowMs, end) <= max
    decreases |grants|
  {
    if grants != [] {
      var init, g := grants[..|grants| - 1], grants[|grants| - 1];
      assert forall i :: 0 <= i < |init| ==> init[..i] == grants[..i];
      WindowNeverExceeded(init, key, max, windowMs, end);
      if g.key == key && end - windowMs < g.time <= end {
        WindowIsRecent(init, key, windowMs, end, g.time);
        assert Recent(grants[..|grants| - 1], g.key, windowMs, g.time) < max;
      }
    }
  }
}
