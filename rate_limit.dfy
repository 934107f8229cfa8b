/** The contact endpoint's sliding-window rate limiter: per client key, the
    list of millisecond timestamps of its accepted attempts. An attempt is
    refused when five accepted attempts lie within the last hour; a refused
    attempt is not recorded. Now and then a sweep drops the keys whose
    timestamps have all left the window. */
module RateLimit {
  import opened Options
  import opened Numbers

  const WINDOW_MS := 3600000
  const MAX := 5

  /** A timestamp still counts at `now`. */
  predicate InWindow(t: int, now: int) { now - t < WINDOW_MS }

  /** `timestamps.filter(t => now - t < windowMs)`. */
  function Recent(ts: seq<int>, now: int): (r: seq<int>)
    ensures |r| <= |ts|
    ensures forall i :: 0 <= i < |r| ==> InWindow(r[i], now)
    ensures |r| == |ts| <==> forall i :: 0 <= i < |ts| ==> InWindow(ts[i], now)
    ensures (forall i :: 0 <= i < |ts| ==> InWindow(ts[i], now)) ==> r == ts
  {
    if ts == [] then []
    else
      assert ts == [ts[0]] + ts[1..];
      var rest := Recent(ts[1..], now);
      if InWindow(ts[0], now) then [ts[0]] + rest else rest
  }

  /** A timestamp is counted exactly when it is stored and in the window. */
  lemma {:induction false} RecentMembers(ts: seq<int>, now: int, t: int)
    ensures t in Recent(ts, now) <==> t in ts && InWindow(t, now)
  {
    if ts != [] {
      RecentMembers(ts[1..], now, t);
      assert ts == [ts[0]] + ts[1..];
    }
  }

  /** `Math.min(...ts)`. */
  function MinOf(ts: seq<int>): (m: int)
    requires |ts| > 0
    ensures m in ts
    ensures forall i :: 0 <= i < |ts| ==> m <= ts[i]
  {
    if |ts| == 1 then ts[0]
    else
      var m := MinOf(ts[1..]);
      assert ts == [ts[0]] + ts[1..];
      if ts[0] <= m then ts[0] else m
  }

  /** What `checkRateLimit` answers. `reset` is the time in milliseconds until
      the oldest counted attempt leaves the window. */
  datatype Verdict = Verdict(success: bool, remaining: nat, limit: nat, reset: nat)

  /** The answer for a client whose stored timestamps are `ts`. */
  function Decide(ts: seq<int>, now: int): (v: Verdict)
    ensures v.limit == MAX
    ensures v.success <==> |Recent(ts, now)| < MAX
    ensures v.success ==> v.remaining == MAX - 1 - |Recent(ts, now)|
    ensures !v.success ==> v.remaining == 0
    ensures Recent(ts, now) == [] ==> v.reset == WINDOW_MS
    ensures Recent(ts, now) != [] ==> 0 < v.reset
    ensures (forall i :: 0 <= i < |ts| ==> ts[i] <= now) ==> 0 < v.reset <= WINDOW_MS
  {
    var recent := Recent(ts, now);
    var oldest := if |recent| > 0 then MinOf(recent) else now;
    var limited := |recent| >= MAX;
    assert |recent| > 0 ==> oldest in ts by {
      if |recent| > 0 { RecentMembers(ts, now, oldest); }
    }
    Verdict(!limited, if limited then 0 else MAX - |recent| - 1, MAX, Max(0, oldest + WINDOW_MS - now))
  }

  /** `rateLimits.get(key) || []`. */
  function Stored(m: map<string, seq<int>>, key: string): seq<int>
  {
    if key in m then m[key] else []
  }

  /** The map after the decision for `key`: an accepted attempt stores the
      counted timestamps followed by `now`; a refused one changes nothing. */
  function Record(m: map<string, seq<int>>, key: string, now: int): map<string, seq<int>>
  {
    if Decide(Stored(m, key), now).success then m[key := Recent(Stored(m, key), now) + [now]]
    else m
  }

  /** The map after `cleanupRateLimits` at time `now`. */
  function Swept(m: map<string, seq<int>>, now: int): map<string, seq<int>>
  {
    map k | k in m && Recent(m[k], now) != [] :: Recent(m[k], now)
  }

  /** The map after one `checkRateLimit` call. `sweep` is `None` when the
      random draw skips the sweep, and `Some(t)` when the sweep runs and its
      own clock read gives `t`. */
  function AfterCheck(m: map<string, seq<int>>, key: string, now: int, sweep: Option<int>): map<string, seq<int>>
  {
    var recorded := Record(m, key, now);
    if sweep.Some? then Swept(recorded, sweep.value) else recorded
  }

  /** The limiter's invariant: every stored list is non-empty and holds at
      most five timestamps. */
  ghost predicate Bounded(m: map<string, seq<int>>)
  {
    forall k :: k in m ==> 0 < |m[k]| <= MAX
  }

  /** Recording keeps every list within five timestamps. */
  lemma RecordBounded(m: map<string, seq<int>>, key: string, now: int)
    requires Bounded(m)
    ensures Bounded(Record(m, key, now))
  {
  }

  /** Sweeping keeps every list within five timestamps and drops empty ones. */
  lemma SweptBounded(m: map<string, seq<int>>, now: int)
    requires Bounded(m)
    ensures Bounded(Swept(m, now))
  {
  }

  /** A check touches only the caller's entry, apart from the sweep. */
  lemma RecordOnlyTouchesKey(m: map<string, seq<int>>, key: string, now: int, other: string)
    requires other != key
    ensures other in Record(m, key, now) <==> other in m
    ensures Stored(Record(m, key, now), other) == Stored(m, other)
  {
  }

  /** A refused attempt is not recorded, so retrying at the same moment is
      refused again with the same answer; an accepted one appends `now` to
      the counted timestamps. */
  lemma RecordedOnlyWhenAccepted(m: map<string, seq<int>>, key: string, now: int)
    ensures var v := Decide(Stored(m, key), now);
      && (!v.success ==> Record(m, key, now) == m)
      && (!v.success ==> Decide(Stored(Record(m, key, now), key), now) == v)
      && (v.success ==> Stored(Record(m, key, now), key) == Recent(Stored(m, key), now) + [now])
  {
  }

  /** The sweep deletes exactly the keys with no timestamp in the window and
      replaces every other list by its counted timestamps. */
  lemma SweptEntries(m: map<string, seq<int>>, now: int, k: string)
    ensures k in Swept(m, now) <==> k in m && exists i :: 0 <= i < |m[k]| && InWindow(m[k][i], now)
    ensures k in Swept(m, now) ==> Swept(m, now)[k] == Recent(m[k], now)
  {
    if k in m && Recent(m[k], now) != [] {
      var t := Recent(m[k], now)[0];
      RecentMembers(m[k], now, t);
      var i :| 0 <= i < |m[k]| && m[k][i] == t;
    }
    if k in m && (exists i :: 0 <= i < |m[k]| && InWindow(m[k][i], now)) {
      var i :| 0 <= i < |m[k]| && InWindow(m[k][i], now);
      RecentMembers(m[k], now, m[k][i]);
    }
  }

  /** Filtering at an earlier time and then at a later one is filtering at
      the later one: what leaves the window never comes back. */
  lemma {:induction false} RecentTwice(ts: seq<int>, early: int, late: int)
    requires early <= late
    ensures Recent(Recent(ts, early), late) == Recent(ts, late)
  {
    if ts != [] {
      RecentTwice(ts[1..], early, late);
    }
  }

  /** The answer depends on the stored list only through its counted part. */
  lemma DecideOnRecent(ts: seq<int>, us: seq<int>, now: int)
    requires Recent(ts, now) == Recent(us, now)
    ensures Decide(ts, now) == Decide(us, now)
  {
  }

  /** A sweep is invisible: a check at or after the sweep's time answers as
      it would have without the sweep. */
  lemma SweepInvisible(m: map<string, seq<int>>, sweptAt: int, key: string, now: int)
    requires sweptAt <= now
    ensures Decide(Stored(Swept(m, sweptAt), key), now) == Decide(Stored(m, key), now)
  {
    if key in m {
      RecentTwice(m[key], sweptAt, now);
      if key in Swept(m, sweptAt) {
        DecideOnRecent(Recent(m[key], sweptAt), m[key], now);
      } else {
        assert Recent(m[key], sweptAt) == [];
        DecideOnRecent([], m[key], now);
      }
    }
  }

  /** A refusal carries a positive `reset`, and once that time has passed the
      oldest counted attempt has left the window and the client is accepted
      again. */
  lemma AcceptedAfterReset(ts: seq<int>, now: int, later: int)
    requires |ts| <= MAX
    requires !Decide(ts, now).success
    requires later >= now + Decide(ts, now).reset
    ensures Decide(ts, now).reset > 0
    ensures Decide(ts, later).success
  {
    var recent := Recent(ts, now);
    assert recent == ts;
    var oldest := MinOf(ts);
    assert !InWindow(oldest, later);
    var i :| 0 <= i < |ts| && ts[i] == oldest;
  }

  /** ... and not before: until `reset` has elapsed, the oldest counted
      attempt is still in the window and the client stays refused. */
  lemma RefusedUntilReset(ts: seq<int>, now: int, later: int)
    requires |ts| <= MAX
    requires !Decide(ts, now).success
    requires now <= later < now + Decide(ts, now).reset
    ensures !Decide(ts, later).success
  {
    assert Recent(ts, now) == ts;
    var oldest := MinOf(ts);
    forall i | 0 <= i < |ts| ensures InWindow(ts[i], later) {
    }
  }

  /** The same for the limiter's map: after a refusal, whatever sweep ran, a
      check once `reset` has elapsed is accepted. */
  lemma RetryAfterResetAccepted(m: map<string, seq<int>>, key: string, now: int,
                                sweep: Option<int>, later: int)
    requires Bounded(m)
    requires !Decide(Stored(m, key), now).success
    requires sweep.Some? ==> sweep.value <= later
    requires later >= now + Decide(Stored(m, key), now).reset
    ensures Decide(Stored(AfterCheck(m, key, now, sweep), key), later).success
  {
    AcceptedAfterReset(Stored(m, key), now, later);
    if sweep.Some? {
      SweepInvisible(m, sweep.value, key, later);
    }
  }

  /** Checks by one client at successive times, with no sweep in between:
      the answer to each. */
  function Replay(m: map<string, seq<int>>, key: string, times: seq<int>): (vs: seq<Verdict>)
    ensures |vs| == |times|
    ensures forall i :: 0 <= i < |vs| ==> vs[i].limit == MAX && (!vs[i].success ==> vs[i].reset > 0)
    decreases |times|
  {
    if times == [] then []
    else [Decide(Stored(m, key), times[0])] + Replay(Record(m, key, times[0]), key, times[1..])
  }

  /** Within one window, a client holding `n <= 5` counted attempts is
      accepted while fewer than five are counted, with `remaining` going
      down by one each time, and is refused from then on. */
  lemma {:induction false} CountDownWithinWindow(m: map<string, seq<int>>, key: string,
                                                 times: seq<int>, lo: int, hi: int)
    requires hi - lo < WINDOW_MS
    requires |Stored(m, key)| <= MAX
    requires forall i :: 0 <= i < |Stored(m, key)| ==> lo <= Stored(m, key)[i] <= hi
    requires forall i :: 0 <= i < |times| ==> lo <= times[i] <= hi
    ensures forall i :: 0 <= i < |times| ==>
      Replay(m, key, times)[i].success == (|Stored(m, key)| + i < MAX)
    ensures forall i :: 0 <= i < |times| ==>
      Replay(m, key, times)[i].remaining == (if |Stored(m, key)| + i < MAX then MAX - 1 - |Stored(m, key)| - i else 0)
    decreases |times|
  {
    if times != [] {
      var n, now := |Stored(m, key)|, times[0];
      RecordWithinWindow(m, key, now, lo, hi);
      var m' := Record(m, key, now);
      var n' := |Stored(m', key)|;
      CountDownWithinWindow(m', key, times[1..], lo, hi);
      var rest := Replay(m', key, times[1..]);
      assert Replay(m, key, times) == [Decide(Stored(m, key), now)] + rest;
      CountDownStep(Decide(Stored(m, key), now), rest, n, n');
    }
  }

  /** One more answer in front of a count-down from `n'` is a count-down
      from `n`, when `n'` is `n` plus the accepted attempt. */
  lemma CountDownStep(first: Verdict, rest: seq<Verdict>, n: nat, n': nat)
    requires n <= MAX && n' == (if n < MAX then n + 1 else MAX)
    requires first.success == (n < MAX)
    requires first.remaining == (if n < MAX then MAX - 1 - n else 0)
    requires forall i :: 0 <= i < |rest| ==>
      rest[i].success == (n' + i < MAX)
    requires forall i :: 0 <= i < |rest| ==>
      rest[i].remaining == (if n' + i < MAX then MAX - 1 - n' - i else 0)
    ensures forall i :: 0 <= i < |rest| + 1 ==>
      ([first] + rest)[i].success == (n + i < MAX)
    ensures forall i :: 0 <= i < |rest| + 1 ==>
      ([first] + rest)[i].remaining == (if n + i < MAX then MAX - 1 - n - i else 0)
  {
    forall i | 1 <= i < |rest| + 1
      ensures ([first] + rest)[i] == rest[i - 1]
    {
    }
  }

  /** One check within the window: every stored timestamp counts, and an
      accepted attempt adds one more timestamp of the same window. */
  lemma RecordWithinWindow(m: map<string, seq<int>>, key: string, now: int, lo: int, hi: int)
    requires hi - lo < WINDOW_MS && lo <= now <= hi
    requires |Stored(m, key)| <= MAX
    requires forall i :: 0 <= i < |Stored(m, key)| ==> lo <= Stored(m, key)[i] <= hi
    ensures Decide(Stored(m, key), now).success == (|Stored(m, key)| < MAX)
    ensures Decide(Stored(m, key), now).remaining
      == (if |Stored(m, key)| < MAX then MAX - 1 - |Stored(m, key)| else 0)
    ensures |Stored(Record(m, key, now), key)|
      == (if |Stored(m, key)| < MAX then |Stored(m, key)| + 1 else MAX)
    ensures forall i :: 0 <= i < |Stored(Record(m, key, now), key)| ==>
      lo <= Stored(Record(m, key, now), key)[i] <= hi
  {
    var ts := Stored(m, key);
    assert Recent(ts, now) == ts;
    if |ts| < MAX {
      assert Stored(Record(m, key, now), key) == ts + [now];
    }
  }

  /** Five attempts within an hour from a fresh client get `remaining`
      4, 3, 2, 1, 0; a sixth is refused with `remaining` 0 and a positive
      `reset`. */
  lemma SixthAttemptRefused(m: map<string, seq<int>>, key: string, times: seq<int>)
    requires key !in m
    requires |times| == 6
    requires forall i, j :: 0 <= i < |times| && 0 <= j < |times| ==> times[j] - times[i] < WINDOW_MS
    ensures var vs := Replay(m, key, times);
      && vs[0].remaining == 4 && vs[1].remaining == 3 && vs[2].remaining == 2
      && vs[3].remaining == 1 && vs[4].remaining == 0
      && vs[0].success && vs[1].success && vs[2].success && vs[3].success && vs[4].success
      && !vs[5].success && vs[5].remaining == 0 && vs[5].reset > 0
  {
    var lo := MinOf(times);
    var i :| 0 <= i < |times| && times[i] == lo;
    CountDownWithinWindow(m, key, times, lo, lo + WINDOW_MS - 1);
  }

  /** Midway through the sweep of `start`: the keys still `pending` are
      untouched, and every other key is already as `Swept` has it. */
  ghost predicate SweepProgress(start: map<string, seq<int>>, cur: map<string, seq<int>>,
                                pending: set<string>, now: int)
  {
    && pending <= start.Keys
    && cur.Keys <= start.Keys
    && (forall k :: k in pending ==> k in cur && cur[k] == start[k])
    && (forall k :: k in start && k !in pending ==>
          (k in cur <==> k in Swept(start, now)) && (k in cur ==> cur[k] == Swept(start, now)[k]))
  }

  lemma SweepBegins(start: map<string, seq<int>>, now: int)
    ensures SweepProgress(start, start, start.Keys, now)
  {
  }

  /** Sweeping one pending key keeps the sweep on course. */
  lemma SweepStep(start: map<string, seq<int>>, cur: map<string, seq<int>>,
                  pending: set<string>, now: int, k: string)
    requires SweepProgress(start, cur, pending, now) && k in pending
    ensures k in cur
    ensures var recent := Recent(cur[k], now);
      SweepProgress(start, if recent == [] then cur - {k} else cur[k := recent], pending - {k}, now)
  {
  }

  /** With nothing pending, the sweep is complete. */
  lemma SweepEnds(start: map<string, seq<int>>, cur: map<string, seq<int>>, now: int)
    requires SweepProgress(start, cur, {}, now)
    ensures cur == Swept(start, now)
  {
    assert cur.Keys == Swept(start, now).Keys;
  }

  /** The limiter object: `rateLimits`, the map from client key to the
      timestamps of its accepted attempts. */
  class RateLimiter {
    var limits: map<string, seq<int>>

    ghost predicate Valid()
      reads this
    {
      Bounded(limits)
    }

    constructor ()
      ensures Valid() && limits == map[]
    {
      limits := map[];
    }

    /** `checkRateLimit(key)` at time `now`; `sweep` as in `AfterCheck`. */
    method Check(key: string, now: int, sweep: Option<int>) returns (v: Verdict)
      requires Valid()
      modifies this
      ensures Valid()
      ensures v == Decide(Stored(old(limits), key), now)
      ensures limits == AfterCheck(old(limits), key, now, sweep)
    {
      var timestamps := if key in limits then limits[key] else [];
      var recent := Recent(timestamps, now);
      var oldest := if |recent| > 0 then MinOf(recent) else now;
      var resetInMs := Max(0, oldest + WINDOW_MS - now);
      var isLimited := |recent| >= MAX;
      if !isLimited {
        limits := limits[key := recent + [now]];
      }
      RecordBounded(old(limits), key, now);
      if sweep.Some? {
        Cleanup(sweep.value);
      }
      v := Verdict(!isLimited, if isLimited then 0 else MAX - |recent| - 1, MAX, resetInMs);
    }

    /** `cleanupRateLimits()` at time `now`: visits every entry once,
        deleting it when none of its timestamps is in the window and
        replacing it by its counted timestamps otherwise. */
    method Cleanup(now: int)
      requires Valid()
      modifies this
      ensures Valid()
      ensures limits == Swept(old(limits), now)
    {
      ghost var start := limits;
      var pending := limits.Keys;
      SweepBegins(start, now);
      while pending != {}
        invariant SweepProgress(start, limits, pending, now)
        decreases pending
      {
        var k :| k in pending;
        SweepStep(start, limits, pending, now, k);
        var recent := Recent(limits[k], now);
        if |recent| == 0 {
          limits := limits - {k};
        } else {
          limits := limits[k := recent];
        }
        pending := pending - {k};
      }
      SweepEnds(start, limits, now);
      SweptBounded(start, now);
    }
  }
}
