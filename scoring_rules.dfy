/**
 * The scoring rules of the lead scorer: the event-type weight table, the
 * recency multiplier, the burst bonus and the velocity bonus.
 *
 * Multipliers are kept in integer tenths (1.2 is 12), so a weighted event
 * score is `weight * tenths` and is exact. Timestamps are whole seconds.
 */
module ScoringRules {
  import opened Sequences

  /** The base weight of every known event type. */
  const EventWeights: map<string, nat> := map[
    "all_form_submissions" := 10,
    "file_downloads" := 9,
    "copy" := 8,
    "deep_scroll" := 6,
    "video_play" := 3,
    "video_pause" := 2,
    "all_clicks" := 4,
    "exit_intent" := 3,
    "user_idle" := 2,
    "page_view" := 1
  ]

  /** `event_weights` looked up, with `fillna(0)` for types missing from the table. */
  function EventWeight(eventType: string): (w: nat)
    ensures w <= 10
    ensures w > 0 <==> eventType in EventWeights
  {
    if eventType in EventWeights then EventWeights[eventType] else 0
  }

  const SecondsPerDay := 86400

  /** `timedelta.days` of `refTime - eventTime`: whole days, rounded towards minus infinity. */
  function DaysOld(eventTime: int, refTime: int): (days: int)
    ensures days * SecondsPerDay <= refTime - eventTime < (days + 1) * SecondsPerDay
  {
    (refTime - eventTime) / SecondsPerDay
  }

  /** `recency_multiplier`, in tenths. */
  function RecencyTenths(eventTime: int, refTime: int): (m: nat)
    ensures m == 12 || m == 10 || m == 7 || m == 5 || m == 2
  {
    var daysOld := DaysOld(eventTime, refTime);
    if daysOld <= 1 then 12
    else if daysOld <= 3 then 10
    else if daysOld <= 7 then 7
    else if daysOld <= 14 then 5
    else 2
  }

  /**
   * The multiplier bands measured in seconds of age: because the day count is
   * floored, "at most one day old" means younger than 48 hours, and any event
   * later than the reference time also gets 1.2.
   */
  lemma RecencyBands(eventTime: int, refTime: int)
    ensures var age := refTime - eventTime;
      var m := RecencyTenths(eventTime, refTime);
      (m == 12 <==> age < 2 * SecondsPerDay) &&
      (m == 10 <==> 2 * SecondsPerDay <= age < 4 * SecondsPerDay) &&
      (m == 7 <==> 4 * SecondsPerDay <= age < 8 * SecondsPerDay) &&
      (m == 5 <==> 8 * SecondsPerDay <= age < 15 * SecondsPerDay) &&
      (m == 2 <==> 15 * SecondsPerDay <= age)
  {
    var d := DaysOld(eventTime, refTime);
    assert d <= 1 <==> refTime - eventTime < 2 * SecondsPerDay;
    assert d <= 3 <==> refTime - eventTime < 4 * SecondsPerDay;
    assert d <= 7 <==> refTime - eventTime < 8 * SecondsPerDay;
    assert d <= 14 <==> refTime - eventTime < 15 * SecondsPerDay;
  }

  /** An older event never gets a larger multiplier. */
  lemma RecencyNonIncreasing(older: int, newer: int, refTime: int)
    requires older <= newer
    ensures RecencyTenths(older, refTime) <= RecencyTenths(newer, refTime)
  {
    RecencyBands(older, refTime);
    RecencyBands(newer, refTime);
  }

  const BurstWindowSeconds := 600
  const BurstMinEvents := 3
  const BurstPoints := 5

  /** `t` lies in the forward-only window that opens at `start`. */
  predicate InWindow(start: int, t: int)
  {
    0 <= t - start <= BurstWindowSeconds
  }

  /** `[t for t in timestamps if 0 <= (t - start).total_seconds() <= 600]`. */
  function Window(ts: seq<int>, start: int): (w: seq<int>)
    ensures |w| <= |ts|
    ensures forall t :: t in w ==> InWindow(start, t)
    ensures forall k :: 0 <= k < |ts| && InWindow(start, ts[k]) ==> ts[k] in w
  {
    if ts == [] then []
    else (if InWindow(start, ts[0]) then [ts[0]] else []) + Window(ts[1..], start)
  }

  /**
   * The window keeps every in-window timestamp as often as it occurs (so
   * `len(window)` counts repeated timestamps) and nothing else.
   */
  lemma {:induction false} WindowCounts(ts: seq<int>, start: int)
    ensures forall t :: multiset(Window(ts, start))[t] == if InWindow(start, t) then multiset(ts)[t] else 0
  {
    if ts != [] {
      WindowCounts(ts[1..], start);
      assert ts == [ts[0]] + ts[1..];
    }
  }

  /** Some timestamp opens a window holding at least three of them, itself included. */
  predicate HasBurst(ts: seq<int>)
  {
    exists i :: 0 <= i < |ts| && |Window(ts, ts[i])| >= BurstMinEvents
  }

  /** The burst bonus as a value, for the aggregate specification. */
  function BurstValue(ts: seq<int>): nat
  {
    if HasBurst(ts) then BurstPoints else 0
  }

  /** `burst_bonus`: scans the timestamps and stops at the first window of three. */
  method BurstBonus(ts: seq<int>) returns (bonus: nat)
    ensures bonus == 0 || bonus == 5
    ensures bonus == 5 <==> HasBurst(ts)
  {
    var i := 0;
    while i < |ts|
      invariant 0 <= i <= |ts|
      invariant forall k :: 0 <= k < i ==> |Window(ts, ts[k])| < BurstMinEvents
    {
      var window := Window(ts, ts[i]);
      if |window| >= BurstMinEvents {
        return BurstPoints;
      }
      i := i + 1;
    }
    return 0;
  }

  /** Fewer than three timestamps never make a burst. */
  lemma BurstNeedsThree(ts: seq<int>)
    requires |ts| < BurstMinEvents
    ensures !HasBurst(ts)
  {
  }

  lemma {:induction false} WindowAppend(a: seq<int>, b: seq<int>, start: int)
    ensures Window(a + b, start) == Window(a, start) + Window(b, start)
  {
    if a == [] {
      assert a + b == b;
    } else {
      assert (a + b)[0] == a[0] && (a + b)[1..] == a[1..] + b;
      WindowAppend(a[1..], b, start);
    }
  }

  /** The window's size depends only on the multiset of timestamps. */
  lemma {:induction false} WindowSizePermutation(a: seq<int>, b: seq<int>, start: int)
    requires multiset(a) == multiset(b)
    ensures |Window(a, start)| == |Window(b, start)|
    decreases |a|
  {
    if a != [] {
      assert a[0] in multiset(b);
      var k :| 0 <= k < |b| && b[k] == a[0];
      var rest := b[..k] + b[k + 1..];
      assert b == b[..k] + [b[k]] + b[k + 1..];
      assert a == [a[0]] + a[1..];
      assert multiset(b) == multiset(b[..k]) + multiset{b[k]} + multiset(b[k + 1..]);
      assert multiset(rest) == multiset(b[..k]) + multiset(b[k + 1..]);
      assert multiset(a) == multiset{a[0]} + multiset(a[1..]);
      assert multiset(rest) == multiset(b) - multiset{a[0]};
      assert multiset(a[1..]) == multiset(a) - multiset{a[0]};
      WindowSizePermutation(a[1..], rest, start);
      WindowAppend(b[..k] + [b[k]], b[k + 1..], start);
      WindowAppend(b[..k], [b[k]], start);
      WindowAppend(b[..k], b[k + 1..], start);
    } else {
      assert b == [];
    }
  }

  /** Sorting the timestamps first (as the scorer does) does not change the bonus. */
  lemma BurstOrderIndependent(a: seq<int>, b: seq<int>)
    requires multiset(a) == multiset(b)
    ensures HasBurst(a) <==> HasBurst(b)
  {
    forall x, y: seq<int> | multiset(x) == multiset(y) && HasBurst(x)
      ensures HasBurst(y)
    {
      var i :| 0 <= i < |x| && |Window(x, x[i])| >= BurstMinEvents;
      assert x[i] in multiset(y);
      var j :| 0 <= j < |y| && y[j] == x[i];
      WindowSizePermutation(x, y, x[i]);
    }
  }

  /** Ascending order on timestamps. */
  predicate IntLe(a: int, b: int)
  {
    a <= b
  }

  lemma IntLeIsTotalPreorder()
    ensures TotalPreorder(IntLe)
  {
  }

  /** Over sorted timestamps, a burst is three consecutive ones at most 600 s apart. */
  lemma BurstInSortedTimestamps(ts: seq<int>)
    requires SortedBy(ts, IntLe)
    ensures HasBurst(ts) <==> exists i :: 0 <= i && i + 2 < |ts| && ts[i + 2] - ts[i] <= BurstWindowSeconds
  {
    if i :| 0 <= i && i + 2 < |ts| && ts[i + 2] - ts[i] <= BurstWindowSeconds {
      ConsecutiveBurst(ts, i);
    } else {
      forall k | 0 <= k < |ts|
        ensures |Window(ts, ts[k])| < BurstMinEvents
      {
        SparseWindows(ts, ts[k]);
      }
    }
  }

  /** Three consecutive sorted timestamps within 600 s fill the first one's window. */
  lemma ConsecutiveBurst(ts: seq<int>, i: int)
    requires SortedBy(ts, IntLe)
    requires 0 <= i && i + 2 < |ts| && ts[i + 2] - ts[i] <= BurstWindowSeconds
    ensures |Window(ts, ts[i])| >= BurstMinEvents
  {
    assert IntLe(ts[i], ts[i + 1]) && IntLe(ts[i + 1], ts[i + 2]);
    ThreeInWindow(ts, i);
  }

  lemma ThreeInWindow(ts: seq<int>, i: int)
    requires 0 <= i && i + 2 < |ts|
    requires ts[i] <= ts[i + 1] <= ts[i + 2] <= ts[i] + BurstWindowSeconds
    ensures |Window(ts, ts[i])| >= BurstMinEvents
  {
    var start := ts[i];
    WindowSuffix(ts, i, start);
    assert ts[i..][1..] == ts[i + 1..];
    assert ts[i + 1..][1..] == ts[i + 2..];
    assert |Window(ts[i + 2..], start)| >= 1;
    assert |Window(ts[i + 1..], start)| >= 2;
    assert |Window(ts[i..], start)| >= 3;
  }

  /** Dropping a prefix never enlarges a window. */
  lemma {:induction false} WindowSuffix(ts: seq<int>, i: nat, start: int)
    requires i <= |ts|
    ensures |Window(ts[i..], start)| <= |Window(ts, start)|
  {
    if i > 0 {
      assert ts[i..] == ts[1..][i - 1..];
      WindowSuffix(ts[1..], i - 1, start);
    } else {
      assert ts[i..] == ts;
    }
  }

  /** When no three consecutive sorted timestamps fit in 600 s, no window holds three. */
  lemma {:induction false} SparseWindows(ts: seq<int>, start: int)
    requires SortedBy(ts, IntLe)
    requires forall i :: 0 <= i && i + 2 < |ts| ==> ts[i + 2] - ts[i] > BurstWindowSeconds
    ensures |Window(ts, start)| < BurstMinEvents
  {
    if ts != [] {
      if InWindow(start, ts[0]) {
        if |ts| > 2 {
          assert ts[1..] == ts[1..2] + ts[2..];
          WindowAppend(ts[1..2], ts[2..], start);
          forall k | 0 <= k < |ts[2..]|
            ensures !InWindow(start, ts[2..][k])
          {
            assert IntLe(ts[2], ts[k + 2]) || k == 0;
          }
          assert Window(ts[2..], start) == [] by {
            if Window(ts[2..], start) != [] {
              var t := Window(ts[2..], start)[0];
              assert t in Window(ts[2..], start);
              WindowOnlyFrom(ts[2..], start, t);
            }
          }
        }
      } else {
        SparseWindows(ts[1..], start);
      }
    }
  }

  /** Every timestamp in a window comes from the sequence it filters. */
  lemma {:induction false} WindowOnlyFrom(ts: seq<int>, start: int, t: int)
    requires t in Window(ts, start)
    ensures t in ts
  {
    if ts[0] != t {
      WindowOnlyFrom(ts[1..], start, t);
    }
  }

  /** `duration_min`: a span of whole seconds in minutes. */
  function DurationMinutes(seconds: int): real
  {
    seconds as real / 60.0
  }

  /** `velocity_bonus(event_count, duration_min)`, over exact reals. */
  function VelocityBonus(eventCount: nat, durationMin: real): (bonus: nat)
    ensures bonus <= 3
  {
    if durationMin == 0.0 then 0
    else
      var rate := eventCount as real / durationMin;
      if rate >= 2.0 then 3
      else if rate >= 1.0 then 2
      else if rate >= 0.5 then 1
      else 0
  }

  /** `x / d >= k` for a positive `d` is `x >= k * d`. */
  lemma RateAtLeast(x: real, d: real, k: real)
    requires d > 0.0
    ensures x / d >= k <==> x >= k * d
  {
    var q := x / d;
    assert q * d == x;
    if q >= k {
      assert q * d >= k * d;
    } else {
      assert q * d < k * d;
    }
  }

  /**
   * For a span of `seconds` > 0, the bonus is decided by integer comparisons:
   * rate >= 2, 1, 1/2 per minute is 60 * count >= 2, 1, 1/2 times the seconds.
   */
  lemma VelocityByCounts(eventCount: nat, seconds: int)
    requires seconds > 0
    ensures VelocityBonus(eventCount, DurationMinutes(seconds)) ==
      if 30 * eventCount >= seconds then 3
      else if 60 * eventCount >= seconds then 2
      else if 120 * eventCount >= seconds then 1
      else 0
  {
    var d := DurationMinutes(seconds);
    var c := eventCount as real;
    RateAtLeast(c, d, 2.0);
    RateAtLeast(c, d, 1.0);
    RateAtLeast(c, d, 0.5);
  }

  /** A zero-length span gives no velocity bonus, whatever the count. */
  lemma VelocityZeroSpan(eventCount: nat)
    ensures VelocityBonus(eventCount, DurationMinutes(0)) == 0
  {
  }

  /** For a fixed span, more events never lower the velocity bonus. */
  lemma VelocityNonDecreasing(fewer: nat, more: nat, seconds: nat)
    requires fewer <= more
    ensures VelocityBonus(fewer, DurationMinutes(seconds)) <= VelocityBonus(more, DurationMinutes(seconds))
  {
    if seconds > 0 {
      VelocityByCounts(fewer, seconds);
      VelocityByCounts(more, seconds);
    }
  }
}
