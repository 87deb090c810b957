/**
 * The schedule resolver of updateRedshift: from a list of (time, temperature)
 * entries and the current clock reading, the temperature to apply now and the
 * number of seconds to sleep before looking again.
 */
module Resolver {
  import opened Wrappers
  import opened Times

  /** std::pair<ScheduledTime, int>: from this time of day on, this temperature. */
  datatype Entry = Entry(time: ScheduledTime, temperature: int)

  type ScheduleList = seq<Entry>

  /** The temperature handed to invokeRedshift and the delay updateRedshift returns. */
  datatype Resolution = Resolution(temperature: int, delay: int)

  /** Applied when the schedule is empty. */
  const DefaultTemperature := 6500

  /** 60*60*24 seconds. */
  const Day := 86400

  /** Entry times strictly increase, the order `save` enforces. */
  predicate Increasing(list: ScheduleList) {
    forall i :: 0 <= i < |list| - 1 ==> Less(list[i].time, list[i + 1].time)
  }

  predicate ValidEntries(list: ScheduleList) {
    forall i :: 0 <= i < |list| ==> ValidTime(list[i].time)
  }

  /** Seconds from the clock reading to time t of the same day, as the program computes them. */
  function SecondsUntil(t: ScheduledTime, now: Clock): (d: int)
    ensures d == SecondsOfDay(t) - ClockSeconds(now)
  {
    (t.hours - now.hour) * (60 * 60) + (t.minutes - now.minute) * 60 - now.second
  }

  /** The delay of the after-the-last-entry case, written with the last entry's hour. */
  function TailDelay(last: ScheduledTime, now: Clock): int {
    (24 - last.hours) * (60 * 60) - now.minute * 60 - now.second
  }

  /** Adjacent entries i-1 and i enclose the clock reading: list[i-1].time <= now < list[i].time. */
  predicate Brackets(list: ScheduleList, i: int, now: Clock)
    requires 1 <= i < |list|
  {
    AtMostClock(list[i - 1].time, now) && GreaterClock(list[i].time, now)
  }

  /**
   * The scan over adjacent pairs (prev, it) = (list[it-1], list[it]), onwards:
   * the resolution of the first pair that encloses now, or None when the end is
   * reached. If prev <= now holds at the start it holds at the end.
   */
  function ScanPairs(list: ScheduleList, it: nat, now: Clock): (r: Option<Resolution>)
    requires 1 <= it <= |list|
    ensures r.Some? ==> exists i :: (it <= i < |list| && Brackets(list, i, now) &&
                                     r.value == Resolution(list[i - 1].temperature, SecondsUntil(list[i].time, now)))
    ensures r.None? && AtMostClock(list[it - 1].time, now) ==> AtMostClock(list[|list| - 1].time, now)
    decreases |list| - it
  {
    if it == |list| then None
    else if Brackets(list, it, now) then
      Some(Resolution(list[it - 1].temperature, SecondsUntil(list[it].time, now)))
    else ScanPairs(list, it + 1, now)
  }

  /** updateRedshift, with the clock reading as a parameter and invokeRedshift as the result. */
  function Resolve(list: ScheduleList, now: Clock): (r: Resolution)
    ensures (|list| == 0 && r.temperature == DefaultTemperature) ||
      exists i :: 0 <= i < |list| && r.temperature == list[i].temperature
  {
    if |list| <= 1 then
      if |list| == 0 then Resolution(DefaultTemperature, Day)
      else Resolution(list[0].temperature, Day)
    else if GreaterClock(list[0].time, now) then
      // wrap-around: before the first entry the last entry is still active
      Resolution(list[|list| - 1].temperature, SecondsUntil(list[0].time, now))
    else match ScanPairs(list, 1, now)
      case Some(r) => r
      case None => Resolution(list[|list| - 1].temperature, TailDelay(list[|list| - 1].time, now))
  }

  /** The loop of updateRedshift: prev and it walk the list, prev.time <= now throughout. */
  method UpdateRedshift(list: ScheduleList, now: Clock) returns (r: Resolution)
    ensures r == Resolve(list, now)
  {
    if |list| <= 1 {
      if |list| == 0 {
        r := Resolution(DefaultTemperature, Day);
      }
      if |list| == 1 {
        r := Resolution(list[0].temperature, Day);
      }
      return;
    }
    var last := list[|list| - 1];
    var first := list[0];
    if GreaterClock(first.time, now) {
      return Resolution(last.temperature, SecondsUntil(first.time, now));
    }
    var prev := 0;
    var it := 1;
    while true
      invariant 1 <= it <= |list| && prev == it - 1
      invariant AtMostClock(list[prev].time, now)
      invariant ScanPairs(list, it, now) == ScanPairs(list, 1, now)
      decreases |list| - it
    {
      if it == |list| {
        return Resolution(list[prev].temperature, TailDelay(list[prev].time, now));
      }
      if AtMostClock(list[prev].time, now) && GreaterClock(list[it].time, now) {
        return Resolution(list[prev].temperature, SecondsUntil(list[it].time, now));
      }
      prev := it;
      it := it + 1;
    }
  }

  // ---------------------------------------------------------------------------
  // Properties of the resolver

  /** An empty list applies 6500 K, a single entry applies its own temperature; both sleep a day. */
  lemma ResolveShortLists(list: ScheduleList, now: Clock)
    requires |list| <= 1
    ensures |list| == 0 ==> Resolve(list, now) == Resolution(DefaultTemperature, Day)
    ensures |list| == 1 ==> Resolve(list, now) == Resolution(list[0].temperature, Day)
  {
  }

  /** Before the first entry the last entry applies, until exactly the first entry's time. */
  lemma ResolveWraparound(list: ScheduleList, now: Clock)
    requires |list| >= 2 && GreaterClock(list[0].time, now)
    ensures Resolve(list, now).temperature == list[|list| - 1].temperature
    ensures ClockSeconds(now) + Resolve(list, now).delay == SecondsOfDay(list[0].time)
  {
  }

  lemma {:induction false} IncreasingTransitive(list: ScheduleList, i: nat, j: nat)
    requires Increasing(list) && i < j < |list|
    ensures Less(list[i].time, list[j].time)
    decreases j - i
  {
    if i + 1 < j {
      IncreasingTransitive(list, i + 1, j);
    }
  }

  lemma {:induction false} ScanReachesBracket(list: ScheduleList, j: nat, i: nat, now: Clock)
    requires Increasing(list) && 1 <= j <= i < |list| && Brackets(list, i, now)
    ensures ScanPairs(list, j, now) == Some(Resolution(list[i - 1].temperature, SecondsUntil(list[i].time, now)))
    decreases i - j
  {
    if j < i {
      if j < i - 1 {
        IncreasingTransitive(list, j, i - 1);
      }
      assert !GreaterClock(list[j].time, now);
      assert !Brackets(list, j, now);
      ScanReachesBracket(list, j + 1, i, now);
    }
  }

  /**
   * On an increasing list, when prev.time <= now < curr.time for adjacent entries,
   * prev's temperature applies until exactly curr's time.
   */
  lemma ResolveWithinPair(list: ScheduleList, i: nat, now: Clock)
    requires Increasing(list) && 1 <= i < |list| && Brackets(list, i, now)
    ensures Resolve(list, now).temperature == list[i - 1].temperature
    ensures ClockSeconds(now) + Resolve(list, now).delay == SecondsOfDay(list[i].time)
  {
    if i > 1 {
      IncreasingTransitive(list, 0, i - 1);
    }
    ScanReachesBracket(list, 1, i, now);
  }

  lemma {:induction false} ScanFindsNothing(list: ScheduleList, j: nat, now: Clock)
    requires Increasing(list) && 1 <= j <= |list| && AtMostClock(list[|list| - 1].time, now)
    ensures ScanPairs(list, j, now) == None
    decreases |list| - j
  {
    if j < |list| {
      if j < |list| - 1 {
        IncreasingTransitive(list, j, |list| - 1);
      }
      ScanFindsNothing(list, j + 1, now);
    }
  }

  /** On an increasing list, at or after the last entry the last entry applies, with the tail-case delay. */
  lemma ResolveTail(list: ScheduleList, now: Clock)
    requires Increasing(list) && |list| >= 2 && AtMostClock(list[|list| - 1].time, now)
    ensures Resolve(list, now) == Resolution(list[|list| - 1].temperature, TailDelay(list[|list| - 1].time, now))
  {
    IncreasingTransitive(list, 0, |list| - 1);
    ScanFindsNothing(list, 1, now);
  }

  /**
   * The scan keeps prev.time <= now, so on any list the tail case is reached
   * only at or after the last entry's time; it applies the last temperature.
   */
  lemma TailCaseAfterLast(list: ScheduleList, now: Clock)
    requires InTailCase(list, now)
    ensures AtMostClock(list[|list| - 1].time, now)
    ensures Resolve(list, now) == Resolution(list[|list| - 1].temperature, TailDelay(list[|list| - 1].time, now))
  {
  }

  /**
   * With valid entry times and a valid clock reading every delay is at least one
   * second and at most a day, so the worker neither spins nor oversleeps a day.
   */
  lemma DelayInRange(list: ScheduleList, now: Clock)
    requires ValidEntries(list) && ValidClock(now)
    ensures 1 <= Resolve(list, now).delay <= Day
  {
    if |list| >= 2 && !GreaterClock(list[0].time, now) {
      var scan := ScanPairs(list, 1, now);
      if scan.Some? {
        var i :| 1 <= i < |list| && Brackets(list, i, now) &&
          scan.value == Resolution(list[i - 1].temperature, SecondsUntil(list[i].time, now));
        assert ValidTime(list[i].time);
        SecondsUntilBounds(list[i].time, now);
      } else {
        assert ValidTime(list[|list| - 1].time);
        TailDelayBounds(list[|list| - 1].time, now);
      }
    } else if |list| >= 2 {
      assert ValidTime(list[0].time);
      SecondsUntilBounds(list[0].time, now);
    }
  }

  /** The tail-case delay, as written, is between a second and a day. */
  lemma TailDelayBounds(last: ScheduledTime, now: Clock)
    requires ValidTime(last) && ValidClock(now)
    ensures 1 <= TailDelay(last, now) <= Day
  {
  }

  /**
   * Entry i is active at now: its half-open segment [list[i].time, list[i+1].time)
   * contains now, the last entry's segment wrapping past midnight to the first entry.
   */
  predicate IsActive(list: ScheduleList, i: int, now: Clock)
    requires 0 <= i < |list|
  {
    if i < |list| - 1 then AtMostClock(list[i].time, now) && GreaterClock(list[i + 1].time, now)
    else AtMostClock(list[i].time, now) || GreaterClock(list[0].time, now)
  }

  /** Resolve applies the temperature of an entry whose segment contains now. */
  lemma ResolveAppliesActive(list: ScheduleList, now: Clock)
    requires |list| >= 1
    ensures exists i :: (0 <= i < |list| && IsActive(list, i, now) &&
                         Resolve(list, now).temperature == list[i].temperature)
  {
    var n := |list|;
    if n == 1 {
      assert IsActive(list, 0, now);
    } else if GreaterClock(list[0].time, now) {
      assert IsActive(list, n - 1, now);
    } else {
      var scan := ScanPairs(list, 1, now);
      if scan.Some? {
        var i :| 1 <= i < n && Brackets(list, i, now) &&
          scan.value == Resolution(list[i - 1].temperature, SecondsUntil(list[i].time, now));
        assert IsActive(list, i - 1, now);
      } else {
        assert IsActive(list, n - 1, now);
      }
    }
  }

  /** On an increasing list at most one entry is active at any time. */
  lemma ActiveUnique(list: ScheduleList, i: nat, j: nat, now: Clock)
    requires Increasing(list) && i < |list| && j < |list|
    requires IsActive(list, i, now) && IsActive(list, j, now)
    ensures i == j
  {
    if i < j {
      if i + 1 < j {
        IncreasingTransitive(list, i + 1, j);
      }
      if j == |list| - 1 && i > 0 {
        IncreasingTransitive(list, 0, i);
      }
    } else if j < i {
      if j + 1 < i {
        IncreasingTransitive(list, j + 1, i);
      }
      if i == |list| - 1 && j > 0 {
        IncreasingTransitive(list, 0, j);
      }
    }
  }

  // ---------------------------------------------------------------------------
  // The tail-case delay: as written, and as evidently intended

  /** The tail case: at least two entries, not before the first, and no pair encloses now. */
  predicate InTailCase(list: ScheduleList, now: Clock) {
    |list| >= 2 && !GreaterClock(list[0].time, now) && ScanPairs(list, 1, now).None?
  }

  /** Resolve with the tail-case delay running to the first entry's time on the next day. */
  function ResolveIntended(list: ScheduleList, now: Clock): Resolution {
    if InTailCase(list, now) then
      Resolution(list[|list| - 1].temperature, SecondsUntil(list[0].time, now) + Day)
    else Resolve(list, now)
  }

  /**
   * The corrected resolver on an increasing list of valid entries: the active
   * entry applies, and now plus the delay lands, modulo a day, exactly on the
   * start of the next entry's segment (the first entry's, after the last).
   */
  lemma IntendedHitsNextBoundary(list: ScheduleList, i: nat, now: Clock)
    requires Increasing(list) && ValidEntries(list) && ValidClock(now) && |list| >= 2
    requires i < |list| && IsActive(list, i, now)
    ensures ResolveIntended(list, now).temperature == list[i].temperature
    ensures 1 <= ResolveIntended(list, now).delay <= Day
    ensures (ClockSeconds(now) + ResolveIntended(list, now).delay) % Day ==
      SecondsOfDay(list[if i + 1 < |list| then i + 1 else 0].time)
  {
    var n := |list|;
    var r := ResolveIntended(list, now);
    var next := list[if i + 1 < n then i + 1 else 0].time;
    assert ValidTime(next);
    if i < n - 1 {
      IntendedPairCase(list, i, now);
      assert ClockSeconds(now) + r.delay == SecondsOfDay(next);
    } else if GreaterClock(list[0].time, now) {
      IntendedWrapCase(list, now);
      assert ClockSeconds(now) + r.delay == SecondsOfDay(next);
    } else {
      IntendedTailCase(list, now);
      assert ClockSeconds(now) + r.delay == SecondsOfDay(next) + Day;
    }
  }

  lemma IntendedPairCase(list: ScheduleList, i: nat, now: Clock)
    requires Increasing(list) && ValidEntries(list) && ValidClock(now)
    requires i + 1 < |list| && IsActive(list, i, now)
    ensures ResolveIntended(list, now) == Resolve(list, now)
    ensures Resolve(list, now).temperature == list[i].temperature
    ensures 1 <= Resolve(list, now).delay <= Day
    ensures ClockSeconds(now) + Resolve(list, now).delay == SecondsOfDay(list[i + 1].time)
  {
    assert Brackets(list, i + 1, now);
    if i > 0 {
      IncreasingTransitive(list, 0, i);
    }
    ScanReachesBracket(list, 1, i + 1, now);
    assert ValidTime(list[i + 1].time);
    SecondsUntilBounds(list[i + 1].time, now);
  }

  /** From a valid clock reading to a later valid time of the same day: between a second and a day. */
  lemma SecondsUntilBounds(t: ScheduledTime, now: Clock)
    requires ValidTime(t) && ValidClock(now) && GreaterClock(t, now)
    ensures 1 <= SecondsUntil(t, now) <= Day
    ensures ClockSeconds(now) + SecondsUntil(t, now) == SecondsOfDay(t)
  {
    OrderBySeconds(t, now);
  }

  lemma IntendedWrapCase(list: ScheduleList, now: Clock)
    requires ValidEntries(list) && ValidClock(now) && |list| >= 2 && GreaterClock(list[0].time, now)
    ensures ResolveIntended(list, now).temperature == list[|list| - 1].temperature
    ensures 1 <= ResolveIntended(list, now).delay <= Day
    ensures ClockSeconds(now) + ResolveIntended(list, now).delay == SecondsOfDay(list[0].time)
  {
    assert !InTailCase(list, now);
    assert ValidTime(list[0].time);
    OrderBySeconds(list[0].time, now);
  }

  lemma IntendedTailCase(list: ScheduleList, now: Clock)
    requires Increasing(list) && ValidEntries(list) && ValidClock(now) && |list| >= 2
    requires AtMostClock(list[|list| - 1].time, now)
    ensures InTailCase(list, now)
    ensures ResolveIntended(list, now).temperature == list[|list| - 1].temperature
    ensures 1 <= ResolveIntended(list, now).delay <= Day
    ensures ClockSeconds(now) + ResolveIntended(list, now).delay == SecondsOfDay(list[0].time) + Day
  {
    IncreasingTransitive(list, 0, |list| - 1);
    ScanFindsNothing(list, 1, now);
    assert ValidTime(list[0].time);
    OrderBySeconds(list[0].time, now);
  }

  /**
   * In the tail case the program's delay differs from the intended one by
   * (now.hour - last.hours - first.hours) hours minus first.minutes minutes;
   * everywhere else the two resolvers agree.
   */
  lemma TailDelayAsWritten(list: ScheduleList, now: Clock)
    ensures Resolve(list, now).temperature == ResolveIntended(list, now).temperature
    ensures !InTailCase(list, now) ==> Resolve(list, now) == ResolveIntended(list, now)
    ensures InTailCase(list, now) ==>
      (Resolve(list, now).delay ==
       ResolveIntended(list, now).delay
       + (now.hour - list[|list| - 1].time.hours - list[0].time.hours) * 3600
       - list[0].time.minutes * 60)
  {
  }

  /**
   * A concrete schedule on which the tail-case delay oversleeps the next
   * transition: entries 00:30 and 20:00, clock 23:00:00. The program sleeps
   * four hours (until 03:00) although 00:30 is ninety minutes away.
   */
  lemma TailDelayOversleeps()
    ensures var list := [Entry(ScheduledTime(0, 30), 3000), Entry(ScheduledTime(20, 0), 4000)];
      var now := Clock(23, 0, 0);
      && Resolve(list, now) == Resolution(4000, 4 * 3600)
      && ResolveIntended(list, now) == Resolution(4000, 90 * 60)
  {
    var list := [Entry(ScheduledTime(0, 30), 3000), Entry(ScheduledTime(20, 0), 4000)];
    var now := Clock(23, 0, 0);
    assert ScanPairs(list, 2, now) == None;
    assert !Brackets(list, 1, now);
  }

  /**
   * A two-entry day, 06:00 at 6500 K and 20:00 at 3400 K: before 06:00 the
   * evening value wraps around; at 23:00 the program sleeps four hours (to
   * 03:00) where the next transition, 06:00, is seven hours away.
   */
  lemma TwoEntryDay()
    ensures var list := [Entry(ScheduledTime(6, 0), 6500), Entry(ScheduledTime(20, 0), 3400)];
      && Resolve(list, Clock(5, 0, 0)) == Resolution(3400, 3600)
      && Resolve(list, Clock(6, 0, 0)) == Resolution(6500, 14 * 3600)
      && Resolve(list, Clock(19, 59, 30)) == Resolution(6500, 30)
      && Resolve(list, Clock(23, 0, 0)) == Resolution(3400, 4 * 3600)
      && ResolveIntended(list, Clock(23, 0, 0)) == Resolution(3400, 7 * 3600)
  {
    var list := [Entry(ScheduledTime(6, 0), 6500), Entry(ScheduledTime(20, 0), 3400)];
    assert Brackets(list, 1, Clock(6, 0, 0));
    assert Brackets(list, 1, Clock(19, 59, 30));
    assert ScanPairs(list, 2, Clock(23, 0, 0)) == None;
    assert !Brackets(list, 1, Clock(23, 0, 0));
  }
}
