/**
 * Time-of-day values: ScheduledTime (hours, minutes), the wall-clock
 * reading the resolver compares against, their comparison operators and
 * the zero-padded "HH:MM" rendering.
 */
module Times {
  import opened Text

  /** A daily checkpoint; fields are plain ints as in the program, validity is separate. */
  datatype ScheduledTime = ScheduledTime(hours: int, minutes: int)

  /** The fields of the local-time std::tm that the program reads. */
  datatype Clock = Clock(hour: int, minute: int, second: int)

  /** inRange: both bounds inclusive. */
  predicate InRange(val: int, min: int, max: int) {
    val >= min && val <= max
  }

  predicate ValidTime(t: ScheduledTime) {
    InRange(t.hours, 0, 23) && InRange(t.minutes, 0, 59)
  }

  /** A reading of the local clock; leap second 60 is not considered. */
  predicate ValidClock(c: Clock) {
    InRange(c.hour, 0, 23) && InRange(c.minute, 0, 59) && InRange(c.second, 0, 59)
  }

  // ScheduledTime against ScheduledTime: < is primitive, the others derive from it.

  predicate Less(t1: ScheduledTime, t2: ScheduledTime) {
    t1.hours < t2.hours || (t1.hours == t2.hours && t1.minutes < t2.minutes)
  }

  predicate Greater(t1: ScheduledTime, t2: ScheduledTime) {
    Less(t2, t1)
  }

  predicate AtLeast(t1: ScheduledTime, t2: ScheduledTime) {
    !Less(t1, t2)
  }

  predicate AtMost(t1: ScheduledTime, t2: ScheduledTime) {
    !Less(t2, t1)
  }

  // ScheduledTime against the clock: == , < and > are each written out, <= and >= derive.

  predicate EqualClock(t: ScheduledTime, c: Clock) {
    t.hours == c.hour && t.minutes == c.minute
  }

  predicate LessClock(t: ScheduledTime, c: Clock) {
    t.hours < c.hour || (t.hours == c.hour && t.minutes < c.minute)
  }

  predicate GreaterClock(t: ScheduledTime, c: Clock) {
    t.hours > c.hour || (t.hours == c.hour && t.minutes > c.minute)
  }

  predicate AtLeastClock(t: ScheduledTime, c: Clock) {
    !LessClock(t, c)
  }

  predicate AtMostClock(t: ScheduledTime, c: Clock) {
    !GreaterClock(t, c)
  }

  /** The hour and minute of a clock reading, as a ScheduledTime. */
  function TimeOf(c: Clock): ScheduledTime {
    ScheduledTime(c.hour, c.minute)
  }

  function SecondsOfDay(t: ScheduledTime): int {
    t.hours * 3600 + t.minutes * 60
  }

  function ClockSeconds(c: Clock): int {
    c.hour * 3600 + c.minute * 60 + c.second
  }

  /** "0" before a value below 10, then std::to_string of it. */
  function Padded(n: int): string {
    (if n < 10 then "0" else "") + IntToString(n)
  }

  /** toString: zero-padded hours, a colon, zero-padded minutes. */
  function ToString(t: ScheduledTime): (s: string)
    ensures ValidTime(t) ==>
      && |s| == 5 && s[2] == ':'
      && AllDigits(s[..2]) && Value(s[..2]) == t.hours
      && AllDigits(s[3..]) && Value(s[3..]) == t.minutes
  {
    var s := Padded(t.hours) + ":" + Padded(t.minutes);
    assert ValidTime(t) ==> |Padded(t.hours)| == 2 && |Padded(t.minutes)| == 2 by {
      if ValidTime(t) {
        PaddedTwoDigits(t.hours);
        PaddedTwoDigits(t.minutes);
      }
    }
    assert ValidTime(t) ==> s[..2] == Padded(t.hours) && s[3..] == Padded(t.minutes);
    s
  }

  lemma PaddedTwoDigits(n: int)
    requires 0 <= n < 100
    ensures |Padded(n)| == 2 && AllDigits(Padded(n)) && Value(Padded(n)) == n
  {
    var s := Padded(n);
    if n < 10 {
      assert s == ['0', DigitChar(n)];
      assert s[..1] == ['0'] && s[..1][..0] == [];
    } else {
      var p := NatToString(n / 10);
      assert NatToString(n) == p + [DigitChar(n % 10)];
      assert |p| == 1;
      assert s[..1] == p;
    }
  }

  /**
   * The comparison operators form one strict total order on (hours, minutes),
   * the derived operators agree with it, and the operators against the clock
   * agree with comparing against the clock's (hour, minute).
   */
  lemma OrderLaws(a: ScheduledTime, b: ScheduledTime, c: ScheduledTime, now: Clock)
    ensures !Less(a, a)
    ensures Less(a, b) && Less(b, c) ==> Less(a, c)
    ensures Less(a, b) || a == b || Less(b, a)
    ensures Less(a, b) ==> !Less(b, a) && a != b
    ensures AtMost(a, b) <==> Less(a, b) || a == b
    ensures AtLeast(a, b) <==> Greater(a, b) || a == b
    ensures EqualClock(a, now) <==> a == TimeOf(now)
    ensures LessClock(a, now) <==> Less(a, TimeOf(now))
    ensures GreaterClock(a, now) <==> Greater(a, TimeOf(now))
    ensures AtMostClock(a, now) <==> LessClock(a, now) || EqualClock(a, now)
    ensures AtLeastClock(a, now) <==> GreaterClock(a, now) || EqualClock(a, now)
  {
  }

  /** On valid times the lexicographic order is the order of seconds since midnight. */
  lemma OrderBySeconds(a: ScheduledTime, now: Clock)
    requires ValidTime(a) && ValidClock(now)
    ensures GreaterClock(a, now) <==> SecondsOfDay(a) > ClockSeconds(now)
    ensures AtMostClock(a, now) ==> SecondsOfDay(a) <= ClockSeconds(now)
  {
  }
}
