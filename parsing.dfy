/**
 * The two validators: parseTime accepts "H:M" (digits, a colon, digits)
 * with hours 0-23 and minutes 0-59; parseTemperature accepts digits, then
 * any number of spaces, then an optional 'K', with a value in 1000-25000.
 * Each failure is one of the program's runtime_error messages.
 */
module Parsing {
  import opened Wrappers
  import opened Text
  import opened Times

  /** The std::runtime_error conditions of the core, one per message. */
  datatype RuntimeError =
    | TimeSyntax
    | HoursOutOfRange
    | MinutesOutOfRange
    | TemperatureSyntax
    | TemperatureOutOfRange
    | NotChronological
  {
    function Message(): string {
      match this
      case TimeSyntax => "Failed to parse time"
      case HoursOutOfRange => "Hours must be in range: 0-23"
      case MinutesOutOfRange => "Minutes must be in range: 0-59"
      case TemperatureSyntax => "Failed to parse temperature"
      case TemperatureOutOfRange => "Temperature must be within 1000K and 25000K"
      case NotChronological => "Time entries must be ordered chronologically"
    }
  }

  const MinTemperature := 1000
  const MaxTemperature := 25000

  /** The whole string has the shape ([0-9]+):([0-9]+). */
  predicate MatchesTimePattern(s: string) {
    exists k :: 0 < k < |s| - 1 && s[k] == ':' && AllDigits(s[..k]) && AllDigits(s[k + 1..])
  }

  function ParseTime(s: string): (r: Result<ScheduledTime, RuntimeError>)
    ensures r.Success? ==> ValidTime(r.value)
    ensures r.Failure? ==> r.error in {TimeSyntax, HoursOutOfRange, MinutesOutOfRange}
  {
    var k := IndexOf(s, ':');
    if k == 0 || k + 1 >= |s| || !AllDigits(s[..k]) || !AllDigits(s[k + 1..]) then
      Failure(TimeSyntax)
    else
      var hours := Value(s[..k]);
      var minutes := Value(s[k + 1..]);
      if !InRange(hours, 0, 23) then Failure(HoursOutOfRange)
      else if !InRange(minutes, 0, 59) then Failure(MinutesOutOfRange)
      else Success(ScheduledTime(hours, minutes))
  }

  /** A syntax failure happens exactly when the string does not have the "H:M" shape. */
  lemma ParseTimeSyntax(s: string)
    ensures ParseTime(s) == Failure(TimeSyntax) <==> !MatchesTimePattern(s)
  {
    var k := IndexOf(s, ':');
    if MatchesTimePattern(s) {
      var j :| 0 < j < |s| - 1 && s[j] == ':' && AllDigits(s[..j]) && AllDigits(s[j + 1..]);
      assert k == j;
    }
  }

  /** On the "H:M" shape the result depends on the two numbers only: hours are checked first. */
  lemma ParseTimeFields(hs: string, ms: string)
    requires |hs| > 0 && |ms| > 0 && AllDigits(hs) && AllDigits(ms)
    ensures ParseTime(hs + ":" + ms).Success? <==> Value(hs) <= 23 && Value(ms) <= 59
    ensures ParseTime(hs + ":" + ms).Success? ==>
      ParseTime(hs + ":" + ms).value == ScheduledTime(Value(hs), Value(ms))
    ensures Value(hs) > 23 ==> ParseTime(hs + ":" + ms) == Failure(HoursOutOfRange)
    ensures Value(hs) <= 23 && Value(ms) > 59 ==> ParseTime(hs + ":" + ms) == Failure(MinutesOutOfRange)
  {
    var s := hs + ":" + ms;
    var k := IndexOf(s, ':');
    assert s[|hs|] == ':';
    assert k == |hs|;
    assert s[..k] == hs && s[k + 1..] == ms;
  }

  /** Round trip: every valid time reads back from its own rendering. */
  lemma ParseTimeOfToString(t: ScheduledTime)
    requires ValidTime(t)
    ensures ParseTime(ToString(t)) == Success(t)
  {
    var s := ToString(t);
    assert s == s[..2] + ":" + s[3..];
    ParseTimeFields(s[..2], s[3..]);
  }

  /** The end of the run of digits that starts at i. */
  function DigitsFrom(s: string, i: nat): (k: nat)
    requires i <= |s|
    ensures i <= k <= |s|
    ensures forall j :: i <= j < k ==> IsDigit(s[j])
    ensures k < |s| ==> !IsDigit(s[k])
    decreases |s| - i
  {
    if i < |s| && IsDigit(s[i]) then DigitsFrom(s, i + 1) else i
  }

  /** The length of the longest prefix of s made of digits. */
  function DigitPrefix(s: string): (k: nat)
    ensures k <= |s| && AllDigits(s[..k])
    ensures k < |s| ==> !IsDigit(s[k])
  {
    DigitsFrom(s, 0)
  }

  lemma DigitPrefixOfConcat(ds: string, t: string)
    requires AllDigits(ds) && (t == [] || !IsDigit(t[0]))
    ensures DigitPrefix(ds + t) == |ds|
  {
    var s := ds + t;
    assert forall j :: 0 <= j < |ds| ==> s[j] == ds[j];
    assert |ds| < |s| ==> s[|ds|] == t[0];
  }

  predicate AllSpaces(s: string) {
    forall i :: 0 <= i < |s| ==> s[i] == ' '
  }

  /** The whole string has the shape ([0-9]+) *K? . */
  predicate MatchesTemperaturePattern(s: string) {
    exists k, j :: 0 < k <= j <= |s| && AllDigits(s[..k]) && AllSpaces(s[k..j]) && (s[j..] == "" || s[j..] == "K")
  }

  /** The text after the digits with one trailing 'K' removed, if it has one. */
  function WithoutK(rest: string): string {
    if |rest| > 0 && rest[|rest| - 1] == 'K' then rest[..|rest| - 1] else rest
  }

  function ParseTemperature(s: string): (r: Result<int, RuntimeError>)
    ensures r.Success? ==> MinTemperature <= r.value <= MaxTemperature
    ensures r.Failure? ==> r.error in {TemperatureSyntax, TemperatureOutOfRange}
  {
    var k := DigitPrefix(s);
    if k == 0 || !AllSpaces(WithoutK(s[k..])) then
      Failure(TemperatureSyntax)
    else
      var temperature := Value(s[..k]);
      if !InRange(temperature, MinTemperature, MaxTemperature) then Failure(TemperatureOutOfRange)
      else Success(temperature)
  }

  /** Removing the 'K' leaves a prefix, and what was removed is "" or "K". */
  lemma WithoutKSplits(rest: string)
    ensures var w := WithoutK(rest);
      |w| <= |rest| && rest[..|w|] == w && (rest[|w|..] == "" || rest[|w|..] == "K")
  {
    var w := WithoutK(rest);
    if |w| < |rest| {
      assert rest[|w|..] == [rest[|rest| - 1]];
    }
  }

  /** Spaces followed by an optional 'K' lose exactly the 'K'. */
  lemma WithoutKOfSpaces(spaces: string, suffix: string)
    requires AllSpaces(spaces) && (suffix == "" || suffix == "K")
    ensures WithoutK(spaces + suffix) == spaces
  {
    var rest := spaces + suffix;
    if suffix == "K" {
      assert rest[..|rest| - 1] == spaces;
    } else if |spaces| > 0 {
      assert rest[|rest| - 1] == spaces[|spaces| - 1];
    }
  }

  /** A syntax failure happens exactly when the string does not have the "digits, spaces, K" shape. */
  lemma ParseTemperatureSyntax(s: string)
    ensures ParseTemperature(s) == Failure(TemperatureSyntax) <==> !MatchesTemperaturePattern(s)
  {
    if ParseTemperature(s) != Failure(TemperatureSyntax) {
      AcceptedShapeMatches(s);
    }
    if MatchesTemperaturePattern(s) {
      MatchingShapeAccepted(s);
    }
  }

  lemma AcceptedShapeMatches(s: string)
    requires DigitPrefix(s) > 0 && AllSpaces(WithoutK(s[DigitPrefix(s)..]))
    ensures MatchesTemperaturePattern(s)
  {
    var k := DigitPrefix(s);
    var rest := s[k..];
    var w := WithoutK(rest);
    WithoutKSplits(rest);
    var j := k + |w|;
    assert s[k..j] == rest[..|w|];
    assert s[j..] == rest[|w|..];
    assert AllSpaces(s[k..j]);
  }

  lemma MatchingShapeAccepted(s: string)
    requires MatchesTemperaturePattern(s)
    ensures ParseTemperature(s).Success? || ParseTemperature(s) == Failure(TemperatureOutOfRange)
  {
    var k, j :| 0 < k <= j <= |s| && AllDigits(s[..k]) && AllSpaces(s[k..j]) && (s[j..] == "" || s[j..] == "K");
    assert s == s[..k] + s[k..j] + s[j..];
    ParseTemperatureFields(s[..k], s[k..j], s[j..]);
  }

  /** On the temperature shape the result depends on the number only. */
  lemma ParseTemperatureFields(ds: string, spaces: string, suffix: string)
    requires |ds| > 0 && AllDigits(ds) && AllSpaces(spaces) && (suffix == "" || suffix == "K")
    ensures ParseTemperature(ds + spaces + suffix) ==
      if MinTemperature <= Value(ds) <= MaxTemperature then Success(Value(ds)) else Failure(TemperatureOutOfRange)
  {
    var s := ds + spaces + suffix;
    DigitPrefixOfConcat(ds, spaces + suffix);
    assert s == ds + (spaces + suffix);
    assert s[..|ds|] == ds && s[|ds|..] == spaces + suffix;
    WithoutKOfSpaces(spaces, suffix);
  }

  /** Round trip: a temperature in range reads back from std::to_string of it followed by "K". */
  lemma ParseTemperatureOfString(n: int)
    requires MinTemperature <= n <= MaxTemperature
    ensures ParseTemperature(IntToString(n) + "K") == Success(n)
  {
    ParseTemperatureFields(IntToString(n), "", "K");
    assert IntToString(n) + "" + "K" == IntToString(n) + "K";
  }
}
