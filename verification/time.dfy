/**
 * The integer core of Time.java: its time constants, the parser and the
 * printer of signed HH:MM:SS time-of-day strings (the "Time" field of a
 * GTFS stop_times file, where hours may pass 24), the shorter distance
 * between two times on a 24 hour clock, the choice of the day a
 * time-into-day belongs to relative to a reference, and the conversion of
 * seconds-into-day into an epoch time near a reference instant.
 *
 * java.util.Calendar is a library: what it reports (the msecs into the day
 * of a date, the epoch time of a date with its time fields set) enters
 * the model as parameters.
 */
module Time {
  import opened Wrappers
  import opened JavaInt
  import opened JavaText

  const MsPerSec: int := 1000
  const MsPerMin: int := 60 * MsPerSec
  const MsPerHour: int := 60 * MsPerMin
  const MsPerDay: int := 24 * MsPerHour
  const MsPerWeek: int := 7 * MsPerDay
  const MsPerYear: int := 365 * MsPerDay

  const SecPerMin: int := 60
  const SecPerHour: int := 60 * SecPerMin
  const SecPerDay: int := 24 * SecPerHour

  const NsecPerMsec: int := 1000000

  /** The constants agree with one another and fit the Java types they are declared with. */
  lemma ConstantsAgree()
    ensures MsPerHour == 3_600_000 && MsPerDay == 86_400_000 && SecPerDay == 86_400
    ensures MsPerDay == SecPerDay * MsPerSec && MsPerHour == SecPerHour * MsPerSec
    ensures IsInt(MsPerSec) && IsInt(MsPerMin) && IsInt(SecPerDay) && IsInt(MsPerDay)
    ensures IsLong(MsPerWeek) && IsLong(MsPerYear) && MsPerYear == 31_536_000_000
    ensures NsecPerMsec == 1000 * 1000 && IsLong(NsecPerMsec)
  {
  }

  /* ---------------------------------------------------------------------- */
  /* Time-of-day text                                                       */
  /* ---------------------------------------------------------------------- */

  /**
   * parseTimeOfDay: an optional leading '-', then hours, minutes and seconds
   * separated by the first and the last ':' of the rest, each read by
   * Integer.parseInt; the total is computed in 32-bit int arithmetic. Every
   * exception the Java code can raise (charAt on the empty string, a
   * substring with a missing colon, a NumberFormatException) is None.
   */
  function ParseTimeOfDay(timeStr: string): (r: Option<int>)
    ensures r.Some? ==> IsInt(r.value)
    ensures |timeStr| == 0 ==> r.None?
  {
    if |timeStr| == 0 then None
    else
      var negative := timeStr[0] == '-';
      var positiveTimeStr := if negative then timeStr[1..] else timeStr;
      match ParseClock(positiveTimeStr)
      case Some(result) => Some(if negative then Wrap32(-result) else result)
      case None => None
  }

  /** The unsigned part of parseTimeOfDay: split at the first and the last colon. */
  function ParseClock(positiveTimeStr: string): (r: Option<int>)
    ensures r.Some? ==> IsInt(r.value)
  {
    var firstColon := IndexOf(positiveTimeStr, ':');
    var secondColon := LastIndexOf(positiveTimeStr, ':');
    if firstColon < 0 || firstColon + 1 > secondColon then None
    else
      CombineFields(ParseInt(positiveTimeStr[..firstColon]),
                    ParseInt(positiveTimeStr[firstColon + 1..secondColon]),
                    ParseInt(positiveTimeStr[secondColon + 1..]))
  }

  /** hours * 60 * 60 + minutes * 60 + seconds in int arithmetic, when all three parsed. */
  function CombineFields(hours: Option<int>, minutes: Option<int>, seconds: Option<int>): (r: Option<int>)
    ensures r.Some? <==> hours.Some? && minutes.Some? && seconds.Some?
    ensures r.Some? ==> IsInt(r.value)
  {
    if hours.Some? && minutes.Some? && seconds.Some? then
      Some(Wrap32(hours.value * 60 * 60 + minutes.value * 60 + seconds.value))
    else None
  }

  /** A number written with at least two digits, as timeOfDayStr writes each field. */
  function ZeroPadded(n: nat): (s: string)
    ensures |s| >= 2
    ensures n < 100 ==> |s| == 2
  {
    (if n < 10 then "0" else "") + DecimalText(n)
  }

  /** The padded field is all digits and reads back as the number. */
  lemma ZeroPaddedDigits(n: nat)
    ensures AllDigits(ZeroPadded(n)) && DigitsValue(ZeroPadded(n)) == n
  {
    DecimalTextValue(n);
    if n < 10 {
      assert ZeroPadded(n) == ['0', DigitChar(n)];
    } else {
      assert ZeroPadded(n) == DecimalText(n);
    }
  }

  /** The HH:MM:SS text of a non-negative number of seconds. */
  function ClockText(secs: nat): (s: string)
    ensures |s| >= 8
  {
    ZeroPadded(secs / (60 * 60)) + ":" + ZeroPadded((secs % (60 * 60)) / 60) + ":"
      + ZeroPadded(secs % 60)
  }

  /**
   * The text timeOfDayStr(long) returns: a '-' for a negative value, then the
   * clock text of its magnitude. Long.MIN_VALUE is excluded: the Java
   * negation of it overflows.
   */
  function TimeOfDayText(secInDay: int): (s: string)
    requires IsLong(secInDay) && secInDay != MinLong
    ensures |s| >= 8
  {
    (if secInDay < 0 then "-" else "") + ClockText(Abs(secInDay))
  }

  /** One field of timeOfDayStr: a "0" for a value below ten, then the value. */
  method AppendPadded(b: string, n: nat) returns (r: string)
    ensures r == b + ZeroPadded(n)
  {
    r := b;
    if n < 10 { r := r + "0"; }
    r := r + DecimalText(n);
  }

  /**
   * Appending the fields one by one to a prefix gives the prefix followed by
   * the clock text; TimeOfDayStr names the regrouping here so that the
   * sequence equality is not rediscovered inside its larger proof.
   */
  lemma AppendAssoc(prefix: string, h: string, m: string, s: string)
    ensures prefix + h + ":" + m + ":" + s == prefix + (h + ":" + m + ":" + s)
  {
  }

  /** timeOfDayStr(long): builds the text piece by piece, as the StringBuilder does. */
  method TimeOfDayStr(secInDay: int) returns (s: string)
    requires IsLong(secInDay) && secInDay != MinLong
    ensures s == TimeOfDayText(secInDay)
  {
    var timeStr := "";
    var secs := secInDay;
    if secs < 0 {
      timeStr := "-";
      secs := -secs;
    }
    var hours := secs / (60 * 60);
    var minutes := (secs % (60 * 60)) / 60;
    var seconds := secs % 60;

    var b := AppendPadded(timeStr, hours);
    b := b + ":";
    b := AppendPadded(b, minutes);
    b := b + ":";
    b := AppendPadded(b, seconds);
    assert hours == Abs(secInDay) / (60 * 60);
    assert minutes == (Abs(secInDay) % (60 * 60)) / 60;
    assert seconds == Abs(secInDay) % 60;
    AppendAssoc(timeStr, ZeroPadded(hours), ZeroPadded(minutes), ZeroPadded(seconds));
    s := b;
  }

  /** timeOfDayStr(Integer): null in, null out; otherwise the text of the value. */
  method TimeOfDayStrBoxed(secInDay: Option<int>) returns (s: Option<string>)
    requires secInDay.Some? ==> IsInt(secInDay.value)
    ensures s.None? <==> secInDay.None?
    ensures secInDay.Some? ==> s == Some(TimeOfDayText(secInDay.value))
  {
    if secInDay.None? {
      return None;
    }
    var text := TimeOfDayStr(secInDay.value);
    return Some(text);
  }

  /** The first ':' of a + ":" + b is the one after a, when a holds none. */
  lemma FirstColonAfter(a: string, b: string)
    requires forall i :: 0 <= i < |a| ==> a[i] != ':'
    ensures IndexOf(a + ":" + b, ':') == |a|
  {
    var t := a + ":" + b;
    assert t[|a|] == ':';
    assert forall j :: 0 <= j < |a| ==> t[j] != ':';
  }

  /** The last ':' of a + ":" + b is the one before b, when b holds none. */
  lemma LastColonBefore(a: string, b: string)
    requires forall i :: 0 <= i < |b| ==> b[i] != ':'
    ensures LastIndexOf(a + ":" + b, ':') == |a|
  {
    var t := a + ":" + b;
    assert t[|a|] == ':';
    assert forall j :: |a| < j < |t| ==> t[j] != ':';
  }

  /** The first colon of h + ":" + m + ":" + s ends the hours. */
  lemma FirstColonOfFields(h: string, m: string, s: string)
    requires forall i :: 0 <= i < |h| ==> h[i] != ':'
    ensures IndexOf(h + ":" + m + ":" + s, ':') == |h|
  {
    var rest := m + ":" + s;
    FirstColonAfter(h, rest);
    assert h + ":" + m + ":" + s == h + ":" + rest;
  }

  /** The last colon of h + ":" + m + ":" + s starts the seconds. */
  lemma LastColonOfFields(h: string, m: string, s: string)
    requires forall i :: 0 <= i < |s| ==> s[i] != ':'
    ensures LastIndexOf(h + ":" + m + ":" + s, ':') == |h| + 1 + |m|
  {
    LastColonBefore(h + ":" + m, s);
  }

  /** The three pieces between the colons of h + ":" + m + ":" + s are h, m and s. */
  lemma FieldSlices(h: string, m: string, s: string)
    ensures (h + ":" + m + ":" + s)[..|h|] == h
    ensures (h + ":" + m + ":" + s)[|h| + 1..|h| + 1 + |m|] == m
    ensures (h + ":" + m + ":" + s)[|h| + 1 + |m| + 1..] == s
  {
  }

  /** The clock part "H:M:S" is the three fields combined, whatever they parse to. */
  lemma ParseClockFields(h: string, m: string, s: string)
    requires forall i :: 0 <= i < |h| ==> h[i] != ':'
    requires forall i :: 0 <= i < |s| ==> s[i] != ':'
    ensures ParseClock(h + ":" + m + ":" + s) == CombineFields(ParseInt(h), ParseInt(m), ParseInt(s))
  {
    var t := h + ":" + m + ":" + s;
    FirstColonOfFields(h, m, s);
    LastColonOfFields(h, m, s);
    var first, last := IndexOf(t, ':'), LastIndexOf(t, ':');
    assert first == |h| && last == |h| + 1 + |m|;
    FieldSlices(h, m, s);
    assert t[..first] == h && t[first + 1..last] == m && t[last + 1..] == s;
  }

  /**
   * Parsing "H:M:S" (no leading '-') reads the three fields with
   * Integer.parseInt and combines them as parseTimeOfDay does.
   */
  lemma ParseTimeOfDayFields(h: string, m: string, s: string)
    requires forall i :: 0 <= i < |h| ==> h[i] != ':'
    requires forall i :: 0 <= i < |s| ==> s[i] != ':'
    requires h == [] || h[0] != '-'
    ensures ParseTimeOfDay(h + ":" + m + ":" + s) == CombineFields(ParseInt(h), ParseInt(m), ParseInt(s))
  {
    var t := h + ":" + m + ":" + s;
    ParseClockFields(h, m, s);
    assert t[0] != '-' by {
      if h == [] { assert t[0] == ':'; } else { assert t[0] == h[0]; }
    }
  }

  /**
   * Text with fewer than two colons does not parse: without a colon the
   * substrings fail, and with one colon the minutes would end before they start.
   */
  lemma ParseTimeOfDayNeedsTwoColons(timeStr: string)
    requires forall i, j :: 0 <= i < j < |timeStr| && timeStr[i] == ':' ==> timeStr[j] != ':'
    ensures ParseTimeOfDay(timeStr) == None
  {
    if |timeStr| > 0 {
      var k := if timeStr[0] == '-' then 1 else 0;
      var positiveTimeStr := timeStr[k..];
      var firstColon := IndexOf(positiveTimeStr, ':');
      var secondColon := LastIndexOf(positiveTimeStr, ':');
      assert firstColon < 0 || secondColon == firstColon;
    }
  }

  /** A leading '-' negates (in int arithmetic) what the rest parses to. */
  lemma ParseTimeOfDayNegative(t: string, parsed: Option<int>)
    requires t == [] || t[0] != '-'
    requires ParseTimeOfDay(t) == parsed
    ensures ParseTimeOfDay("-" + t) == if parsed.Some? then Some(Wrap32(-parsed.value)) else None
  {
    assert ("-" + t)[1..] == t;
    if t == [] {
      assert IndexOf(t, ':') == -1;
    }
  }

  /** The three fields of the clock text add back up to the seconds they came from. */
  lemma ClockFieldsSum(secs: nat)
    ensures (secs / (60 * 60)) * 60 * 60 + ((secs % (60 * 60)) / 60) * 60 + secs % 60
              == secs
  {
    var hours, rest := secs / (60 * 60), secs % (60 * 60);
    assert rest == (rest / 60) * 60 + rest % 60;
    assert secs == (hours * 60 + rest / 60) * 60 + rest % 60;
    assert secs % 60 == rest % 60;
  }

  /** A padded field reads back as its number, unless that exceeds an int. */
  lemma ParseZeroPadded(n: nat)
    ensures ParseInt(ZeroPadded(n)) == if n <= MaxInt then Some(n) else None
    ensures forall i :: 0 <= i < |ZeroPadded(n)| ==> IsDigit(ZeroPadded(n)[i])
  {
    ZeroPaddedDigits(n);
    ParseIntOfDigits(ZeroPadded(n));
  }

  /**
   * Three parsed fields combine to h * 3600 + m * 60 + sec, in int arithmetic.
   * Kept apart from ParseFieldValues so that CombineFields is unfolded in a
   * context where the parser is not.
   */
  lemma CombineParsed(hours: Option<int>, minutes: Option<int>, seconds: Option<int>,
                      h: int, m: int, sec: int)
    requires hours == Some(h) && minutes == Some(m) && seconds == Some(sec)
    ensures CombineFields(hours, minutes, seconds) == Some(Wrap32(h * 60 * 60 + m * 60 + sec))
  {
  }

  /** Fields that parse as h, m and sec combine to h * 3600 + m * 60 + sec, in int arithmetic. */
  lemma ParseFieldValues(hs: string, ms: string, ss: string, h: nat, m: nat, sec: nat)
    requires forall i :: 0 <= i < |hs| ==> IsDigit(hs[i])
    requires forall i :: 0 <= i < |ss| ==> IsDigit(ss[i])
    requires |hs| > 0
    requires m < 60 && sec < 60
    requires ParseInt(hs) == (if h <= MaxInt then Some(h) else None)
    requires ParseInt(ms) == (if m <= MaxInt then Some(m) else None)
    requires ParseInt(ss) == (if sec <= MaxInt then Some(sec) else None)
    ensures ParseTimeOfDay(hs + ":" + ms + ":" + ss) ==
              if h <= MaxInt then Some(Wrap32(h * 60 * 60 + m * 60 + sec)) else None
  {
    if h <= MaxInt {
      CombineParsed(ParseInt(hs), ParseInt(ms), ParseInt(ss), h, m, sec);
    }
    assert IsDigit(hs[0]);
    ParseTimeOfDayFields(hs, ms, ss);
  }

  /** The three fields of the clock text add back up, in int arithmetic too. */
  lemma WrapClockFields(secs: nat)
    ensures Wrap32((secs / (60 * 60)) * 60 * 60 + ((secs % (60 * 60)) / 60) * 60 + secs % 60)
              == Wrap32(secs)
  {
    ClockFieldsSum(secs);
  }

  /** Zero-padded clock fields parse back to the number of seconds they spell out. */
  lemma ParsePaddedFields(h: nat, m: nat, sec: nat)
    requires m < 60 && sec < 60
    ensures ParseTimeOfDay(ZeroPadded(h) + ":" + ZeroPadded(m) + ":" + ZeroPadded(sec)) ==
              if h <= MaxInt then Some(Wrap32(h * 60 * 60 + m * 60 + sec)) else None
  {
    ParseZeroPadded(h);
    ParseZeroPadded(m);
    ParseZeroPadded(sec);
    ParseFieldValues(ZeroPadded(h), ZeroPadded(m), ZeroPadded(sec), h, m, sec);
  }

  /** The minutes and seconds fields of the clock text are below 60. */
  lemma ClockFieldBounds(secs: nat)
    ensures (secs % (60 * 60)) / 60 < 60 && secs % 60 < 60
  {
  }

  /**
   * Text spelling out three zero-padded clock fields parses to the seconds
   * they add up to, once wrapped to an int.
   */
  lemma ParseFieldsText(t: string, h: nat, m: nat, sec: nat, total: nat)
    requires m < 60 && sec < 60
    requires t == ZeroPadded(h) + ":" + ZeroPadded(m) + ":" + ZeroPadded(sec)
    requires Wrap32(h * 60 * 60 + m * 60 + sec) == Wrap32(total)
    ensures ParseTimeOfDay(t) == if h <= MaxInt then Some(Wrap32(total)) else None
  {
    ParsePaddedFields(h, m, sec);
  }

  /** Parsing the clock text of a magnitude gives it back, unless its hours overflow an int. */
  lemma ParseClockText(secs: nat)
    ensures ParseTimeOfDay(ClockText(secs)) ==
              if secs / (60 * 60) <= MaxInt then Some(Wrap32(secs)) else None
  {
    ClockFieldBounds(secs);
    ClockTextUnsigned(secs);
    WrapClockFields(secs);
    ParseFieldsText(ClockText(secs), secs / (60 * 60), (secs % (60 * 60)) / 60, secs % 60, secs);
  }

  /** The clock text starts with a digit, never with a sign. */
  lemma ClockTextUnsigned(secs: nat)
    ensures ClockText(secs)[0] != '-'
  {
    ParseZeroPadded(secs / (60 * 60));
    assert ClockText(secs)[0] == ZeroPadded(secs / (60 * 60))[0];
  }

  /** Wrapping the negated magnitude of a negative x gives x wrapped. */
  lemma WrapNegateAbs(x: int)
    requires x < 0
    ensures Wrap32(-Wrap32(Abs(x))) == Wrap32(x)
  {
    WrapNegate(Abs(x));
    assert -(Abs(x) as int) == x;
  }

  /** Negating, in int arithmetic, the wrapped magnitude of a negative x gives x wrapped. */
  lemma NegateMagnitude(parsed: Option<int>, x: int)
    requires x < 0
    requires parsed == if Abs(x) / (60 * 60) <= MaxInt then Some(Wrap32(Abs(x))) else None
    ensures (if parsed.Some? then Some(Wrap32(-parsed.value)) else None)
              == if Abs(x) / (60 * 60) <= MaxInt then Some(Wrap32(x)) else None
  {
    if parsed.Some? {
      WrapArg(-parsed.value, -Wrap32(Abs(x)));
      WrapNegateAbs(x);
    }
  }

  /** The round trip for a negative value: the '-' negates the parsed magnitude. */
  lemma RoundTripNegative(secInDay: int)
    requires MinLong < secInDay < 0
    ensures ParseTimeOfDay(TimeOfDayText(secInDay)) ==
              if Abs(secInDay) / (60 * 60) <= MaxInt then Some(Wrap32(secInDay)) else None
  {
    ParseClockText(Abs(secInDay));
    ClockTextUnsigned(Abs(secInDay));
    var parsed := if Abs(secInDay) / (60 * 60) <= MaxInt then Some(Wrap32(Abs(secInDay))) else None;
    ParseTimeOfDayNegative(ClockText(Abs(secInDay)), parsed);
    NegateMagnitude(parsed, secInDay);
    assert TimeOfDayText(secInDay) == "-" + ClockText(Abs(secInDay));
  }

  /** The round trip for a non-negative value: the clock text alone. */
  lemma RoundTripNonNegative(secInDay: int)
    requires 0 <= secInDay <= MaxLong
    ensures ParseTimeOfDay(TimeOfDayText(secInDay)) ==
              if Abs(secInDay) / (60 * 60) <= MaxInt then Some(Wrap32(secInDay)) else None
  {
    ParseClockText(Abs(secInDay));
    assert TimeOfDayText(secInDay) == ClockText(Abs(secInDay));
    WrapArg(Abs(secInDay), secInDay);
  }

  /**
   * Round trip: the text timeOfDayStr writes parses back to the value,
   * reduced to an int; it fails only when the hours do not fit in an int.
   */
  lemma TimeOfDayRoundTrip(secInDay: int)
    requires IsLong(secInDay) && secInDay != MinLong
    ensures ParseTimeOfDay(TimeOfDayText(secInDay)) ==
              if Abs(secInDay) / (60 * 60) <= MaxInt then Some(Wrap32(secInDay)) else None
  {
    if secInDay < 0 {
      RoundTripNegative(secInDay);
    } else {
      RoundTripNonNegative(secInDay);
    }
  }

  /** Every int survives printing and parsing unchanged, negative values included. */
  lemma TimeOfDayRoundTripInt(secInDay: int)
    requires IsInt(secInDay)
    ensures ParseTimeOfDay(TimeOfDayText(secInDay)) == Some(secInDay)
  {
    TimeOfDayRoundTrip(secInDay);
  }

  /** Counted from the end, two-character minutes and seconds sit at fixed places. */
  lemma FieldsFromEnd(h: string, m: string, s: string)
    requires |m| == 2 && |s| == 2
    ensures var t := h + ":" + m + ":" + s;
            && |t| == |h| + 6
            && t[..|t| - 6] == h && t[|t| - 6] == ':' && t[|t| - 5..|t| - 3] == m
            && t[|t| - 3] == ':' && t[|t| - 2..] == s
  {
  }

  /**
   * The clock text is hours of at least two digits, then two-digit minutes
   * and seconds below 60, separated by ':'; the hours are not limited to 23.
   */
  lemma ClockTextFields(secs: nat)
    ensures var c := ClockText(secs);
            && c[|c| - 6] == ':' && c[|c| - 3] == ':'
            && |c| >= 8 && AllDigits(c[..|c| - 6])
            && DigitsValue(c[..|c| - 6]) == secs / (60 * 60)
            && AllDigits(c[|c| - 5..|c| - 3])
            && DigitsValue(c[|c| - 5..|c| - 3]) == (secs % (60 * 60)) / 60 < 60
            && AllDigits(c[|c| - 2..])
            && DigitsValue(c[|c| - 2..]) == secs % 60 < 60
  {
    ZeroPaddedDigits(secs / (60 * 60));
    ZeroPaddedDigits((secs % (60 * 60)) / 60);
    ZeroPaddedDigits(secs % 60);
    FieldsFromEnd(ZeroPadded(secs / (60 * 60)), ZeroPadded((secs % (60 * 60)) / 60),
                  ZeroPadded(secs % 60));
  }

  /** timeOfDayStr writes a '-' exactly for negative values, then the clock text of the magnitude. */
  lemma TimeOfDayTextSign(secInDay: int)
    requires IsLong(secInDay) && secInDay != MinLong
    ensures var t := TimeOfDayText(secInDay);
            && (t[0] == '-' <==> secInDay < 0)
            && (if secInDay < 0 then t[1..] else t) == ClockText(Abs(secInDay))
  {
    ClockTextUnsigned(Abs(secInDay));
    if secInDay < 0 {
      assert TimeOfDayText(secInDay)[1..] == ClockText(Abs(secInDay));
    }
  }

  /** Hours past 23 are written as they are: 90000 s is "25:00:00". */
  lemma TimeOfDayTextPastMidnight()
    ensures TimeOfDayText(90000) == "25:00:00"
  {
    assert 90000 / (60 * 60) == 25 && (90000 % (60 * 60)) / 60 == 0 && 90000 % 60 == 0;
    assert DecimalText(2) == "2";
    assert DecimalText(25) == "25";
    assert ZeroPadded(0) == "00";
    assert ClockText(90000) == "25" + ":" + "00" + ":" + "00";
  }

  /** A negative time of day gets a '-' before its clock text: -3723 s is "-01:02:03". */
  lemma TimeOfDayTextNegative()
    ensures TimeOfDayText(-3723) == "-01:02:03"
  {
    assert 3723 / (60 * 60) == 1 && (3723 % (60 * 60)) / 60 == 2 && 3723 % 60 == 3;
    assert ZeroPadded(1) == "01";
    assert ZeroPadded(2) == "02";
    assert ZeroPadded(3) == "03";
    assert ClockText(3723) == "01" + ":" + "02" + ":" + "03";
  }

  /* ---------------------------------------------------------------------- */
  /* Wrapping across midnight                                               */
  /* ---------------------------------------------------------------------- */

  /**
   * getTimeDifference: Math.abs of the int difference, replaced by
   * SEC_PER_DAY minus it when it exceeds 12 hours.
   */
  function GetTimeDifference(time1SecsIntoDay: int, time2SecsIntoDay: int): (r: int)
    requires IsInt(time1SecsIntoDay) && IsInt(time2SecsIntoDay)
    ensures IsInt(r)
    ensures r <= 12 * SecPerHour
  {
    var timeDiffSecs := AbsInt(Wrap32(time1SecsIntoDay - time2SecsIntoDay));
    if timeDiffSecs > 12 * SecPerHour then Wrap32(SecPerDay - timeDiffSecs) else timeDiffSecs
  }

  /** The time difference does not depend on the order of its arguments. */
  lemma TimeDifferenceSymmetric(t1: int, t2: int)
    requires IsInt(t1) && IsInt(t2)
    ensures GetTimeDifference(t1, t2) == GetTimeDifference(t2, t1)
  {
    var d := Wrap32(t1 - t2);
    WrapNegate(t1 - t2);
    assert Wrap32(t2 - t1) == Wrap32(-d);
  }

  /**
   * For two times at most a day apart the result is the distance around a
   * 24 hour clock: the shorter of the direct gap and the gap across
   * midnight, never negative and at most 12 hours.
   */
  lemma TimeDifferenceIsClockDistance(t1: int, t2: int)
    requires IsInt(t1) && IsInt(t2)
    requires Abs(t1 - t2) <= SecPerDay
    ensures var d := Abs(t1 - t2);
            GetTimeDifference(t1, t2) == if d <= SecPerDay - d then d else SecPerDay - d
    ensures 0 <= GetTimeDifference(t1, t2) <= 12 * SecPerHour
  {
  }

  /** Times into a day: 23:50 against 00:05 differ by 15 minutes, not 23 h 45 min. */
  lemma TimeDifferenceAcrossMidnight()
    ensures GetTimeDifference(23 * SecPerHour + 50 * SecPerMin, 5 * SecPerMin) == 900
  {
  }

  /** Times more than a day apart fall outside the contract: the result turns negative. */
  lemma TimeDifferenceBeyondADay()
    ensures GetTimeDifference(25 * SecPerHour, 0) == -SecPerHour
  {
  }

  /**
   * getMsecsIntoDay(Date, long): of the calendar's time into the day t,
   * t - MS_PER_DAY and t + MS_PER_DAY, the one nearest the reference, with
   * t kept on a tie. timeIntoDay is what the calendar reports for the date.
   * The reference is kept two days clear of the long range's ends, where the
   * Java subtraction would wrap.
   */
  function MsecsIntoDayNear(timeIntoDay: int, referenceTimeIntoDayMsecs: int): (r: int)
    requires 0 <= timeIntoDay < MsPerDay
    requires MinLong + 2 * MsPerDay <= referenceTimeIntoDayMsecs <= MaxLong - 2 * MsPerDay
    ensures r == timeIntoDay - MsPerDay || r == timeIntoDay || r == timeIntoDay + MsPerDay
    ensures IsInt(r)
    ensures Abs(referenceTimeIntoDayMsecs - r) <= Abs(referenceTimeIntoDayMsecs - timeIntoDay)
    ensures Abs(referenceTimeIntoDayMsecs - r) <= Abs(referenceTimeIntoDayMsecs - (timeIntoDay - MsPerDay))
    ensures Abs(referenceTimeIntoDayMsecs - r) <= Abs(referenceTimeIntoDayMsecs - (timeIntoDay + MsPerDay))
    ensures r != timeIntoDay ==>
              Abs(referenceTimeIntoDayMsecs - r) < Abs(referenceTimeIntoDayMsecs - timeIntoDay)
  {
    var ref := referenceTimeIntoDayMsecs;
    var delta := Abs(ref - timeIntoDay);
    var deltaForBeforeMidnight := Abs(ref - (timeIntoDay - MsPerDay));
    if deltaForBeforeMidnight < delta then timeIntoDay - MsPerDay
    else
      var deltaForAfterMidnight := Abs(ref - (timeIntoDay + MsPerDay));
      if deltaForAfterMidnight < delta then timeIntoDay + MsPerDay
      else timeIntoDay
  }

  /** A reference within a day and a half of t is met within half a day. */
  lemma MsecsIntoDayNearWithinHalfDay(timeIntoDay: int, ref: int)
    requires 0 <= timeIntoDay < MsPerDay
    requires MinLong + 2 * MsPerDay <= ref <= MaxLong - 2 * MsPerDay
    requires Abs(ref - timeIntoDay) <= 3 * MsPerDay / 2
    ensures Abs(ref - MsecsIntoDayNear(timeIntoDay, ref)) <= MsPerDay / 2
  {
  }

  /* ---------------------------------------------------------------------- */
  /* Seconds into day to epoch time                                         */
  /* ---------------------------------------------------------------------- */

  /** The hour, minute and second fields getEpochTime sets on the calendar. */
  datatype ClockFields = ClockFields(hours: int, minutes: int, seconds: int)

  /** getEpochTime's split of secondsIntoDay, in Java's truncating int arithmetic. */
  function SplitSecondsIntoDay(secondsIntoDay: int): ClockFields
  {
    var seconds := Rem(secondsIntoDay, 60);
    var minutesIntoDay := Quot(secondsIntoDay, 60);
    var minutes := Rem(minutesIntoDay, 60);
    var hoursIntoDay := Quot(minutesIntoDay, 60);
    var hours := Rem(hoursIntoDay, 24);
    ClockFields(hours, minutes, seconds)
  }

  /**
   * For a non-negative secondsIntoDay the fields are a valid clock time that
   * denotes secondsIntoDay modulo one day.
   */
  lemma SplitSecondsIntoDayValid(secondsIntoDay: int)
    requires secondsIntoDay >= 0
    ensures var f := SplitSecondsIntoDay(secondsIntoDay);
            && 0 <= f.hours <= 23 && 0 <= f.minutes <= 59 && 0 <= f.seconds <= 59
            && f.hours * 3600 + f.minutes * 60 + f.seconds == secondsIntoDay % SecPerDay
  {
    var x := secondsIntoDay;
    var q1 := x / 60;
    var q2 := q1 / 60;
    var h := q2 % 24;
    var q3 := q2 / 24;
    assert x == 60 * q1 + x % 60;
    assert q1 == 60 * q2 + q1 % 60;
    assert q2 == 24 * q3 + h;
    assert x == SecPerDay * q3 + (h * 3600 + (q1 % 60) * 60 + x % 60);
    ModOfDecomposition(x, q3, h * 3600 + (q1 % 60) * 60 + x % 60);
  }

  /** A count of whole days plus a remainder below a day leaves that remainder modulo a day. */
  lemma ModOfDecomposition(x: int, q: int, r: int)
    requires 0 <= r < SecPerDay && x == SecPerDay * q + r
    ensures x % SecPerDay == r
  {
  }

  /** A negative secondsIntoDay splits into the negated fields of its magnitude. */
  lemma SplitSecondsIntoDayNegative(secondsIntoDay: int)
    requires secondsIntoDay < 0
    ensures var f := SplitSecondsIntoDay(secondsIntoDay);
            var g := SplitSecondsIntoDay(-secondsIntoDay);
            f == ClockFields(-g.hours, -g.minutes, -g.seconds)
  {
    var x := secondsIntoDay;
    QuotRemOdd(-x, 60);
    QuotRemOdd(Quot(-x, 60), 60);
    QuotRemOdd(Quot(Quot(-x, 60), 60), 24);
  }

  /**
   * getEpochTime: split secondsIntoDay into fields, let the calendar set
   * them on the reference date (calendarTime), then move the result by a
   * day if it lies more than 12 hours from the reference. The reference is
   * kept 12 hours clear of the long range's ends, where the Java sum would
   * wrap.
   */
  method GetEpochTime(secondsIntoDay: int, referenceTime: int,
                      calendarTime: ClockFields -> int) returns (epochTime: int)
    requires IsInt(secondsIntoDay)
    requires MinLong + 12 * MsPerHour <= referenceTime <= MaxLong - 12 * MsPerHour
    ensures var cal := calendarTime(SplitSecondsIntoDay(secondsIntoDay));
            && (epochTime == cal - MsPerDay || epochTime == cal || epochTime == cal + MsPerDay)
            && (Abs(cal - referenceTime) <= 12 * MsPerHour ==> epochTime == cal)
            && (Abs(cal - referenceTime) < MsPerDay ==>
                  Abs(epochTime - referenceTime) <= 12 * MsPerHour)
            && (IsLong(cal) ==> IsLong(epochTime))
    ensures var cal := calendarTime(SplitSecondsIntoDay(secondsIntoDay));
            && (cal > referenceTime + 12 * MsPerHour ==> epochTime == cal - MsPerDay)
            && (cal < referenceTime - 12 * MsPerHour ==> epochTime == cal + MsPerDay)
  {
    var seconds := Rem(secondsIntoDay, 60);
    var minutesIntoDay := Quot(secondsIntoDay, 60);
    var minutes := Rem(minutesIntoDay, 60);
    var hoursIntoDay := Quot(minutesIntoDay, 60);
    var hours := Rem(hoursIntoDay, 24);

    epochTime := calendarTime(ClockFields(hours, minutes, seconds));

    if epochTime > referenceTime + 12 * MsPerHour {
      epochTime := epochTime - MsPerDay;
    } else if epochTime < referenceTime - 12 * MsPerHour {
      epochTime := epochTime + MsPerDay;
    }
  }
}
