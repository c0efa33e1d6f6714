/** Fixed-offset time zones identified by strings of the form "UTC+05:30":
    parsing the identifier, offset arithmetic on instants and the formatting
    used for display.

    Instants are integer milliseconds. Where the source reads the host clock
    (`new Date()`, `getTimezoneOffset`) the reading is a parameter. */
module TimeUtils {
  import opened Types
  import opened Text

  const MinuteMs: int := 60 * 1000
  const HourMs: int := 60 * MinuteMs

  /** `getHours()` / `getUTCHours()` of an instant (fixed offset, no daylight saving). */
  function HourOfDay(t: int): (h: int)
    ensures 0 <= h < 24
  {
    (t / HourMs) % 24
  }

  /** `getMinutes()` / `getUTCMinutes()` of an instant. */
  function MinuteOfHour(t: int): (m: int)
    ensures 0 <= m < 60
  {
    (t / MinuteMs) % 60
  }

  /** JavaScript's `%`: the remainder takes the sign of the dividend. */
  function JsRem(a: int, b: int): (r: int)
    requires b > 0
    ensures -b < r < b
    ensures a >= 0 ==> r == a % b
    ensures a < 0 ==> r <= 0
    ensures (a - r) % b == 0
  {
    if a >= 0 then
      MultipleMod(a / b, b);
      a % b
    else
      NegativeRem(a, b);
      -((-a) % b)
  }

  lemma NegativeRem(a: int, b: int)
    requires b > 0 && a < 0
    ensures (a + (-a) % b) % b == 0
  {
    var q, m := (-a) / b, (-a) % b;
    assert -a == q * b + m;
    assert a + m == (-q) * b;
    MultipleMod(-q, b);
  }

  /** A multiple of `b` leaves no remainder. */
  lemma MultipleMod(k: int, b: int)
    requires b > 0
    ensures (k * b) % b == 0 && (k * b) / b == k
  {
    var q, r := (k * b) / b, (k * b) % b;
    assert k * b == q * b + r && 0 <= r < b;
    assert (k - q) * b == r;
    MulOutside(k - q, b);
  }

  lemma MulOutside(x: int, b: int)
    requires b > 0
    ensures x >= 1 ==> x * b >= b
    ensures x <= -1 ==> x * b <= -b
  {
  }

  // ---------------------------------------------------------------------------
  // The identifier pattern /UTC([+-])(\d{2}):(\d{2})/ (unanchored, first match)
  // ---------------------------------------------------------------------------

  /** The three capture groups of a match. */
  datatype OffsetMatch = OffsetMatch(positive: bool, hours: nat, minutes: nat)

  /** The pattern matches the nine characters starting at position `i`. */
  predicate MatchesAt(s: string, i: nat) {
    && i + 9 <= |s|
    && s[i] == 'U' && s[i + 1] == 'T' && s[i + 2] == 'C'
    && (s[i + 3] == '+' || s[i + 3] == '-')
    && IsDigit(s[i + 4]) && IsDigit(s[i + 5])
    && s[i + 6] == ':'
    && IsDigit(s[i + 7]) && IsDigit(s[i + 8])
  }

  /** The leftmost position at or after `from` where the pattern matches. */
  function FirstMatch(s: string, from: nat): (r: Option<nat>)
    ensures r.Some? ==> from <= r.value && MatchesAt(s, r.value)
    ensures r.Some? ==> forall j :: from <= j < r.value ==> !MatchesAt(s, j)
    ensures r.None? ==> forall j: nat :: from <= j ==> !MatchesAt(s, j)
    decreases |s| - from
  {
    if |s| < from + 9 then None
    else if MatchesAt(s, from) then Some(from)
    else FirstMatch(s, from + 1)
  }

  /** The capture groups of the match at `i`, read with `parseInt(_, 10)`. */
  function Captures(s: string, i: nat): (m: OffsetMatch)
    requires MatchesAt(s, i)
    ensures m.hours < 100 && m.minutes < 100
  {
    OffsetMatch(
      s[i + 3] == '+',
      DigitValue(s[i + 4]) * 10 + DigitValue(s[i + 5]),
      DigitValue(s[i + 7]) * 10 + DigitValue(s[i + 8]))
  }

  /** `id.match(/UTC([+-])(\d{2}):(\d{2})/)`: the groups of the leftmost match,
      if the pattern occurs anywhere in the string. */
  function MatchOffset(id: string): (r: Option<OffsetMatch>)
    ensures r.None? <==> forall i: nat :: !MatchesAt(id, i)
    ensures r.Some? ==> exists i: nat :: MatchesAt(id, i) && r.value == Captures(id, i)
                                         && forall j: nat :: j < i ==> !MatchesAt(id, j)
  {
    match FirstMatch(id, 0)
    case None => None
    case Some(i) => Some(Captures(id, i))
  }

  /** `sign * n` for the sign group of a match. */
  function Signed(positive: bool, n: nat): int {
    if positive then n as int else -(n as int)
  }

  /** Signed offset in minutes east of UTC; neither field is range-checked.
      The sign applies to hours and minutes alike, and with minutes below 60
      the magnitude splits back into the two fields. */
  function OffsetMinutes(m: OffsetMatch): (offset: int)
    ensures offset >= 0 <==> m.positive || (m.hours == 0 && m.minutes == 0)
    ensures m.minutes < 60 ==>
              var magnitude := if offset < 0 then -offset else offset;
              magnitude / 60 == m.hours && magnitude % 60 == m.minutes
  {
    if m.positive then m.hours * 60 + m.minutes else -(m.hours * 60 + m.minutes)
  }

  /** The offset an identifier denotes, as `convertTime` and `getHourDifference` read it. */
  function ParseOffset(id: string): (r: Option<int>)
    ensures r.Some? ==> -(99 * 60 + 99) <= r.value <= 99 * 60 + 99
  {
    match MatchOffset(id)
    case None => None
    case Some(m) => Some(OffsetMinutes(m))
  }

  /** Parsing fails exactly when the pattern occurs nowhere in the identifier. */
  lemma ParseFails(id: string)
    ensures ParseOffset(id).None? <==> forall i: nat :: !MatchesAt(id, i)
  {
  }

  /** An identifier that is exactly `UTC`, a sign, two digits, a colon and two digits. */
  predicate Canonical(id: string) {
    |id| == 9 && MatchesAt(id, 0)
  }

  /** The offset is taken from the leftmost occurrence of the pattern, wherever it is. */
  lemma ParseLeftmost(s: string, i: nat)
    requires MatchesAt(s, i)
    requires forall j: nat :: j < i ==> !MatchesAt(s, j)
    ensures ParseOffset(s) == Some(OffsetMinutes(Captures(s, i)))
  {
  }

  /** Hours and minutes are not bounded. */
  lemma ParseUnbounded()
    ensures ParseOffset("UTC+99:99") == Some(99 * 60 + 99)
  {
  }

  lemma ParseNegative()
    ensures ParseOffset("UTC-09:30") == Some(-570)
  {
  }

  /** Text around the identifier is ignored. */
  lemma ParseInsideText()
    ensures ParseOffset("(UTC+05:30) New Delhi") == Some(330)
  {
    var s := "(UTC+05:30) New Delhi";
    assert !MatchesAt(s, 0);
    ParseLeftmost(s, 1);
  }

  // ---------------------------------------------------------------------------
  // convertTime and getHourDifference
  // ---------------------------------------------------------------------------

  /** `convertTime`: shifts the instant by the difference of the two offsets,
      and returns it unchanged when either identifier does not match. */
  function ConvertTime(t: int, fromId: string, toId: string): (r: int)
    ensures (r - t) % MinuteMs == 0
    ensures r == t <==> ParseOffset(fromId).None? || ParseOffset(toId).None?
                        || ParseOffset(fromId) == ParseOffset(toId)
  {
    var from, to := ParseOffset(fromId), ParseOffset(toId);
    if from.Some? && to.Some? then
      ShiftByMinutes(t, to.value - from.value);
      t + (to.value - from.value) * MinuteMs
    else t
  }

  /** Shifting by `d` whole minutes moves the instant by a multiple of a
      minute, and moves it at all exactly when `d` is not zero. */
  lemma ShiftByMinutes(t: int, d: int)
    ensures (t + d * MinuteMs - t) % MinuteMs == 0
    ensures t + d * MinuteMs == t <==> d == 0
  {
    MultipleMod(d, MinuteMs);
  }

  /** Converting into the zone one started from changes nothing. */
  lemma ConvertToSelf(t: int, id: string)
    ensures ConvertTime(t, id, id) == t
  {
  }

  /** Converting there and back returns the instant, whatever the identifiers. */
  lemma ConvertRoundTrip(t: int, a: string, b: string)
    ensures ConvertTime(ConvertTime(t, a, b), b, a) == t
  {
  }

  /** Conversions compose when all three identifiers match. */
  lemma ConvertCompose(t: int, a: string, b: string, c: string)
    requires ParseOffset(a).Some? && ParseOffset(b).Some? && ParseOffset(c).Some?
    ensures ConvertTime(ConvertTime(t, a, b), b, c) == ConvertTime(t, a, c)
  {
  }

  /** The fail-soft default breaks composition: through a malformed middle
      identifier both steps are no-ops, while the direct conversion is not. */
  lemma ConvertComposeNeedsMiddle()
    ensures ConvertTime(ConvertTime(0, "UTC+01:00", "CET"), "CET", "UTC+03:00") == 0
    ensures ConvertTime(0, "UTC+01:00", "UTC+03:00") == 2 * HourMs
  {
    NoMatchInCet();
    TwoHoursApart();
  }

  lemma NoMatchInCet()
    ensures ParseOffset("CET") == None
  {
    assert !MatchesAt("CET", 0);
  }

  lemma TwoHoursApart()
    ensures ParseOffset("UTC+01:00") == Some(60) && ParseOffset("UTC+03:00") == Some(180)
  {
  }

  /** `Math.round(d / 60)` for a difference of `d` minutes: the nearest whole
      hour, a tie of exactly half an hour going up. */
  function RoundToHours(d: int): (h: int)
    ensures -30 <= d - 60 * h < 30
  {
    (d + 30) / 60
  }

  /** `getHourDifference`: the rounded difference in hours between the offsets,
      0 when either identifier does not match. */
  function HourDifference(fromId: string, toId: string): (h: int)
    ensures ParseOffset(fromId).None? || ParseOffset(toId).None? ==> h == 0
    ensures ParseOffset(fromId).Some? && ParseOffset(toId).Some? ==>
              var d := ParseOffset(toId).value - ParseOffset(fromId).value;
              -30 <= d - 60 * h < 30
  {
    var from, to := ParseOffset(fromId), ParseOffset(toId);
    if from.Some? && to.Some? then RoundToHours(to.value - from.value) else 0
  }

  /** Reversing the direction negates the result except when the offsets are
      a whole number of hours plus exactly thirty minutes apart: then the two
      directions sum to one. */
  lemma {:induction false} HourDifferenceReversed(a: string, b: string)
    requires ParseOffset(a).Some? && ParseOffset(b).Some?
    ensures var d := ParseOffset(b).value - ParseOffset(a).value;
            HourDifference(a, b) + HourDifference(b, a) == if d % 60 == 30 then 1 else 0
  {
    var d := ParseOffset(b).value - ParseOffset(a).value;
    var q, m := d / 60, d % 60;
    assert d == 60 * q + m;
    var up, down := HourDifference(a, b), HourDifference(b, a);
    assert -30 <= d - 60 * up < 30;
    assert -30 <= -d - 60 * down < 30;
    if m < 30 {
      assert up == q;
      assert down == -q;
    } else if m == 30 {
      assert up == q + 1;
      assert down == -q;
    } else {
      assert up == q + 1;
      assert down == -q - 1;
    }
  }

  lemma HourDifferenceHalfHourExample()
    ensures HourDifference("UTC+00:00", "UTC+02:30") == 3
    ensures HourDifference("UTC+02:30", "UTC+00:00") == -2
  {
    assert ParseOffset("UTC+00:00") == Some(0);
    assert ParseOffset("UTC+02:30") == Some(150);
  }

  // ---------------------------------------------------------------------------
  // detectTimeZone: formatting an offset as an identifier
  // ---------------------------------------------------------------------------

  /** The identifier `detectTimeZone` builds: `+` for a non-negative offset,
      hours and minutes of the magnitude each padded to two digits. */
  function FormatOffset(offset: int): (id: string)
    ensures |id| >= 9 && id[..3] == "UTC"
    ensures id[3] == '+' <==> offset >= 0
    ensures |id| == 9 <==> -6000 < offset < 6000
  {
    var magnitude := if offset < 0 then -offset else offset;
    assert magnitude % 60 < 100;
    FormatFields(offset >= 0, magnitude / 60, magnitude % 60)
  }

  /** "UTC", the sign, then the two fields each padded to at least two digits:
      nine characters exactly when both fields are below a hundred. */
  function FormatFields(positive: bool, hours: nat, minutes: nat): (id: string)
    ensures |id| >= 9 && id[..3] == "UTC"
    ensures id[3] == (if positive then '+' else '-')
    ensures |id| == 9 <==> hours < 100 && minutes < 100
  {
    var sign := if positive then "+" else "-";
    var hs, ms := PadStart2(NatToString(hours)), PadStart2(NatToString(minutes));
    NatToStringLength(hours);
    NatToStringLength(minutes);
    IdentifierLayout(sign, hs, ms);
    "UTC" + sign + hs + ":" + ms
  }

  lemma IdentifierLayout(sign: string, hs: string, ms: string)
    requires |sign| == 1
    ensures var id := "UTC" + sign + hs + ":" + ms;
            |id| == 5 + |hs| + |ms| && id[..3] == "UTC" && id[3] == sign[0]
  {
  }

  /** `detectTimeZone`, given the host's `getTimezoneOffset()` reading
      (minutes west of UTC) or None when the environment query throws. */
  function DetectTimeZone(hostTimezoneOffset: Option<int>): (id: string)
    ensures |id| >= 9 && id[..3] == "UTC"
    ensures id[3] == '+' <==> hostTimezoneOffset.None? || hostTimezoneOffset.value <= 0
  {
    match hostTimezoneOffset
    case None => "UTC+00:00"
    case Some(west) => FormatOffset(-west)
  }

  lemma DigitCharValue(c: char)
    requires IsDigit(c)
    ensures DigitChar(DigitValue(c)) == c
  {
  }

  /** Fields below a hundred come out as exactly two digits each. */
  lemma FieldsChars(positive: bool, hours: nat, minutes: nat)
    requires hours < 100 && minutes < 100
    ensures FormatFields(positive, hours, minutes)
            == ['U', 'T', 'C', if positive then '+' else '-',
                DigitChar(hours / 10), DigitChar(hours % 10), ':', DigitChar(minutes / 10), DigitChar(minutes % 10)]
  {
    TwoDigits(hours);
    TwoDigits(minutes);
    var hs, ms := PadStart2(NatToString(hours)), PadStart2(NatToString(minutes));
    var sign := if positive then "+" else "-";
    IdentifierChars(sign, hs, ms);
  }

  lemma IdentifierChars(sign: string, hs: string, ms: string)
    requires |sign| == 1 && |hs| == 2 && |ms| == 2
    ensures "UTC" + sign + hs + ":" + ms == ['U', 'T', 'C', sign[0], hs[0], hs[1], ':', ms[0], ms[1]]
  {
    var r := "UTC" + sign + hs + ":" + ms;
    forall k | 0 <= k < 9
      ensures r[k] == ['U', 'T', 'C', sign[0], hs[0], hs[1], ':', ms[0], ms[1]][k]
    {
    }
  }

  /** Any offset of less than a hundred hours formats to a canonical identifier
      that parses back to that offset. */
  lemma FormatOffsetRoundTrip(offset: int)
    requires -6000 < offset < 6000
    ensures Canonical(FormatOffset(offset))
    ensures ParseOffset(FormatOffset(offset)) == Some(offset)
  {
    var f := SplitOffset(offset);
    FieldsRoundTrip(f.positive, f.hours, f.minutes);
  }

  /** The fields `detectTimeZone` writes for an offset of less than a hundred
      hours: they are below a hundred and denote the offset again. */
  lemma SplitOffset(offset: int) returns (f: OffsetMatch)
    requires -6000 < offset < 6000
    ensures f.hours < 100 && f.minutes < 100
    ensures FormatOffset(offset) == FormatFields(f.positive, f.hours, f.minutes)
    ensures OffsetMinutes(f) == offset
  {
    var magnitude := if offset < 0 then -offset else offset;
    f := OffsetMatch(offset >= 0, magnitude / 60, magnitude % 60);
    assert magnitude == 60 * f.hours + f.minutes;
  }

  /** Fields below a hundred are written so that the pattern reads them back. */
  lemma FieldsRoundTrip(positive: bool, hours: nat, minutes: nat)
    requires hours < 100 && minutes < 100
    ensures Canonical(FormatFields(positive, hours, minutes))
    ensures ParseOffset(FormatFields(positive, hours, minutes)) == Some(OffsetMinutes(OffsetMatch(positive, hours, minutes)))
  {
    var s := FormatFields(positive, hours, minutes);
    FieldsChars(positive, hours, minutes);
    DigitsCaptured(if positive then '+' else '-', hours / 10, hours % 10, minutes / 10, minutes % 10);
    assert hours / 10 * 10 + hours % 10 == hours && minutes / 10 * 10 + minutes % 10 == minutes;
    assert Captures(s, 0) == OffsetMatch(positive, hours, minutes);
    ParseLeftmost(s, 0);
  }

  /** Nine characters written with `DigitChar` match at 0 and capture the digits' values. */
  lemma DigitsCaptured(sign: char, hd: nat, hu: nat, md: nat, mu: nat)
    requires sign == '+' || sign == '-'
    requires hd < 10 && hu < 10 && md < 10 && mu < 10
    ensures var s := ['U', 'T', 'C', sign, DigitChar(hd), DigitChar(hu), ':', DigitChar(md), DigitChar(mu)];
            Canonical(s) && Captures(s, 0) == OffsetMatch(sign == '+', hd * 10 + hu, md * 10 + mu)
  {
  }

  /** From a hundred hours on, the hour field has three digits and the result
      no longer matches the pattern anywhere. */
  lemma FormatOffsetTooLarge(offset: int)
    requires offset <= -6000 || 6000 <= offset
    ensures ParseOffset(FormatOffset(offset)) == None
  {
    var magnitude := if offset < 0 then -offset else offset;
    var hs := NatToString(magnitude / 60);
    NatToStringLength(magnitude / 60);
    var sign := if offset >= 0 then "+" else "-";
    var ms := PadStart2(NatToString(magnitude % 60));
    assert PadStart2(hs) == hs;
    assert FormatOffset(offset) == "UTC" + sign + hs + ":" + ms;
    NoMatchWithLongHours(sign, hs, ms);
  }

  /** Three or more hour digits push the colon out of place, and no other
      position holds a 'U'. */
  lemma NoMatchWithLongHours(sign: string, hs: string, ms: string)
    requires sign == "+" || sign == "-"
    requires |hs| >= 3 && AllDigits(hs) && AllDigits(ms)
    ensures forall i: nat :: !MatchesAt("UTC" + sign + hs + ":" + ms, i)
  {
    var s := "UTC" + sign + hs + ":" + ms;
    assert s[6] == hs[2];
    forall i: nat | 1 <= i < |s|
      ensures s[i] != 'U'
    {
      if i < 4 {
      } else if i < 4 + |hs| {
        assert s[i] == hs[i - 4];
      } else if i == 4 + |hs| {
      } else {
        assert s[i] == ms[i - 5 - |hs|];
      }
    }
  }

  /** A canonical identifier whose minutes are below 60 formats back to itself,
      except "UTC-00:00", which denotes offset 0 and formats as "UTC+00:00". */
  lemma ParseFormatRoundTrip(id: string)
    requires Canonical(id)
    requires Captures(id, 0).minutes < 60
    requires !(id[3] == '-' && Captures(id, 0).hours == 0 && Captures(id, 0).minutes == 0)
    ensures ParseOffset(id).Some?
    ensures FormatOffset(ParseOffset(id).value) == id
  {
    ParseLeftmost(id, 0);
    CapturesFormatBack(id);
  }

  lemma CapturesFormatBack(id: string)
    requires Canonical(id)
    requires Captures(id, 0).minutes < 60
    requires !(id[3] == '-' && Captures(id, 0).hours == 0 && Captures(id, 0).minutes == 0)
    ensures FormatOffset(OffsetMinutes(Captures(id, 0))) == id
  {
    var m := Captures(id, 0);
    OffsetOfFields(m);
    FieldsOfCanonical(id);
  }

  /** Formatting the offset of in-range fields writes those fields, unless the
      fields are a negative zero. */
  lemma OffsetOfFields(m: OffsetMatch)
    requires m.minutes < 60
    requires m.positive || m.hours > 0 || m.minutes > 0
    ensures FormatOffset(OffsetMinutes(m)) == FormatFields(m.positive, m.hours, m.minutes)
  {
    var offset := OffsetMinutes(m);
    var magnitude := m.hours * 60 + m.minutes;
    assert offset == if m.positive then magnitude else -magnitude;
    assert offset >= 0 <==> m.positive;
    assert magnitude / 60 == m.hours && magnitude % 60 == m.minutes;
  }

  /** A canonical identifier is what its own fields format to. */
  lemma FieldsOfCanonical(id: string)
    requires Canonical(id)
    ensures var m := Captures(id, 0);
            FormatFields(m.positive, m.hours, m.minutes) == id
  {
    var m := Captures(id, 0);
    var hd, hu := DigitValue(id[4]), DigitValue(id[5]);
    var md, mu := DigitValue(id[7]), DigitValue(id[8]);
    assert m.hours == hd * 10 + hu && m.minutes == md * 10 + mu;
    assert m.hours / 10 == hd && m.hours % 10 == hu && m.minutes / 10 == md && m.minutes % 10 == mu;
    FieldsChars(m.positive, m.hours, m.minutes);
    DigitCharValue(id[4]);
    DigitCharValue(id[5]);
    DigitCharValue(id[7]);
    DigitCharValue(id[8]);
    assert (if m.positive then '+' else '-') == id[3];
    CanonicalChars(id);
  }

  lemma CanonicalChars(id: string)
    requires Canonical(id)
    ensures id == ['U', 'T', 'C', id[3], id[4], id[5], ':', id[7], id[8]]
  {
    forall k | 0 <= k < 9
      ensures id[k] == ['U', 'T', 'C', id[3], id[4], id[5], ':', id[7], id[8]][k]
    {
    }
  }

  lemma NegativeZeroNormalised()
    ensures ParseOffset("UTC-00:00") == Some(0)
    ensures FormatOffset(0) == "UTC+00:00"
  {
    ZeroFormat();
  }

  lemma ZeroFormat()
    ensures FormatOffset(0) == "UTC+00:00"
  {
    TwoDigits(0);
  }

  /** The detected identifier parses back to the host's offset (east of UTC),
      and the failure default parses to offset 0. */
  lemma DetectTimeZoneParses(hostTimezoneOffset: Option<int>)
    requires hostTimezoneOffset.Some? ==> -6000 < hostTimezoneOffset.value < 6000
    ensures Canonical(DetectTimeZone(hostTimezoneOffset))
    ensures ParseOffset(DetectTimeZone(hostTimezoneOffset))
            == Some(if hostTimezoneOffset.Some? then -hostTimezoneOffset.value else 0)
  {
    var offset := if hostTimezoneOffset.Some? then -hostTimezoneOffset.value else 0;
    if hostTimezoneOffset.None? {
      ZeroFormat();
    }
    assert DetectTimeZone(hostTimezoneOffset) == FormatOffset(offset);
    FormatOffsetRoundTrip(offset);
  }

  // ---------------------------------------------------------------------------
  // 12-hour clock formatting: formatHour and formatInTimeZone
  // ---------------------------------------------------------------------------

  /** `hour % 12 || 12`: the same hour modulo 12, shown as 1..12 for hours of
      the day (JavaScript's `%` makes it negative for negative hours). */
  function DisplayHour(hour: int): (d: int)
    ensures d != 0 && -11 <= d <= 12
    ensures d % 12 == hour % 12
    ensures hour >= 0 ==> 1 <= d <= 12
  {
    var r := JsRem(hour, 12);
    if r == 0 then 12 else r
  }

  function Period(hour: int): (p: string)
    ensures |p| == 2 && p[1] == 'M'
    ensures p[0] == 'P' <==> hour >= 12
  {
    if hour >= 12 then "PM" else "AM"
  }

  /** `formatHour`: the whole hour on a 12-hour clock. */
  function FormatHour(hour: int): (text: string)
    ensures |text| >= 7 && text[|text| - 6..|text| - 2] == ":00 "
    ensures text[|text| - 2] == 'P' <==> hour >= 12
    ensures 0 <= hour < 24 ==> |text| <= 8
  {
    IntToString(DisplayHour(hour)) + ":00 " + Period(hour)
  }

  /** Reading a 12-hour display back: the hour of day it stands for. */
  function From12Hour(displayHour: int, pm: bool): int {
    displayHour % 12 + if pm then 12 else 0
  }

  /** On hours of the day, the displayed hour is 1..12, "PM" is shown exactly
      from noon on, and the display determines the hour. */
  lemma TwelveHourClock(hour: int)
    requires 0 <= hour < 24
    ensures 1 <= DisplayHour(hour) <= 12
    ensures Period(hour) == "PM" <==> hour >= 12
    ensures From12Hour(DisplayHour(hour), Period(hour) == "PM") == hour
  {
  }

  lemma FormatHourExamples()
    ensures FormatHour(0) == "12:00 AM"
    ensures FormatHour(12) == "12:00 PM"
    ensures FormatHour(13) == "1:00 PM"
  {
  }

  /** Distinct hours of the day are shown as distinct strings. */
  lemma FormatHourInjective(a: int, b: int)
    requires 0 <= a < 24 && 0 <= b < 24
    requires FormatHour(a) == FormatHour(b)
    ensures a == b
  {
    var sa, sb := IntToString(DisplayHour(a)), IntToString(DisplayHour(b));
    var fa, fb := FormatHour(a), FormatHour(b);
    assert |sa| == |fa| - 6 && |sb| == |fb| - 6;
    assert sa == fa[..|fa| - 6] == fb[..|fb| - 6] == sb;
    IntToStringInjective(DisplayHour(a), DisplayHour(b));
    assert Period(a) == fa[|fa| - 2..] == fb[|fb| - 2..] == Period(b);
    TwelveHourClock(a);
    TwelveHourClock(b);
  }

  /** The text `formatInTimeZone` produces from an hour and a minute. */
  function TwelveHourText(hour: int, minute: int): (text: string)
    ensures |text| >= 7 && text[|text| - 3] == ' ' && text[|text| - 1] == 'M'
    ensures text[|text| - 2] == 'P' <==> hour >= 12
  {
    var hs, ms, period := IntToString(DisplayHour(hour)), PadStart2(IntToString(minute)), Period(hour);
    ClockTextLayout(hs, ms, period);
    hs + ":" + ms + " " + period
  }

  lemma ClockTextLayout(hs: string, ms: string, period: string)
    requires |period| == 2
    ensures var text := hs + ":" + ms + " " + period;
            |text| == |hs| + |ms| + 4 && text[|text| - 3] == ' '
            && text[|text| - 2] == period[0] && text[|text| - 1] == period[1]
  {
  }

  /** On a wall-clock hour and minute the text is the 12-hour display hour
      (1..12), a colon, exactly two minute digits, a space and the period. */
  lemma WallClockText(hour: int, minute: int)
    requires 0 <= hour < 24 && 0 <= minute < 60
    ensures 1 <= DisplayHour(hour) <= 12
    ensures TwelveHourText(hour, minute)
            == IntToString(DisplayHour(hour)) + [':', DigitChar(minute / 10), DigitChar(minute % 10), ' ']
               + Period(hour)
  {
    TwelveHourClock(hour);
    TwoDigits(minute);
    assert IntToString(minute) == NatToString(minute);
  }

  /** The (hour, minute) `formatInTimeZone` computes from the current UTC
      instant and the captured groups: the signed fields added to the UTC
      clock, one minute carry, then the hour folded with JavaScript's `%`. */
  function LocalClock(utcNow: int, m: OffsetMatch): (clock: (int, int))
    ensures -24 < clock.0 < 24
    ensures m.hours <= 23 ==> 0 <= clock.0 < 24
    ensures m.minutes <= 59 ==> 0 <= clock.1 < 60
  {
    var hours := HourOfDay(utcNow) + Signed(m.positive, m.hours);
    var minutes := MinuteOfHour(utcNow) + Signed(m.positive, m.minutes);
    var carry := if minutes >= 60 then 1 else if minutes < 0 then -1 else 0;
    (JsRem(hours + carry + 24, 24), minutes - 60 * carry)
  }

  /** Minute of the day on the wall clock `offset` minutes east of UTC. */
  function WallClockMinute(utcNow: int, offset: int): (w: int)
    ensures 0 <= w < 24 * 60
  {
    (utcNow / MinuteMs + offset) % (24 * 60)
  }

  /** The UTC hour and minute read off an instant are its minute of the day. */
  lemma HourIsSixtyMinutes(t: int)
    ensures HourOfDay(t) * 60 + MinuteOfHour(t) == (t / MinuteMs) % (24 * 60)
  {
    var m := t / MinuteMs;
    HoursOfMinutes(t);
    var w, k := m % (24 * 60), m / (24 * 60);
    assert m == (24 * 60) * k + w;
    var wh, wm := w / 60, w % 60;
    assert m == 60 * (24 * k + wh) + wm;
    assert m / 60 == 24 * k + wh;
    assert m % 60 == wm;
    assert (24 * k + wh) % 24 == wh;
  }

  /** Whole hours are whole minutes divided by sixty. */
  lemma HoursOfMinutes(t: int)
    ensures t / HourMs == (t / MinuteMs) / 60
  {
    var q, r := t / HourMs, t % HourMs;
    assert t == HourMs * q + r && 0 <= r < HourMs;
    var rm := r / MinuteMs;
    assert 0 <= rm < 60;
    assert t / MinuteMs == 60 * q + rm;
  }

  lemma ModDay(x: int, r: int)
    requires 0 <= r < 24 * 60
    ensures ((24 * 60) * x + r) % (24 * 60) == r
  {
  }

  lemma HourAndMinute(hour: int, minute: int)
    requires 0 <= minute < 60
    ensures (hour * 60 + minute) / 60 == hour && (hour * 60 + minute) % 60 == minute
  {
  }

  /** One carry and one fold bring the shifted clock back into a day, provided
      the shift is below a day. */
  lemma FoldClock(total: int, uh: int, um: int, sh: int, sm: int)
    requires 0 <= uh < 24 && 0 <= um < 60 && -23 <= sh <= 23 && -59 <= sm <= 59
    requires total % (24 * 60) == uh * 60 + um
    ensures var minutes := um + sm;
            var carry := if minutes >= 60 then 1 else if minutes < 0 then -1 else 0;
            var w := (total + sh * 60 + sm) % (24 * 60);
            && w / 60 == (uh + sh + carry + 24) % 24
            && w % 60 == minutes - 60 * carry
  {
    var minutes := um + sm;
    var carry := if minutes >= 60 then 1 else if minutes < 0 then -1 else 0;
    var h := uh + sh + carry;
    var mi := minutes - 60 * carry;
    assert 0 <= mi < 60;
    assert -24 <= h < 48;
    var folded := (h + 24) % 24;
    var j := (h + 24) / 24;
    assert h + 24 == 24 * j + folded;
    var k := total / (24 * 60);
    assert total == (24 * 60) * k + uh * 60 + um;
    assert total + sh * 60 + sm == (24 * 60) * (k + j - 1) + (folded * 60 + mi);
    ModDay(k + j - 1, folded * 60 + mi);
    HourAndMinute(folded, mi);
  }

  /** For offsets of at most 23 hours and 59 minutes, the single carry is
      enough: the computed clock is the true wall-clock time in that zone. */
  lemma LocalClockIsWallClock(utcNow: int, m: OffsetMatch)
    requires m.hours <= 23 && m.minutes <= 59
    ensures var w := WallClockMinute(utcNow, OffsetMinutes(m));
            LocalClock(utcNow, m) == (w / 60, w % 60)
  {
    var sh := Signed(m.positive, m.hours);
    var sm := Signed(m.positive, m.minutes);
    assert OffsetMinutes(m) == sh * 60 + sm;
    var uh, um := HourOfDay(utcNow), MinuteOfHour(utcNow);
    HourIsSixtyMinutes(utcNow);
    FoldClock(utcNow / MinuteMs, uh, um, sh, sm);
    var minutes := um + sm;
    var carry := if minutes >= 60 then 1 else if minutes < 0 then -1 else 0;
    assert uh + sh + carry + 24 >= 0;
    assert LocalClock(utcNow, m) == (JsRem(uh + sh + carry + 24, 24), minutes - 60 * carry);
  }

  /** `formatInTimeZone(date, timeZoneId)` with the current UTC instant
      `utcNow` read from the host clock. `fallback` is what the date library's
      `format(date, "h:mm a")` yields; it is the only way `date` enters. */
  method FormatInTimeZone(utcNow: int, timeZoneId: string, fallback: string) returns (text: string)
    ensures MatchOffset(timeZoneId).None? ==> text == fallback
    ensures MatchOffset(timeZoneId).Some? ==>
              var clock := LocalClock(utcNow, MatchOffset(timeZoneId).value);
              text == TwelveHourText(clock.0, clock.1)
    ensures MatchOffset(timeZoneId).Some? ==>
              var m := MatchOffset(timeZoneId).value;
              var w := WallClockMinute(utcNow, OffsetMinutes(m));
              m.hours <= 23 && m.minutes <= 59 ==> text == TwelveHourText(w / 60, w % 60)
  {
    var groups := MatchOffset(timeZoneId);
    if groups.None? {
      return fallback;
    }
    var utcHours := HourOfDay(utcNow);
    var utcMinutes := MinuteOfHour(utcNow);

    var sign := if groups.value.positive then 1 else -1;
    var tzHours := groups.value.hours;
    var tzMinutes := groups.value.minutes;

    var localHours := utcHours + sign * tzHours;
    var localMinutes := utcMinutes + sign * tzMinutes;
    assert sign * tzHours == Signed(groups.value.positive, tzHours);
    assert sign * tzMinutes == Signed(groups.value.positive, tzMinutes);
    ghost var carry := if localMinutes >= 60 then 1 else if localMinutes < 0 then -1 else 0;

    if localMinutes >= 60 {
      localHours := localHours + 1;
      localMinutes := localMinutes - 60;
    } else if localMinutes < 0 {
      localHours := localHours - 1;
      localMinutes := localMinutes + 60;
    }
    assert localHours == utcHours + Signed(groups.value.positive, tzHours) + carry;

    localHours := JsRem(localHours + 24, 24);
    assert (localHours, localMinutes) == LocalClock(utcNow, groups.value);

    text := TwelveHourText(localHours, localMinutes);
    if tzHours <= 23 && tzMinutes <= 59 {
      LocalClockIsWallClock(utcNow, groups.value);
    }
  }

  /** With minutes beyond 59 one carry is not enough: "UTC+00:99" at 00:59 UTC
      shows minute 98. With hours beyond 24 the folded hour can stay negative. */
  lemma LocalClockOutOfRange()
    ensures LocalClock(59 * MinuteMs, OffsetMatch(true, 0, 99)) == (1, 98)
    ensures TwelveHourText(1, 98) == "1:98 AM"
    ensures LocalClock(0, OffsetMatch(false, 99, 0)) == (-3, 0)
  {
    CarryPastTheHour();
    MinutesPastSixty();
    HourBelowZero();
  }

  lemma CarryPastTheHour()
    ensures LocalClock(59 * MinuteMs, OffsetMatch(true, 0, 99)) == (1, 98)
  {
    assert HourOfDay(59 * MinuteMs) == 0 && MinuteOfHour(59 * MinuteMs) == 59;
    assert JsRem(25, 24) == 1;
  }

  lemma MinutesPastSixty()
    ensures TwelveHourText(1, 98) == "1:98 AM"
  {
    assert IntToString(1) == "1" && PadStart2(IntToString(98)) == "98";
  }

  lemma HourBelowZero()
    ensures LocalClock(0, OffsetMatch(false, 99, 0)) == (-3, 0)
  {
    assert HourOfDay(0) == 0 && MinuteOfHour(0) == 0;
    assert JsRem(-75, 24) == -3;
  }
}
