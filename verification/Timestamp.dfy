/** UTC instants: the fixed-layout printer and the lenient parser. */
module Timestamp {
  import opened Text
  import opened Calendar

  /** Seconds since the Unix epoch plus a nanosecond remainder. */
  datatype Instant = Instant(secs: int, nanos: int)
  {
    predicate Valid() {
      0 <= nanos < 1_000_000_000
    }

    function Micros(): int {
      nanos / 1000
    }

    /** The instant at microsecond resolution. */
    function Floored(): Instant {
      Instant(secs, Micros() * 1000)
    }

    function Year(): int {
      CivilFromDays(secs / 86400).year
    }
  }

  // ----- printing -----

  /** Fields of minimum width, each followed by its literal: a format string as data. */
  function Format(values: seq<int>, layout: seq<(nat, string)>): string
    requires |values| == |layout|
  {
    if values == [] then ""
    else Padded(values[0], layout[0].0) + (layout[0].1 + Format(values[1..], layout[1..]))
  }

  const ISO_LAYOUT: seq<(nat, string)> :=
    [(4, "-"), (2, "-"), (2, "T"), (2, ":"), (2, ":"), (2, "."), (6, "Z")]

  /** Year to second and microseconds. `div_euclid` and `rem_euclid` are the verifier's own
      division and remainder. */
  function ClockReading(t: Instant): seq<int> {
    var date, daySecs := CivilFromDays(t.secs / 86400), t.secs % 86400;
    [date.year, date.month, date.day, daySecs / 3600, daySecs % 3600 / 60, daySecs % 60, t.Micros()]
  }

  function ToIsoString(t: Instant): string {
    Format(ClockReading(t), ISO_LAYOUT)
  }

  // ----- parsing -----

  /** Every `Z`, wherever it stands, becomes an explicit zero offset. */
  function ReplaceZ(s: string): string {
    if s == "" then "" else (if s[0] == 'Z' then "+00:00" else [s[0]]) + ReplaceZ(s[1..])
  }

  function Two(s: string, i: nat): (r: Option<int>)
    requires i + 1 < |s|
  {
    if IsDigit(s[i]) && IsDigit(s[i + 1]) then Some(DigitValue(s[i]) * 10 + DigitValue(s[i + 1])) else None
  }

  function Four(s: string): (r: Option<int>)
    requires 4 <= |s|
  {
    if Two(s, 0).Some? && Two(s, 2).Some? then Some(Two(s, 0).value * 100 + Two(s, 2).value) else None
  }

  /** Date and second of the day from the first 19 characters. */
  function DateTimePart(s: string): (r: Option<(Date, int)>)
    requires 19 <= |s|
    ensures r.Some? ==> ValidDate(r.value.0)
  {
    match (Four(s), Two(s, 5), Two(s, 8), Two(s, 11), Two(s, 14), Two(s, 17))
    case (Some(year), Some(month), Some(day), Some(hour), Some(minute), Some(second)) =>
      if s[4] != '-' || s[7] != '-' || s[13] != ':' || s[16] != ':' || !(s[10] == 'T' || s[10] == 't' || s[10] == ' ') then None
      else if !(1 <= month <= 12) || day < 1 || day > LastDayOfMonth(year, month) then None
      else if hour > 23 || minute > 59 || second > 59 then None
      else Some((Date(year, month, day), hour * 3600 + minute * 60 + second))
    case _ => None
  }

  /** Where the run of digits from `i` ends. */
  function DigitRun(s: string, i: nat): (e: nat)
    requires i <= |s|
    ensures i <= e <= |s|
    ensures AllDigits(s[i..e]) && (e < |s| ==> !IsDigit(s[e]))
    decreases |s| - i
  {
    if i < |s| && IsDigit(s[i]) then DigitRun(s, i + 1) else i
  }

  /** Index after the optional fraction, and its value in nanoseconds. */
  function FractionPart(s: string): (r: Option<(nat, int)>)
    requires 19 <= |s|
    ensures r.Some? ==> 19 <= r.value.0 <= |s|
  {
    if |s| == 19 || s[19] != '.' then Some((19, 0))
    else
      var e := DigitRun(s, 20);
      if e == 20 || e - 20 > 9 then None else Some((e, Number(s[20..e]) * Pow10(9 - (e - 20))))
  }

  /** The offset in seconds, which must use up the text. */
  function OffsetPart(s: string, i: nat): (r: Option<int>)
    requires i <= |s|
  {
    if i == |s| then Some(0)
    else if s[i] != '+' && s[i] != '-' then None
    else if |s| != i + 6 || s[i + 3] != ':' then None
    else
      match (Two(s, i + 1), Two(s, i + 4))
      case (Some(oh), Some(om)) =>
        if oh > 23 || om > 59 then None else Some((if s[i] == '+' then 1 else -1) * (oh * 3600 + om * 60))
      case _ => None
  }

  function ParseBody(s: string): Option<Instant> {
    if |s| < 19 then None
    else
      match (DateTimePart(s), FractionPart(s))
      case (Some((date, daySecs)), Some((i, nanos))) =>
        (match OffsetPart(s, i)
         case Some(offset) => Some(Instant(DaysFromCivil(date) * 86400 + daySecs - offset, nanos))
         case None => None)
      case _ => None
  }

  function Parse(input: string): Option<Instant> {
    ParseBody(ReplaceZ(input))
  }

  /** The fraction loops: find where the digits end, read them, scale to nine digits. */
  method ReadFraction(s: string) returns (r: Option<(nat, int)>)
    requires 19 <= |s|
    ensures r == FractionPart(s)
  {
    var idx := 19;
    if idx == |s| || s[idx] != '.' {
      return Some((idx, 0));
    }
    idx := idx + 1;
    var fracStart := idx;
    while idx < |s| && IsDigit(s[idx])
      invariant fracStart <= idx <= |s| && DigitRun(s, idx) == DigitRun(s, fracStart)
    {
      idx := idx + 1;
    }
    var fracLen := idx - fracStart;
    if fracLen == 0 || fracLen > 9 {
      return None;
    }
    var value := 0;
    assert AllDigits(s[fracStart..idx]);
    for i := fracStart to idx
      invariant AllDigits(s[fracStart..i]) && value == Number(s[fracStart..i])
    {
      assert s[fracStart..i + 1] == s[fracStart..i] + [s[i]];
      value := value * 10 + DigitValue(s[i]);
    }
    ghost var digits := value;
    for k := 0 to 9 - fracLen
      invariant value == digits * Pow10(k)
    {
      value := value * 10;
    }
    return Some((idx, value));
  }

  /** The parser as written: an index that moves over the text and an accumulated offset. */
  method ParseFlexible(input: string) returns (r: Option<Instant>)
    ensures r == Parse(input)
  {
    hide DaysFromCivil, DigitRun;
    var s := ReplaceZ(input);
    if |s| < 19 {
      return None;
    }
    var dateTime := DateTimePart(s);
    if dateTime.None? {
      return None;
    }
    var fraction := ReadFraction(s);
    if fraction.None? {
      return None;
    }
    var (idx, nanos) := fraction.value;
    var offsetSecs := 0;
    if idx < |s| {
      var sign := 1;
      if s[idx] == '-' {
        sign := -1;
      } else if s[idx] != '+' {
        return None;
      }
      if |s| < idx + 6 || s[idx + 3] != ':' {
        return None;
      }
      var oh, om := Two(s, idx + 1), Two(s, idx + 4);
      if oh.None? || om.None? || oh.value > 23 || om.value > 59 {
        return None;
      }
      offsetSecs := sign * (oh.value * 3600 + om.value * 60);
      idx := idx + 6;
    }
    if idx != |s| {
      return None;
    }
    var days := DaysFromCivil(dateTime.value.0);
    return Some(Instant(days * 86400 + dateTime.value.1 - offsetSecs, nanos));
  }
}
