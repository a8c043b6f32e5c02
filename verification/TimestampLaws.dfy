/** What the timestamp parser accepts and means, that it undoes the printer, and that
    printed order is time order. */
module TimestampLaws {
  import opened Text
  import opened Calendar
  import opened Timestamp

  datatype Offset = Offset(west: bool, hours: int, minutes: int)
  {
    predicate Valid() {
      0 <= hours <= 23 && 0 <= minutes <= 59
    }

    function Seconds(): int {
      if west then -(hours * 3600 + minutes * 60) else hours * 3600 + minutes * 60
    }
  }

  /** One written timestamp: date, separator, time of day, fraction digits and offset. */
  datatype Fields = Fields(date: Date, sep: char, hour: int, minute: int, second: int, frac: string, offset: Option<Offset>)
  {
    ghost predicate Valid() {
      && ValidDate(date) && 0 <= date.year <= 9999
      && (sep == 'T' || sep == 't' || sep == ' ')
      && 0 <= hour <= 23 && 0 <= minute <= 59 && 0 <= second <= 59
      && |frac| <= 9 && AllDigits(frac)
      && (offset.Some? ==> offset.value.Valid())
    }

    function OffsetSeconds(): int {
      if offset.Some? then offset.value.Seconds() else 0
    }
  }

  // ----- the grammar: section 5.6 of RFC 3339, with an optional offset -----

  function TwoDigits(n: int): (s: string)
    requires 0 <= n <= 99
    ensures |s| == 2
  {
    [Digit(n / 10), Digit(n % 10)]
  }

  /** The first 19 characters: date, separator and time, two digits at a time. */
  function Head19(c: string, y: string, mo: string, d: string, sep: string, h: string, mi: string, s: string): (r: string)
    requires |c| == |y| == |mo| == |d| == |h| == |mi| == |s| == 2 && |sep| == 1
    ensures |r| == 19
  {
    [c[0], c[1], y[0], y[1], '-', mo[0], mo[1], '-', d[0], d[1], sep[0], h[0], h[1], ':', mi[0], mi[1], ':', s[0], s[1]]
  }

  ghost function Head(f: Fields): (s: string)
    requires f.Valid()
    ensures |s| == 19
  {
    Head19(TwoDigits(f.date.year / 100), TwoDigits(f.date.year % 100), TwoDigits(f.date.month), TwoDigits(f.date.day),
           [f.sep], TwoDigits(f.hour), TwoDigits(f.minute), TwoDigits(f.second))
  }

  function FractionText(frac: string): string {
    if frac == "" then "" else "." + frac
  }

  function OffsetText(offset: Option<Offset>): string
    requires offset.Some? ==> offset.value.Valid()
  {
    match offset
    case None => ""
    case Some(o) => [if o.west then '-' else '+'] + TwoDigits(o.hours) + ":" + TwoDigits(o.minutes)
  }

  ghost function Written(f: Fields): string
    requires f.Valid()
  {
    Head(f) + (FractionText(f.frac) + OffsetText(f.offset))
  }

  /** The instant the written fields denote. */
  ghost function Denoted(f: Fields): Instant
    requires f.Valid()
  {
    Instant(DaysFromCivil(f.date) * 86400 + f.hour * 3600 + f.minute * 60 + f.second - f.OffsetSeconds(),
            Number(f.frac) * Pow10(9 - |f.frac|))
  }

  // ----- everything the grammar writes is read -----

  lemma TwoReads(s: string, i: nat, n: int)
    requires i + 1 < |s| && 0 <= n <= 99
    ensures Two(s, i) == Some(n) <==> s[i..i + 2] == TwoDigits(n)
  {
    assert s[i..i + 2] == [s[i], s[i + 1]];
  }

  lemma TwoChars(s: string, i: nat, t: string)
    requires |t| == 2 && i + 1 < |s| && s[i] == t[0] && s[i + 1] == t[1]
    ensures s[i..i + 2] == t
  {
  }

  lemma HeadParts(f: Fields)
    requires f.Valid()
    ensures var h := Head(f);
            && h[0..2] == TwoDigits(f.date.year / 100) && h[2..4] == TwoDigits(f.date.year % 100) && h[4] == '-'
            && h[5..7] == TwoDigits(f.date.month) && h[7] == '-' && h[8..10] == TwoDigits(f.date.day) && h[10] == f.sep
            && h[11..13] == TwoDigits(f.hour) && h[13] == ':' && h[14..16] == TwoDigits(f.minute) && h[16] == ':'
            && h[17..19] == TwoDigits(f.second)
  {
    hide TwoDigits, Head19;
    HeadSlices(TwoDigits(f.date.year / 100), TwoDigits(f.date.year % 100), TwoDigits(f.date.month), TwoDigits(f.date.day),
               [f.sep], TwoDigits(f.hour), TwoDigits(f.minute), TwoDigits(f.second));
  }

  lemma HeadSlices(c: string, y: string, mo: string, d: string, sep: string, h: string, mi: string, s: string)
    requires |c| == |y| == |mo| == |d| == |h| == |mi| == |s| == 2 && |sep| == 1
    ensures var r := Head19(c, y, mo, d, sep, h, mi, s);
            && r[0..2] == c && r[2..4] == y && r[4] == '-' && r[5..7] == mo && r[7] == '-' && r[8..10] == d && r[10] == sep[0]
            && r[11..13] == h && r[13] == ':' && r[14..16] == mi && r[16] == ':' && r[17..19] == s
  {
    var r := Head19(c, y, mo, d, sep, h, mi, s);
    TwoChars(r, 0, c);
    TwoChars(r, 2, y);
    TwoChars(r, 5, mo);
    TwoChars(r, 8, d);
    TwoChars(r, 11, h);
    TwoChars(r, 14, mi);
    TwoChars(r, 17, s);
  }

  lemma HeadReads(s: string, f: Fields)
    requires f.Valid() && 19 <= |s| && s[..19] == Head(f)
    ensures DateTimePart(s) == Some((f.date, f.hour * 3600 + f.minute * 60 + f.second))
  {
    HeadParts(f);
    var h := Head(f);
    assert s[0..2] == h[0..2] && s[2..4] == h[2..4] && s[5..7] == h[5..7] && s[8..10] == h[8..10];
    assert s[11..13] == h[11..13] && s[14..16] == h[14..16] && s[17..19] == h[17..19];
    TwoReads(s, 0, f.date.year / 100);
    TwoReads(s, 2, f.date.year % 100);
    TwoReads(s, 5, f.date.month);
    TwoReads(s, 8, f.date.day);
    TwoReads(s, 11, f.hour);
    TwoReads(s, 14, f.minute);
    TwoReads(s, 17, f.second);
  }

  lemma {:induction false} DigitRunEnds(s: string, i: nat, e: nat)
    requires i <= e <= |s| && AllDigits(s[i..e]) && (e < |s| ==> !IsDigit(s[e]))
    ensures DigitRun(s, i) == e
    decreases e - i
  {
    if i < e {
      assert s[i] == s[i..e][0];
      assert s[i + 1..e] == s[i..e][1..];
      DigitRunEnds(s, i + 1, e);
    }
  }

  lemma NoFractionReads(s: string, tail: string)
    requires 19 <= |s| && s[19..] == tail && (tail == "" || tail[0] == '+' || tail[0] == '-')
    ensures FractionPart(s) == Some((19, 0))
  {
    assert |s| > 19 ==> s[19] == s[19..][0];
  }

  lemma SomeFractionReads(s: string, frac: string, tail: string)
    requires 19 <= |s| && s[19..] == "." + frac + tail && 1 <= |frac| <= 9 && AllDigits(frac)
    requires tail == "" || tail[0] == '+' || tail[0] == '-'
    ensures var i := 20 + |frac|; s[i..] == tail && FractionPart(s) == Some((i, Number(frac) * Pow10(9 - |frac|)))
  {
    hide FractionPart, Number, Pow10;
    var i := 20 + |frac|;
    CutAfter19(s, frac, tail);
    assert i < |s| ==> s[i] == s[i..][0];
    FractionAt(s, i);
  }

  lemma FractionAt(s: string, i: nat)
    requires 20 < i <= |s| && i <= 29 && s[19] == '.' && AllDigits(s[20..i]) && (i < |s| ==> !IsDigit(s[i]))
    ensures FractionPart(s) == Some((i, Number(s[20..i]) * Pow10(9 - (i - 20))))
  {
    hide DigitRun, Number, Pow10, AllDigits;
    DigitRunEnds(s, 20, i);
  }

  lemma CutAfter19(s: string, frac: string, tail: string)
    requires 19 <= |s| && s[19..] == "." + frac + tail
    ensures var i := 20 + |frac|; i <= |s| && s[19] == '.' && s[20..i] == frac && s[i..] == tail
  {
    var rest := "." + frac + tail;
    var n := 1 + |frac|;
    assert |s| == 19 + |rest|;
    assert s[19] == s[19..][0];
    assert rest[1..n] == frac && rest[n..] == tail;
    SliceOfTail(s, 1, n);
    SliceOfTail(s, n, |rest|);
  }

  lemma SliceOfTail(s: string, a: nat, b: nat)
    requires 19 <= |s| && a <= b <= |s| - 19
    ensures s[19..][a..b] == s[19 + a..19 + b]
  {
  }

  lemma FractionReads(s: string, frac: string, tail: string)
    requires 19 <= |s| && s[19..] == FractionText(frac) + tail && |frac| <= 9 && AllDigits(frac)
    requires tail == "" || tail[0] == '+' || tail[0] == '-'
    ensures var i := 19 + |FractionText(frac)|;
            s[i..] == tail && FractionPart(s) == Some((i, Number(frac) * Pow10(9 - |frac|)))
  {
    hide FractionPart, Pow10;
    if frac == "" {
      assert s[19..] == tail;
      NoFractionReads(s, tail);
    } else {
      SomeFractionReads(s, frac, tail);
    }
  }

  lemma OffsetReads(s: string, i: nat, offset: Option<Offset>)
    requires offset.Some? ==> offset.value.Valid()
    requires i <= |s| && s[i..] == OffsetText(offset)
    ensures OffsetPart(s, i) == Some(if offset.Some? then offset.value.Seconds() else 0)
  {
    if offset.Some? {
      var o, t := offset.value, OffsetText(offset);
      assert forall k :: 0 <= k < 6 ==> s[i + k] == s[i..][k] == t[k];
      assert s[i + 1..i + 3] == TwoDigits(o.hours) && s[i + 4..i + 6] == TwoDigits(o.minutes);
      TwoReads(s, i + 1, o.hours);
      TwoReads(s, i + 4, o.minutes);
    }
  }

  lemma OffsetTextStarts(offset: Option<Offset>)
    requires offset.Some? ==> offset.value.Valid()
    ensures var t := OffsetText(offset); t == "" || t[0] == '+' || t[0] == '-'
  {
  }

  lemma WrittenIsRead(f: Fields)
    requires f.Valid()
    ensures ParseBody(Written(f)) == Some(Denoted(f))
  {
    hide DateTimePart, FractionPart, OffsetPart, Head, OffsetText, FractionText;
    var s, tail := Written(f), OffsetText(f.offset);
    assert s[..19] == Head(f) && s[19..] == FractionText(f.frac) + tail;
    OffsetTextStarts(f.offset);
    HeadReads(s, f);
    FractionReads(s, f.frac, tail);
    OffsetReads(s, 19 + |FractionText(f.frac)|, f.offset);
  }

  // ----- everything that is read was written by the grammar -----

  lemma TwoRead(s: string, i: nat)
    requires i + 1 < |s| && Two(s, i).Some?
    ensures 0 <= Two(s, i).value <= 99 && s[i..i + 2] == TwoDigits(Two(s, i).value)
  {
    TwoReads(s, i, Two(s, i).value);
  }

  lemma HeadCut(s: string)
    requires 19 <= |s| && s[4] == '-' && s[7] == '-' && s[13] == ':' && s[16] == ':'
    ensures s[..19] == Head19(s[0..2], s[2..4], s[5..7], s[8..10], [s[10]], s[11..13], s[14..16], s[17..19])
  {
  }

  lemma HeadRead(s: string) returns (f: Fields)
    requires 19 <= |s| && DateTimePart(s).Some?
    ensures f.Valid() && f.frac == "" && f.offset.None? && s[..19] == Head(f)
    ensures DateTimePart(s).value == (f.date, f.hour * 3600 + f.minute * 60 + f.second)
  {
    f := Fields(DateTimePart(s).value.0, s[10], Two(s, 11).value, Two(s, 14).value, Two(s, 17).value, "", None);
    TwoRead(s, 0);
    TwoRead(s, 2);
    TwoRead(s, 5);
    TwoRead(s, 8);
    TwoRead(s, 11);
    TwoRead(s, 14);
    TwoRead(s, 17);
    var h0, h1 := Two(s, 0).value, Two(s, 2).value;
    assert f.date.year == h0 * 100 + h1 && f.date.year / 100 == h0 && f.date.year % 100 == h1;
    HeadCut(s);
  }

  lemma FractionRead(s: string) returns (frac: string)
    requires 19 <= |s| && FractionPart(s).Some?
    ensures |frac| <= 9 && AllDigits(frac)
    ensures FractionPart(s).value == (19 + |FractionText(frac)|, Number(frac) * Pow10(9 - |frac|))
    ensures s[19..19 + |FractionText(frac)|] == FractionText(frac)
  {
    frac := "";
    if |s| > 19 && s[19] == '.' {
      var e := DigitRun(s, 20);
      frac := s[20..e];
      assert s[19..e] == "." + frac;
    } else {
      assert Number("") == 0;
    }
  }

  lemma OffsetRead(s: string, i: nat) returns (offset: Option<Offset>)
    requires i <= |s| && OffsetPart(s, i).Some?
    ensures offset.Some? ==> offset.value.Valid()
    ensures s[i..] == OffsetText(offset)
    ensures OffsetPart(s, i) == Some(if offset.Some? then offset.value.Seconds() else 0)
  {
    offset := None;
    if i < |s| {
      TwoRead(s, i + 1);
      TwoRead(s, i + 4);
      offset := Some(Offset(s[i] == '-', Two(s, i + 1).value, Two(s, i + 4).value));
      assert s[i..] == [s[i]] + s[i + 1..i + 3] + [s[i + 3]] + s[i + 4..i + 6];
    }
  }

  /** The head does not depend on fraction and offset. */
  lemma WithTail(f: Fields, frac: string, offset: Option<Offset>) returns (g: Fields)
    requires f.Valid() && |frac| <= 9 && AllDigits(frac) && (offset.Some? ==> offset.value.Valid())
    ensures g == f.(frac := frac, offset := offset) && g.Valid() && Head(g) == Head(f)
  {
    g := f.(frac := frac, offset := offset);
  }

  lemma ReadIsWritten(s: string) returns (f: Fields)
    requires ParseBody(s).Some?
    ensures f.Valid() && Written(f) == s && ParseBody(s) == Some(Denoted(f))
  {
    hide DateTimePart, FractionPart, OffsetPart, Head, OffsetText, FractionText;
    f := HeadRead(s);
    var frac := FractionRead(s);
    var i := 19 + |FractionText(frac)|;
    var offset := OffsetRead(s, i);
    assert s == s[..19] + (s[19..i] + s[i..]);
    f := WithTail(f, frac, offset);
  }

  // ----- `Z` -----

  lemma {:induction false} ReplaceZOfConcat(a: string, b: string)
    ensures ReplaceZ(a + b) == ReplaceZ(a) + ReplaceZ(b)
  {
    if a == "" {
      assert a + b == b;
    } else {
      assert (a + b)[1..] == a[1..] + b;
      ReplaceZOfConcat(a[1..], b);
    }
  }

  lemma {:induction false} ReplaceZWithoutZ(s: string)
    requires 'Z' !in s
    ensures ReplaceZ(s) == s
  {
    if s != "" {
      ReplaceZWithoutZ(s[1..]);
    }
  }

  lemma WrittenHasNoZ(f: Fields)
    requires f.Valid()
    ensures 'Z' !in Written(f)
  {
    assert 'Z' !in f.frac;
    assert forall n :: 0 <= n <= 99 ==> 'Z' !in TwoDigits(n);
  }

  ghost function Zoned(f: Fields, offset: Option<Offset>): (g: Fields)
    requires f.Valid() && (offset.Some? ==> offset.value.Valid())
    ensures g.Valid() && g.offset == offset
  {
    f.(offset := offset)
  }

  const ZULU := Some(Offset(false, 0, 0))

  /** A text without offset means the same as with `Z` and as with `+00:00`. */
  lemma ZuluMeansZeroOffset(f: Fields)
    requires f.Valid() && f.offset.None?
    ensures Parse(Written(f) + "Z") == Parse(Written(Zoned(f, ZULU))) == Parse(Written(f)) == Some(Denoted(f))
  {
    var g := Zoned(f, ZULU);
    hide ParseBody, Written, Denoted, ReplaceZ;
    ZeroOffset(f);
    ReadVerbatim(f);
    ReadVerbatim(g);
    WrittenHasNoZ(f);
    ZuluReplaced(Written(f));
    WrittenIsRead(g);
  }

  lemma ZuluReplaced(s: string)
    requires 'Z' !in s
    ensures ReplaceZ(s + "Z") == s + "+00:00"
  {
    ReplaceZOfConcat(s, "Z");
    ReplaceZWithoutZ(s);
    assert ReplaceZ("Z") == "+00:00" + "";
  }

  lemma ReadVerbatim(f: Fields)
    requires f.Valid()
    ensures Parse(Written(f)) == Some(Denoted(f))
  {
    hide ParseBody, Written, Denoted;
    WrittenHasNoZ(f);
    ReplaceZWithoutZ(Written(f));
    WrittenIsRead(f);
  }

  lemma ZeroOffset(f: Fields)
    requires f.Valid() && f.offset.None?
    ensures var g := Zoned(f, ZULU); Written(f) + "+00:00" == Written(g) && Denoted(f) == Denoted(g)
  {
    hide DaysFromCivil, Number;
    var g := WithTail(f, f.frac, ZULU);
    assert g.OffsetSeconds() == f.OffsetSeconds() == 0;
    assert OffsetText(g.offset) == "+00:00";
    assert OffsetText(f.offset) == "";
  }

  // ----- the accepted texts -----

  /** The text writes the fields; without an offset it may end in `Z`. */
  ghost predicate Writes(input: string, f: Fields)
    requires f.Valid()
  {
    input == Written(f) || (f.offset.None? && input == Written(f) + "Z")
  }

  /** The parser accepts exactly the texts that write some fields, and returns the instant they denote. */
  lemma ParserMeetsGrammar(input: string, t: Instant)
    ensures Parse(input) == Some(t) <==> exists f: Fields :: f.Valid() && Writes(input, f) && Denoted(f) == t
  {
    hide ParseBody, Written, Denoted, ReplaceZ;
    if Parse(input) == Some(t) {
      var f := ReadIsWritten(ReplaceZ(input));
      if 'Z' !in input {
        ReplaceZWithoutZ(input);
        assert Writes(input, f);
      } else {
        var g := ZuluWasRewritten(input, f);
        assert Writes(input, g);
      }
    }
    if f: Fields :| f.Valid() && Writes(input, f) && Denoted(f) == t {
      if input == Written(f) {
        ReadVerbatim(f);
      } else {
        ZuluMeansZeroOffset(f);
      }
    }
  }

  /** Where the text before the first `Z` ends. */
  lemma FirstZ(input: string) returns (i: nat)
    requires 'Z' in input
    ensures i < |input| && 'Z' !in input[..i] && input[i] == 'Z'
    ensures ReplaceZ(input) == input[..i] + ("+00:00" + ReplaceZ(input[i + 1..]))
  {
    i := 0;
    while input[i] != 'Z'
      invariant i < |input| && 'Z' in input[i..] && 'Z' !in input[..i]
      decreases |input| - i
    {
      i := i + 1;
    }
    var head, tail := input[..i], input[i + 1..];
    assert input == head + ("Z" + tail);
    ReplaceZOfConcat(head, "Z" + tail);
    ReplaceZOfConcat("Z", tail);
    ReplaceZWithoutZ(head);
    assert ReplaceZ("Z") == "+00:00" + "";
  }

  /** The only plus sign of a written text starts its offset. */
  lemma PlusStartsOffset(f: Fields, head: string, tail: string)
    requires f.Valid() && Written(f) == head + ("+00:00" + tail)
    ensures tail == "" && f.offset == ZULU && head == Head(f) + FractionText(f.frac)
  {
    hide TwoDigits;
    var start, offset := Head(f) + FractionText(f.frac), OffsetText(f.offset);
    NoPlusBeforeOffset(f);
    OffsetDigits(f.offset);
    assert Written(f) == start + offset;
    assert Written(f)[|head|] == '+';
    PlusBetween(start, offset, |head|);
    assert (start + offset)[..|start|] == start && (start + offset)[|start|..] == offset;
    assert (head + ("+00:00" + tail))[..|head|] == head && (head + ("+00:00" + tail))[|head|..] == "+00:00" + tail;
    OffsetIsZulu(f.offset.value);
  }

  /** A plus sign that is in neither text, the start of the second one apart, is that start. */
  lemma PlusBetween(a: string, b: string, p: nat)
    requires p < |a + b| && '+' !in a && (b != "" ==> '+' !in b[1..])
    ensures (a + b)[p] == '+' ==> p == |a| && b != ""
  {
    if p < |a| {
      assert (a + b)[p] == a[p] && a[p] in a;
    } else if p > |a| {
      assert (a + b)[p] == b[1..][p - |a| - 1] && b[1..][p - |a| - 1] in b[1..];
    }
  }

  lemma NoPlusBeforeOffset(f: Fields)
    requires f.Valid()
    ensures '+' !in Head(f) + FractionText(f.frac)
  {
    assert '+' !in f.frac;
    assert forall n :: 0 <= n <= 99 ==> '+' !in TwoDigits(n);
  }

  lemma OffsetDigits(offset: Option<Offset>)
    requires offset.Some? ==> offset.value.Valid()
    ensures |OffsetText(offset)| == (if offset.Some? then 6 else 0)
    ensures offset.Some? ==> '+' !in OffsetText(offset)[1..]
  {
    assert forall n :: 0 <= n <= 99 ==> '+' !in TwoDigits(n);
  }

  lemma OffsetIsZulu(o: Offset)
    requires o.Valid() && OffsetText(Some(o)) == "+00:00"
    ensures Some(o) == ZULU
  {
    var t := OffsetText(Some(o));
    assert DigitValue(t[1]) == o.hours / 10 && DigitValue(t[2]) == o.hours % 10;
    assert DigitValue(t[4]) == o.minutes / 10 && DigitValue(t[5]) == o.minutes % 10;
    var z := "+00:00";
    assert t[0] == z[0] && t[1] == z[1] && t[2] == z[2] && t[4] == z[4] && t[5] == z[5];
  }

  /** A text with a `Z` that was accepted is a text without offset, and a final `Z`. */
  lemma ZuluWasRewritten(input: string, f: Fields) returns (g: Fields)
    requires 'Z' in input && f.Valid() && Written(f) == ReplaceZ(input)
    ensures g.Valid() && g.offset.None? && input == Written(g) + "Z" && Denoted(g) == Denoted(f)
  {
    hide Denoted, Head;
    var i := FirstZ(input);
    var head, tail := input[..i], input[i + 1..];
    PlusStartsOffset(f, head, ReplaceZ(tail));
    assert tail == "";
    g := WithTail(f, f.frac, None);
    assert Written(g) == head;
    ZeroOffset(g);
    assert Zoned(g, ZULU) == f;
  }

  // ----- the printer -----

  /** How an instant reads on a clock at the given offset. */
  function LocalFields(t: Instant, sep: char, offset: Option<Offset>): Fields {
    var local := t.secs + (if offset.Some? then offset.value.Seconds() else 0);
    var daySecs := local % 86400;
    Fields(CivilFromDays(local / 86400), sep, daySecs / 3600, daySecs % 3600 / 60, daySecs % 60,
           FixedDigits(if t.Valid() then t.Micros() else 0, 6), offset)
  }

  predicate Writable(t: Instant, sep: char, offset: Option<Offset>) {
    && t.Valid()
    && (sep == 'T' || sep == 't' || sep == ' ')
    && (offset.Some? ==> offset.value.Valid())
    && 0 <= LocalFields(t, sep, offset).date.year <= 9999
  }

  lemma MicrosAsFraction(t: Instant)
    requires t.Valid()
    ensures Number(FixedDigits(t.Micros(), 6)) * Pow10(9 - 6) == t.Micros() * 1000
  {
    assert Pow10(6) == 1_000_000 && Pow10(3) == 1000;
    NumberOfFixedDigits(t.Micros(), 6);
  }

  lemma LocalTimeDenotes(t: Instant, sep: char, offset: Option<Offset>)
    requires Writable(t, sep, offset)
    ensures var f := LocalFields(t, sep, offset); f.Valid() && Denoted(f) == t.Floored()
  {
    hide CivilFromDays, DaysFromCivil, FixedDigits, Number;
    var f := LocalFields(t, sep, offset);
    var local := t.secs + f.OffsetSeconds();
    DayNumberComesBack(local / 86400);
    MicrosAsFraction(t);
    var daySecs := local % 86400;
    assert daySecs == f.hour * 3600 + f.minute * 60 + f.second;
  }

  /** The same instant written on any clock parses to the same value. */
  lemma AnyOffsetReadsTheSame(t: Instant, sep: char, offset: Option<Offset>)
    requires Writable(t, sep, offset)
    ensures LocalFields(t, sep, offset).Valid() && Parse(Written(LocalFields(t, sep, offset))) == Some(t.Floored())
  {
    LocalTimeDenotes(t, sep, offset);
    ReadVerbatim(LocalFields(t, sep, offset));
  }

  lemma PaddedTwo(n: int)
    requires 0 <= n <= 99
    ensures Padded(n, 2) == TwoDigits(n)
  {
    assert Pow10(2) == 100;
    PaddedIsFixedDigits(n, 2);
    FixedTwo(n);
  }

  lemma FixedTwo(n: int)
    requires 0 <= n <= 99
    ensures FixedDigits(n, 2) == TwoDigits(n)
  {
    assert FixedDigits(n / 10, 1) == FixedDigits(n / 100, 0) + [Digit(n / 10)];
  }

  lemma PaddedFour(n: int)
    requires 0 <= n <= 9999
    ensures Padded(n, 4) == TwoDigits(n / 100) + TwoDigits(n % 100)
  {
    assert Pow10(4) == 10000;
    PaddedIsFixedDigits(n, 4);
    FixedFour(n);
  }

  lemma FixedFour(n: int)
    requires 0 <= n <= 9999
    ensures FixedDigits(n, 4) == TwoDigits(n / 100) + TwoDigits(n % 100)
  {
    FixedTwo(n / 100);
    var q := n / 10;
    assert q / 10 == n / 100 && q % 10 == n % 100 / 10 && n % 10 == n % 100 % 10;
    assert FixedDigits(q, 3) == FixedDigits(q / 10, 2) + [Digit(q % 10)];
  }

  lemma FormatStep(v: int, rest: seq<int>, field: (nat, string), layout: seq<(nat, string)>)
    requires |rest| == |layout|
    ensures Format([v] + rest, [field] + layout) == Padded(v, field.0) + (field.1 + Format(rest, layout))
  {
    assert ([v] + rest)[1..] == rest && ([field] + layout)[1..] == layout;
  }

  lemma FormatIso(y: int, mo: int, d: int, h: int, mi: int, s: int, us: int)
    ensures Format([y, mo, d, h, mi, s, us], ISO_LAYOUT)
         == Padded(y, 4) + ("-" + (Padded(mo, 2) + ("-" + (Padded(d, 2) + ("T" + (Padded(h, 2) + (":" + (Padded(mi, 2)
          + (":" + (Padded(s, 2) + ("." + (Padded(us, 6) + "Z"))))))))))))
  {
    hide Padded, Format;
    FormatLast(us);
    FormatStep(s, [us], (2, "."), [(6, "Z")]);
    FormatStep(mi, [s, us], (2, ":"), [(2, "."), (6, "Z")]);
    FormatStep(h, [mi, s, us], (2, ":"), [(2, ":"), (2, "."), (6, "Z")]);
    FormatStep(d, [h, mi, s, us], (2, "T"), [(2, ":"), (2, ":"), (2, "."), (6, "Z")]);
    FormatStep(mo, [d, h, mi, s, us], (2, "-"), [(2, "T"), (2, ":"), (2, ":"), (2, "."), (6, "Z")]);
    FormatStep(y, [mo, d, h, mi, s, us], (4, "-"), [(2, "-"), (2, "T"), (2, ":"), (2, ":"), (2, "."), (6, "Z")]);
    assert [s] + [us] == [s, us] && [mi] + [s, us] == [mi, s, us] && [h] + [mi, s, us] == [h, mi, s, us];
    assert [d] + [h, mi, s, us] == [d, h, mi, s, us] && [mo] + [d, h, mi, s, us] == [mo, d, h, mi, s, us];
    assert [y] + [mo, d, h, mi, s, us] == [y, mo, d, h, mi, s, us];
    var l1 := [(2, "."), (6, "Z")];
    var l2 := [(2, ":"), (2, "."), (6, "Z")];
    assert [(2, ".")] + [(6, "Z")] == l1 && [(2, ":")] + l1 == l2;
    var l3 := [(2, ":"), (2, ":"), (2, "."), (6, "Z")];
    var l4 := [(2, "T"), (2, ":"), (2, ":"), (2, "."), (6, "Z")];
    assert [(2, ":")] + l2 == l3 && [(2, "T")] + l3 == l4;
    var l5 := [(2, "-"), (2, "T"), (2, ":"), (2, ":"), (2, "."), (6, "Z")];
    assert [(2, "-")] + l4 == l5 && [(4, "-")] + l5 == ISO_LAYOUT;
  }

  lemma FormatLast(us: int)
    ensures Format([us], [(6, "Z")]) == Padded(us, 6) + "Z"
  {
    hide Padded;
    assert [us][1..] == [] && Format([], []) == "";
    assert "Z" + "" == "Z";
  }

  lemma HeadNested(c: string, y: string, mo: string, d: string, h: string, mi: string, s: string, tail: string)
    requires |c| == |y| == |mo| == |d| == |h| == |mi| == |s| == 2
    ensures (c + y) + ("-" + (mo + ("-" + (d + ("T" + (h + (":" + (mi + (":" + (s + tail))))))))))
         == Head19(c, y, mo, d, "T", h, mi, s) + tail
  {
    assert s + tail == [s[0], s[1]] + tail;
    assert ":" + (s + tail) == [':', s[0], s[1]] + tail;
    assert mi + (":" + (s + tail)) == [mi[0], mi[1], ':', s[0], s[1]] + tail;
    var t1 := ":" + (mi + (":" + (s + tail)));
    assert t1 == [':', mi[0], mi[1], ':', s[0], s[1]] + tail;
    assert h + t1 == [h[0], h[1], ':', mi[0], mi[1], ':', s[0], s[1]] + tail;
    var t2 := "T" + (h + t1);
    assert t2 == ['T', h[0], h[1], ':', mi[0], mi[1], ':', s[0], s[1]] + tail;
    HeadDate(c, y, mo, d, t2);
    var front := [c[0], c[1], y[0], y[1], '-', mo[0], mo[1], '-', d[0], d[1]];
    var back := ['T', h[0], h[1], ':', mi[0], mi[1], ':', s[0], s[1]];
    assert front + back == Head19(c, y, mo, d, "T", h, mi, s);
    assert front + (back + tail) == (front + back) + tail;
  }

  lemma HeadDate(c: string, y: string, mo: string, d: string, t: string)
    requires |c| == |y| == |mo| == |d| == 2
    ensures (c + y) + ("-" + (mo + ("-" + (d + t)))) == [c[0], c[1], y[0], y[1], '-', mo[0], mo[1], '-', d[0], d[1]] + t
  {
    assert "-" + (d + t) == ['-', d[0], d[1]] + t;
    assert mo + ("-" + (d + t)) == [mo[0], mo[1], '-', d[0], d[1]] + t;
    assert "-" + (mo + ("-" + (d + t))) == ['-', mo[0], mo[1], '-', d[0], d[1]] + t;
    assert c + y == [c[0], c[1], y[0], y[1]];
  }

  /** For four-digit years the printer writes the grammar's own form, with a `Z`. */
  lemma IsoIsWritten(t: Instant)
    requires t.Valid() && 0 <= t.Year() <= 9999
    ensures Writable(t, 'T', None) && LocalFields(t, 'T', None).Valid()
    ensures ToIsoString(t) == Written(LocalFields(t, 'T', None)) + "Z"
  {
    var f := LocalFields(t, 'T', None);
    LocalTimeDenotes(t, 'T', None);
    hide CivilFromDays, Padded, FixedDigits, TwoDigits, Format, Head19, FractionText, OffsetText, AllDigits;
    var tail := "." + (f.frac + "Z");
    ReadingOf(t);
    FormatFields(f, t.Micros(), tail);
    WrittenZulu(f, tail);
  }

  /** The printed fields are those of the local clock at offset zero. */
  lemma ReadingOf(t: Instant)
    requires t.Valid()
    ensures var f := LocalFields(t, 'T', None);
            ToIsoString(t) == Format([f.date.year, f.date.month, f.date.day, f.hour, f.minute, f.second, t.Micros()], ISO_LAYOUT)
            && f.frac == FixedDigits(t.Micros(), 6)
  {
    hide CivilFromDays, Format, FixedDigits;
  }

  lemma FormatFields(f: Fields, micros: int, tail: string)
    requires f.Valid() && f.sep == 'T' && 0 <= micros < 1_000_000
    requires f.frac == FixedDigits(micros, 6) && tail == "." + (f.frac + "Z")
    ensures Format([f.date.year, f.date.month, f.date.day, f.hour, f.minute, f.second, micros], ISO_LAYOUT) == Head(f) + tail
  {
    hide Padded, FixedDigits, TwoDigits, Format, Head19, AllDigits;
    FormatIso(f.date.year, f.date.month, f.date.day, f.hour, f.minute, f.second, micros);
    PaddedFour(f.date.year);
    PaddedTwo(f.date.month);
    PaddedTwo(f.date.day);
    PaddedTwo(f.hour);
    PaddedTwo(f.minute);
    PaddedTwo(f.second);
    PaddedSix(micros);
    HeadNested(TwoDigits(f.date.year / 100), TwoDigits(f.date.year % 100), TwoDigits(f.date.month), TwoDigits(f.date.day),
               TwoDigits(f.hour), TwoDigits(f.minute), TwoDigits(f.second), tail);
    assert "T" == ['T'];
  }

  lemma WrittenZulu(f: Fields, tail: string)
    requires f.Valid() && f.offset.None? && f.frac != "" && tail == "." + (f.frac + "Z")
    ensures Written(f) + "Z" == Head(f) + tail
  {
    hide Head;
    var text := FractionText(f.frac) + OffsetText(f.offset);
    assert OffsetText(f.offset) == "";
    assert text + "Z" == tail;
    assert (Head(f) + text) + "Z" == Head(f) + (text + "Z");
  }

  lemma PaddedSix(n: int)
    requires 0 <= n < 1_000_000
    ensures Padded(n, 6) == FixedDigits(n, 6)
  {
    assert Pow10(6) == 1_000_000;
    PaddedIsFixedDigits(n, 6);
  }

  /** Outside the four-digit years the printed year shifts or signs the text, and it is refused. */
  lemma WideYearIsRefused(year: int, rest: string)
    requires year < 0 || year > 9999
    ensures Parse(Padded(year, 4) + rest) == None
  {
    var y := Padded(year, 4);
    ReplaceZOfConcat(y, rest);
    var s := ReplaceZ(y + rest);
    if year < 0 {
      assert y[0] == '-' && 'Z' !in y;
      ReplaceZWithoutZ(y);
      assert s[0] == '-';
    } else {
      assert Pow10(4) == 10000;
      DecimalLength(year, 4);
      assert 'Z' !in y;
      ReplaceZWithoutZ(y);
      assert s[4] == y[4] && IsDigit(y[4]);
    }
  }

  /** What the printer keeps: the second, and the nanoseconds down to a multiple of 1000. */
  lemma FlooredExactly(t: Instant)
    ensures t.Floored().secs == t.secs && t.Floored().nanos <= t.nanos < t.Floored().nanos + 1000 && t.Floored().nanos % 1000 == 0
  {
  }

  /** Parsing what was printed gives the instant back, at microsecond resolution, exactly
      when its year is one of 0000 to 9999. */
  lemma RoundTripExactly(t: Instant)
    requires t.Valid()
    ensures Parse(ToIsoString(t)) == Some(t.Floored()) <==> 0 <= t.Year() <= 9999
  {
    if 0 <= t.Year() <= 9999 {
      IsoIsWritten(t);
      LocalTimeDenotes(t, 'T', None);
      ZuluMeansZeroOffset(LocalFields(t, 'T', None));
    } else {
      var y := Padded(t.Year(), 4);
      assert ToIsoString(t) == y + ToIsoString(t)[|y|..];
      WideYearIsRefused(t.Year(), ToIsoString(t)[|y|..]);
    }
  }

  // ----- order -----

  ghost predicate Fits(values: seq<nat>, layout: seq<(nat, string)>) {
    |values| == |layout| && forall i :: 0 <= i < |values| ==> 0 < layout[i].0 && values[i] < Pow10(layout[i].0)
  }

  predicate Before(a: seq<nat>, b: seq<nat>)
    requires |a| == |b|
  {
    a != [] && (a[0] < b[0] || (a[0] == b[0] && Before(a[1..], b[1..])))
  }

  /** Fixed-width texts compare like the tuples they show. */
  lemma {:induction false} FormatOrder(a: seq<nat>, b: seq<nat>, layout: seq<(nat, string)>)
    requires Fits(a, layout) && Fits(b, layout)
    ensures Less(Format(a, layout), Format(b, layout)) <==> Before(a, b)
  {
    if a != [] {
      var (width, sep) := layout[0];
      var x, y := Format(a[1..], layout[1..]), Format(b[1..], layout[1..]);
      PaddedIsFixedDigits(a[0], width);
      PaddedIsFixedDigits(b[0], width);
      FixedDigitsOrder(a[0], b[0], width);
      LessOfConcat(FixedDigits(a[0], width), FixedDigits(b[0], width), sep + x, sep + y);
      LessOfConcat(sep, sep, x, y);
      LessIrreflexive(sep);
      FormatOrder(a[1..], b[1..], layout[1..]);
    }
  }

  predicate EarlierMicro(s: Instant, t: Instant) {
    s.secs < t.secs || (s.secs == t.secs && s.Micros() < t.Micros())
  }

  lemma SplitSeconds(s: Instant, t: Instant)
    ensures EarlierMicro(s, t) <==>
      s.secs / 86400 < t.secs / 86400 || (s.secs / 86400 == t.secs / 86400 &&
      (s.secs % 86400 < t.secs % 86400 || (s.secs % 86400 == t.secs % 86400 && s.Micros() < t.Micros())))
  {
    assert s.secs == s.secs / 86400 * 86400 + s.secs % 86400 && t.secs == t.secs / 86400 * 86400 + t.secs % 86400;
  }

  lemma SameDayOrder(a: int, b: int)
    requires 0 <= a < 86400 && 0 <= b < 86400
    ensures a < b <==> a / 3600 < b / 3600 || (a / 3600 == b / 3600 &&
                       (a % 3600 / 60 < b % 3600 / 60 || (a % 3600 / 60 == b % 3600 / 60 && a % 60 < b % 60)))
  {
    assert a == a / 3600 * 3600 + a % 3600 / 60 * 60 + a % 60;
    assert b == b / 3600 * 3600 + b % 3600 / 60 * 60 + b % 60;
  }

  lemma DateOrder(a: int, b: int)
    ensures a < b <==> Earlier(CivilFromDays(a), CivilFromDays(b))
    ensures a == b <==> CivilFromDays(a) == CivilFromDays(b)
  {
    hide CivilFromDays;
    if a < b {
      CivilIsMonotone(a, b);
    } else if b < a {
      CivilIsMonotone(b, a);
    }
  }

  lemma BeforeStep(a: seq<nat>, b: seq<nat>, k: nat)
    requires k < |a| == |b|
    ensures Before(a[k..], b[k..]) <==> a[k] < b[k] || (a[k] == b[k] && k + 1 < |a| && Before(a[k + 1..], b[k + 1..]))
    ensures a[0..] == a && b[0..] == b
  {
    assert a[k..][1..] == a[k + 1..] && b[k..][1..] == b[k + 1..];
  }

  /** From year -1 to 9999, printed text sorts like time at microsecond resolution: the sign
      of the one negative year sorts before every digit. */
  lemma IsoOrderIsTimeOrder(s: Instant, t: Instant)
    requires s.Valid() && -1 <= s.Year() <= 9999 && t.Valid() && -1 <= t.Year() <= 9999
    ensures Less(ToIsoString(s), ToIsoString(t)) <==> EarlierMicro(s, t)
  {
    hide Format, CivilFromDays, Less, Fits, EarlierMicro, Before, Padded, ToIsoString;
    if s.Year() == t.Year() {
      SameYearOrder(s, t);
    } else if s.Year() == -1 {
      SignedBeforeDigits(s, t);
    } else if t.Year() == -1 {
      SignedBeforeDigits(t, s);
    } else {
      FourDigitOrder(s, t);
    }
  }

  lemma FourDigitOrder(s: Instant, t: Instant)
    requires s.Valid() && 0 <= s.Year() <= 9999 && t.Valid() && 0 <= t.Year() <= 9999 && s.Year() != t.Year()
    ensures Less(ToIsoString(s), ToIsoString(t)) <==> EarlierMicro(s, t)
  {
    hide Format, CivilFromDays, Less, Padded, ToIsoString;
    assert Pow10(4) == 10000;
    YearFirst(s);
    YearFirst(t);
    PaddedIsFixedDigits(s.Year(), 4);
    PaddedIsFixedDigits(t.Year(), 4);
    FixedDigitsOrder(s.Year(), t.Year(), 4);
    LessOfConcat(FixedDigits(s.Year(), 4), FixedDigits(t.Year(), 4),
                 "-" + Format(InYear(s), ISO_LAYOUT[1..]), "-" + Format(InYear(t), ISO_LAYOUT[1..]));
    DateOrder(s.secs / 86400, t.secs / 86400);
  }

  /** The clock reading without the year. */
  function InYear(t: Instant): (r: seq<nat>)
    requires t.Valid()
    ensures |r| == 6
  {
    MonthAndDay(t.secs / 86400);
    var date, daySecs := CivilFromDays(t.secs / 86400), t.secs % 86400;
    [date.month, date.day, daySecs / 3600, daySecs % 3600 / 60, daySecs % 60, t.Micros()]
  }

  lemma MonthAndDay(days: int)
    ensures 1 <= CivilFromDays(days).month <= 12 && 1 <= CivilFromDays(days).day <= 31
  {
    hide CivilFromDays;
    DayNumberComesBack(days);
  }

  lemma InYearFits(t: Instant)
    requires t.Valid()
    ensures Fits(InYear(t), ISO_LAYOUT[1..])
  {
    hide CivilFromDays;
    MonthAndDay(t.secs / 86400);
    assert Pow10(2) == 100 && Pow10(6) == 1_000_000;
  }

  lemma YearFirst(t: Instant)
    requires t.Valid()
    ensures ToIsoString(t) == Padded(t.Year(), 4) + ("-" + Format(InYear(t), ISO_LAYOUT[1..]))
  {
    hide CivilFromDays, Padded;
    assert ClockReading(t) == [t.Year()] + InYear(t);
    FormatStep(t.Year(), InYear(t), ISO_LAYOUT[0], ISO_LAYOUT[1..]);
    assert [ISO_LAYOUT[0]] + ISO_LAYOUT[1..] == ISO_LAYOUT;
  }

  /** Within any one year, before and after year zero, text order is time order. */
  lemma SameYearOrder(s: Instant, t: Instant)
    requires s.Valid() && t.Valid() && s.Year() == t.Year()
    ensures Less(ToIsoString(s), ToIsoString(t)) <==> EarlierMicro(s, t)
  {
    hide Format, Less, Fits, Padded, ToIsoString, CivilFromDays;
    var a, b, rest := InYear(s), InYear(t), ISO_LAYOUT[1..];
    var year := Padded(s.Year(), 4);
    YearFirst(s);
    YearFirst(t);
    LessOfConcat(year, year, "-" + Format(a, rest), "-" + Format(b, rest));
    LessOfConcat("-", "-", Format(a, rest), Format(b, rest));
    LessIrreflexive(year);
    LessIrreflexive("-");
    InYearFits(s);
    InYearFits(t);
    FormatOrder(a, b, rest);
    InYearOrder(s, t);
  }

  lemma InYearOrder(s: Instant, t: Instant)
    requires s.Valid() && t.Valid() && s.Year() == t.Year()
    ensures Before(InYear(s), InYear(t)) <==> EarlierMicro(s, t)
  {
    hide CivilFromDays;
    DateOrder(s.secs / 86400, t.secs / 86400);
    SameDayOrder(s.secs % 86400, t.secs % 86400);
    SplitSeconds(s, t);
    hide Before, EarlierMicro;
    Before6(InYear(s), InYear(t));
  }

  lemma Before6(a: seq<nat>, b: seq<nat>)
    requires |a| == |b| == 6
    ensures Before(a, b) <==>
      a[0] < b[0] || (a[0] == b[0] && (a[1] < b[1] || (a[1] == b[1] && (a[2] < b[2] || (a[2] == b[2] && (a[3] < b[3] || (a[3] == b[3] &&
      (a[4] < b[4] || (a[4] == b[4] && a[5] < b[5])))))))))
  {
    BeforeStep(a, b, 5);
    BeforeStep(a, b, 4);
    BeforeStep(a, b, 3);
    BeforeStep(a, b, 2);
    BeforeStep(a, b, 1);
    BeforeStep(a, b, 0);
  }

  lemma SignedBeforeDigits(s: Instant, t: Instant)
    requires s.Valid() && t.Valid() && s.Year() < 0 <= t.Year()
    ensures Less(ToIsoString(s), ToIsoString(t)) && !Less(ToIsoString(t), ToIsoString(s))
    ensures EarlierMicro(s, t) && !EarlierMicro(t, s)
  {
    hide CivilFromDays, Format, ToIsoString;
    YearFirst(s);
    YearFirst(t);
    DateOrder(s.secs / 86400, t.secs / 86400);
    assert ToIsoString(s)[0] == '-' && IsDigit(ToIsoString(t)[0]);
  }

  lemma LeadingDigit(n: nat)
    ensures n < 10 ==> Decimal(n)[0] == Digit(n)
    ensures n >= 10 ==> Decimal(n)[0] == Decimal(n / 10)[0]
  {
  }

  lemma LeadingDigitOfYear(n: nat)
    requires 1000 <= n <= 19999
    ensures Decimal(n)[0] == if n <= 9999 then Digit(n / 1000) else '1'
  {
    hide Decimal;
    LeadingDigit(n);
    LeadingDigit(n / 10);
    LeadingDigit(n / 100);
    LeadingDigit(n / 1000);
    LeadingDigit(n / 10000);
  }

  /** Text of the years 10000 to 19999 sorts before text of the years 2000 to 9999, though the
      instants are later. */
  lemma OrderBreaksAtYear10000(s: Instant, t: Instant)
    requires s.Valid() && t.Valid() && 2000 <= s.Year() <= 9999 && 10000 <= t.Year() <= 19999
    ensures EarlierMicro(s, t) && Less(ToIsoString(t), ToIsoString(s))
  {
    hide CivilFromDays, Padded, Decimal;
    DateOrder(s.secs / 86400, t.secs / 86400);
    LeadingDigitOfYear(s.Year());
    LeadingDigitOfYear(t.Year());
    PaddedStart(s.Year());
    PaddedStart(t.Year());
    assert ToIsoString(t)[0] < ToIsoString(s)[0];
  }

  /** Text of year -1 sorts before text of year -2, though the instants are later. */
  lemma OrderBreaksAtYearMinus2(s: Instant, t: Instant)
    requires s.Valid() && t.Valid() && s.Year() == -2 && t.Year() == -1
    ensures EarlierMicro(s, t) && Less(ToIsoString(t), ToIsoString(s))
  {
    hide CivilFromDays, Format, ToIsoString;
    YearFirst(s);
    YearFirst(t);
    DateOrder(s.secs / 86400, t.secs / 86400);
    assert Padded(-2, 4) == "-002" by { PaddedMinus(2); }
    assert Padded(-1, 4) == "-001" by { PaddedMinus(1); }
    LessOfConcat("-001", "-002", "-" + Format(InYear(t), ISO_LAYOUT[1..]), "-" + Format(InYear(s), ISO_LAYOUT[1..]));
    assert Less("-001", "-002");
  }

  lemma PaddedMinus(k: int)
    requires 1 <= k <= 9
    ensures Padded(-k, 4) == "-00" + [Digit(k)]
  {
    assert ZeroPad([Digit(k)], 3) == ZeroPad("0" + [Digit(k)], 3) == ZeroPad("0" + ("0" + [Digit(k)]), 3) == "0" + ("0" + [Digit(k)]);
  }

  function NewYear(year: int): Instant {
    Instant(DaysFromCivil(Date(year, 1, 1)) * 86400, 0)
  }

  lemma NewYearIsInYear(year: int)
    ensures NewYear(year).Valid() && NewYear(year).Year() == year
  {
    hide CivilFromDays, DaysFromCivil;
    DateComesBack(Date(year, 1, 1));
  }

  /** Text order is time order throughout the years. */
  ghost predicate SortsLikeTime(lo: int, hi: int) {
    forall s: Instant, t: Instant | s.Valid() && t.Valid() && lo <= s.Year() <= hi && lo <= t.Year() <= hi ::
      Less(ToIsoString(s), ToIsoString(t)) <==> EarlierMicro(s, t)
  }

  /** A range of years around the four-digit ones sorts like time exactly when it reaches from
      year -1 or later to year 9999 at most. */
  lemma SortsLikeTimeExactly(lo: int, hi: int)
    requires lo <= 0 && 9999 <= hi
    ensures SortsLikeTime(lo, hi) <==> -1 <= lo && hi <= 9999
  {
    hide ToIsoString, EarlierMicro, Less, CivilFromDays, DaysFromCivil;
    if -1 <= lo && hi <= 9999 {
      forall s: Instant, t: Instant | s.Valid() && t.Valid() && lo <= s.Year() <= hi && lo <= t.Year() <= hi
        ensures Less(ToIsoString(s), ToIsoString(t)) <==> EarlierMicro(s, t)
      {
        IsoOrderIsTimeOrder(s, t);
      }
    } else if hi > 9999 {
      NewYearIsInYear(2000);
      NewYearIsInYear(10000);
      OrderBreaksAtYear10000(NewYear(2000), NewYear(10000));
      NotBothEarlier(NewYear(2000), NewYear(10000));
    } else {
      NewYearIsInYear(-2);
      NewYearIsInYear(-1);
      OrderBreaksAtYearMinus2(NewYear(-2), NewYear(-1));
      NotBothEarlier(NewYear(-2), NewYear(-1));
    }
  }

  lemma NotBothEarlier(s: Instant, t: Instant)
    ensures !(EarlierMicro(s, t) && EarlierMicro(t, s))
  {
  }

  lemma PaddedStart(n: int)
    requires 1000 <= n
    ensures Padded(n, 4) == Decimal(n)
  {
    assert Pow10(3) == 1000;
    DecimalLength(n, 3);
  }
}
