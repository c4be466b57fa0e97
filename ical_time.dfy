/**
 * Temporal values of a feed: DATE (section 3.3.4 of RFC 5545) and DATE-TIME
 * (section 3.3.5) read into JavaScript dates, and DURATION (section 3.3.6)
 * added to a start date.
 */
module ICalTime {
  import opened Wrappers
  import opened JsText
  import opened CivilTime

  /** A JavaScript `Date`: a time value in milliseconds, or NaN (an Invalid Date). */
  datatype Instant = Valid(ms: int) | Invalid

  /** `value.replace(/"/g, '')`. */
  function RemoveQuotes(s: string): (r: string)
    ensures '"' !in r
    ensures '"' !in s ==> r == s
  {
    if s == [] then []
    else (if s[0] == '"' then [] else [s[0]]) + RemoveQuotes(s[1..])
  }

  /** `value.replace(/"/g, '').trim()`: the text the date is read from. */
  function CleanDateText(value: string): (v: string)
    ensures '"' !in v && IsTrimmed(v)
    ensures '"' !in value && IsTrimmed(value) ==> v == value
  {
    Trim(RemoveQuotes(value))
  }

  /** Deleting quotes works character by character: a quote goes, any other character stays. */
  lemma RemoveQuotesChar(c: char)
    ensures c == '"' ==> RemoveQuotes([c]) == []
    ensures c != '"' ==> RemoveQuotes([c]) == [c]
  {
    assert [c][1..] == [];
  }

  /** Deleting quotes distributes over concatenation, so the kept characters stay in order. */
  lemma {:induction false} RemoveQuotesAppend(a: string, b: string)
    ensures RemoveQuotes(a + b) == RemoveQuotes(a) + RemoveQuotes(b)
    decreases |a|
  {
    if a == [] {
      assert a + b == b;
    } else {
      assert (a + b)[0] == a[0];
      assert (a + b)[1..] == a[1..] + b;
      RemoveQuotesAppend(a[1..], b);
    }
  }

  /** A quoted value `"v"` reads as `v`. */
  lemma QuotedValue(v: string)
    requires '"' !in v
    ensures RemoveQuotes(['"'] + v + ['"']) == v
  {
    RemoveQuotesAppend(['"'] + v, ['"']);
    RemoveQuotesAppend(['"'], v);
    RemoveQuotesChar('"');
  }

  /** The date text of a quoted value `"v"` is `v` trimmed. */
  lemma CleanQuotedValue(v: string)
    requires '"' !in v
    ensures CleanDateText(['"'] + v + ['"']) == Trim(v)
  {
    QuotedValue(v);
  }

  /** Year, month and day as `parseInt` reads them at positions 0-4, 4-6 and 6-8; None if any is NaN. */
  function ReadDate(v: string): Option<(int, int, int)>
    requires |v| >= 8
  {
    var year, month, day := ParseInt(v[0..4]), ParseInt(v[4..6]), ParseInt(v[6..8]);
    if year.Some? && month.Some? && day.Some? then Some((year.value, month.value, day.value)) else None
  }

  /** Hour, minute and second as `parseInt` reads them at positions 9-11, 11-13 and 13-15. */
  function ReadTime(v: string): Option<(int, int, int)>
    requires |v| >= 15
  {
    var hour, minute, second := ParseInt(v[9..11]), ParseInt(v[11..13]), ParseInt(v[13..15]);
    if hour.Some? && minute.Some? && second.Some? then Some((hour.value, minute.value, second.value)) else None
  }

  /** What the text of a DATE or DATE-TIME value says, before any calendar arithmetic. */
  datatype Reading =
    | DateOnly(year: int, month: int, day: int)
    | DateTime(year: int, month: int, day: int, hour: int, minute: int, second: int, utc: bool)
    | NaNField
    | Unrecognised(text: string)

  /**
   * Quotes are dropped and the rest trimmed; eight characters are a DATE,
   * fifteen or more a DATE-TIME read at fixed positions (a `Z` at the very
   * end makes it UTC; any TZID parameter is not consulted). A field that
   * `parseInt` reads as NaN spoils the value; any other length is left to
   * the general date-string parser.
   */
  function ReadICalDate(value: string): Reading
  {
    var v := CleanDateText(value);
    if |v| == 8 then
      var date := ReadDate(v);
      if date.None? then NaNField
      else DateOnly(date.value.0, date.value.1, date.value.2)
    else if |v| >= 15 then
      var date, time := ReadDate(v), ReadTime(v);
      if date.None? || time.None? then NaNField
      else DateTime(date.value.0, date.value.1, date.value.2, time.value.0, time.value.1, time.value.2, EndsWith(v, 'Z'))
    else Unrecognised(v)
  }

  /**
   * The `Date` a reading builds: a DATE at local midnight, a DATE-TIME by
   * `Date.UTC` or in local time (months are one-based in the text and
   * zero-based in `Date`), an Invalid Date when a field is NaN, and
   * whatever `fallback` (the `new Date(string)` parser) makes of other text.
   */
  function InstantOf(r: Reading, offset: int, fallback: string -> Instant): Instant
  {
    match r
    case DateOnly(year, month, day) => Valid(DateLocal(offset, year, month - 1, day, 0, 0, 0))
    case DateTime(year, month, day, hour, minute, second, utc) =>
      if utc then Valid(DateUtc(year, month - 1, day, hour, minute, second))
      else Valid(DateLocal(offset, year, month - 1, day, hour, minute, second))
    case NaNField => Invalid
    case Unrecognised(text) => fallback(text)
  }

  /** `parseICalDate(value)`, with the local offset and the general parser as parameters. */
  function ParseICalDate(value: string, offset: int, fallback: string -> Instant): Instant
  {
    InstantOf(ReadICalDate(value), offset, fallback)
  }

  // ---------------------------------------------------------------------
  // Writing dates, to state what reading them gives

  /** `n` in decimal, padded with leading zeros to `width` characters. */
  function Padded(n: nat, width: nat): (s: string)
    requires |NatToString(n)| <= width
    ensures |s| == width && AllDigits(s, 10)
  {
    seq(width - |NatToString(n)|, _ => '0') + NatToString(n)
  }

  lemma {:induction false} LeadingZerosAddNothing(z: nat, s: string)
    requires AllDigits(s, 10)
    ensures AllDigits(seq(z, _ => '0') + s, 10)
    ensures NumeralValue(seq(z, _ => '0') + s, 10) == NumeralValue(s, 10)
  {
    var zs := seq(z, _ => '0');
    if s == [] {
      assert zs + s == zs;
      ZerosAreNothing(z);
    } else {
      var init := s[..|s| - 1];
      LeadingZerosAddNothing(z, init);
      assert (zs + s)[..|zs + s| - 1] == zs + init;
      assert (zs + s)[|zs + s| - 1] == s[|s| - 1];
    }
  }

  lemma {:induction false} ZerosAreNothing(z: nat)
    ensures AllDigits(seq(z, _ => '0'), 10)
    ensures NumeralValue(seq(z, _ => '0'), 10) == 0
  {
    if z > 0 {
      var zs := seq(z, _ => '0');
      ZerosAreNothing(z - 1);
      assert zs[..z - 1] == seq(z - 1, _ => '0');
      assert zs[z - 1] == '0';
    }
  }

  lemma PaddedValue(n: nat, width: nat)
    requires |NatToString(n)| <= width && width > 0
    ensures ParseInt(Padded(n, width)) == Some(n)
  {
    LeadingZerosAddNothing(width - |NatToString(n)|, NatToString(n));
    ParseIntOfDigits(Padded(n, width));
  }

  /** Calendar fields as a DATE-TIME writes them, the month one-based. */
  datatype Fields = Fields(year: nat, month: nat, day: nat, hour: nat, minute: nat, second: nat)

  predicate Writable(f: Fields) {
    f.year <= 9999 && f.month <= 99 && f.day <= 99 && f.hour <= 99 && f.minute <= 99 && f.second <= 99
  }

  lemma {:induction false} ShortNumbers(n: nat)
    ensures n <= 99 ==> |NatToString(n)| <= 2
    ensures n <= 999 ==> |NatToString(n)| <= 3
    ensures n <= 9999 ==> |NatToString(n)| <= 4
  {
    if n >= 10 {
      ShortNumbers(n / 10);
      assert |NatToString(n)| == |NatToString(n / 10)| + 1;
    }
  }

  lemma DateWidths(f: Fields)
    requires Writable(f)
    ensures |NatToString(f.year)| <= 4 && |NatToString(f.month)| <= 2 && |NatToString(f.day)| <= 2
  {
    ShortNumbers(f.year); ShortNumbers(f.month); ShortNumbers(f.day);
  }

  lemma TimeWidths(f: Fields)
    requires Writable(f)
    ensures |NatToString(f.hour)| <= 2 && |NatToString(f.minute)| <= 2 && |NatToString(f.second)| <= 2
  {
    ShortNumbers(f.hour); ShortNumbers(f.minute); ShortNumbers(f.second);
  }

  /** `YYYYMMDD`. */
  function DateText(f: Fields): (s: string)
    requires Writable(f)
    ensures |s| == 8 && AllDigits(s, 10)
  {
    DateWidths(f);
    Padded(f.year, 4) + Padded(f.month, 2) + Padded(f.day, 2)
  }

  /** `HHMMSS`. */
  function TimeText(f: Fields): (s: string)
    requires Writable(f)
    ensures |s| == 6 && AllDigits(s, 10)
  {
    TimeWidths(f);
    Padded(f.hour, 2) + Padded(f.minute, 2) + Padded(f.second, 2)
  }

  /** `YYYYMMDDTHHMMSS`, a floating DATE-TIME. */
  function DateTimeText(f: Fields): (s: string)
    requires Writable(f)
    ensures |s| == 15
  {
    DateText(f) + ['T'] + TimeText(f)
  }

  lemma DigitsAreClean(s: string)
    requires |s| > 0 && AllDigits(s, 10)
    ensures '"' !in s && IsTrimmed(s) && !EndsWith(s, 'Z')
  {
    assert DigitValue(s[0]) < 10 && DigitValue(s[|s| - 1]) < 10;
  }

  lemma DateTimeTextIsClean(f: Fields)
    requires Writable(f)
    ensures '"' !in DateTimeText(f) && IsTrimmed(DateTimeText(f)) && !EndsWith(DateTimeText(f), 'Z')
    ensures '"' !in DateTimeText(f) + "Z" && IsTrimmed(DateTimeText(f) + "Z") && EndsWith(DateTimeText(f) + "Z", 'Z')
  {
    var d, t := DateText(f), TimeText(f);
    DigitsAreClean(d);
    DigitsAreClean(t);
    var s := DateTimeText(f);
    assert s[0] == d[0] && s[14] == t[5];
  }

  /** Where three pieces laid end to end sit inside a longer text. */
  lemma PiecesAt(v: string, from: nat, a: string, b: string, c: string)
    requires from + |a| + |b| + |c| <= |v| && v[from..from + |a| + |b| + |c|] == a + b + c
    ensures v[from..from + |a|] == a
    ensures v[from + |a|..from + |a| + |b|] == b
    ensures v[from + |a| + |b|..from + |a| + |b| + |c|] == c
  {
    var w := v[from..from + |a| + |b| + |c|];
    forall k | 0 <= k < |a|
      ensures v[from..from + |a|][k] == a[k]
    {
      assert w[k] == (a + b + c)[k];
    }
    forall k | 0 <= k < |b|
      ensures v[from + |a|..from + |a| + |b|][k] == b[k]
    {
      assert w[|a| + k] == (a + b + c)[|a| + k];
    }
    forall k | 0 <= k < |c|
      ensures v[from + |a| + |b|..from + |a| + |b| + |c|][k] == c[k]
    {
      assert w[|a| + |b| + k] == (a + b + c)[|a| + |b| + k];
    }
  }

  lemma DateTextFields(f: Fields, v: string)
    requires Writable(f) && |v| >= 8 && v[0..8] == DateText(f)
    ensures ParseInt(v[0..4]) == Some(f.year as int)
    ensures ParseInt(v[4..6]) == Some(f.month as int)
    ensures ParseInt(v[6..8]) == Some(f.day as int)
  {
    DateWidths(f);
    var yy, mm, dd := Padded(f.year, 4), Padded(f.month, 2), Padded(f.day, 2);
    PiecesAt(v, 0, yy, mm, dd);
    var y, m, d := v[0..4], v[4..6], v[6..8];
    assert y == yy && m == mm && d == dd;
    PaddedValue(f.year, 4);
    PaddedValue(f.month, 2);
    PaddedValue(f.day, 2);
  }

  /** Three zero-padded numbers at consecutive positions are each read back by `parseInt`. */
  lemma PaddedFieldsRead(v: string, from: nat, x: nat, xw: nat, y: nat, yw: nat, z: nat, zw: nat)
    requires 0 < xw && 0 < yw && 0 < zw && from + xw + yw + zw <= |v|
    requires |NatToString(x)| <= xw && |NatToString(y)| <= yw && |NatToString(z)| <= zw
    requires v[from..from + xw] == Padded(x, xw)
    requires v[from + xw..from + xw + yw] == Padded(y, yw)
    requires v[from + xw + yw..from + xw + yw + zw] == Padded(z, zw)
    ensures ParseInt(v[from..from + xw]) == Some(x)
    ensures ParseInt(v[from + xw..from + xw + yw]) == Some(y)
    ensures ParseInt(v[from + xw + yw..from + xw + yw + zw]) == Some(z)
  {
    PaddedValue(x, xw);
    PaddedValue(y, yw);
    PaddedValue(z, zw);
  }

  lemma TimeTextFields(f: Fields, v: string)
    requires Writable(f) && |v| >= 15 && v[9..15] == TimeText(f)
    ensures ParseInt(v[9..11]) == Some(f.hour as int)
    ensures ParseInt(v[11..13]) == Some(f.minute as int)
    ensures ParseInt(v[13..15]) == Some(f.second as int)
  {
    TimeWidths(f);
    PiecesAt(v, 9, Padded(f.hour, 2), Padded(f.minute, 2), Padded(f.second, 2));
    PaddedFieldsRead(v, 9, f.hour, 2, f.minute, 2, f.second, 2);
  }

  lemma DateTextReads(f: Fields, v: string)
    requires Writable(f) && |v| >= 8 && v[..8] == DateText(f)
    ensures ReadDate(v) == Some((f.year as int, f.month as int, f.day as int))
  {
    assert v[0..8] == v[..8];
    DateTextFields(f, v);
  }

  lemma TimeTextReads(f: Fields, v: string)
    requires Writable(f) && |v| >= 15 && v[9..15] == TimeText(f)
    ensures ReadTime(v) == Some((f.hour as int, f.minute as int, f.second as int))
  {
    TimeTextFields(f, v);
  }

  lemma DateTimeTextReads(f: Fields, v: string)
    requires Writable(f) && |v| >= 15 && v[..15] == DateTimeText(f)
    ensures ReadDate(v) == Some((f.year as int, f.month as int, f.day as int))
    ensures ReadTime(v) == Some((f.hour as int, f.minute as int, f.second as int))
  {
    assert v[..8] == DateText(f) && v[9..15] == TimeText(f) by {
      assert v[..8] == DateTimeText(f)[..8];
      assert v[9..15] == DateTimeText(f)[9..15];
    }
    DateTextReads(f, v);
    TimeTextReads(f, v);
  }

  lemma DateTextIsRead(f: Fields)
    requires Writable(f)
    ensures ReadICalDate(DateText(f)) == DateOnly(f.year, f.month, f.day)
  {
    var v := DateText(f);
    DigitsAreClean(v);
    assert v[..8] == v;
    DateTextReads(f, v);
  }

  lemma FloatingTextIsRead(f: Fields)
    requires Writable(f)
    ensures ReadICalDate(DateTimeText(f)) == DateTime(f.year, f.month, f.day, f.hour, f.minute, f.second, false)
  {
    var v := DateTimeText(f);
    DateTimeTextIsClean(f);
    assert v[..15] == v;
    DateTimeTextReads(f, v);
  }

  lemma UtcTextIsRead(f: Fields)
    requires Writable(f)
    ensures ReadICalDate(DateTimeText(f) + "Z") == DateTime(f.year, f.month, f.day, f.hour, f.minute, f.second, true)
  {
    var z := DateTimeText(f) + "Z";
    DateTimeTextIsClean(f);
    assert z[..15] == DateTimeText(f);
    DateTimeTextReads(f, z);
  }

  // The text and the arithmetic are proved apart: first what the text reads
  // as, then the instant a reading stands for.

  /** What a value parses to, from what its text reads as and the instant that reading stands for. */
  lemma ParsedAs(value: string, r: Reading, t: Instant, offset: int, fallback: string -> Instant)
    requires ReadICalDate(value) == r && InstantOf(r, offset, fallback) == t
    ensures ParseICalDate(value, offset, fallback) == t
  {
  }

  lemma DateOnlyInstant(year: int, month: int, day: int, offset: int, fallback: string -> Instant)
    ensures InstantOf(DateOnly(year, month, day), offset, fallback) == Valid(DateUtc(year, month - 1, day, 0, 0, 0) - offset)
  {
  }

  lemma DateTimeInstant(year: int, month: int, day: int, hour: int, minute: int, second: int,
                        offset: int, fallback: string -> Instant)
    ensures InstantOf(DateTime(year, month, day, hour, minute, second, true), offset, fallback)
         == Valid(DateUtc(year, month - 1, day, hour, minute, second))
    ensures InstantOf(DateTime(year, month, day, hour, minute, second, false), offset, fallback)
         == Valid(DateUtc(year, month - 1, day, hour, minute, second) - offset)
  {
  }

  /** A DATE value is local midnight of its day: `Date.UTC` of the fields, less the offset. */
  lemma DateIsLocalMidnight(f: Fields, offset: int, fallback: string -> Instant)
    requires Writable(f)
    ensures ParseICalDate(DateText(f), offset, fallback)
         == Valid(DateUtc(f.year, f.month - 1, f.day, 0, 0, 0) - offset)
  {
    DateTextIsRead(f);
    DateOnlyInstant(f.year, f.month, f.day, offset, fallback);
    ParsedAs(DateText(f), DateOnly(f.year, f.month, f.day),
             Valid(DateUtc(f.year, f.month - 1, f.day, 0, 0, 0) - offset), offset, fallback);
  }

  /** A DATE-TIME ending in `Z` is `Date.UTC` of its fields, whatever the local offset. */
  lemma UtcDateTimeIsDateUtc(f: Fields, offset: int, fallback: string -> Instant)
    requires Writable(f)
    ensures ParseICalDate(DateTimeText(f) + "Z", offset, fallback)
         == Valid(DateUtc(f.year, f.month - 1, f.day, f.hour, f.minute, f.second))
  {
    UtcTextIsRead(f);
    DateTimeInstant(f.year, f.month, f.day, f.hour, f.minute, f.second, offset, fallback);
    ParsedAs(DateTimeText(f) + "Z", DateTime(f.year, f.month, f.day, f.hour, f.minute, f.second, true),
             Valid(DateUtc(f.year, f.month - 1, f.day, f.hour, f.minute, f.second)), offset, fallback);
  }

  /**
   * A floating DATE-TIME (no `Z`) is read as local time: the instant the
   * same text with `Z` denotes, less the local offset.
   */
  lemma FloatingDateTimeIsLocal(f: Fields, offset: int, fallback: string -> Instant)
    requires Writable(f)
    ensures ParseICalDate(DateTimeText(f), offset, fallback)
         == Valid(DateUtc(f.year, f.month - 1, f.day, f.hour, f.minute, f.second) - offset)
  {
    FloatingTextIsRead(f);
    DateTimeInstant(f.year, f.month, f.day, f.hour, f.minute, f.second, offset, fallback);
    ParsedAs(DateTimeText(f), DateTime(f.year, f.month, f.day, f.hour, f.minute, f.second, false),
             Valid(DateUtc(f.year, f.month - 1, f.day, f.hour, f.minute, f.second) - offset), offset, fallback);
  }

  /** A DATE and the floating DATE-TIME at 00:00:00 on the same day are the same instant. */
  lemma DateIsMidnightDateTime(f: Fields, offset: int, fallback: string -> Instant)
    requires Writable(f) && f.hour == 0 && f.minute == 0 && f.second == 0
    ensures ParseICalDate(DateText(f), offset, fallback) == ParseICalDate(DateTimeText(f), offset, fallback)
  {
    DateIsLocalMidnight(f, offset, fallback);
    FloatingDateTimeIsLocal(f, offset, fallback);
  }

  /** `20240115T090000Z` is 09:00 UTC on 15 January 2024, 1705309200000 ms after the epoch. */
  lemma UtcExample(f: Fields, offset: int, fallback: string -> Instant)
    requires f == Fields(2024, 1, 15, 9, 0, 0)
    ensures ParseICalDate(DateTimeText(f) + "Z", offset, fallback) == Valid(1_705_309_200_000)
  {
    UtcDateTimeIsDateUtc(f, offset, fallback);
    assert f.year == 2024 && f.month - 1 == 0 && f.day == 15 && f.hour == 9 && f.minute == 0 && f.second == 0;
    ExampleInstant();
  }

  lemma ExampleInstant()
    ensures DateUtc(2024, 0, 15, 9, 0, 0) == 1_705_309_200_000
  {
    KnownDays();
    assert MakeDay(2024, 0, 15) == 19737;
  }

  // ---------------------------------------------------------------------
  // Durations

  /** The numbers of a DURATION value; an absent component is 0. */
  datatype Duration = Duration(weeks: nat, days: nat, hours: nat, minutes: nat, seconds: nat)

  /** A component read at the front of the text: its number, if present, and what follows. */
  datatype Taken = Taken(number: Option<nat>, rest: string)

  /** `(?:(\d+)U)?` at the start of `s`: the number before the unit letter `unit`, and what follows it. */
  function Component(s: string, unit: char): (r: Taken)
    ensures |r.rest| <= |s|
  {
    var n := DigitRun(s, 10);
    if 0 < n < |s| && s[n] == unit then Taken(Some(NumeralValue(s[..n], 10)), s[n + 1..])
    else Taken(None, s)
  }

  /**
   * The match of `/P(?:(\d+)W)?(?:(\d+)D)?(?:T(?:(\d+)H)?(?:(\d+)M)?(?:(\d+)S)?)?/`:
   * the pattern is not anchored and every part after `P` is optional, so it
   * matches at the first `P` of the text, if any, taking each component
   * that is present there in order.
   */
  function MatchDuration(s: string): Option<Duration>
  {
    var p := IndexOf(s, 'P');
    if p == -1 then None else Some(AfterDesignator(s[p + 1..]))
  }

  /** The weeks and days components, then the time components after a `T`; an absent one is 0. */
  function AfterDesignator(s: string): Duration
  {
    var weeks := Component(s, 'W');
    var days := Component(weeks.rest, 'D');
    var time := if |days.rest| > 0 && days.rest[0] == 'T' then AfterTimeDesignator(days.rest[1..])
                else Duration(0, 0, 0, 0, 0);
    Duration(weeks.number.GetOr(0), days.number.GetOr(0), time.hours, time.minutes, time.seconds)
  }

  /** The hours, minutes and seconds components; an absent one is 0. */
  function AfterTimeDesignator(s: string): Duration
  {
    var hours := Component(s, 'H');
    var minutes := Component(hours.rest, 'M');
    var seconds := Component(minutes.rest, 'S');
    Duration(0, 0, hours.number.GetOr(0), minutes.number.GetOr(0), seconds.number.GetOr(0))
  }

  /** The length of a duration in milliseconds: with a fixed offset every day is 24 hours long. */
  function Length(d: Duration): int {
    Days(7 * d.weeks + d.days) + Hours(d.hours) + Minutes(d.minutes) + Seconds(d.seconds)
  }

  /** An instant moved by `ms` milliseconds; an Invalid Date stays invalid. */
  function Shift(t: Instant, ms: int): Instant {
    match t
    case Valid(x) => Valid(x + ms)
    case Invalid => Invalid
  }

  /** The end a DURATION gives from `start`: `start` itself when the text has no `P`. */
  function EndAfter(start: Instant, duration: string): Instant
  {
    match MatchDuration(duration)
    case None => start
    case Some(d) => Shift(start, Length(d))
  }

  /**
   * Adds a DURATION to a copy of `date`: the days of the weeks and days
   * components first, then hours, minutes and seconds, each as the local
   * setter does it with a fixed offset.
   */
  method AddDuration(date: Instant, duration: string) returns (result: Instant)
    ensures result == EndAfter(date, duration)
  {
    result := date;
    var m := MatchDuration(duration);
    if m.None? {
      return;
    }
    var d := m.value;
    // result.setDate(result.getDate() + weeks * 7 + days)
    result := Shift(result, Days(d.weeks * 7 + d.days));
    // result.setHours(result.getHours() + hours)
    result := Shift(result, Hours(d.hours));
    // result.setMinutes(result.getMinutes() + minutes)
    result := Shift(result, Minutes(d.minutes));
    // result.setSeconds(result.getSeconds() + seconds)
    result := Shift(result, Seconds(d.seconds));
  }

  /** Text without a `P` does not match, and the start comes back unchanged. */
  lemma NoDesignatorKeepsStart(start: Instant, duration: string)
    requires 'P' !in duration
    ensures EndAfter(start, duration) == start
  {
  }

  /** A duration never moves a date backwards, and an Invalid Date stays invalid. */
  lemma EndNotBeforeStart(start: Instant, duration: string)
    ensures start.Valid? <==> EndAfter(start, duration).Valid?
    ensures start.Valid? ==> EndAfter(start, duration).ms >= start.ms
  {
  }

  /** Moving a valid date by a matched duration adds the duration's length. */
  lemma MatchedEnd(t: int, s: string, d: Duration)
    requires MatchDuration(s) == Some(d)
    ensures EndAfter(Valid(t), s) == Valid(t + Length(d))
  {
  }

  /** One component `<n><unit>` of a DURATION value. */
  function ComponentText(n: nat, unit: char): string {
    NatToString(n) + [unit]
  }

  /** The time part `<h>H<m>M<s>S` of a DURATION value. */
  function ClockText(d: Duration): string {
    ComponentText(d.hours, 'H') + (ComponentText(d.minutes, 'M') + ComponentText(d.seconds, 'S'))
  }

  /** The DURATION text of `d` with every component written out: `P<w>W<d>DT<h>H<m>M<s>S`. */
  function DurationText(d: Duration): string {
    "P" + (ComponentText(d.weeks, 'W') + (ComponentText(d.days, 'D') + ("T" + ClockText(d))))
  }

  lemma {:induction false} DigitRunStops(digits: string, rest: string)
    requires AllDigits(digits, 10)
    requires rest != [] && DigitValue(rest[0]) >= 10
    ensures DigitRun(digits + rest, 10) == |digits|
  {
    if digits != [] {
      assert (digits + rest)[1..] == digits[1..] + rest;
      DigitRunStops(digits[1..], rest);
    }
  }

  /** A written component is read back, and the scan goes on right after its unit letter. */
  lemma ComponentReads(n: nat, unit: char, rest: string)
    requires !IsDigit(unit)
    ensures Component(ComponentText(n, unit) + rest, unit) == Taken(Some(n), rest)
  {
    var digits := NatToString(n);
    var s := ComponentText(n, unit) + rest;
    assert DigitValue(unit) >= 10;
    assert s == digits + ([unit] + rest);
    DigitRunStops(digits, [unit] + rest);
    assert s[..|digits|] == digits;
    assert s[|digits|] == unit;
    assert s[|digits| + 1..] == rest;
  }

  /** The last component of a text, with nothing after it. */
  lemma LastComponentReads(n: nat, unit: char)
    requires !IsDigit(unit)
    ensures Component(ComponentText(n, unit), unit) == Taken(Some(n), "")
  {
    assert ComponentText(n, unit) + "" == ComponentText(n, unit);
    ComponentReads(n, unit, "");
  }

  /** A component that is not there is read as absent, and nothing is consumed. */
  lemma AbsentComponent(s: string, unit: char)
    requires s == [] || !IsDigit(s[0])
    ensures Component(s, unit) == Taken(None, s)
  {
    if s != [] {
      assert DigitValue(s[0]) >= 10;
    }
  }

  lemma ClockTextMatches(d: Duration)
    ensures AfterTimeDesignator(ClockText(d)) == Duration(0, 0, d.hours, d.minutes, d.seconds)
  {
    var afterH := ComponentText(d.minutes, 'M') + ComponentText(d.seconds, 'S');
    ComponentReads(d.hours, 'H', afterH);
    ComponentReads(d.minutes, 'M', ComponentText(d.seconds, 'S'));
    LastComponentReads(d.seconds, 'S');
  }

  lemma DateComponentsMatch(d: Duration, rest: string)
    requires rest != [] && rest[0] == 'T'
    ensures AfterDesignator(ComponentText(d.weeks, 'W') + (ComponentText(d.days, 'D') + rest))
         == Duration(d.weeks, d.days, AfterTimeDesignator(rest[1..]).hours,
                     AfterTimeDesignator(rest[1..]).minutes, AfterTimeDesignator(rest[1..]).seconds)
  {
    ComponentReads(d.weeks, 'W', ComponentText(d.days, 'D') + rest);
    ComponentReads(d.days, 'D', rest);
  }

  /** Text that starts with `P` is matched from its second character. */
  lemma MatchAfterDesignator(body: string)
    ensures MatchDuration("P" + body) == Some(AfterDesignator(body))
  {
    var s := "P" + body;
    assert s[0] == 'P';
    assert s[1..] == body;
  }

  /** The pattern reads back every component of a fully written duration. */
  lemma MatchDurationText(d: Duration)
    ensures MatchDuration(DurationText(d)) == Some(d)
  {
    var rest := "T" + ClockText(d);
    MatchAfterDesignator(ComponentText(d.weeks, 'W') + (ComponentText(d.days, 'D') + rest));
    DateComponentsMatch(d, rest);
    assert rest[1..] == ClockText(d);
    ClockTextMatches(d);
  }

  /** Any duration, written out, moves a valid start by exactly its length. */
  lemma DurationTextAdvancesByLength(d: Duration, t: int)
    ensures EndAfter(Valid(t), DurationText(d)) == Valid(t + Length(d))
  {
    MatchDurationText(d);
    MatchedEnd(t, DurationText(d), d);
  }

  lemma HoursAndMinutesClock(h: nat, m: nat)
    ensures AfterTimeDesignator(ComponentText(h, 'H') + ComponentText(m, 'M')) == Duration(0, 0, h, m, 0)
  {
    ComponentReads(h, 'H', ComponentText(m, 'M'));
    LastComponentReads(m, 'M');
    AbsentComponent("", 'S');
  }

  lemma HoursAndMinutesBody(h: nat, m: nat)
    ensures AfterDesignator("T" + (ComponentText(h, 'H') + ComponentText(m, 'M'))) == Duration(0, 0, h, m, 0)
  {
    var clock := ComponentText(h, 'H') + ComponentText(m, 'M');
    var y := "T" + clock;
    AbsentComponent(y, 'W');
    AbsentComponent(y, 'D');
    assert y[1..] == clock;
    HoursAndMinutesClock(h, m);
  }

  lemma LengthOfClock(h: nat, m: nat, t: int)
    ensures t + Length(Duration(0, 0, h, m, 0)) == t + Hours(h) + Minutes(m)
  {
  }

  /**
   * `PT<h>H<m>M`, with no weeks, days or seconds, adds exactly `h` hours
   * and `m` minutes: absent components count as zero.
   */
  lemma HoursAndMinutesDuration(s: string, h: nat, m: nat, t: int)
    requires s == "P" + ("T" + (ComponentText(h, 'H') + ComponentText(m, 'M')))
    ensures EndAfter(Valid(t), s) == Valid(t + Hours(h) + Minutes(m))
  {
    var y := "T" + (ComponentText(h, 'H') + ComponentText(m, 'M'));
    MatchAfterDesignator(y);
    HoursAndMinutesBody(h, m);
    MatchedEnd(t, s, Duration(0, 0, h, m, 0));
    LengthOfClock(h, m, t);
  }

  /** `P1W` adds exactly seven days. */
  lemma WeekExample(s: string, t: int)
    requires s == "P1W"
    ensures EndAfter(Valid(t), s) == Valid(t + Days(7))
  {
    assert s == "P" + ComponentText(1, 'W');
    MatchAfterDesignator(ComponentText(1, 'W'));
    LastComponentReads(1, 'W');
    AbsentComponent("", 'D');
    MatchedEnd(t, s, Duration(1, 0, 0, 0, 0));
  }
}
