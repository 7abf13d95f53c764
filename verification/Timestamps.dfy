/** The RFC 3339 parser of `bitloops doctor`. Text offsets that the program takes in bytes are
    taken in bytes here too, since a slice that cuts a character in two stops the program. */
module Timestamps {
  import opened Options
  import opened Text
  import opened Calendar
  import opened Utf8

  /** The last two are not answers: a slice that cuts a character, and an instant whose seconds do not
      fit the signed 64-bit count of the system clock, stop the program. */
  datatype ParsedTime = Instant(seconds: nat) | Rejected | SliceFault | TimeOverflow

  datatype ParsedOffset = OffsetSeconds(seconds: int) | BadOffset | OffsetFault

  /** The time of day without its zone, and the zone. */
  datatype Zoned = Zoned(clock: string, offset: ParsedOffset)

  // ---- The parser ----

  predicate IsAscii(s: string) {
    forall i :: 0 <= i < |s| ==> s[i] < '\U{80}'
  }

  /** `str::parse::<i64>` on a slice given by its bytes; a byte outside ASCII is never accepted. */
  function ParseBytes(b: seq<Byte>): Option<int> {
    if exists i :: 0 <= i < |b| && b[i] >= 0x80 then None
    else ParseSigned(seq(|b|, i requires 0 <= i < |b| => b[i] as char), I64_BOUND)
  }

  function ParseTzOffset(raw: string): ParsedOffset {
    var b := Encode(raw);
    if |b| != 6 then BadOffset
    else if IsTail(b[1]) then OffsetFault
    else if b[0] != '+' as int && b[0] != '-' as int then BadOffset
    else if IsTail(b[3]) || IsTail(b[4]) then OffsetFault
    else if b[3] != ':' as int then BadOffset
    else match (ParseBytes(b[1..3]), ParseBytes(b[4..6]))
      case (Some(hours), Some(minutes)) =>
        var magnitude := hours * 3600 + minutes * 60;
        OffsetSeconds(if b[0] == '-' as int then -magnitude else magnitude)
      case _ => BadOffset
  }

  /** Where the zone starts: a final `Z`, the last `+`, or the last `-` past byte 2. */
  function SplitZone(time: string): Zoned {
    var plus, minus := AfterLast(time, '+'), AfterLast(time, '-');
    if time != [] && time[|time| - 1] == 'Z' then Zoned(time[..|time| - 1], OffsetSeconds(0))
    else if plus > 0 then Zoned(time[..plus - 1], ParseTzOffset(time[plus - 1..]))
    else if minus > 0 && |Encode(time[..minus - 1])| > 2 then
      Zoned(time[..minus - 1], ParseTzOffset(time[minus - 1..]))
    else Zoned(time, OffsetSeconds(0))
  }

  function ParseDate(text: string): Option<Date> {
    DateFrom(Split(text, '-'))
  }

  function DateFrom(parts: seq<string>): Option<Date> {
    if |parts| < 3 then None
    else match (ParseSigned(parts[0], I32_BOUND), ParseUnsigned(parts[1], U32_MAX), ParseUnsigned(parts[2], U32_MAX))
      case (Some(y), Some(m), Some(d)) => Some(Date(y, m, d))
      case _ => None
  }

  /** Seconds since midnight; the fields are not range-checked. */
  function ParseClock(text: string): Option<nat> {
    ClockOf(Split(text, ':'))
  }

  function ClockOf(parts: seq<string>): Option<nat> {
    if |parts| < 3 then None
    else match (ParseUnsigned(parts[0], U32_MAX), ParseUnsigned(parts[1], U32_MAX),
                ParseUnsigned(Split(parts[2], '.')[0], U32_MAX))
      case (Some(h), Some(m), Some(s)) => Some(h * 3600 + m * 60 + s)
      case _ => None
  }

  function ParseRfc3339(input: string): ParsedTime {
    var t := IndexOf(input, 'T');
    if t == |input| then Rejected
    else match ParseDate(input[..t])
      case None => Rejected
      case Some(date) => Combine(date, SplitZone(input[t + 1..]))
  }

  function Combine(date: Date, zoned: Zoned): ParsedTime {
    match zoned.offset
    case OffsetFault => SliceFault
    case BadOffset => Rejected
    case OffsetSeconds(offset) =>
      match (ParseClock(zoned.clock), EpochDays(date))
      case (Some(clock), Some(days)) =>
        var seconds := days * 86_400 + clock - offset;
        if seconds < 0 then Rejected else Instant(seconds)
      case _ => Rejected
  }

  /** `parse_time_string`: whole seconds, which are added to the epoch, or else a timestamp. */
  function ParseTimeString(value: string): ParsedTime {
    var s := Trim(value);
    if s == [] then Rejected
    else match ParseUnsigned(s, U64_MAX)
      case Some(unix) => if unix < I64_BOUND then Instant(unix) else TimeOverflow
      case None => ParseRfc3339(s)
  }

  // ---- The timestamps of section 5.6 of RFC 3339, with upper-case `T` and `Z` ----

  datatype Zone = Zulu | Numeric(negative: bool, hours: nat, minutes: nat)

  /** `fraction` holds the digits after the point; when it is empty there is no point. */
  datatype Timestamp = Timestamp(date: Date, hour: nat, minute: nat, second: nat, fraction: string, zone: Zone)

  predicate WellFormed(t: Timestamp) {
    && 0 <= t.date.year <= 9999 && ValidDate(t.date)
    && t.hour < 24 && t.minute < 60 && t.second <= 60 && AllDigits(t.fraction)
    && (t.zone.Numeric? ==> t.zone.hours < 24 && t.zone.minutes < 60)
  }

  function PrintDate(d: Date): string
    requires 0 <= d.year
  {
    Padded(d.year, 4) + "-" + Padded(d.month, 2) + "-" + Padded(d.day, 2)
  }

  function PrintSeconds(t: Timestamp): string {
    Padded(t.second, 2) + if t.fraction == [] then [] else "." + t.fraction
  }

  function PrintClock(t: Timestamp): string {
    Padded(t.hour, 2) + ":" + Padded(t.minute, 2) + ":" + PrintSeconds(t)
  }

  function PrintZone(z: Zone): string {
    match z
    case Zulu => "Z"
    case Numeric(negative, hours, minutes) =>
      (if negative then "-" else "+") + (Padded(hours, 2) + ":" + Padded(minutes, 2))
  }

  function Print(t: Timestamp): string
    requires 0 <= t.date.year
  {
    PrintDate(t.date) + "T" + (PrintClock(t) + PrintZone(t.zone))
  }

  /** Seconds by which local time in the zone is ahead of UTC. */
  function ZoneSeconds(z: Zone): int {
    match z
    case Zulu => 0
    case Numeric(negative, hours, minutes) =>
      if negative then -(3600 * hours + 60 * minutes) else 3600 * hours + 60 * minutes
  }

  /** Whole seconds from the epoch to the instant that `t` names. */
  function SecondsSinceEpoch(t: Timestamp): int {
    86_400 * DayNumber(t.date) + 3600 * t.hour + 60 * t.minute + t.second - ZoneSeconds(t.zone)
  }

  // ---- Proofs ----

  lemma {:induction false} EncodeAscii(s: string)
    requires IsAscii(s)
    ensures |Encode(s)| == |s| && forall i :: 0 <= i < |s| ==> Encode(s)[i] == s[i] as int
  {
    if s != [] {
      EncodeAscii(s[1..]);
    }
  }

  lemma {:induction false} EncodeNoShorter(s: string)
    ensures |Encode(s)| >= |s|
  {
    if s != [] {
      EncodeNoShorter(s[1..]);
    }
  }

  lemma TwoDigits(n: nat, max: nat)
    requires n < 100 && 100 <= max
    ensures ParseUnsigned(Padded(n, 2), max) == Some(n) && ParseSigned(Padded(n, 2), max) == Some(n)
  {
    assert PowerOfTen(1) == 10 && PowerOfTen(2) == 100;
    ParsePadded(n, 2, max);
  }

  lemma SplitInThree(a: string, b: string, c: string, sep: char)
    requires sep !in a && sep !in b && sep !in c
    ensures Split(a + [sep] + b + [sep] + c, sep) == [a, b, c]
  {
    assert a + [sep] + b + [sep] + c == a + [sep] + (b + [sep] + c);
    SplitAtSeparator(a, sep, b + [sep] + c);
    SplitAtSeparator(b, sep, c);
    SplitNoSeparator(c, sep);
  }

  lemma DateParts(d: Date, parts: seq<string>)
    requires ValidDate(d) && 0 <= d.year <= 9999 && |parts| == 3
    requires parts[0] == Padded(d.year, 4) && parts[1] == Padded(d.month, 2) && parts[2] == Padded(d.day, 2)
    ensures DateFrom(parts) == Some(d)
  {
    assert PowerOfTen(2) == 100 && PowerOfTen(3) == 1000 && PowerOfTen(4) == 10_000;
    ParsePadded(d.year, 4, I32_BOUND);
    TwoDigits(d.month, U32_MAX);
    TwoDigits(d.day, U32_MAX);
  }

  lemma DatePrinted(d: Date)
    requires ValidDate(d) && 0 <= d.year <= 9999
    ensures ParseDate(PrintDate(d)) == Some(d)
  {
    var y, m, day := Padded(d.year, 4), Padded(d.month, 2), Padded(d.day, 2);
    SplitInThree(y, m, day, '-');
    assert PrintDate(d) == y + ['-'] + m + ['-'] + day;
    DateParts(d, [y, m, day]);
  }

  lemma SecondsPrinted(t: Timestamp)
    requires WellFormed(t)
    ensures ':' !in PrintSeconds(t) && Split(PrintSeconds(t), '.')[0] == Padded(t.second, 2)
  {
    var s := Padded(t.second, 2);
    if t.fraction == [] {
      assert PrintSeconds(t) == s;
      SplitNoSeparator(s, '.');
    } else {
      assert PrintSeconds(t) == s + ['.'] + t.fraction;
      SplitAtSeparator(s, '.', t.fraction);
    }
  }

  lemma ClockPrinted(t: Timestamp)
    requires WellFormed(t)
    ensures ParseClock(PrintClock(t)) == Some(t.hour * 3600 + t.minute * 60 + t.second)
  {
    var h, m, s := Padded(t.hour, 2), Padded(t.minute, 2), PrintSeconds(t);
    SecondsPrinted(t);
    SplitInThree(h, m, s, ':');
    assert PrintClock(t) == h + [':'] + m + [':'] + s;
    ClockParts(t, [h, m, s]);
  }

  lemma ClockParts(t: Timestamp, parts: seq<string>)
    requires WellFormed(t) && |parts| == 3 && Split(parts[2], '.')[0] == Padded(t.second, 2)
    requires parts[0] == Padded(t.hour, 2) && parts[1] == Padded(t.minute, 2)
    ensures ClockOf(parts) == Some(t.hour * 3600 + t.minute * 60 + t.second)
  {
    TwoDigits(t.hour, U32_MAX);
    TwoDigits(t.minute, U32_MAX);
    TwoDigits(t.second, U32_MAX);
  }

  lemma AsciiSlice(s: string, i: nat, j: nat)
    requires IsAscii(s) && i <= j <= |s|
    ensures |Encode(s)| == |s| && ParseBytes(Encode(s)[i..j]) == ParseSigned(s[i..j], I64_BOUND)
  {
    EncodeAscii(s);
    var b := Encode(s)[i..j];
    assert seq(|b|, k requires 0 <= k < |b| => b[k] as char) == s[i..j];
  }

  lemma OffsetOfParts(raw: string, hours: int, minutes: int)
    requires |raw| == 6 && IsAscii(raw) && raw[0] in {'+', '-'} && raw[3] == ':'
    requires ParseSigned(raw[1..3], I64_BOUND) == Some(hours)
    requires ParseSigned(raw[4..6], I64_BOUND) == Some(minutes)
    ensures ParseTzOffset(raw) ==
            OffsetSeconds(if raw[0] == '-' then -(hours * 3600 + minutes * 60) else hours * 3600 + minutes * 60)
  {
    EncodeAscii(raw);
    AsciiSlice(raw, 1, 3);
    AsciiSlice(raw, 4, 6);
  }

  lemma OffsetShape(sign: char, h: string, m: string)
    requires sign in {'+', '-'} && |h| == |m| == 2 && AllDigits(h) && AllDigits(m)
    ensures var raw := [sign] + (h + ":" + m);
            && |raw| == 6 && IsAscii(raw) && raw[0] == sign && raw[3] == ':'
            && raw[1..3] == h && raw[4..6] == m
  {
  }

  lemma OffsetPrinted(z: Zone)
    requires z.Numeric? && z.hours < 24 && z.minutes < 60
    ensures ParseTzOffset(PrintZone(z)) == OffsetSeconds(ZoneSeconds(z))
  {
    var sign := if z.negative then '-' else '+';
    OffsetShape(sign, Padded(z.hours, 2), Padded(z.minutes, 2));
    TwoDigits(z.hours, I64_BOUND);
    TwoDigits(z.minutes, I64_BOUND);
    assert PrintZone(z) == [sign] + (Padded(z.hours, 2) + ":" + Padded(z.minutes, 2));
    OffsetOfParts(PrintZone(z), z.hours, z.minutes);
  }

  /** The pieces around the last occurrence of a sign. */
  lemma CutAtSign(clock: string, sign: char, digits: string)
    requires sign !in digits
    ensures var time := clock + [sign] + digits;
            && AfterLast(time, sign) == |clock| + 1
            && time[..|clock|] == clock && time[|clock|..] == [sign] + digits
  {
    AfterLastUnique(clock, sign, digits);
  }

  /** The zone of a time is found at its sign. */
  lemma ZoneAtSign(clock: string, sign: char, digits: string)
    requires |clock| > 2 && |digits| > 0 && digits[|digits| - 1] != 'Z'
    requires sign == '+' || sign == '-'
    requires '+' !in digits && '-' !in digits && '+' !in clock
    ensures SplitZone(clock + [sign] + digits) == Zoned(clock, ParseTzOffset([sign] + digits))
  {
    var time := clock + [sign] + digits;
    EncodeNoShorter(clock);
    assert time[|time| - 1] == digits[|digits| - 1];
    CutAtSign(clock, sign, digits);
    if sign == '-' {
      AfterLastAbsent(time, '+');
    }
  }

  predicate IsClockText(s: string) {
    |s| > 2 && forall i :: 0 <= i < |s| ==> IsDigit(s[i]) || s[i] == ':' || s[i] == '.'
  }

  lemma ClockText(t: Timestamp)
    requires AllDigits(t.fraction)
    ensures IsClockText(PrintClock(t))
  {
    var h, m, s := Padded(t.hour, 2), Padded(t.minute, 2), PrintSeconds(t);
    assert forall i :: 0 <= i < |s| ==> IsDigit(s[i]) || s[i] == '.';
    assert forall i :: 0 <= i < 2 ==> IsDigit(h[i]) && IsDigit(m[i]);
  }

  function OffsetDigits(z: Zone): string
    requires z.Numeric?
  {
    Padded(z.hours, 2) + ":" + Padded(z.minutes, 2)
  }

  lemma OffsetDigitsText(z: Zone)
    requires z.Numeric?
    ensures var digits := OffsetDigits(z);
            |digits| == 5 && '+' !in digits && '-' !in digits && digits[4] != 'Z'
  {
    var h, m := Padded(z.hours, 2), Padded(z.minutes, 2);
    assert forall c: char :: c in h || c in m ==> IsDigit(c);
    assert OffsetDigits(z)[4] == m[1];
  }

  lemma NumericZonePrinted(clock: string, z: Zone)
    requires IsClockText(clock) && z.Numeric? && z.hours < 24 && z.minutes < 60
    ensures SplitZone(clock + PrintZone(z)) == Zoned(clock, OffsetSeconds(ZoneSeconds(z)))
  {
    var digits, sign := OffsetDigits(z), if z.negative then '-' else '+';
    OffsetDigitsText(z);
    OffsetPrinted(z);
    assert PrintZone(z) == [sign] + digits;
    assert clock + PrintZone(z) == clock + [sign] + digits;
    ZoneAtSign(clock, sign, digits);
  }

  lemma ZonePrinted(clock: string, z: Zone)
    requires IsClockText(clock) && (z.Numeric? ==> z.hours < 24 && z.minutes < 60)
    ensures SplitZone(clock + PrintZone(z)) == Zoned(clock, OffsetSeconds(ZoneSeconds(z)))
  {
    if z.Numeric? {
      NumericZonePrinted(clock, z);
    } else {
      assert (clock + "Z")[..|clock|] == clock;
    }
  }

  lemma ParseAssembled(date: string, time: string, d: Date)
    requires 'T' !in date && ParseDate(date) == Some(d)
    ensures ParseRfc3339(date + ['T'] + time) == Combine(d, SplitZone(time))
  {
    var input := date + ['T'] + time;
    IndexOfUnique(date, 'T', time);
    assert input[..|date|] == date && input[|date| + 1..] == time;
  }

  lemma CombineRead(d: Date, clock: string, seconds: nat, offset: int)
    requires ValidDate(d) && ParseClock(clock) == Some(seconds)
    ensures var total := DayNumber(d) * 86_400 + seconds - offset;
            Combine(d, Zoned(clock, OffsetSeconds(offset))) == if total < 0 then Rejected else Instant(total)
  {
  }

  lemma DateText(d: Date)
    requires 0 <= d.year
    ensures 'T' !in PrintDate(d)
  {
    var y, m, day := Padded(d.year, 4), Padded(d.month, 2), Padded(d.day, 2);
    assert forall c: char :: c in y || c in m || c in day ==> IsDigit(c);
  }

  /** The parser reads a printed timestamp as its date, its clock and its zone. */
  lemma PrintedReads(t: Timestamp)
    requires WellFormed(t)
    ensures ParseRfc3339(Print(t)) == Combine(t.date, Zoned(PrintClock(t), OffsetSeconds(ZoneSeconds(t.zone))))
  {
    DateText(t.date);
    DatePrinted(t.date);
    ClockText(t);
    ZonePrinted(PrintClock(t), t.zone);
    ParseAssembled(PrintDate(t.date), PrintClock(t) + PrintZone(t.zone), t.date);
  }

  lemma ClockCombines(t: Timestamp, clock: string)
    requires WellFormed(t) && ParseClock(clock) == Some(t.hour * 3600 + t.minute * 60 + t.second)
    ensures Combine(t.date, Zoned(clock, OffsetSeconds(ZoneSeconds(t.zone)))) ==
            if SecondsSinceEpoch(t) < 0 then Rejected else Instant(SecondsSinceEpoch(t))
  {
    CombineRead(t.date, clock, t.hour * 3600 + t.minute * 60 + t.second, ZoneSeconds(t.zone));
  }

  /** Every well-formed timestamp parses to the instant it names, or to nothing before the epoch. */
  lemma PrintedParses(t: Timestamp)
    requires WellFormed(t)
    ensures ParseRfc3339(Print(t)) ==
            if SecondsSinceEpoch(t) < 0 then Rejected else Instant(SecondsSinceEpoch(t))
  {
    PrintedReads(t);
    ClockPrinted(t);
    ClockCombines(t, PrintClock(t));
  }

  /** Two well-formed strings parse equal exactly when they name the same second, whatever their
      offsets, or both name one before the epoch. */
  lemma SameInstantParsesEqual(t: Timestamp, u: Timestamp)
    requires WellFormed(t) && WellFormed(u)
    ensures ParseRfc3339(Print(t)) == ParseRfc3339(Print(u)) <==>
            SecondsSinceEpoch(t) == SecondsSinceEpoch(u) || (SecondsSinceEpoch(t) < 0 && SecondsSinceEpoch(u) < 0)
  {
    PrintedParses(t);
    PrintedParses(u);
  }

  /** The same through `parse_time_string`, with any whitespace around. */
  lemma PaddedTimestampParses(before: string, t: Timestamp, after: string)
    requires WellFormed(t) && AllWhitespace(before) && AllWhitespace(after)
    ensures ParseTimeString(before + Print(t) + after) ==
            if SecondsSinceEpoch(t) < 0 then Rejected else Instant(SecondsSinceEpoch(t))
  {
    var s := Print(t);
    assert IsDigit(s[0]) by {
      assert s[0] == Padded(t.date.year, 4)[0];
    }
    var zone := PrintZone(t.zone);
    assert s[|s| - 1] == zone[|zone| - 1];
    assert IsTrimmed(s);
    TrimFramed(before, s, after);
    assert s[|PrintDate(t.date)|] == 'T';
    PrintedParses(t);
  }

  /** A decimal number is taken as it is up to the largest signed count, stops the program from there
      up to the largest unsigned one, and is no time beyond. */
  lemma PaddedSecondsParse(before: string, n: nat, after: string)
    requires AllWhitespace(before) && AllWhitespace(after)
    ensures ParseTimeString(before + PrintNat(n) + after) ==
            if n < I64_BOUND then Instant(n) else if n <= U64_MAX then TimeOverflow else Rejected
  {
    var s := PrintNat(n);
    assert IsDigit(s[0]) && IsDigit(s[|s| - 1]);
    TrimFramed(before, s, after);
    if n > U64_MAX {
      assert 'T' !in s;
      assert IndexOf(s, 'T') == |s|;
    }
  }

  // ---- When the program stops ----

  /** The text handed to the offset parser, if any. */
  function OffsetText(time: string): Option<string> {
    var plus, minus := AfterLast(time, '+'), AfterLast(time, '-');
    if time != [] && time[|time| - 1] == 'Z' then None
    else if plus > 0 then Some(time[plus - 1..])
    else if minus > 0 && |Encode(time[..minus - 1])| > 2 then Some(time[minus - 1..])
    else None
  }

  /** Six bytes long, with a character lying across byte 3 or byte 4. */
  predicate CutsCharacter(raw: string) {
    var b := Encode(raw);
    |b| == 6 && (IsTail(b[3]) || IsTail(b[4]))
  }

  lemma SignedOffsetFaults(raw: string)
    requires raw != [] && (raw[0] == '+' || raw[0] == '-')
    ensures ParseTzOffset(raw).OffsetFault? <==> CutsCharacter(raw)
  {
    assert Encode(raw) == EncodeChar(raw[0]) + Encode(raw[1..]);
    if |raw| > 1 {
      assert Encode(raw[1..]) == EncodeChar(raw[1]) + Encode(raw[1..][1..]);
      assert Encode(raw)[1] == EncodeChar(raw[1])[0];
    }
  }

  predicate ZoneCutsCharacter(time: string) {
    OffsetText(time).Some? && CutsCharacter(OffsetText(time).value)
  }

  lemma ZoneFaults(time: string)
    ensures SplitZone(time).offset.OffsetFault? <==> ZoneCutsCharacter(time)
  {
    if OffsetText(time).Some? {
      SignedOffsetFaults(OffsetText(time).value);
    }
  }

  lemma CombineFaults(date: Date, zoned: Zoned)
    ensures Combine(date, zoned).SliceFault? <==> zoned.offset.OffsetFault?
  {
  }

  /** A readable date, a `T` and an offset that cuts a character. */
  predicate CutsAfterDate(input: string) {
    var t := IndexOf(input, 'T');
    t < |input| && ParseDate(input[..t]).Some? && ZoneCutsCharacter(input[t + 1..])
  }

  lemma FaultsAfterDate(date: string, time: string)
    requires 'T' !in date
    ensures ParseRfc3339(date + ['T'] + time).SliceFault? <==> ParseDate(date).Some? && ZoneCutsCharacter(time)
    ensures !ParseRfc3339(date + ['T'] + time).TimeOverflow?
  {
    if ParseDate(date).Some? {
      ParseAssembled(date, time, ParseDate(date).value);
      CombineFaults(ParseDate(date).value, SplitZone(time));
      ZoneFaults(time);
    } else {
      IndexOfUnique(date, 'T', time);
      assert (date + ['T'] + time)[..|date|] == date;
    }
  }

  /** The timestamp parser is stopped exactly by an offset that cuts a character after a readable date. */
  lemma FaultsExactlyWhen(input: string)
    ensures ParseRfc3339(input).SliceFault? <==> CutsAfterDate(input)
    ensures !ParseRfc3339(input).TimeOverflow?
  {
    var t := IndexOf(input, 'T');
    if t < |input| {
      FaultsAfterDate(input[..t], input[t + 1..]);
      CutAround(input, t);
    }
  }

  predicate StopsProgram(p: ParsedTime) {
    p.SliceFault? || p.TimeOverflow?
  }

  /** The trimmed text is a number that fits 64 bits without sign but not with one. */
  predicate IsHugeNumber(s: string) {
    var n := ParseUnsigned(s, U64_MAX);
    n.Some? && n.value >= I64_BOUND
  }

  /** At the entry point the program stops exactly for such a timestamp, or for a number of seconds
      from 2^63 to 2^64 - 1. */
  lemma StopsExactlyWhen(value: string)
    ensures StopsProgram(ParseTimeString(value)) <==> IsHugeNumber(Trim(value)) || CutsAfterDate(Trim(value))
  {
    var s := Trim(value);
    FaultsExactlyWhen(s);
    if ParseUnsigned(s, U64_MAX).Some? {
      assert 'T' !in s;
    }
  }

  /** The first such number is 2^63, 9223372036854775808. */
  lemma FirstHugeNumberStops(n: nat)
    requires n == 9_223_372_036_854_775_808
    ensures ParseTimeString(PrintNat(n)) == TimeOverflow
  {
    PaddedSecondsParse([], n, []);
    NothingAround(PrintNat(n));
  }

  lemma AsciiOffsetNeverFaults(raw: string)
    requires IsAscii(raw)
    ensures !ParseTzOffset(raw).OffsetFault?
  {
    EncodeAscii(raw);
  }

  lemma AsciiZoneNeverFaults(time: string)
    requires IsAscii(time)
    ensures !SplitZone(time).offset.OffsetFault?
  {
    var plus, minus := AfterLast(time, '+'), AfterLast(time, '-');
    if plus > 0 {
      AsciiOffsetNeverFaults(time[plus - 1..]);
    }
    if minus > 0 {
      AsciiOffsetNeverFaults(time[minus - 1..]);
    }
  }

  /** No ASCII text stops the timestamp parser. */
  lemma AsciiNeverFaults(input: string)
    requires IsAscii(input)
    ensures !ParseRfc3339(input).SliceFault?
  {
    var t := IndexOf(input, 'T');
    if t < |input| {
      AsciiZoneNeverFaults(input[t + 1..]);
    }
  }

  lemma SplitCharacterOffset(digit: char, c: char, tail: string)
    requires IsDigit(digit) && 0x80 <= c as int < 0x800
    requires |tail| == 2 && AllDigits(tail)
    ensures ParseTzOffset(['+', digit, c] + tail) == OffsetFault
  {
    var head := ['+', digit];
    EncodeConcat(head + [c], tail);
    EncodeConcat(head, [c]);
    assert head + [c] == ['+', digit, c];
    EncodeAscii(head);
    EncodeAscii(tail);
    assert Encode([c]) == EncodeChar(c) + Encode([c][1..]) == EncodeChar(c);
    var b := Encode(['+', digit, c] + tail);
    assert b == Encode(head) + EncodeChar(c) + Encode(tail);
    assert b[0] == Encode(head)[0] && b[1] == Encode(head)[1] && b[3] == EncodeChar(c)[1];
  }

  lemma FaultBehindClock(date: string, clock: string, digits: string)
    requires 'T' !in date && ParseDate(date).Some? && IsClockText(clock)
    requires |digits| > 0 && digits[|digits| - 1] != 'Z' && '+' !in digits && '-' !in digits
    requires ParseTzOffset(['+'] + digits) == OffsetFault
    ensures ParseRfc3339(date + ['T'] + (clock + ['+'] + digits)) == SliceFault
  {
    ZoneAtSign(clock, '+', digits);
    ParseAssembled(date, clock + ['+'] + digits, ParseDate(date).value);
  }

  lemma SplitDigits(digit: char, c: char, tail: string)
    requires IsDigit(digit) && 0x80 <= c as int < 0x800
    requires |tail| == 2 && AllDigits(tail)
    ensures var digits := [digit, c] + tail;
            && digits[|digits| - 1] != 'Z' && '+' !in digits && '-' !in digits
            && ['+'] + digits == ['+', digit, c] + tail
  {
    var digits := [digit, c] + tail;
    assert digits[|digits| - 1] == tail[1];
  }

  /** A two-byte character across the middle of an otherwise plausible offset does. */
  lemma SplitCharacterFaults(t: Timestamp, digit: char, c: char, tail: string)
    requires WellFormed(t) && IsDigit(digit) && 0x80 <= c as int < 0x800
    requires |tail| == 2 && AllDigits(tail)
    ensures ParseRfc3339(PrintDate(t.date) + ['T'] + (PrintClock(t) + ['+'] + ([digit, c] + tail))) == SliceFault
  {
    DateText(t.date);
    DatePrinted(t.date);
    ClockText(t);
    SplitCharacterOffset(digit, c, tail);
    SplitDigits(digit, c, tail);
    FaultBehindClock(PrintDate(t.date), PrintClock(t), [digit, c] + tail);
  }
}
