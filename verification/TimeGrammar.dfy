/** Which texts the parser of `bitloops doctor` reads as a time, given by what they are made of. It is
    more lenient than RFC 3339: numbers of any width, no range for the time of day, parts left over
    behind the day and the second, and no zone at all are accepted. */
module TimeGrammar {
  import opened Options
  import opened Text
  import opened Words
  import opened Utf8
  import opened Calendar
  import opened Timestamps

  // ---- Pieces between separators ----

  /** Nothing more, or something behind another separator. */
  predicate LeftOver(tail: string, sep: char) {
    tail == [] || tail[0] == sep
  }

  lemma SplitFirst(a: string, sep: char, tail: string)
    requires sep !in a && LeftOver(tail, sep)
    ensures Split(a + tail, sep)[0] == a
  {
    if tail == [] {
      assert a + tail == a;
      SplitNoSeparator(a, sep);
    } else {
      assert a + tail == a + [sep] + tail[1..];
      SplitAtSeparator(a, sep, tail[1..]);
    }
  }

  /** What follows the first part. */
  lemma FirstOf(text: string, sep: char) returns (tail: string)
    ensures var a := Split(text, sep)[0];
            text == a + tail && sep !in a && LeftOver(tail, sep)
  {
    var parts := Split(text, sep);
    SplitShape(text, sep);
    tail := if |parts| == 1 then [] else [sep] + Join(parts[1..], sep);
  }

  lemma JoinThree(parts: seq<string>, sep: char) returns (tail: string)
    requires |parts| >= 3
    ensures Join(parts, sep) == parts[0] + [sep] + (parts[1] + [sep] + (parts[2] + tail)) && LeftOver(tail, sep)
  {
    assert parts[1..][1..] == parts[2..] && parts[1..][0] == parts[1] && parts[2..][0] == parts[2];
    tail := if |parts| == 3 then [] else [sep] + Join(parts[3..], sep);
    assert parts[2..][1..] == parts[3..];
    if |parts| > 3 {
      assert Join(parts[2..], sep) == parts[2] + [sep] + Join(parts[3..], sep) == parts[2] + tail;
    } else {
      assert parts[2] + tail == parts[2];
    }
    assert Join(parts, sep) == parts[0] + [sep] + Join(parts[1..], sep);
    assert Join(parts[1..], sep) == parts[1] + [sep] + Join(parts[2..], sep);
  }

  lemma SplitThree(a: string, b: string, c: string, sep: char, tail: string)
    requires sep !in a && sep !in b && sep !in c && LeftOver(tail, sep)
    ensures var parts := Split(a + [sep] + (b + [sep] + (c + tail)), sep);
            |parts| >= 3 && parts[0] == a && parts[1] == b && parts[2] == c
  {
    SplitAtSeparator(a, sep, b + [sep] + (c + tail));
    SplitAtSeparator(b, sep, c + tail);
    SplitFirst(c, sep, tail);
  }

  lemma ThreeParts(text: string, sep: char) returns (tail: string)
    requires |Split(text, sep)| >= 3
    ensures var parts := Split(text, sep);
            && text == parts[0] + [sep] + (parts[1] + [sep] + (parts[2] + tail)) && LeftOver(tail, sep)
            && sep !in parts[0] && sep !in parts[1] && sep !in parts[2]
  {
    SplitShape(text, sep);
    tail := JoinThree(Split(text, sep), sep);
  }

  // ---- Dates ----

  /** The three parts between dashes, and what is left over; so a year has no minus sign. */
  datatype DatePieces = DatePieces(year: string, month: string, day: string, tail: string)

  function DateOf(p: DatePieces): string {
    p.year + ['-'] + (p.month + ['-'] + (p.day + p.tail))
  }

  predicate IsDate(p: DatePieces, d: Date) {
    && '-' !in p.year && '-' !in p.month && '-' !in p.day && LeftOver(p.tail, '-')
    && ParseSigned(p.year, I32_BOUND) == Some(d.year)
    && ParseUnsigned(p.month, U32_MAX) == Some(d.month) && ParseUnsigned(p.day, U32_MAX) == Some(d.day)
  }

  lemma DateReads(p: DatePieces, d: Date)
    requires IsDate(p, d)
    ensures ParseDate(DateOf(p)) == Some(d)
  {
    SplitThree(p.year, p.month, p.day, '-', p.tail);
  }

  lemma DateConsists(text: string, parts: seq<string>, d: Date) returns (p: DatePieces)
    requires parts == Split(text, '-') && DateFrom(parts) == Some(d)
    ensures IsDate(p, d) && DateOf(p) == text
  {
    var tail := ThreeParts(text, '-');
    p := DatePieces(parts[0], parts[1], parts[2], tail);
  }

  // ---- Times of day ----

  /** Hour and minute end at colons, the second at a point or a colon. */
  datatype ClockPieces = ClockPieces(hour: string, minute: string, second: string, tail: string)

  function ClockTextOf(p: ClockPieces): string {
    p.hour + [':'] + (p.minute + [':'] + (p.second + p.tail))
  }

  predicate IsClock(p: ClockPieces) {
    && ':' !in p.hour && ':' !in p.minute && ':' !in p.second && '.' !in p.second
    && (LeftOver(p.tail, ':') || LeftOver(p.tail, '.'))
    && ParseUnsigned(p.hour, U32_MAX).Some? && ParseUnsigned(p.minute, U32_MAX).Some?
    && ParseUnsigned(p.second, U32_MAX).Some?
  }

  function ClockSeconds(p: ClockPieces): nat
    requires IsClock(p)
  {
    ParseUnsigned(p.hour, U32_MAX).value * 3600 + ParseUnsigned(p.minute, U32_MAX).value * 60
    + ParseUnsigned(p.second, U32_MAX).value
  }

  /** The third part between colons begins with the second, which a point may end. */
  lemma SecondReads(second: string, tail: string) returns (third: string, rest: string)
    requires ':' !in second && '.' !in second && (LeftOver(tail, ':') || LeftOver(tail, '.'))
    ensures second + tail == third + rest && ':' !in third && LeftOver(rest, ':')
    ensures Split(third, '.')[0] == second
  {
    var i := IndexOf(tail, ':');
    var part := tail[..i];
    third, rest := second + part, tail[i..];
    assert tail == part + rest;
    assert part == [] || part[0] == '.';
    SplitFirst(second, '.', part);
  }

  lemma ClockReads(p: ClockPieces)
    requires IsClock(p)
    ensures ParseClock(ClockTextOf(p)) == Some(ClockSeconds(p))
  {
    var third, rest := SecondReads(p.second, p.tail);
    SplitThree(p.hour, p.minute, third, ':', rest);
    assert ClockTextOf(p) == p.hour + [':'] + (p.minute + [':'] + (third + rest));
    ClockFromParts(Split(ClockTextOf(p), ':'), p, third);
  }

  lemma ClockFromParts(parts: seq<string>, p: ClockPieces, third: string)
    requires IsClock(p) && |parts| >= 3 && parts[0] == p.hour && parts[1] == p.minute && parts[2] == third
    requires Split(third, '.')[0] == p.second
    ensures ClockOf(parts) == Some(ClockSeconds(p))
  {
    var hour, minute, second := ReadPieces(p);
    ClockOfThree(parts, third, hour, minute, second);
  }

  lemma ReadPieces(p: ClockPieces) returns (hour: Option<nat>, minute: Option<nat>, second: Option<nat>)
    requires IsClock(p)
    ensures ParseUnsigned(p.hour, U32_MAX) == hour && ParseUnsigned(p.minute, U32_MAX) == minute
    ensures ParseUnsigned(p.second, U32_MAX) == second && hour.Some? && minute.Some? && second.Some?
    ensures ClockSeconds(p) == hour.value * 3600 + minute.value * 60 + second.value
  {
    hour, minute, second := ParseUnsigned(p.hour, U32_MAX), ParseUnsigned(p.minute, U32_MAX), ParseUnsigned(p.second, U32_MAX);
  }

  lemma ClockOfThree(parts: seq<string>, third: string, hour: Option<nat>, minute: Option<nat>, second: Option<nat>)
    requires |parts| >= 3 && parts[2] == third && hour.Some? && minute.Some? && second.Some?
    requires ParseUnsigned(parts[0], U32_MAX) == hour && ParseUnsigned(parts[1], U32_MAX) == minute
    requires ParseUnsigned(Split(third, '.')[0], U32_MAX) == second
    ensures ClockOf(parts) == Some(hour.value * 3600 + minute.value * 60 + second.value)
  {
  }

  lemma ClockConsists(text: string, parts: seq<string>, seconds: nat) returns (p: ClockPieces)
    requires parts == Split(text, ':') && ClockOf(parts) == Some(seconds)
    ensures IsClock(p) && ClockTextOf(p) == text && ClockSeconds(p) == seconds
  {
    var rest := ThreeParts(text, ':');
    var point := FirstOf(parts[2], '.');
    var second := Split(parts[2], '.')[0];
    p := ClockPieces(parts[0], parts[1], second, point + rest);
    SecondEnds(parts[2], second, point, rest);
    ClockFromParts(parts, p, parts[2]);
  }

  lemma SecondEnds(third: string, second: string, point: string, rest: string)
    requires third == second + point && '.' !in second && ':' !in third && LeftOver(point, '.') && LeftOver(rest, ':')
    ensures second + (point + rest) == third + rest && ':' !in second
    ensures LeftOver(point + rest, ':') || LeftOver(point + rest, '.')
  {
    if point == [] {
      assert point + rest == rest;
    }
  }

  // ---- Zones ----

  datatype ZonePieces = NoZone | FinalZ | Offset(sign: char, hours: string, minutes: string)

  function ZoneTextOf(z: ZonePieces): string {
    match z
    case NoZone => []
    case FinalZ => ['Z']
    case Offset(sign, hours, minutes) => [sign] + hours + [':'] + minutes
  }

  /** Two characters that are a number, which may have a sign of its own, on each side of a colon. */
  predicate IsOffset(z: ZonePieces) {
    && z.Offset? && (z.sign == '+' || z.sign == '-') && |z.hours| == |z.minutes| == 2
    && ParseSigned(z.hours, I64_BOUND).Some? && ParseSigned(z.minutes, I64_BOUND).Some?
  }

  /** The zone of a time of day: a final `Z`; an offset whose sign is the last plus sign; one whose sign
      is the last minus sign behind more than two bytes, if there is no plus sign; or none at all. */
  predicate IsZone(clock: string, z: ZonePieces) {
    match z
    case FinalZ => true
    case NoZone => clock != [] && clock[|clock| - 1] != 'Z' && '+' !in clock && !OffersMinus(clock)
    case Offset(sign, hours, minutes) =>
      && IsOffset(z) && sign !in hours && sign !in minutes
      && (sign == '-' ==> '+' !in clock && '+' !in hours && '+' !in minutes && |Encode(clock)| > 2)
  }

  /** The last minus sign stands behind more than two bytes. */
  predicate OffersMinus(clock: string) {
    var i := AfterLast(clock, '-');
    i > 0 && |Encode(clock[..i - 1])| > 2
  }

  function ZoneOffset(z: ZonePieces): int
    requires z.Offset? ==> IsOffset(z)
  {
    if !z.Offset? then 0
    else
      var seconds := ParseSigned(z.hours, I64_BOUND).value * 3600 + ParseSigned(z.minutes, I64_BOUND).value * 60;
      if z.sign == '+' then seconds else -seconds
  }

  lemma ParsedIsAscii(s: string, bound: nat)
    requires ParseSigned(s, bound).Some?
    ensures IsAscii(s)
  {
    var digits := if s != [] && (s[0] == '+' || s[0] == '-') then s[1..] else s;
    forall i | 0 <= i < |s| ensures s[i] < '\U{80}' {
      if i > 0 || digits == s {
        assert s[i] == digits[if digits == s then i else i - 1];
      }
    }
  }

  lemma OffsetReads(z: ZonePieces)
    requires IsOffset(z)
    ensures ParseTzOffset(ZoneTextOf(z)) == OffsetSeconds(ZoneOffset(z))
  {
    ParsedIsAscii(z.hours, I64_BOUND);
    ParsedIsAscii(z.minutes, I64_BOUND);
    var raw := [z.sign] + z.hours + [':'] + z.minutes;
    assert raw[1..3] == z.hours && raw[4..6] == z.minutes;
    OffsetOfParts(raw, ParseSigned(z.hours, I64_BOUND).value, ParseSigned(z.minutes, I64_BOUND).value);
  }

  lemma ReadBytesAreAscii(b: seq<Byte>)
    requires ParseBytes(b).Some?
    ensures forall i :: 0 <= i < |b| ==> b[i] < 0x80
  {
  }

  /** Bytes below 0x80 are as many characters. */
  lemma {:induction false} AsciiBytesAreText(raw: string)
    requires forall i :: 0 <= i < |Encode(raw)| ==> Encode(raw)[i] < 0x80
    ensures IsAscii(raw)
  {
    if raw != [] {
      var head, rest := EncodeChar(raw[0]), Encode(raw[1..]);
      assert Encode(raw) == head + rest && Encode(raw)[0] == head[0];
      assert forall i :: 0 <= i < |rest| ==> rest[i] == Encode(raw)[|head| + i];
      AsciiBytesAreText(raw[1..]);
    }
  }

  lemma OffsetBytes(raw: string, seconds: int)
    requires ParseTzOffset(raw) == OffsetSeconds(seconds)
    ensures |raw| == 6 && IsAscii(raw) && (raw[0] == '+' || raw[0] == '-') && raw[3] == ':'
    ensures var hours, minutes := ParseSigned(raw[1..3], I64_BOUND), ParseSigned(raw[4..6], I64_BOUND);
            && hours.Some? && minutes.Some?
            && seconds == (if raw[0] == '+' then hours.value * 3600 + minutes.value * 60 else -(hours.value * 3600 + minutes.value * 60))
  {
    var b := Encode(raw);
    ReadBytesAreAscii(b[1..3]);
    ReadBytesAreAscii(b[4..6]);
    assert b[1..3][0] == b[1] && b[1..3][1] == b[2] && b[4..6][0] == b[4] && b[4..6][1] == b[5];
    AsciiBytesAreText(raw);
    EncodeAscii(raw);
    AsciiSlice(raw, 1, 3);
    AsciiSlice(raw, 4, 6);
  }

  lemma OffsetConsists(raw: string, seconds: int) returns (z: ZonePieces)
    requires ParseTzOffset(raw) == OffsetSeconds(seconds)
    ensures IsOffset(z) && ZoneTextOf(z) == raw && ZoneOffset(z) == seconds
  {
    OffsetBytes(raw, seconds);
    z := Offset(raw[0], raw[1..3], raw[4..6]);
    assert raw == [raw[0]] + raw[1..3] + [':'] + raw[4..6];
  }

  lemma LastSign(clock: string, raw: string, sign: char)
    requires raw != [] && raw[0] == sign && sign !in raw[1..]
    ensures var time := clock + raw;
            AfterLast(time, sign) == |clock| + 1 && time[..|clock|] == clock && time[|clock|..] == raw
  {
    assert clock + raw == clock + [sign] + raw[1..];
    AfterLastUnique(clock, sign, raw[1..]);
  }

  lemma OffsetTextEnds(clock: string, z: ZonePieces)
    requires IsOffset(z)
    ensures var raw := ZoneTextOf(z);
            && |raw| == 6 && raw[0] == z.sign && (clock + raw)[|clock| + 5] != 'Z'
            && forall c :: c in raw[1..] <==> c in z.hours || c == ':' || c in z.minutes
  {
    var raw := ZoneTextOf(z);
    assert raw[5] == z.minutes[1];
    assert raw[1..] == z.hours + [':'] + z.minutes;
  }

  lemma ZoneReads(clock: string, z: ZonePieces)
    requires IsZone(clock, z)
    ensures SplitZone(clock + ZoneTextOf(z)) == Zoned(clock, OffsetSeconds(ZoneOffset(z)))
  {
    var raw := ZoneTextOf(z);
    var time := clock + raw;
    match z
    case FinalZ =>
      assert time[..|time| - 1] == clock;
    case NoZone =>
      assert time == clock;
      AfterLastAbsent(clock, '+');
    case Offset(sign, _, _) =>
      OffsetTextEnds(clock, z);
      LastSign(clock, raw, sign);
      OffsetReads(z);
      SignedZoneReads(time, clock, raw, sign);
  }

  lemma SignedZoneReads(time: string, clock: string, raw: string, sign: char)
    requires sign == '+' || sign == '-'
    requires time != [] && time[|time| - 1] != 'Z' && AfterLast(time, sign) == |clock| + 1 && |clock| < |time|
    requires time[..|clock|] == clock && time[|clock|..] == raw
    requires sign == '-' ==> '+' !in time && |Encode(clock)| > 2
    ensures SplitZone(time) == Zoned(clock, ParseTzOffset(raw))
  {
    if sign == '-' {
      AfterLastAbsent(time, '+');
    }
  }

  lemma SignAt(time: string, at: nat, sign: char, z: ZonePieces)
    requires 0 < at <= |time| && time[at - 1] == sign && sign !in time[at..]
    requires IsOffset(z) && ZoneTextOf(z) == time[at - 1..]
    ensures z.sign == sign && sign !in z.hours && sign !in z.minutes && time == time[..at - 1] + ZoneTextOf(z)
    ensures '+' !in time ==> '+' !in time[..at - 1] && '+' !in z.hours && '+' !in z.minutes
  {
    var raw := time[at - 1..];
    OffsetTextEnds([], z);
    assert raw[0] == sign && raw[1..] == time[at..];
  }

  lemma SignedConsists(time: string, at: nat, sign: char, offset: int) returns (z: ZonePieces)
    requires 0 < at <= |time| && time[at - 1] == sign && sign !in time[at..] && (sign == '+' || sign == '-')
    requires ParseTzOffset(time[at - 1..]) == OffsetSeconds(offset)
    requires sign == '-' ==> '+' !in time && |Encode(time[..at - 1])| > 2
    ensures IsZone(time[..at - 1], z) && time == time[..at - 1] + ZoneTextOf(z) && ZoneOffset(z) == offset
  {
    z := OffsetConsists(time[at - 1..], offset);
    SignAt(time, at, sign, z);
  }

  /** How the zone was found. */
  lemma ZoneCases(time: string, clock: string, offset: int, plus: nat, minus: nat)
    requires SplitZone(time) == Zoned(clock, OffsetSeconds(offset)) && time != []
    requires plus == AfterLast(time, '+') && minus == AfterLast(time, '-')
    ensures var offers := minus > 0 && |Encode(time[..minus - 1])| > 2;
            if time[|time| - 1] == 'Z' then time == clock + ['Z'] && offset == 0
            else if plus > 0 then clock == time[..plus - 1] && ParseTzOffset(time[plus - 1..]) == OffsetSeconds(offset)
            else if offers then clock == time[..minus - 1] && ParseTzOffset(time[minus - 1..]) == OffsetSeconds(offset)
            else clock == time && offset == 0
  {
  }

  lemma NoZoneConsists(time: string, minus: nat)
    requires time != [] && time[|time| - 1] != 'Z' && '+' !in time && minus == AfterLast(time, '-')
    requires !(minus > 0 && |Encode(time[..minus - 1])| > 2)
    ensures IsZone(time, NoZone) && time == time + ZoneTextOf(NoZone)
  {
  }

  lemma ZoneConsists(time: string, clock: string, offset: int) returns (z: ZonePieces)
    requires SplitZone(time) == Zoned(clock, OffsetSeconds(offset)) && time != []
    ensures IsZone(clock, z) && time == clock + ZoneTextOf(z) && ZoneOffset(z) == offset
  {
    var plus, minus := AfterLast(time, '+'), AfterLast(time, '-');
    ZoneCases(time, clock, offset, plus, minus);
    if time[|time| - 1] == 'Z' {
      z := FinalZ;
    } else if plus > 0 {
      z := SignedConsists(time, plus, '+', offset);
    } else {
      assert time[0..] == time;
      if minus > 0 && |Encode(time[..minus - 1])| > 2 {
        z := SignedConsists(time, minus, '-', offset);
      } else {
        z := NoZone;
        NoZoneConsists(time, minus);
      }
    }
  }

  // ---- Times ----

  datatype Pieces = Pieces(date: DatePieces, clock: ClockPieces, zone: ZonePieces)

  function TextOf(p: Pieces): string {
    DateOf(p.date) + ['T'] + (ClockTextOf(p.clock) + ZoneTextOf(p.zone))
  }

  /** A date of the calendar without a `T`, a time of day and its zone. */
  predicate IsTime(p: Pieces, d: Date) {
    && IsDate(p.date, d) && ValidDate(d) && 'T' !in DateOf(p.date)
    && IsClock(p.clock) && IsZone(ClockTextOf(p.clock), p.zone)
  }

  function SecondsOf(p: Pieces, d: Date): int
    requires IsTime(p, d)
  {
    86_400 * DayNumber(d) + ClockSeconds(p.clock) - ZoneOffset(p.zone)
  }

  lemma TimeReads(p: Pieces, d: Date)
    requires IsTime(p, d)
    ensures ParseRfc3339(TextOf(p)) == if SecondsOf(p, d) < 0 then Rejected else Instant(SecondsOf(p, d))
  {
    var clock := ClockTextOf(p.clock);
    DateReads(p.date, d);
    ClockReads(p.clock);
    ZoneReads(clock, p.zone);
    Assembled(DateOf(p.date), clock + ZoneTextOf(p.zone), d, clock, ClockSeconds(p.clock), ZoneOffset(p.zone));
  }

  lemma Assembled(date: string, time: string, d: Date, clock: string, seconds: nat, offset: int)
    requires 'T' !in date && ParseDate(date) == Some(d) && ValidDate(d)
    requires SplitZone(time) == Zoned(clock, OffsetSeconds(offset)) && ParseClock(clock) == Some(seconds)
    ensures var total := 86_400 * DayNumber(d) + seconds - offset;
            ParseRfc3339(date + ['T'] + time) == if total < 0 then Rejected else Instant(total)
  {
    ParseAssembled(date, time, d);
    CombineRead(d, clock, seconds, offset);
  }

  lemma CombinedParts(d: Date, zoned: Zoned, seconds: nat)
    requires Combine(d, zoned) == Instant(seconds)
    ensures zoned.offset.OffsetSeconds? && ParseClock(zoned.clock).Some? && ValidDate(d)
    ensures seconds == 86_400 * DayNumber(d) + ParseClock(zoned.clock).value - zoned.offset.seconds
  {
  }

  lemma InstantParts(input: string, seconds: nat) returns (date: string, time: string, d: Date)
    requires ParseRfc3339(input) == Instant(seconds)
    ensures input == date + ['T'] + time && 'T' !in date && ParseDate(date) == Some(d)
    ensures Combine(d, SplitZone(time)) == Instant(seconds)
  {
    var t := IndexOf(input, 'T');
    date, time := input[..t], input[t + 1..];
    d := ParseDate(date).value;
    CutAround(input, t);
  }

  lemma NoTimeNoClock(time: string)
    requires time == []
    ensures ParseClock(SplitZone(time).clock).None?
  {
    SplitNoSeparator([], ':');
  }

  /** Whatever is read as a time is made like this. */
  lemma TimeConsists(input: string, seconds: nat) returns (p: Pieces, d: Date)
    requires ParseRfc3339(input) == Instant(seconds)
    ensures IsTime(p, d) && TextOf(p) == input && SecondsOf(p, d) == seconds
  {
    var date, time, day := InstantParts(input, seconds);
    d := day;
    var zoned := SplitZone(time);
    CombinedParts(d, zoned, seconds);
    if time == [] {
      NoTimeNoClock(time);
    }
    var datePieces := DateConsists(date, Split(date, '-'), d);
    var clockPieces := ClockConsists(zoned.clock, Split(zoned.clock, ':'), ParseClock(zoned.clock).value);
    var zone := ZoneConsists(time, zoned.clock, zoned.offset.seconds);
    p := Pieces(datePieces, clockPieces, zone);
  }

  /** `input` is made of these pieces, and names that second. */
  ghost predicate Names(input: string, p: Pieces, d: Date, seconds: nat) {
    IsTime(p, d) && TextOf(p) == input && SecondsOf(p, d) == seconds
  }

  /** The parser reads a text as a time exactly when it is made like this; what is not, and does not
      stop the program, is rejected. */
  lemma TimeTextIff(input: string, seconds: nat)
    ensures ParseRfc3339(input) == Instant(seconds) <==> exists p, d :: Names(input, p, d, seconds)
    ensures ParseRfc3339(input) == Rejected <==>
            !CutsAfterDate(input) && !exists p, d, n :: Names(input, p, d, n)
  {
    FaultsExactlyWhen(input);
    if p, d :| Names(input, p, d, seconds) {
      TimeReads(p, d);
    }
    if p, d, n :| Names(input, p, d, n) {
      TimeReads(p, d);
    }
    if ParseRfc3339(input).Instant? {
      var p, d := TimeConsists(input, ParseRfc3339(input).seconds);
      assert Names(input, p, d, ParseRfc3339(input).seconds);
    }
  }

  /** Decimal digits, perhaps behind a plus sign. */
  predicate IsNumber(text: string, n: nat) {
    var digits := if text != [] && text[0] == '+' then text[1..] else text;
    digits != [] && AllDigits(digits) && Value(digits) == n
  }

  lemma NumberHasNoT(text: string, n: nat)
    requires IsNumber(text, n)
    ensures 'T' !in text
  {
    if text[0] == '+' {
      assert text == ['+'] + text[1..];
    }
  }

  lemma TimeHasT(text: string, p: Pieces, d: Date, n: nat)
    requires Names(text, p, d, n)
    ensures 'T' in text
  {
    assert text[|DateOf(p.date)|] == 'T';
  }

  lemma NotANumber(s: string, n: nat)
    requires s != [] && ParseUnsigned(s, U64_MAX).None?
    ensures !(IsNumber(s, n) && n < I64_BOUND)
  {
  }

  lemma ANumber(s: string, n: nat)
    requires ParseUnsigned(s, U64_MAX).Some?
    ensures IsNumber(s, n) <==> n == ParseUnsigned(s, U64_MAX).value
    ensures IsNumber(s, ParseUnsigned(s, U64_MAX).value)
  {
  }

  /** At the entry point a text is read as that second exactly when, behind trimming, it is the number
      of seconds and below 2^63, or a time that names it. */
  lemma TimeStringIff(value: string, seconds: nat)
    ensures ParseTimeString(value) == Instant(seconds) <==>
            || (IsNumber(Trim(value), seconds) && seconds < 0x8000_0000_0000_0000)
            || exists p, d :: Names(Trim(value), p, d, seconds)
  {
    EntryIff(value, Trim(value), seconds);
  }

  lemma EntryIff(value: string, s: string, seconds: nat)
    requires s == Trim(value)
    ensures ParseTimeString(value) == Instant(seconds) <==>
            || (IsNumber(s, seconds) && seconds < I64_BOUND)
            || exists p, d :: Names(s, p, d, seconds)
  {
    if p, d :| Names(s, p, d, seconds) {
      TimeHasT(s, p, d, seconds);
    }
    TimeTextIff(s, seconds);
    if s == [] {
      assert !IsNumber(s, seconds);
    } else if ParseUnsigned(s, U64_MAX).Some? {
      ANumber(s, seconds);
      NumberHasNoT(s, ParseUnsigned(s, U64_MAX).value);
    } else {
      NotANumber(s, seconds);
    }
  }
}
