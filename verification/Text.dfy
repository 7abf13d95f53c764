/** The string operations of the Rust standard library that the modelled code relies on:
    trimming, splitting, and reading and writing decimal integers. Strings are sequences of
    Unicode scalar values. */
module Text {
  import opened Options

  // ---- Whitespace and trimming (str::trim, trim_start, trim_end) ----

  /** The Unicode White_Space property, which is what `char::is_whitespace` tests. */
  predicate IsWhitespace(c: char) {
    || '\t' <= c <= '\r'
    || c == ' ' || c == '\U{85}' || c == '\U{A0}' || c == '\U{1680}'
    || '\U{2000}' <= c <= '\U{200A}'
    || c == '\U{2028}' || c == '\U{2029}' || c == '\U{202F}' || c == '\U{205F}' || c == '\U{3000}'
  }

  predicate AllWhitespace(s: string) {
    forall i :: 0 <= i < |s| ==> IsWhitespace(s[i])
  }

  function TrimStart(s: string): string {
    if s != [] && IsWhitespace(s[0]) then TrimStart(s[1..]) else s
  }

  function TrimEnd(s: string): string {
    if s != [] && IsWhitespace(s[|s| - 1]) then TrimEnd(s[..|s| - 1]) else s
  }

  function Trim(s: string): string {
    TrimEnd(TrimStart(s))
  }

  /** Neither end of `s` is whitespace. */
  predicate IsTrimmed(s: string) {
    s == [] || (!IsWhitespace(s[0]) && !IsWhitespace(s[|s| - 1]))
  }

  lemma {:induction false} TrimStartSkips(before: string, core: string)
    requires AllWhitespace(before)
    ensures TrimStart(before + core) == TrimStart(core)
  {
    if before == [] {
      assert before + core == core;
    } else {
      assert (before + core)[1..] == before[1..] + core;
      TrimStartSkips(before[1..], core);
    }
  }

  lemma {:induction false} TrimEndSkips(core: string, after: string)
    requires AllWhitespace(after)
    ensures TrimEnd(core + after) == TrimEnd(core)
  {
    if after == [] {
      assert core + after == core;
    } else {
      var shorter := after[..|after| - 1];
      assert (core + after)[..|core + after| - 1] == core + shorter;
      TrimEndSkips(core, shorter);
    }
  }

  /** Trimming removes exactly the whitespace around a trimmed core. */
  lemma TrimFramed(before: string, core: string, after: string)
    requires AllWhitespace(before) && AllWhitespace(after) && IsTrimmed(core)
    ensures Trim(before + core + after) == core
  {
    assert before + core + after == before + (core + after);
    TrimStartSkips(before, core + after);
    if core == [] {
      assert core + after == after + [];
      TrimStartSkips(after, []);
    } else {
      assert TrimStart(core + after) == core + after;
      TrimEndSkips(core, after);
    }
  }

  lemma {:induction false} TrimStartResult(s: string)
    ensures TrimStart(s) == [] || !IsWhitespace(TrimStart(s)[0])
    ensures |TrimStart(s)| <= |s|
    ensures s == [] || IsWhitespace(s[0]) || TrimStart(s) == s
  {
    if s != [] && IsWhitespace(s[0]) {
      TrimStartResult(s[1..]);
    }
  }

  lemma {:induction false} TrimEndResult(s: string)
    ensures TrimEnd(s) <= s && (TrimEnd(s) == [] || !IsWhitespace(TrimEnd(s)[|TrimEnd(s)| - 1]))
  {
    if s != [] && IsWhitespace(s[|s| - 1]) {
      TrimEndResult(s[..|s| - 1]);
    }
  }

  /** Trimming always yields a trimmed string, and changes no other one. */
  lemma TrimIsTrimmed(s: string)
    ensures IsTrimmed(Trim(s))
    ensures IsTrimmed(s) <==> Trim(s) == s
  {
    TrimStartResult(s);
    TrimEndResult(TrimStart(s));
    if IsTrimmed(s) {
      TrimFramed([], s, []);
      assert [] + s + [] == s;
    }
  }

  lemma {:induction false} TrimStartDrops(s: string) returns (before: string)
    ensures AllWhitespace(before) && s == before + TrimStart(s)
  {
    before := [];
    if s != [] && IsWhitespace(s[0]) {
      before := TrimStartDrops(s[1..]);
      before := [s[0]] + before;
    }
  }

  lemma {:induction false} TrimEndDrops(s: string) returns (after: string)
    ensures AllWhitespace(after) && s == TrimEnd(s) + after
  {
    after := [];
    if s != [] && IsWhitespace(s[|s| - 1]) {
      after := TrimEndDrops(s[..|s| - 1]);
      after := after + [s[|s| - 1]];
    }
  }

  /** Only whitespace is trimmed. */
  lemma TrimDrops(s: string) returns (before: string, after: string)
    ensures AllWhitespace(before) && AllWhitespace(after) && s == before + Trim(s) + after
  {
    before := TrimStartDrops(s);
    after := TrimEndDrops(TrimStart(s));
    assert before + (Trim(s) + after) == before + Trim(s) + after;
  }

  lemma TrimIsEmptyIff(s: string)
    ensures Trim(s) == [] <==> AllWhitespace(s)
  {
    var before, after := TrimDrops(s);
    if Trim(s) == [] {
      assert s == before + after;
    }
    if AllWhitespace(s) {
      TrimFramed(s, [], []);
      assert s + [] + [] == s;
    }
  }

  // ---- Splitting (str::split, str::split_once) ----

  /** The pieces of `s` between occurrences of `sep`; never empty. */
  function Split(s: string, sep: char): (parts: seq<string>)
    ensures parts != []
  {
    if s == [] then [[]]
    else
      var rest := Split(s[1..], sep);
      if s[0] == sep then [[]] + rest else [[s[0]] + rest[0]] + rest[1..]
  }

  lemma {:induction false} SplitNoSeparator(s: string, sep: char)
    requires sep !in s
    ensures Split(s, sep) == [s]
  {
    if s != [] {
      SplitNoSeparator(s[1..], sep);
      assert [s[0]] + s[1..] == s;
    }
  }

  lemma {:induction false} SplitAtSeparator(head: string, sep: char, tail: string)
    requires sep !in head
    ensures Split(head + [sep] + tail, sep) == [head] + Split(tail, sep)
  {
    var whole := head + [sep] + tail;
    if head == [] {
      assert whole[1..] == tail;
    } else {
      assert whole[1..] == head[1..] + [sep] + tail;
      SplitAtSeparator(head[1..], sep, tail);
      assert [head[0]] + head[1..] == head;
    }
  }

  /** The index of the first occurrence of `c`, or the length of `s`. */
  function IndexOf(s: string, c: char): (i: nat)
    ensures i <= |s| && c !in s[..i] && (i < |s| ==> s[i] == c)
  {
    if s == [] || s[0] == c then 0
    else
      var i := 1 + IndexOf(s[1..], c);
      assert s[..i] == [s[0]] + s[1..][..i - 1];
      i
  }

  /** The index just after the last occurrence of `c`, or 0 when there is none. */
  function AfterLast(s: string, c: char): (i: nat)
    ensures i <= |s| && c !in s[i..] && (0 < i ==> s[i - 1] == c)
  {
    if s == [] || s[|s| - 1] == c then |s|
    else
      var i := AfterLast(s[..|s| - 1], c);
      assert s[i..] == s[..|s| - 1][i..] + [s[|s| - 1]];
      i
  }

  lemma NothingAround(s: string)
    ensures [] + s + [] == s
  {
  }

  lemma CutAround(s: string, i: nat)
    requires i < |s|
    ensures s == s[..i] + [s[i]] + s[i + 1..]
  {
  }

  lemma {:induction false} IndexOfUnique(head: string, c: char, tail: string)
    requires c !in head
    ensures IndexOf(head + [c] + tail, c) == |head|
  {
    if head != [] {
      assert (head + [c] + tail)[1..] == head[1..] + [c] + tail;
      IndexOfUnique(head[1..], c, tail);
    }
  }

  lemma {:induction false} AfterLastUnique(head: string, c: char, tail: string)
    requires c !in tail
    ensures AfterLast(head + [c] + tail, c) == |head| + 1
  {
    if tail != [] {
      var s, shorter := head + [c] + tail, tail[..|tail| - 1];
      assert s[..|s| - 1] == head + [c] + shorter;
      AfterLastUnique(head, c, shorter);
    }
  }

  lemma {:induction false} AfterLastAbsent(s: string, c: char)
    requires c !in s
    ensures AfterLast(s, c) == 0
  {
    if s != [] {
      AfterLastAbsent(s[..|s| - 1], c);
    }
  }

  // ---- Decimal integers (str::parse, to_string) ----

  /** Largest values of the unsigned types, and one more than those of the signed types. */
  const U32_MAX := 0xFFFF_FFFF
  const U64_MAX := 0xFFFF_FFFF_FFFF_FFFF
  const I32_BOUND := 0x8000_0000
  const I64_BOUND := 0x8000_0000_0000_0000

  predicate IsDigit(c: char) {
    '0' <= c <= '9'
  }

  predicate AllDigits(s: string) {
    forall i :: 0 <= i < |s| ==> IsDigit(s[i])
  }

  function DigitChar(d: nat): (c: char)
    requires d < 10
    ensures IsDigit(c) && c as int - '0' as int == d
  {
    ('0' as int + d) as char
  }

  /** The number a string of digits denotes. */
  function Value(s: string): nat
    requires AllDigits(s)
  {
    if s == [] then 0 else 10 * Value(s[..|s| - 1]) + (s[|s| - 1] as int - '0' as int)
  }

  /** `str::parse` for an unsigned type whose largest value is `max`. */
  function ParseUnsigned(s: string, max: nat): Option<nat> {
    var digits := if s != [] && s[0] == '+' then s[1..] else s;
    if digits == [] || !AllDigits(digits) || Value(digits) > max then None else Some(Value(digits))
  }

  /** `str::parse` for a signed type with the values from `-bound` to `bound - 1`. */
  function ParseSigned(s: string, bound: nat): Option<int> {
    var negative := s != [] && s[0] == '-';
    var digits := if s != [] && (s[0] == '+' || s[0] == '-') then s[1..] else s;
    if digits == [] || !AllDigits(digits) then None
    else
      var n := if negative then -(Value(digits) as int) else Value(digits);
      if -(bound as int) <= n < bound then Some(n) else None
  }

  /** Digits behind a sign or none. */
  predicate IsNumeral(s: string, sign: string, digits: string) {
    s == sign + digits && (sign == "" || sign == "+" || sign == "-") && digits != [] && AllDigits(digits)
  }

  lemma NumeralParts(s: string, sign: string, digits: string)
    requires IsNumeral(s, sign, digits)
    ensures sign != "" ==> s[0] == sign[0] && s[1..] == digits
    ensures sign == "" ==> s == digits && IsDigit(s[0])
  {
  }

  /** A signed number is read exactly from its numerals, if it is in the range of the type. */
  lemma SignedIff(s: string, n: int, bound: nat)
    ensures ParseSigned(s, bound) == Some(n) <==>
            exists sign, digits :: IsNumeral(s, sign, digits) && -(bound as int) <= n < bound
                                   && n == (if sign == "-" then -(Value(digits) as int) else Value(digits))
  {
    if ParseSigned(s, bound) == Some(n) {
      if s[0] == '+' || s[0] == '-' {
        assert IsNumeral(s, s[..1], s[1..]);
      } else {
        assert IsNumeral(s, "", s);
      }
    }
    if sign, digits :| IsNumeral(s, sign, digits) && -(bound as int) <= n < bound
                       && n == (if sign == "-" then -(Value(digits) as int) else Value(digits)) {
      NumeralParts(s, sign, digits);
    }
  }

  /** An unsigned one takes no minus sign. */
  lemma UnsignedIff(s: string, n: nat, max: nat)
    ensures ParseUnsigned(s, max) == Some(n) <==>
            exists sign, digits :: IsNumeral(s, sign, digits) && sign != "-" && n == Value(digits) <= max
  {
    if ParseUnsigned(s, max) == Some(n) {
      if s[0] == '+' {
        assert IsNumeral(s, "+", s[1..]);
      } else {
        assert IsNumeral(s, "", s);
      }
    }
    if sign, digits :| IsNumeral(s, sign, digits) && sign != "-" && n == Value(digits) <= max {
      NumeralParts(s, sign, digits);
    }
  }

  function PrintNat(n: nat): (s: string)
    ensures s != [] && AllDigits(s) && Value(s) == n
  {
    if n < 10 then
      var s := [DigitChar(n)];
      assert s[..0] == [];
      s
    else
      var s := PrintNat(n / 10) + [DigitChar(n % 10)];
      assert s[..|s| - 1] == PrintNat(n / 10);
      s
  }

  lemma ParsePrintedNat(n: nat, max: nat)
    requires n <= max
    ensures ParseUnsigned(PrintNat(n), max) == Some(n)
  {
    assert IsDigit(PrintNat(n)[0]);
  }

  function PrintInt(n: int): string {
    if n < 0 then "-" + PrintNat(-n) else PrintNat(n)
  }

  lemma ParsePrintedInt(n: int, bound: nat)
    requires -(bound as int) <= n < bound
    ensures ParseSigned(PrintInt(n), bound) == Some(n)
  {
    if n < 0 {
      assert PrintInt(n)[1..] == PrintNat(-n);
    }
  }

  /** `n` written with exactly `width` digits. */
  function Padded(n: nat, width: nat): (s: string)
    ensures |s| == width && AllDigits(s)
  {
    if width == 0 then [] else Padded(n / 10, width - 1) + [DigitChar(n % 10)]
  }

  function PowerOfTen(width: nat): nat {
    if width == 0 then 1 else 10 * PowerOfTen(width - 1)
  }

  lemma {:induction false} PaddedValue(n: nat, width: nat)
    requires n < PowerOfTen(width)
    ensures Value(Padded(n, width)) == n
  {
    if width > 0 {
      PaddedValue(n / 10, width - 1);
      var s := Padded(n, width);
      assert s[..|s| - 1] == Padded(n / 10, width - 1);
    }
  }

  lemma ParsePadded(n: nat, width: nat, max: nat)
    requires 0 < width && n < PowerOfTen(width) && n <= max
    ensures ParseUnsigned(Padded(n, width), max) == Some(n)
    ensures n < max ==> ParseSigned(Padded(n, width), max) == Some(n)
  {
    PaddedValue(n, width);
    assert IsDigit(Padded(n, width)[0]);
  }

  // ---- ASCII case ----

  predicate IsAlpha(c: char) {
    'a' <= c <= 'z' || 'A' <= c <= 'Z'
  }

  predicate IsAlphanumeric(c: char) {
    IsAlpha(c) || IsDigit(c)
  }

  function LowerChar(c: char): (l: char)
    ensures IsAlphanumeric(c) ==> IsAlphanumeric(l)
    ensures !('A' <= l <= 'Z')
    ensures if 'A' <= c <= 'Z' then l as int - 'a' as int == c as int - 'A' as int else l == c
  {
    if 'A' <= c <= 'Z' then (c as int + 32) as char else c
  }

  function Lower(s: string): (l: string)
    ensures |l| == |s| && forall i :: 0 <= i < |s| ==> l[i] == LowerChar(s[i])
  {
    seq(|s|, i requires 0 <= i < |s| => LowerChar(s[i]))
  }
}
