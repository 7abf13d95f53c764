/** UTF-8 as section 3 of RFC 3629 defines it, with the syntax of its section 4. */
module Utf8 {
  import opened Options

  type Byte = n: nat | n < 256

  /** The newline, which UTF-8 leaves a single byte. */
  const NL: Byte := 10

  predicate IsTail(b: Byte) {
    0x80 <= b <= 0xBF
  }

  function EncodeChar(c: char): (bytes: seq<Byte>)
    ensures 1 <= |bytes| <= 4
  {
    var x := c as int;
    if x < 0x80 then [x]
    else if x < 0x800 then [0xC0 + x / 64, 0x80 + x % 64]
    else if x < 0x10000 then [0xE0 + x / 4096, 0x80 + x / 64 % 64, 0x80 + x % 64]
    else [0xF0 + x / 262144, 0x80 + x / 4096 % 64, 0x80 + x / 64 % 64, 0x80 + x % 64]
  }

  function Encode(s: string): seq<Byte> {
    if s == [] then [] else EncodeChar(s[0]) + Encode(s[1..])
  }

  /** The length of the well-formed character at the front of `b`, or 0 when there is none. */
  function HeadWidth(b: seq<Byte>): (w: nat)
    ensures w <= |b| && w <= 4
  {
    if b == [] then 0
    else if b[0] <= 0x7F then 1
    else if 0xC2 <= b[0] <= 0xDF then
      if |b| >= 2 && IsTail(b[1]) then 2 else 0
    else if 0xE0 <= b[0] <= 0xEF then
      if |b| >= 3 && IsTail(b[1]) && IsTail(b[2])
         && (b[0] == 0xE0 ==> b[1] >= 0xA0) && (b[0] == 0xED ==> b[1] <= 0x9F) then 3 else 0
    else if 0xF0 <= b[0] <= 0xF4 then
      if |b| >= 4 && IsTail(b[1]) && IsTail(b[2]) && IsTail(b[3])
         && (b[0] == 0xF0 ==> b[1] >= 0x90) && (b[0] == 0xF4 ==> b[1] <= 0x8F) then 4 else 0
    else 0
  }

  /** The scalar value carried by a two, three or four byte form. */
  function Two(a: int, b: int): int { (a - 0xC0) * 64 + (b - 0x80) }
  function Three(a: int, b: int, c: int): int { (a - 0xE0) * 4096 + (b - 0x80) * 64 + (c - 0x80) }
  function Four(a: int, b: int, c: int, d: int): int {
    (a - 0xF0) * 262144 + (b - 0x80) * 4096 + (c - 0x80) * 64 + (d - 0x80)
  }

  /** The character at the front of `b`. */
  function HeadChar(b: seq<Byte>): char
    requires HeadWidth(b) > 0
  {
    match HeadWidth(b)
    case 1 => b[0] as char
    case 2 => Two(b[0], b[1]) as char
    case 3 => Three(b[0], b[1], b[2]) as char
    case _ => Four(b[0], b[1], b[2], b[3]) as char
  }

  /** `String::from_utf8`. */
  function Decode(b: seq<Byte>): Option<string> {
    if b == [] then Some([])
    else if HeadWidth(b) == 0 then None
    else match Decode(b[HeadWidth(b)..])
      case None => None
      case Some(rest) => Some([HeadChar(b)] + rest)
  }

  /** The examples of section 7 of RFC 3629 with forms of one to four bytes. */
  lemma StandardExamples()
    ensures EncodeChar('A') == [0x41] && EncodeChar('.') == [0x2E]
    ensures EncodeChar('\U{391}') == [0xCE, 0x91]
    ensures EncodeChar('\U{2262}') == [0xE2, 0x89, 0xA2]
    ensures EncodeChar('\U{233B4}') == [0xF0, 0xA3, 0x8E, 0xB4]
  {
  }

  /** The bits of a character fill the forms of section 3, the highest first. */
  lemma CharBits(c: char)
    ensures var b, x := EncodeChar(c), c as int;
            match |b|
            case 1 => b[0] < 0x80 && x == b[0]
            case 2 => 0xC0 <= b[0] < 0xE0 && x == Two(b[0], b[1])
            case 3 => 0xE0 <= b[0] < 0xF0 && x == Three(b[0], b[1], b[2])
            case _ => 0xF0 <= b[0] < 0xF8 && x == Four(b[0], b[1], b[2], b[3])
    ensures |EncodeChar(c)| == if c < '\U{80}' then 1 else if c < '\U{800}' then 2 else if c < '\U{10000}' then 3 else 4
  {
    FromSixBitGroups(c as int);
  }

  lemma HeadOne(a: Byte, rest: seq<Byte>)
    requires a < 0x80
    ensures HeadWidth([a] + rest) == 1 && HeadChar([a] + rest) == a as char
  {
  }

  lemma HeadTwo(a: Byte, b: Byte, rest: seq<Byte>)
    requires 0xC2 <= a <= 0xDF && IsTail(b)
    ensures HeadWidth([a, b] + rest) == 2 && HeadChar([a, b] + rest) == Two(a, b) as char
  {
  }

  lemma HeadThree(a: Byte, b: Byte, d: Byte, rest: seq<Byte>)
    requires 0xE0 <= a <= 0xEF && IsTail(b) && IsTail(d)
    requires (a == 0xE0 ==> b >= 0xA0) && (a == 0xED ==> b <= 0x9F)
    ensures HeadWidth([a, b, d] + rest) == 3 && HeadChar([a, b, d] + rest) == Three(a, b, d) as char
  {
  }

  lemma HeadFour(a: Byte, b: Byte, d: Byte, e: Byte, rest: seq<Byte>)
    requires 0xF0 <= a <= 0xF4 && IsTail(b) && IsTail(d) && IsTail(e)
    requires (a == 0xF0 ==> b >= 0x90) && (a == 0xF4 ==> b <= 0x8F)
    ensures HeadWidth([a, b, d, e] + rest) == 4 && HeadChar([a, b, d, e] + rest) == Four(a, b, d, e) as char
  {
  }

  /** A number is made of its six-bit groups. */
  lemma FromSixBitGroups(x: nat)
    ensures x == x / 64 * 64 + x % 64
    ensures x == x / 4096 * 4096 + x / 64 % 64 * 64 + x % 64
    ensures x == x / 262144 * 262144 + x / 4096 % 64 * 4096 + x / 64 % 64 * 64 + x % 64
  {
    assert x / 4096 == x / 64 / 64 && x / 262144 == x / 4096 / 64;
  }

  lemma HeadOfEncodedChar(c: char, rest: seq<Byte>)
    ensures HeadWidth(EncodeChar(c) + rest) == |EncodeChar(c)|
    ensures HeadChar(EncodeChar(c) + rest) == c
  {
    var x := c as int;
    FromSixBitGroups(x);
    if x < 0x80 {
      HeadOne(x, rest);
    } else if x < 0x800 {
      HeadTwo(0xC0 + x / 64, 0x80 + x % 64, rest);
    } else if x < 0x10000 {
      HeadThree(0xE0 + x / 4096, 0x80 + x / 64 % 64, 0x80 + x % 64, rest);
    } else {
      HeadFour(0xF0 + x / 262144, 0x80 + x / 4096 % 64, 0x80 + x / 64 % 64, 0x80 + x % 64, rest);
    }
  }

  /** The six-bit groups of a number can be read back from it. */
  lemma SixBitGroups(a: int, b: int, c: int, d: int)
    requires 0 <= b < 64 && 0 <= c < 64 && 0 <= d < 64
    ensures var x := a * 262144 + b * 4096 + c * 64 + d;
            x / 262144 == a && x / 4096 % 64 == b && x / 64 % 64 == c && x % 64 == d
            && x / 4096 == a * 64 + b
  {
    var x := a * 262144 + b * 4096 + c * 64 + d;
    assert x == (a * 4096 + b * 64 + c) * 64 + d;
    assert x / 64 == a * 4096 + b * 64 + c;
    assert x / 4096 == x / 64 / 64 == a * 64 + b;
    assert x / 262144 == x / 4096 / 64;
  }

  lemma EncodeTwo(c: char, a: Byte, b: Byte)
    requires 0xC2 <= a <= 0xDF && IsTail(b) && c as int == Two(a, b)
    ensures EncodeChar(c) == [a, b]
  {
    SixBitGroups(0, 0, a - 0xC0, b - 0x80);
  }

  lemma EncodeThree(c: char, a: Byte, b: Byte, d: Byte)
    requires 0xE0 <= a <= 0xEF && IsTail(b) && IsTail(d) && (a == 0xE0 ==> b >= 0xA0)
    requires c as int == Three(a, b, d)
    ensures EncodeChar(c) == [a, b, d]
  {
    SixBitGroups(0, a - 0xE0, b - 0x80, d - 0x80);
  }

  lemma EncodeFour(c: char, a: Byte, b: Byte, d: Byte, e: Byte)
    requires 0xF0 <= a <= 0xF4 && IsTail(b) && IsTail(d) && IsTail(e) && (a == 0xF0 ==> b >= 0x90)
    requires c as int == Four(a, b, d, e)
    ensures EncodeChar(c) == [a, b, d, e]
  {
    SixBitGroups(a - 0xF0, b - 0x80, d - 0x80, e - 0x80);
  }

  lemma EncodedHeadChar(b: seq<Byte>)
    requires HeadWidth(b) > 0
    ensures EncodeChar(HeadChar(b)) == b[..HeadWidth(b)]
  {
    match HeadWidth(b)
    case 1 =>
    case 2 => EncodeTwo(HeadChar(b), b[0], b[1]);
    case 3 => EncodeThree(HeadChar(b), b[0], b[1], b[2]);
    case _ => EncodeFour(HeadChar(b), b[0], b[1], b[2], b[3]);
  }

  /** Every string survives encoding and decoding. */
  lemma {:induction false} DecodeEncoded(s: string)
    ensures Decode(Encode(s)) == Some(s)
  {
    if s != [] {
      var head, rest := EncodeChar(s[0]), Encode(s[1..]);
      HeadOfEncodedChar(s[0], rest);
      assert (head + rest)[|head|..] == rest;
      DecodeEncoded(s[1..]);
      assert s == [s[0]] + s[1..];
    }
  }

  lemma EncodeCons(c: char, t: string)
    ensures Encode([c] + t) == EncodeChar(c) + Encode(t)
  {
    assert ([c] + t)[1..] == t;
  }

  lemma EncodeFront(b: seq<Byte>, w: nat, c: char, t: string)
    requires w <= |b| && EncodeChar(c) == b[..w] && Encode(t) == b[w..]
    ensures Encode([c] + t) == b
  {
    EncodeCons(c, t);
    assert b == b[..w] + b[w..];
  }

  /** Whatever decodes is the encoding of its decoding, so decoding is injective. */
  lemma {:induction false} EncodeDecoded(b: seq<Byte>)
    ensures Decode(b).Some? ==> Encode(Decode(b).value) == b
  {
    if b == [] {
      return;
    }
    var w := HeadWidth(b);
    if w == 0 {
      return;
    }
    var tail := b[w..];
    EncodeDecoded(tail);
    if Decode(tail).Some? {
      EncodedHeadChar(b);
      EncodeFront(b, w, HeadChar(b), Decode(tail).value);
    }
  }

  lemma {:induction false} EncodeConcat(s: string, t: string)
    ensures Encode(s + t) == Encode(s) + Encode(t)
  {
    if s == [] {
      assert s + t == t;
    } else {
      assert (s + t)[1..] == s[1..] + t;
      EncodeConcat(s[1..], t);
    }
  }

  /** A byte below 0x80 occurs in an encoded character only as that character itself. */
  lemma AsciiByteInChar(c: char, b: Byte)
    requires b < 0x80
    ensures b in EncodeChar(c) <==> c as int == b
    ensures c as int == b ==> EncodeChar(c) == [b]
  {
    if c as int == b {
      assert EncodeChar(c)[0] == b;
    }
  }

  // ---- Slicing text by bytes ----

  /** The characters that lie within the first `n` bytes. */
  function TakeBytes(s: string, n: nat): string {
    if s == [] || |EncodeChar(s[0])| > n then [] else [s[0]] + TakeBytes(s[1..], n - |EncodeChar(s[0])|)
  }

  /** Byte `n` of the text lies inside a character, so that a slice up to it stops the program. */
  predicate CutsAt(s: string, n: nat) {
    s != [] && 0 < n && (|EncodeChar(s[0])| > n || CutsAt(s[1..], n - |EncodeChar(s[0])|))
  }

  /** Otherwise the slice holds exactly the first bytes. */
  lemma {:induction false} TakesBytes(s: string, n: nat)
    requires !CutsAt(s, n)
    ensures Encode(TakeBytes(s, n)) == Encode(s)[..if |Encode(s)| < n then |Encode(s)| else n]
  {
    if s != [] && n > 0 {
      var w, rest := |EncodeChar(s[0])|, s[1..];
      TakesBytes(rest, n - w);
      EncodeCons(s[0], TakeBytes(rest, n - w));
    }
  }

  lemma TailsOfChar(c: char)
    ensures !IsTail(EncodeChar(c)[0]) && forall i :: 1 <= i < |EncodeChar(c)| ==> IsTail(EncodeChar(c)[i])
  {
  }

  /** In well-formed bytes, position `n` is inside a character. */
  predicate Inside(b: seq<Byte>, n: nat) {
    n < |b| && IsTail(b[n])
  }

  lemma {:induction false} CutsInside(s: string, n: nat)
    ensures CutsAt(s, n) <==> Inside(Encode(s), n)
  {
    if s != [] {
      var w, rest := |EncodeChar(s[0])|, s[1..];
      TailsOfChar(s[0]);
      if n >= w {
        CutsInside(rest, n - w);
      }
    }
  }

  // ---- Slicing well-formed bytes ----

  /** A place between two characters cuts the text in two. */
  lemma CutBetween(s: string, n: nat)
    requires n <= |Encode(s)| && !CutsAt(s, n)
    ensures Decode(Encode(s)[..n]).Some? && Decode(Encode(s)[n..]).Some?
  {
    TakesBytes(s, n);
    DecodeEncoded(TakeBytes(s, n));
    RestIsText(s, n);
  }

  lemma DropMore(a: seq<Byte>, b: seq<Byte>, n: nat)
    requires |a| <= n <= |a + b|
    ensures (a + b)[n..] == b[n - |a|..]
  {
  }

  lemma {:induction false} RestIsText(s: string, n: nat)
    requires n <= |Encode(s)| && !CutsAt(s, n)
    ensures Decode(Encode(s)[n..]).Some?
  {
    if n == 0 {
      DecodeEncoded(s);
      assert Encode(s)[0..] == Encode(s);
    } else {
      var w, rest := |EncodeChar(s[0])|, s[1..];
      RestIsText(rest, n - w);
      DropMore(EncodeChar(s[0]), Encode(rest), n);
    }
  }

  lemma HeadOfPrefix(b: seq<Byte>, whole: seq<Byte>)
    requires b <= whole && HeadWidth(b) > 0
    ensures HeadWidth(whole) == HeadWidth(b)
  {
  }

  lemma DropFromPrefix(b: seq<Byte>, whole: seq<Byte>, w: nat)
    requires w <= |b| && b <= whole
    ensures b[w..] <= whole[w..]
  {
  }

  lemma DecodedRest(b: seq<Byte>)
    requires b != [] && Decode(b).Some?
    ensures HeadWidth(b) > 0 && Decode(b[HeadWidth(b)..]).Some?
  {
  }

  /** Text in front of text ends between two characters. */
  lemma {:induction false} PrefixRest(b: seq<Byte>, whole: seq<Byte>)
    requires b <= whole && Decode(b).Some? && Decode(whole).Some?
    ensures Decode(whole[|b|..]).Some?
    decreases |b|
  {
    if b == [] {
      assert whole[0..] == whole;
    } else {
      DecodedRest(b);
      DecodedRest(whole);
      HeadOfPrefix(b, whole);
      var w := HeadWidth(b);
      DropFromPrefix(b, whole, w);
      PrefixRest(b[w..], whole[w..]);
      assert whole[w..][|b[w..]|..] == whole[|b|..];
    }
  }

  lemma DecodedConcat(a: seq<Byte>, b: seq<Byte>)
    requires Decode(a).Some? && Decode(b).Some?
    ensures Decode(a + b).Some?
  {
    var s, t := Decode(a).value, Decode(b).value;
    EncodeDecoded(a);
    EncodeDecoded(b);
    EncodeConcat(s, t);
    DecodeEncoded(s + t);
  }

  /** Text starts with the first byte of a character. */
  lemma TextStartsBetween(b: seq<Byte>)
    requires Decode(b).Some?
    ensures !Inside(b, 0)
  {
  }

  lemma CutDecoded(b: seq<Byte>, n: nat)
    requires Decode(b).Some? && n <= |b| && !Inside(b, n)
    ensures Decode(b[..n]).Some? && Decode(b[n..]).Some?
  {
    EncodeDecoded(b);
    CutsInside(Decode(b).value, n);
    CutBetween(Decode(b).value, n);
  }

  lemma SliceBack(b: seq<Byte>, i: nat, j: nat)
    requires i <= j <= |b|
    ensures b[i..][..j - i] == b[i..j] && b[i..][j - i..] == b[j..]
    ensures i < |b| ==> b[i..][0] == b[i]
    ensures j < |b| ==> b[i..][j - i] == b[j] && b[j..][0] == b[j]
  {
  }

  /** A text that is a piece of the text `rest` ends between two characters of it. */
  lemma PieceEndsBetween(rest: seq<Byte>, piece: seq<Byte>)
    requires piece <= rest && Decode(piece).Some? && Decode(rest).Some?
    ensures !Inside(rest, |piece|)
  {
    PrefixRest(piece, rest);
    TextStartsBetween(rest[|piece|..]);
  }

  lemma FirstByte(b: seq<Byte>, i: nat, piece: seq<Byte>)
    requires i < |b| && piece != [] && piece <= b[i..] && !Inside(piece, 0)
    ensures !Inside(b, i)
  {
    assert piece[0] == b[i..][0] == b[i];
  }

  lemma DecodedSliceEnds(b: seq<Byte>, i: nat, j: nat, piece: seq<Byte>)
    requires Decode(b).Some? && i < j <= |b| && piece == b[i..j] && Decode(piece).Some?
    ensures !Inside(b, i) && !Inside(b, j)
  {
    SliceBack(b, i, j);
    TextStartsBetween(piece);
    FirstByte(b, i, piece);
    CutDecoded(b, i);
    PieceEndsBetween(b[i..], piece);
  }

  lemma InsideRest(b: seq<Byte>, i: nat, j: nat, rest: seq<Byte>)
    requires i <= j <= |b| && rest == b[i..]
    ensures Inside(rest, j - i) <==> Inside(b, j)
  {
  }

  lemma FrontDecodes(rest: seq<Byte>, n: nat, piece: seq<Byte>)
    requires Decode(rest).Some? && n <= |rest| && !Inside(rest, n) && piece == rest[..n]
    ensures Decode(piece).Some?
  {
    CutDecoded(rest, n);
  }

  lemma RestDecodes(b: seq<Byte>, i: nat, rest: seq<Byte>)
    requires Decode(b).Some? && i <= |b| && !Inside(b, i) && rest == b[i..]
    ensures Decode(rest).Some?
  {
    CutDecoded(b, i);
  }

  lemma SliceBetween(b: seq<Byte>, i: nat, j: nat, rest: seq<Byte>, piece: seq<Byte>)
    requires Decode(b).Some? && i <= j <= |b| && !Inside(b, i) && !Inside(b, j)
    requires rest == b[i..] && piece == rest[..j - i]
    ensures Decode(piece).Some?
  {
    RestDecodes(b, i, rest);
    InsideRest(b, i, j, rest);
    FrontDecodes(rest, j - i, piece);
  }

  /** A slice of text is text exactly when it is empty or neither of its ends is inside a character. */
  lemma SliceDecodesIff(b: seq<Byte>, i: nat, j: nat)
    requires Decode(b).Some? && i <= j <= |b|
    ensures Decode(b[i..j]).Some? <==> i == j || (!Inside(b, i) && !Inside(b, j))
  {
    if i == j {
      assert b[i..j] == [];
    } else if Decode(b[i..j]).Some? {
      DecodedSliceEnds(b, i, j, b[i..j]);
    } else if !Inside(b, i) && !Inside(b, j) {
      SliceBack(b, i, j);
      SliceBetween(b, i, j, b[i..], b[i..j]);
    }
  }

  /** What follows a character of one byte is not inside one. */
  lemma {:induction false} NotInsideAfterAscii(s: string, n: nat)
    requires n < |Encode(s)| && Encode(s)[n] < 0x80
    ensures !Inside(Encode(s), n + 1)
  {
    var w, rest := |EncodeChar(s[0])|, s[1..];
    TailsOfChar(s[0]);
    if n >= w {
      NotInsideAfterAscii(rest, n - w);
    } else if rest != [] {
      TailsOfChar(rest[0]);
    }
  }
}
