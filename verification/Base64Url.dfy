/** The base64url codec without padding (section 5 of RFC 4648), with the strict decoding of the
    program's library: no padding, and no bits left over in the last character. */
module Base64Url {
  import opened Options
  import opened Utf8
  import opened Text

  type Sextet = n: nat | n < 64

  function Letter(i: Sextet): char {
    if i < 26 then ('A' as int + i) as char
    else if i < 52 then ('a' as int + i - 26) as char
    else if i < 62 then ('0' as int + i - 52) as char
    else if i == 62 then '-' else '_'
  }

  function Index(c: char): Option<Sextet> {
    if 'A' <= c <= 'Z' then Some(c as int - 'A' as int)
    else if 'a' <= c <= 'z' then Some(c as int - 'a' as int + 26)
    else if '0' <= c <= '9' then Some(c as int - '0' as int + 52)
    else if c == '-' then Some(62)
    else if c == '_' then Some(63)
    else None
  }

  /** The alphabet is a bijection, and has no whitespace. */
  lemma Alphabet(i: Sextet, c: char)
    ensures Index(Letter(i)) == Some(i) && !IsWhitespace(Letter(i)) && ' ' < Letter(i) < '\U{7F}'
    ensures Index(c).Some? ==> Letter(Index(c).value) == c
  {
  }

  /** A group of one, two or three bytes. */
  function EncodeGroup(b: seq<Byte>): (s: string)
    requires 1 <= |b| <= 3
    ensures |s| == |b| + 1
  {
    if |b| == 1 then [Letter(b[0] / 4), Letter(b[0] % 4 * 16)]
    else if |b| == 2 then [Letter(b[0] / 4), Letter(b[0] % 4 * 16 + b[1] / 16), Letter(b[1] % 16 * 4)]
    else
      [Letter(b[0] / 4), Letter(b[0] % 4 * 16 + b[1] / 16), Letter(b[1] % 16 * 4 + b[2] / 64), Letter(b[2] % 64)]
  }

  function EncodeBytes(b: seq<Byte>): string {
    if b == [] then []
    else if |b| <= 3 then EncodeGroup(b)
    else EncodeGroup(b[..3]) + EncodeBytes(b[3..])
  }

  /** The bytes of a last group of two or three characters, or of a full group of four. */
  function DecodeGroup(s: string): Option<seq<Byte>>
    requires 2 <= |s| <= 4
  {
    var i, j := Index(s[0]), Index(s[1]);
    var k, l := if |s| > 2 then Index(s[2]) else Some(0), if |s| > 3 then Index(s[3]) else Some(0);
    if i.None? || j.None? || k.None? || l.None? then None
    else if |s| == 2 then (if j.value % 16 == 0 then Some([First(i.value, j.value)]) else None)
    else if |s| == 3 then
      (if k.value % 4 == 0 then Some([First(i.value, j.value), Second(j.value, k.value)]) else None)
    else Some([First(i.value, j.value), Second(j.value, k.value), Third(k.value, l.value)])
  }

  function First(i: Sextet, j: Sextet): Byte { i as int * 4 + j / 16 }
  function Second(j: Sextet, k: Sextet): Byte { (j % 16) as int * 16 + k / 4 }
  function Third(k: Sextet, l: Sextet): Byte { (k % 4) as int * 64 + l }

  function DecodeBytes(s: string): Option<seq<Byte>> {
    if s == [] then Some([])
    else if |s| == 1 then None
    else if |s| <= 4 then DecodeGroup(s)
    else match (DecodeGroup(s[..4]), DecodeBytes(s[4..]))
      case (Some(group), Some(rest)) => Some(group + rest)
      case _ => None
  }

  // ---- The code of RFC 4648 ----

  const UPPER := "ABCDEFGHIJKLMNOPQRSTUVWXYZ"
  const LOWER := "abcdefghijklmnopqrstuvwxyz"
  const DIGITS := "0123456789"

  /** Table 2 of its section 5. */
  lemma AlphabetOfTheStandard(i: Sextet)
    ensures |UPPER| == |LOWER| == 26 && |DIGITS| == 10
    ensures Letter(i) == (UPPER + LOWER + DIGITS + "-_")[i]
  {
    if i < 26 {
      UpperLetters(i);
    } else if i < 52 {
      LowerLetters(i - 26);
    } else if i < 62 {
      assert DIGITS[i - 52] as int == '0' as int + i - 52;
    }
  }

  lemma UpperLetters(i: nat)
    requires i < 26
    ensures UPPER[i] as int == 'A' as int + i
  {
    var letters := "ABCDEFGHIJKLMNOPQRSTUVWXYZ";
    assert letters[i] as int == 'A' as int + i;
  }

  lemma LowerLetters(i: nat)
    requires i < 26
    ensures LOWER[i] as int == 'a' as int + i
  {
    var letters := "abcdefghijklmnopqrstuvwxyz";
    assert letters[i] as int == 'a' as int + i;
  }

  /** The number whose digits to base 64 the letters are. */
  function NumberOf(s: string): int {
    if s == [] then 0
    else 64 * NumberOf(s[..|s| - 1]) + match Index(s[|s| - 1]) case None => 0 case Some(i) => i as int
  }

  /** The bytes of a group, the first one highest, filled up with zero bits to whole letters. */
  lemma GroupIsTheNumber(x: Byte, y: Byte, z: Byte)
    ensures NumberOf(EncodeGroup([x])) == 16 * x
    ensures NumberOf(EncodeGroup([x, y])) == 4 * (256 * x + y)
    ensures NumberOf(EncodeGroup([x, y, z])) == 65536 * x + 256 * y + z
  {
    LettersOfGroup(x, y, z);
    var i, j, k, l := x / 4, x % 4 * 16 + y / 16, y % 16 * 4 + z / 64, z % 64;
    NumberOfLetters(i, x % 4 * 16, 0, 0);
    NumberOfLetters(i, j, y % 16 * 4, 0);
    NumberOfLetters(i, j, k, l);
    SameNumber(x, y, z, i, j, k, l);
  }

  lemma SameNumber(x: Byte, y: Byte, z: Byte, i: int, j: int, k: int, l: int)
    requires i == x / 4 && j == x % 4 * 16 + y / 16 && k == y % 16 * 4 + z / 64 && l == z % 64
    ensures 64 * i + x % 4 * 16 == 16 * x
    ensures 4096 * i + 64 * j + y % 16 * 4 == 4 * (256 * x + y)
    ensures 262144 * i + 4096 * j + 64 * k + l == 65536 * x + 256 * y + z
  {
  }

  lemma LettersOfGroup(x: Byte, y: Byte, z: Byte)
    ensures EncodeGroup([x]) == [Letter(x / 4), Letter(x % 4 * 16)]
    ensures EncodeGroup([x, y]) == [Letter(x / 4), Letter(x % 4 * 16 + y / 16), Letter(y % 16 * 4)]
    ensures EncodeGroup([x, y, z]) ==
            [Letter(x / 4), Letter(x % 4 * 16 + y / 16), Letter(y % 16 * 4 + z / 64), Letter(z % 64)]
  {
  }

  lemma NumberOfLetters(i: Sextet, j: Sextet, k: Sextet, l: Sextet)
    ensures NumberOf([Letter(i), Letter(j)]) == 64 * i + j
    ensures NumberOf([Letter(i), Letter(j), Letter(k)]) == 4096 * i + 64 * j + k
    ensures NumberOf([Letter(i), Letter(j), Letter(k), Letter(l)]) == 262144 * i + 4096 * j + 64 * k + l
  {
    var two := [Letter(i), Letter(j)];
    var three := two + [Letter(k)];
    var four := three + [Letter(l)];
    OneDigit(i);
    NextDigit([Letter(i)], j);
    NextDigit(two, k);
    NextDigit(three, l);
    assert [Letter(i)] + [Letter(j)] == two && three == [Letter(i), Letter(j), Letter(k)];
    assert four == [Letter(i), Letter(j), Letter(k), Letter(l)];
  }

  lemma OneDigit(i: Sextet)
    ensures NumberOf([Letter(i)]) == i
  {
    NextDigit([], i);
    assert [] + [Letter(i)] == [Letter(i)];
  }

  lemma NextDigit(s: string, i: Sextet)
    ensures NumberOf(s + [Letter(i)]) == 64 * NumberOf(s) + i
  {
    Alphabet(i, 'A');
    assert (s + [Letter(i)])[..|s|] == s;
  }

  lemma EncodeStep(b: seq<Byte>)
    requires |b| >= 3
    ensures EncodeBytes(b) == EncodeGroup(b[..3]) + EncodeBytes(b[3..])
  {
    if |b| == 3 {
      assert b[..3] == b && b[3..] == [];
    }
  }

  lemma CutThree(a: seq<Byte>, b: seq<Byte>)
    requires |a| >= 3
    ensures (a + b)[..3] == a[..3] && (a + b)[3..] == a[3..] + b
  {
  }

  lemma OneMoreGroup(group: string, whole: string, rest: string, behind: string)
    requires whole == group + rest
    ensures whole + behind == group + (rest + behind)
  {
  }

  /** Groups of three are encoded one behind the other. */
  lemma {:induction false} EncodeGroups(a: seq<Byte>, b: seq<Byte>)
    requires |a| % 3 == 0
    ensures EncodeBytes(a + b) == EncodeBytes(a) + EncodeBytes(b)
    decreases |a|
  {
    if a == [] {
      EncodeBehindNothing(a, b);
    } else {
      var front, rest := a[..3], a[3..];
      EncodeGroups(rest, b);
      EncodeStep(a);
      GroupInFront(a, b, front, rest);
      OneMoreGroup(EncodeGroup(front), EncodeBytes(a), EncodeBytes(rest), EncodeBytes(b));
    }
  }

  lemma EncodeBehindNothing(a: seq<Byte>, b: seq<Byte>)
    requires a == []
    ensures EncodeBytes(a + b) == EncodeBytes(a) + EncodeBytes(b)
  {
    assert a + b == b;
  }

  lemma GroupInFront(a: seq<Byte>, b: seq<Byte>, front: seq<Byte>, rest: seq<Byte>)
    requires |a| >= 3 && front == a[..3] && rest == a[3..]
    ensures EncodeBytes(a + b) == EncodeGroup(front) + EncodeBytes(rest + b)
  {
    CutThree(a, b);
    EncodeStep(a + b);
  }

  /** Regrouping three bytes as four sextets loses nothing. */
  lemma Regroup(a: Byte, b: Byte, c: Byte)
    ensures var i, j, k, l := a / 4, a % 4 * 16 + b / 16, b % 16 * 4 + c / 64, c % 64;
            First(i, j) == a && Second(j, k) == b && Third(k, l) == c && First(i, a % 4 * 16) == a
            && Second(j, b % 16 * 4) == b && (b % 16 * 4) % 4 == 0 && (a % 4 * 16) % 16 == 0
  {
  }

  lemma DecodeLetters(i: Sextet, j: Sextet, k: Sextet, l: Sextet)
    ensures j % 16 == 0 ==> DecodeGroup([Letter(i), Letter(j)]) == Some([First(i, j)])
    ensures k % 4 == 0 ==> DecodeGroup([Letter(i), Letter(j), Letter(k)]) == Some([First(i, j), Second(j, k)])
    ensures DecodeGroup([Letter(i), Letter(j), Letter(k), Letter(l)]) == Some([First(i, j), Second(j, k), Third(k, l)])
  {
    Alphabet(i, 'A');
    Alphabet(j, 'A');
    Alphabet(k, 'A');
    Alphabet(l, 'A');
  }

  lemma OneByteRoundTrip(x: Byte)
    ensures DecodeGroup(EncodeGroup([x])) == Some([x])
  {
    Regroup(x, 0, 0);
    DecodeLetters(x / 4, x % 4 * 16, 0, 0);
  }

  lemma TwoByteRoundTrip(x: Byte, y: Byte)
    ensures DecodeGroup(EncodeGroup([x, y])) == Some([x, y])
  {
    Regroup(x, y, 0);
    DecodeLetters(x / 4, x % 4 * 16 + y / 16, y % 16 * 4, 0);
  }

  lemma ThreeByteRoundTrip(x: Byte, y: Byte, z: Byte)
    ensures DecodeGroup(EncodeGroup([x, y, z])) == Some([x, y, z])
  {
    Regroup(x, y, z);
    DecodeLetters(x / 4, x % 4 * 16 + y / 16, y % 16 * 4 + z / 64, z % 64);
  }

  lemma GroupRoundTrip(b: seq<Byte>)
    requires 1 <= |b| <= 3
    ensures DecodeGroup(EncodeGroup(b)) == Some(b)
  {
    if |b| == 1 {
      assert b == [b[0]];
      OneByteRoundTrip(b[0]);
    } else if |b| == 2 {
      assert b == [b[0], b[1]];
      TwoByteRoundTrip(b[0], b[1]);
    } else {
      assert b == [b[0], b[1], b[2]];
      ThreeByteRoundTrip(b[0], b[1], b[2]);
    }
  }

  /** Decoding undoes encoding. */
  lemma {:induction false} DecodeEncodedBytes(b: seq<Byte>)
    ensures DecodeBytes(EncodeBytes(b)) == Some(b)
  {
    if 1 <= |b| <= 3 {
      GroupRoundTrip(b);
    } else if |b| > 3 {
      var head, tail := EncodeGroup(b[..3]), EncodeBytes(b[3..]);
      GroupRoundTrip(b[..3]);
      DecodeEncodedBytes(b[3..]);
      assert tail != [];
      assert (head + tail)[..4] == head && (head + tail)[4..] == tail;
      assert b == b[..3] + b[3..];
    }
  }

  /** Regrouping four sextets as three bytes loses nothing. */
  lemma RegroupBack(i: Sextet, j: Sextet, k: Sextet, l: Sextet)
    ensures var a, b, c := First(i, j), Second(j, k), Third(k, l);
            a / 4 == i && a % 4 * 16 + b / 16 == j && b % 16 * 4 + c / 64 == k && c % 64 == l
            && (j % 16 == 0 ==> a % 4 * 16 == j) && (k % 4 == 0 ==> b % 16 * 4 == k)
  {
  }

  lemma GroupIsCanonical(s: string)
    requires 2 <= |s| <= 4 && DecodeGroup(s).Some?
    ensures |DecodeGroup(s).value| == |s| - 1 && EncodeGroup(DecodeGroup(s).value) == s
  {
    forall c: char ensures Index(c).Some? ==> Letter(Index(c).value) == c {
      Alphabet(0, c);
    }
    RegroupBack(Index(s[0]).value, Index(s[1]).value, if |s| > 2 then Index(s[2]).value else 0,
                if |s| > 3 then Index(s[3]).value else 0);
  }

  /** Encoding undoes decoding: every byte string has one text. */
  lemma {:induction false} EncodeDecodedBytes(s: string)
    ensures DecodeBytes(s).Some? ==> EncodeBytes(DecodeBytes(s).value) == s
  {
    if DecodeBytes(s).Some? {
      if 2 <= |s| <= 4 {
        GroupIsCanonical(s);
      } else if |s| > 4 {
        GroupIsCanonical(s[..4]);
        EncodeDecodedBytes(s[4..]);
        var group, rest := DecodeGroup(s[..4]).value, DecodeBytes(s[4..]).value;
        assert rest != [];
        assert (group + rest)[..3] == group && (group + rest)[3..] == rest;
        assert s == s[..4] + s[4..];
      }
    }
  }

  /** Encoded text is visible ASCII without whitespace, and empty only for nothing. */
  lemma {:induction false} EncodedIsVisible(b: seq<Byte>)
    ensures EncodeBytes(b) == [] <==> b == []
    ensures forall i :: 0 <= i < |EncodeBytes(b)| ==>
              ' ' < EncodeBytes(b)[i] < '\U{7F}' && !IsWhitespace(EncodeBytes(b)[i])
  {
    forall i: Sextet ensures ' ' < Letter(i) < '\U{7F}' && !IsWhitespace(Letter(i)) {
      Alphabet(i, 'A');
    }
    if |b| > 3 {
      EncodedIsVisible(b[3..]);
    }
  }
}
