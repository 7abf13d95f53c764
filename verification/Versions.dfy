/** Versions as Semantic Versioning 2.0.0 describes them, with two orders: the precedence of its
    item 11, and the total order the program compares with, which goes on to the build metadata. */
module Versions {
  import opened Ordering

  /** An identifier of a pre-release. */
  datatype Ident = Number(n: nat) | Word(s: string)

  /** An identifier of build metadata; numbers may be written with leading zeros. */
  datatype BuildIdent = Digits(value: nat, length: nat) | Letters(s: string)

  datatype Version = Version(major: nat, minor: nat, patch: nat, pre: seq<Ident>, build: seq<BuildIdent>)

  // ---- Comparing ----

  /** Numbers compare as numbers, words as ASCII text, and numbers come first. */
  function CompareIdent(a: Ident, b: Ident): int {
    match (a, b)
    case (Number(m), Number(n)) => Compare(m, n)
    case (Number(_), Word(_)) => -1
    case (Word(_), Number(_)) => 1
    case (Word(s), Word(t)) => CompareSeq(s, t, CompareChar)
  }

  function CompareBuildIdent(a: BuildIdent, b: BuildIdent): int {
    match (a, b)
    case (Digits(m, j), Digits(n, k)) => if m != n then Compare(m, n) else Compare(j, k)
    case (Digits(_, _), Letters(_)) => -1
    case (Letters(_), Digits(_, _)) => 1
    case (Letters(s), Letters(t)) => CompareSeq(s, t, CompareChar)
  }

  /** A version without pre-release comes after its pre-releases. */
  function ComparePre(a: seq<Ident>, b: seq<Ident>): int {
    if a == [] then (if b == [] then 0 else 1)
    else if b == [] then -1
    else CompareSeq(a, b, CompareIdent)
  }

  /** Item 11: major, minor, patch and pre-release, in this order. */
  function Precedence(a: Version, b: Version): int {
    if a.major != b.major then Compare(a.major, b.major)
    else if a.minor != b.minor then Compare(a.minor, b.minor)
    else if a.patch != b.patch then Compare(a.patch, b.patch)
    else ComparePre(a.pre, b.pre)
  }

  function CompareBuild(a: Version, b: Version): int {
    CompareSeq(a.build, b.build, CompareBuildIdent)
  }

  /** The order of the version library: precedence, then build metadata. */
  function CompareVersion(a: Version, b: Version): int {
    if Precedence(a, b) != 0 then Precedence(a, b) else CompareBuild(a, b)
  }

  // ---- The orders are orders ----

  lemma IdentsOrdered()
    ensures TotalOrder(CompareIdent)
  {
    CharsOrdered();
    forall a: Ident, b: Ident, c: Ident ensures Lawful(a, b, c, CompareIdent) {
      if a.Word? && b.Word? {
        SeqLawful(a.s, b.s, if c.Word? then c.s else a.s, CompareChar);
      }
    }
  }

  lemma BuildIdentsOrdered()
    ensures TotalOrder(CompareBuildIdent)
  {
    CharsOrdered();
    forall a: BuildIdent, b: BuildIdent, c: BuildIdent ensures Lawful(a, b, c, CompareBuildIdent) {
      if a.Letters? && b.Letters? {
        SeqLawful(a.s, b.s, if c.Letters? then c.s else a.s, CompareChar);
      }
    }
  }

  lemma PreLawful(a: seq<Ident>, b: seq<Ident>, c: seq<Ident>)
    ensures Lawful(a, b, c, ComparePre)
  {
    IdentsOrdered();
    SeqLawful(a, b, c, CompareIdent);
  }

  /** Precedence is a total preorder that ties exactly the versions differing in build metadata. */
  lemma PrecedenceLaws(a: Version, b: Version, c: Version)
    ensures -1 <= Precedence(a, b) <= 1 && Precedence(a, b) == -Precedence(b, a)
    ensures Precedence(a, b) == 0 <==> a == b.(build := a.build)
    ensures Precedence(a, b) <= 0 && Precedence(b, c) <= 0 ==> Precedence(a, c) <= 0
  {
    PreLawful(a.pre, b.pre, c.pre);
  }

  /** The program's comparison is a total order. */
  lemma VersionsLawful(a: Version, b: Version, c: Version)
    ensures Lawful(a, b, c, CompareVersion)
  {
    PrecedenceLaws(a, b, c);
    PrecedenceLaws(b, c, a);
    PrecedenceLaws(c, a, b);
    BuildIdentsOrdered();
    SeqLawful(a.build, b.build, c.build, CompareBuildIdent);
  }

  // ---- The orders are the ones described ----

  /** Items 11.4.1 to 11.4.3: numbers by value and before words, words by their characters. */
  ghost predicate IdentBelow(a: Ident, b: Ident) {
    match (a, b)
    case (Number(m), Number(n)) => m < n
    case (Number(_), Word(_)) => true
    case (Word(_), Number(_)) => false
    case (Word(s), Word(t)) => SeqBelow(s, t, CharBelow())
  }

  /** Numbers by value and then by leading zeros, and before words. */
  ghost predicate BuildIdentBelow(a: BuildIdent, b: BuildIdent) {
    match (a, b)
    case (Digits(m, j), Digits(n, k)) => m < n || (m == n && j < k)
    case (Digits(_, _), Letters(_)) => true
    case (Letters(_), Digits(_, _)) => false
    case (Letters(s), Letters(t)) => SeqBelow(s, t, CharBelow())
  }

  /** Item 11: the first of major, minor and patch that differs decides; a pre-release precedes its
      release, and pre-releases compare identifier by identifier, a shorter list preceding a longer. */
  ghost predicate Precedes(a: Version, b: Version) {
    || a.major < b.major
    || (a.major == b.major && a.minor < b.minor)
    || (a.major == b.major && a.minor == b.minor && a.patch < b.patch)
    || (a.major == b.major && a.minor == b.minor && a.patch == b.patch && a.pre != []
        && (b.pre == [] || SeqBelow(a.pre, b.pre, (x, y) => IdentBelow(x, y))))
  }

  lemma IdentOrder(a: Ident, b: Ident)
    ensures CompareIdent(a, b) < 0 <==> IdentBelow(a, b)
  {
    if a.Word? && b.Word? {
      TextOrder(a.s, b.s);
    }
  }

  lemma BuildIdentOrder(a: BuildIdent, b: BuildIdent)
    ensures CompareBuildIdent(a, b) < 0 <==> BuildIdentBelow(a, b)
  {
    if a.Letters? && b.Letters? {
      TextOrder(a.s, b.s);
    }
  }

  lemma PrecedenceIsItemEleven(a: Version, b: Version)
    ensures Precedence(a, b) < 0 <==> Precedes(a, b)
  {
    IdentsOrdered();
    forall x: Ident, y: Ident ensures IdentBelow(x, y) <==> CompareIdent(x, y) < 0 {
      IdentOrder(x, y);
    }
    ComparesFirstDifference(a.pre, b.pre, CompareIdent, (x, y) => IdentBelow(x, y));
  }

  /** Build metadata compares identifier by identifier, a shorter list being smaller. */
  lemma MetadataOrder(a: Version, b: Version)
    ensures CompareBuild(a, b) < 0 <==> SeqBelow(a.build, b.build, (x, y) => BuildIdentBelow(x, y))
  {
    BuildIdentsOrdered();
    forall x: BuildIdent, y: BuildIdent ensures BuildIdentBelow(x, y) <==> CompareBuildIdent(x, y) < 0 {
      BuildIdentOrder(x, y);
    }
    ComparesFirstDifference(a.build, b.build, CompareBuildIdent, (x, y) => BuildIdentBelow(x, y));
  }

  // ---- How the two orders relate ----

  /** The program's order agrees with item 11 on a pair except when only metadata separates them and
      the first has the smaller metadata. */
  lemma AtLeastByPrecedence(a: Version, b: Version)
    ensures (CompareVersion(a, b) >= 0 <==> Precedence(a, b) >= 0)
            <==> !(Precedence(a, b) == 0 && CompareBuild(a, b) < 0)
  {
  }

  /** 1.2.3 counts as older than 1.2.3+1, which item 11 ranks equal. */
  lemma MetadataCounts()
    ensures var plain := Version(1, 2, 3, [], []);
            var built := Version(1, 2, 3, [], [Digits(1, 1)]);
            Precedence(plain, built) == 0 && CompareVersion(plain, built) < 0
  {
  }
}
