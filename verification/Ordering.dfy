/** Three-way comparison of numbers, characters and sequences. */
module Ordering {

  function Compare(a: int, b: int): int {
    if a < b then -1 else if a == b then 0 else 1
  }

  /** The first difference decides; a proper prefix is smaller. */
  function CompareSeq<T>(a: seq<T>, b: seq<T>, cmp: (T, T) -> int): int {
    if a == [] then (if b == [] then 0 else -1)
    else if b == [] then 1
    else
      var first := cmp(a[0], b[0]);
      if first != 0 then first else CompareSeq(a[1..], b[1..], cmp)
  }

  function CompareChar(a: char, b: char): int {
    Compare(a as int, b as int)
  }

  /** What a comparison owes to three values. */
  ghost predicate Lawful<T>(a: T, b: T, c: T, cmp: (T, T) -> int) {
    && -1 <= cmp(a, b) <= 1
    && cmp(a, b) == -cmp(b, a)
    && (cmp(a, b) == 0 <==> a == b)
    && (cmp(a, b) <= 0 && cmp(b, c) <= 0 ==> cmp(a, c) <= 0)
  }

  ghost predicate TotalOrder<T(!new)>(cmp: (T, T) -> int) {
    forall a, b, c :: Lawful(a, b, c, cmp)
  }

  lemma {:induction false} SeqLawful<T(!new)>(a: seq<T>, b: seq<T>, c: seq<T>, cmp: (T, T) -> int)
    requires TotalOrder(cmp)
    ensures -1 <= CompareSeq(a, b, cmp) <= 1
    ensures CompareSeq(a, b, cmp) == -CompareSeq(b, a, cmp)
    ensures CompareSeq(a, b, cmp) == 0 <==> a == b
    ensures CompareSeq(a, b, cmp) <= 0 && CompareSeq(b, c, cmp) <= 0 ==> CompareSeq(a, c, cmp) <= 0
  {
    if a != [] && b != [] {
      assert Lawful(a[0], b[0], b[0], cmp);
      assert a == [a[0]] + a[1..] && b == [b[0]] + b[1..];
      SeqLawful(a[1..], b[1..], if c == [] then [] else c[1..], cmp);
      if c != [] {
        assert Lawful(a[0], b[0], c[0], cmp) && Lawful(b[0], c[0], a[0], cmp) && Lawful(a[0], c[0], b[0], cmp);
      }
    }
  }

  /** The two agree before place `k`, and there `a` ends or has the smaller element. */
  ghost predicate BelowAt<T(!new)>(a: seq<T>, b: seq<T>, k: int, below: (T, T) -> bool) {
    && 0 <= k <= |a| && k < |b| && a[..k] == b[..k]
    && (k < |a| ==> below(a[k], b[k]))
  }

  /** `a` is a proper prefix of `b`, or smaller at the first place where they differ. */
  ghost predicate SeqBelow<T(!new)>(a: seq<T>, b: seq<T>, below: (T, T) -> bool) {
    exists k :: BelowAt(a, b, k, below)
  }

  /** The comparison of sequences finds exactly that. */
  lemma {:induction false} ComparesFirstDifference<T(!new)>(a: seq<T>, b: seq<T>, cmp: (T, T) -> int, below: (T, T) -> bool)
    requires TotalOrder(cmp) && forall x, y :: below(x, y) <==> cmp(x, y) < 0
    ensures CompareSeq(a, b, cmp) < 0 <==> SeqBelow(a, b, below)
  {
    if a == [] || b == [] {
      assert b != [] ==> BelowAt(a, b, 0, below);
    } else {
      assert Lawful(a[0], b[0], b[0], cmp);
      if a[0] == b[0] {
        ComparesFirstDifference(a[1..], b[1..], cmp, below);
        SameHead(a, b, below);
      } else {
        OtherHead(a, b, below);
      }
    }
  }

  lemma OtherHead<T(!new)>(a: seq<T>, b: seq<T>, below: (T, T) -> bool)
    requires a != [] && b != [] && a[0] != b[0]
    ensures SeqBelow(a, b, below) <==> below(a[0], b[0])
  {
    if below(a[0], b[0]) {
      assert BelowAt(a, b, 0, below);
    }
    if k :| BelowAt(a, b, k, below) {
      assert k > 0 ==> a[..k][0] == b[..k][0];
    }
  }

  lemma SameHead<T(!new)>(a: seq<T>, b: seq<T>, below: (T, T) -> bool)
    requires a != [] && b != [] && a[0] == b[0] && !below(a[0], a[0])
    ensures SeqBelow(a, b, below) <==> SeqBelow(a[1..], b[1..], below)
  {
    if k :| BelowAt(a[1..], b[1..], k, below) {
      assert a[..k + 1] == [a[0]] + a[1..][..k] && b[..k + 1] == [b[0]] + b[1..][..k];
      assert BelowAt(a, b, k + 1, below);
    }
    if k :| BelowAt(a, b, k, below) {
      assert a[1..][..k - 1] == a[..k][1..] && b[1..][..k - 1] == b[..k][1..];
      assert BelowAt(a[1..], b[1..], k - 1, below);
    }
  }

  lemma BelowBehind<T(!new)>(head: seq<T>, a: seq<T>, b: seq<T>, below: (T, T) -> bool)
    requires SeqBelow(a, b, below)
    ensures SeqBelow(head + a, head + b, below)
  {
    var k :| BelowAt(a, b, k, below);
    var m := |head| + k;
    assert (head + a)[..m] == head + a[..k] && (head + b)[..m] == head + b[..k];
    assert BelowAt(head + a, head + b, m, below);
  }

  lemma BelowInFront<T(!new)>(a: seq<T>, b: seq<T>, x: seq<T>, y: seq<T>, k: nat, below: (T, T) -> bool)
    requires k < |a| && BelowAt(a, b, k, below)
    ensures SeqBelow(a + x, b + y, below)
  {
    assert (a + x)[..k] == a[..k] && (b + y)[..k] == b[..k];
    assert BelowAt(a + x, b + y, k, below);
  }

  function CharBelow(): (char, char) -> bool {
    (c: char, d: char) => c < d
  }

  /** Texts compare by the first character in which they differ. */
  lemma TextOrder(a: string, b: string)
    ensures CompareSeq(a, b, CompareChar) < 0 <==> SeqBelow(a, b, CharBelow())
  {
    CharsOrdered();
    ComparesFirstDifference(a, b, CompareChar, CharBelow());
  }

  lemma CharsOrdered()
    ensures TotalOrder(CompareChar)
  {
  }
}
