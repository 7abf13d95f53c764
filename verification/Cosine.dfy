/** Cosine similarity over the reals. The square root is a parameter of which only its defining
    property is used; minus infinity is a score of its own. */
module Cosine {
  import opened Options

  datatype Score = NegInfinity | Finite(value: real)

  /** The single precision epsilon, 2 to the power -23. */
  const EPSILON := 1.0 / 8388608.0

  ghost predicate IsSquareRoot(root: real -> real) {
    forall x: real :: x >= 0.0 ==> root(x) >= 0.0 && root(x) * root(x) == x
  }

  /** The sum of the products of corresponding elements. */
  function Dot(a: seq<real>, b: seq<real>): real
    requires |a| == |b|
  {
    if a == [] then 0.0 else Dot(a[..|a| - 1], b[..|b| - 1]) + a[|a| - 1] * b[|b| - 1]
  }

  function Similarity(left: seq<real>, right: seq<real>, root: real -> real): Score
    requires IsSquareRoot(root)
  {
    if left == [] || |left| != |right| then NegInfinity
    else Normalize(Dot(left, right), Dot(left, left), Dot(right, right), root)
  }

  /** The dot product over the product of the norms, unless a norm is too small. */
  function Normalize(dot: real, leftNorm: real, rightNorm: real, root: real -> real): Score
    requires IsSquareRoot(root)
  {
    if leftNorm <= EPSILON || rightNorm <= EPSILON then NegInfinity
    else
      ScaleIsPositive(leftNorm, rightNorm, root);
      Finite(dot / (root(leftNorm) * root(rightNorm)))
  }

  method CosineSimilarity(left: seq<real>, right: seq<real>, root: real -> real) returns (r: Score)
    requires IsSquareRoot(root)
    ensures r == Similarity(left, right, root)
  {
    if left == [] || |left| != |right| {
      return NegInfinity;
    }
    var dot, leftNorm, rightNorm := 0.0, 0.0, 0.0;
    for i := 0 to |left|
      invariant dot == Dot(left[..i], right[..i])
      invariant leftNorm == Dot(left[..i], left[..i])
      invariant rightNorm == Dot(right[..i], right[..i])
    {
      DotStep(left, right, i);
      DotStep(left, left, i);
      DotStep(right, right, i);
      dot := dot + left[i] * right[i];
      leftNorm := leftNorm + left[i] * left[i];
      rightNorm := rightNorm + right[i] * right[i];
    }
    assert left[..|left|] == left && right[..|left|] == right;
    return Normalize(dot, leftNorm, rightNorm, root);
  }

  lemma DotStep(a: seq<real>, b: seq<real>, i: nat)
    requires i < |a| == |b|
    ensures Dot(a[..i + 1], b[..i + 1]) == Dot(a[..i], b[..i]) + a[i] * b[i]
  {
    assert a[..i + 1][..i] == a[..i] && b[..i + 1][..i] == b[..i];
  }

  lemma ScaleIsPositive(x: real, y: real, root: real -> real)
    requires IsSquareRoot(root) && x > 0.0 && y > 0.0
    ensures root(x) > 0.0 && root(y) > 0.0 && root(x) * root(y) > 0.0
    ensures (root(x) * root(y)) * (root(x) * root(y)) == x * y
  {
    var p, q := root(x), root(y);
    assert p * p == x && q * q == y;
    assert p > 0.0 && q > 0.0;
    assert (p * q) * (p * q) == (p * p) * (q * q);
  }

  // ---- Cauchy-Schwarz ----

  lemma {:induction false} NormIsNonNegative(a: seq<real>)
    ensures Dot(a, a) >= 0.0
  {
    if a != [] {
      NormIsNonNegative(a[..|a| - 1]);
    }
  }

  /** The square of a difference is not negative. */
  lemma TwiceTheProduct(u: real, v: real)
    ensures 4.0 * (u * v) <= (u + v) * (u + v)
  {
    assert (u + v) * (u + v) - 4.0 * (u * v) == (u - v) * (u - v);
  }

  lemma SquaresOrder(x: real, y: real)
    requires y >= 0.0 && x * x <= y * y
    ensures -y <= x <= y
  {
    SquaresOrderAbove(x, y);
    assert (-x) * (-x) == x * x;
    SquaresOrderAbove(-x, y);
  }

  lemma SquaresOrderAbove(x: real, y: real)
    requires y >= 0.0 && x * x <= y * y
    ensures x <= y
  {
    assert (x - y) * (x + y) == x * x - y * y;
    if x > y {
      PositiveProduct(x - y, x + y);
    }
  }

  lemma PositiveProduct(p: real, q: real)
    requires p > 0.0 && q > 0.0
    ensures p * q > 0.0
  {
  }

  /** The loop's dot product squared never exceeds the product of its two norms. */
  lemma {:induction false} CauchySchwarz(a: seq<real>, b: seq<real>)
    requires |a| == |b|
    ensures Dot(a, b) * Dot(a, b) <= Dot(a, a) * Dot(b, b)
  {
    if a != [] {
      var n := |a| - 1;
      CauchySchwarz(a[..n], b[..n]);
      NormIsNonNegative(a[..n]);
      NormIsNonNegative(b[..n]);
      OneMoreTerm(Dot(a[..n], b[..n]), Dot(a[..n], a[..n]), Dot(b[..n], b[..n]), a[n], b[n]);
    }
  }

  lemma OneMoreTerm(d: real, l: real, r: real, x: real, y: real)
    requires d * d <= l * r && l >= 0.0 && r >= 0.0
    ensures (d + x * y) * (d + x * y) <= (l + x * x) * (r + y * y)
  {
    var u, v, w := l * (y * y), r * (x * x), d * (x * y);
    CrossTerm(d, l, r, x, y);
    CrossBound(u, v, w);
    Expand(d, l, r, x, y);
  }

  lemma CrossBound(u: real, v: real, w: real)
    requires u >= 0.0 && v >= 0.0 && w * w <= u * v
    ensures 2.0 * w <= u + v
  {
    TwiceTheProduct(u, v);
    assert (2.0 * w) * (2.0 * w) == 4.0 * (w * w);
    SquaresOrder(2.0 * w, u + v);
  }

  lemma Expand(d: real, l: real, r: real, x: real, y: real)
    ensures (d + x * y) * (d + x * y) == d * d + 2.0 * (d * (x * y)) + (x * x) * (y * y)
    ensures (l + x * x) * (r + y * y) == l * r + l * (y * y) + r * (x * x) + (x * x) * (y * y)
  {
    assert (x * y) * (x * y) == (x * x) * (y * y);
  }

  lemma CrossTerm(d: real, l: real, r: real, x: real, y: real)
    requires d * d <= l * r && l >= 0.0 && r >= 0.0
    ensures var u, v, w := l * (y * y), r * (x * x), d * (x * y);
            u >= 0.0 && v >= 0.0 && w * w <= u * v
  {
    var k := (x * y) * (x * y);
    assert k >= 0.0;
    assert (x * x) >= 0.0 && (y * y) >= 0.0;
    var u, v, w := l * (y * y), r * (x * x), d * (x * y);
    assert w * w == (d * d) * k;
    assert u * v == (l * r) * k;
    assert (l * r - d * d) * k >= 0.0;
  }

  // ---- What it means for the similarity ----

  lemma QuotientBound(x: real, y: real)
    requires y > 0.0 && -y <= x <= y
    ensures -1.0 <= x / y <= 1.0
  {
    var q := x / y;
    assert q * y == x;
  }

  /** A finite similarity lies between -1 and 1. */
  lemma SimilarityIsBounded(a: seq<real>, b: seq<real>, root: real -> real)
    requires IsSquareRoot(root)
    ensures Similarity(a, b, root).Finite? ==> -1.0 <= Similarity(a, b, root).value <= 1.0
  {
    if Similarity(a, b, root).Finite? {
      var scale := root(Dot(a, a)) * root(Dot(b, b));
      ScaleIsPositive(Dot(a, a), Dot(b, b), root);
      CauchySchwarz(a, b);
      SquaresOrder(Dot(a, b), scale);
      QuotientBound(Dot(a, b), scale);
    }
  }

  lemma SelfQuotient(x: real)
    requires x > 0.0
    ensures x / x == 1.0
  {
    var q := x / x;
    assert (q - 1.0) * x == 0.0;
  }

  /** A vector whose norm sum is above 2 to the power -23 scores 1 against itself, which is the maximum;
      any other scores minus infinity against everything. */
  lemma SelfSimilarity(a: seq<real>, b: seq<real>, root: real -> real)
    requires IsSquareRoot(root)
    ensures 8388608.0 * Dot(a, a) > 1.0 ==> Similarity(a, a, root) == Finite(1.0)
    ensures 8388608.0 * Dot(a, a) <= 1.0 ==> Similarity(a, b, root) == NegInfinity && Similarity(b, a, root) == NegInfinity
  {
    if Dot(a, a) > EPSILON {
      assert root(Dot(a, a)) * root(Dot(a, a)) == Dot(a, a);
      SelfQuotient(Dot(a, a));
    }
  }

  /** Vectors have a finite similarity exactly when they are equally long and both above the threshold;
      times the two norms it is their dot product. */
  lemma SimilarityIsTheCosine(a: seq<real>, b: seq<real>, root: real -> real)
    requires IsSquareRoot(root)
    ensures Similarity(a, b, root).Finite? <==>
            |a| == |b| && 8388608.0 * Dot(a, a) > 1.0 && 8388608.0 * Dot(b, b) > 1.0
    ensures Similarity(a, b, root).Finite? ==>
              Similarity(a, b, root).value * (root(Dot(a, a)) * root(Dot(b, b))) == Dot(a, b)
  {
    if Similarity(a, b, root).Finite? {
      ScaleIsPositive(Dot(a, a), Dot(b, b), root);
    }
  }

  /** Vectors that point opposite ways score -1. */
  lemma OppositesScoreMinusOne(a: seq<real>, b: seq<real>, root: real -> real)
    requires IsSquareRoot(root) && 8388608.0 * Dot(a, a) > 1.0
    requires |b| == |a| && forall i :: 0 <= i < |a| ==> b[i] == -a[i]
    ensures Similarity(a, b, root) == Finite(-1.0)
  {
    DotOfOpposites(a, b);
    var n := root(Dot(a, a));
    assert n * n == Dot(a, a);
    SelfQuotient(Dot(a, a));
    NegatedQuotient(Dot(a, a));
  }

  lemma NegatedQuotient(x: real)
    requires x > 0.0
    ensures (-x) / x == -1.0
  {
    var q := (-x) / x;
    assert (q + 1.0) * x == 0.0;
  }

  lemma {:induction false} DotOfOpposites(a: seq<real>, b: seq<real>)
    requires |b| == |a| && forall i :: 0 <= i < |a| ==> b[i] == -a[i]
    ensures Dot(a, b) == -Dot(a, a) && Dot(b, b) == Dot(a, a)
  {
    if a != [] {
      DotOfOpposites(a[..|a| - 1], b[..|b| - 1]);
    }
  }

  lemma {:induction false} DotIsSymmetric(a: seq<real>, b: seq<real>)
    requires |a| == |b|
    ensures Dot(a, b) == Dot(b, a)
  {
    if a != [] {
      DotIsSymmetric(a[..|a| - 1], b[..|b| - 1]);
    }
  }

  lemma SimilarityIsSymmetric(a: seq<real>, b: seq<real>, root: real -> real)
    requires IsSquareRoot(root)
    ensures Similarity(a, b, root) == Similarity(b, a, root)
  {
    if |a| == |b| {
      DotIsSymmetric(a, b);
    }
  }

  function Clamp(x: real, low: real, high: real): real {
    if x < low then low else if x > high then high else x
  }

  function NormalizedSimilarity(a: seq<real>, b: seq<real>, root: real -> real): Option<real>
    requires IsSquareRoot(root)
  {
    match Similarity(a, b, root)
    case NegInfinity => None
    case Finite(s) => Some(Clamp((s + 1.0) / 2.0, 0.0, 1.0))
  }

  /** The clamp of the normalised form never changes an exact value. */
  lemma ClampIsIdle(a: seq<real>, b: seq<real>, root: real -> real)
    requires IsSquareRoot(root) && Similarity(a, b, root).Finite?
    ensures NormalizedSimilarity(a, b, root) == Some((Similarity(a, b, root).value + 1.0) / 2.0)
  {
    SimilarityIsBounded(a, b, root);
  }
}
