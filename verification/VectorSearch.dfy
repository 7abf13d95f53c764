/** Nearest neighbour search with exact re-ranking of oversampled candidates. The approximate index is
    a parameter that may return anything; what the program adds to it is proved. */
module VectorSearch {
  import opened Sorting
  import opened Cosine

  datatype Mode = Auto | Exact | Ann

  const EXACT_SEARCH_MAX_VECTORS := 128
  const ANN_OVERSAMPLE_FACTOR := 4
  const ANN_MIN_OVERSAMPLE := 8

  function Min(a: nat, b: nat): nat { if a < b then a else b }
  function Max(a: nat, b: nat): nat { if a < b then b else a }

  function EffectiveMode(mode: Mode, vectorCount: nat): (m: Mode)
    ensures m != Auto && (mode != Auto ==> m == mode)
  {
    if mode == Auto then (if vectorCount <= EXACT_SEARCH_MAX_VECTORS then Exact else Ann) else mode
  }

  /** How many candidates are asked for; the multiplication saturates at the largest machine word. */
  function Oversampled(limit: nat, count: nat, largest: nat): nat {
    Min(Max(Max(Min(limit * ANN_OVERSAMPLE_FACTOR, largest), limit), ANN_MIN_OVERSAMPLE), count)
  }

  // ---- Ranking ----

  predicate Below(a: Score, b: Score) {
    match (a, b)
    case (NegInfinity, NegInfinity) => false
    case (NegInfinity, Finite(_)) => true
    case (Finite(_), NegInfinity) => false
    case (Finite(x), Finite(y)) => x < y
  }

  /** Similarity descending, then index ascending. */
  predicate Ahead(i: nat, j: nat, score: nat -> Score) {
    Below(score(j), score(i)) || (score(i) == score(j) && i < j)
  }

  function Ranking(score: nat -> Score): (nat, nat) -> bool {
    (i: nat, j: nat) => i == j || Ahead(i, j, score)
  }

  function ScoreAgainst(query: seq<real>, vectors: seq<seq<real>>, root: real -> real): nat -> Score
    requires IsSquareRoot(root)
  {
    (i: nat) => if i < |vectors| then Similarity(query, vectors[i], root) else NegInfinity
  }

  function IndexBelow(count: nat): nat -> bool {
    (i: nat) => i < count
  }

  /** Candidates that exist, ranked. */
  function Ranked(candidates: seq<nat>, count: nat, score: nat -> Score): seq<nat> {
    Sort(Filter(candidates, IndexBelow(count)), Ranking(score))
  }

  /** The ranked candidates cut to the limit. */
  function NearestByExact(candidates: seq<nat>, count: nat, limit: nat, score: nat -> Score): seq<nat> {
    var ranked := Ranked(candidates, count, score);
    ranked[..Min(limit, |ranked|)]
  }

  function AllIndices(count: nat): (s: seq<nat>)
    ensures |s| == count && forall i :: 0 <= i < count ==> s[i] == i
  {
    seq(count, i => i)
  }

  /** `nearest_to_vector_internal`; `search(k)` is what the approximate index answers when it is asked
      for `k` candidates. */
  function Nearest(vectors: seq<seq<real>>, query: seq<real>, limit: nat, mode: Mode, search: nat -> seq<nat>,
                   root: real -> real, largest: nat): seq<nat>
    requires IsSquareRoot(root)
  {
    if limit == 0 || vectors == [] || query == [] || |vectors[0]| != |query| then []
    else
      var score := ScoreAgainst(query, vectors, root);
      match EffectiveMode(mode, |vectors|)
      case Exact => NearestByExact(AllIndices(|vectors|), |vectors|, limit, score)
      case _ => NearestByExact(search(Oversampled(limit, |vectors|, largest)), |vectors|, limit, score)
  }

  // ---- The top of a set ----

  /** `r` lists the best `limit` members of `pool`, best first. */
  predicate IsTop(r: seq<nat>, pool: set<nat>, limit: nat, score: nat -> Score) {
    && |r| == Min(limit, |pool|)
    && (forall i :: 0 <= i < |r| ==> r[i] in pool)
    && (forall i, j :: 0 <= i < j < |r| ==> Ahead(r[i], r[j], score))
    && (forall x, i :: x in pool && x !in r && 0 <= i < |r| ==> Ahead(r[i], x, score))
  }

  lemma AheadIsAnOrder(i: nat, j: nat, k: nat, score: nat -> Score)
    ensures !Ahead(i, i, score)
    ensures i != j ==> (Ahead(i, j, score) <==> !Ahead(j, i, score))
    ensures Ahead(i, j, score) && Ahead(j, k, score) ==> Ahead(i, k, score)
  {
  }

  lemma RankingIsAPreorder(score: nat -> Score)
    ensures TotalPreorder(Ranking(score))
  {
    var le := Ranking(score);
    forall i: nat, j: nat ensures le(i, j) || le(j, i) {
      AheadIsAnOrder(i, j, j, score);
    }
    forall i: nat, j: nat, k: nat | le(i, j) && le(j, k) ensures le(i, k) {
      AheadIsAnOrder(i, j, k, score);
    }
  }

  lemma TopAgrees(r: seq<nat>, s: seq<nat>, pool: set<nat>, limit: nat, score: nat -> Score, k: nat)
    requires IsTop(r, pool, limit, score) && IsTop(s, pool, limit, score)
    requires k < |r| && r[..k] == s[..k]
    ensures !Ahead(r[k], s[k], score)
  {
    forall j | 0 <= j < k ensures s[j] != r[k] {
      assert r[..k][j] == s[..k][j];
      AheadIsAnOrder(r[j], r[k], r[k], score);
    }
    AheadIsAnOrder(r[k], s[k], r[k], score);
    if r[k] in s {
      var j :| 0 <= j < |s| && s[j] == r[k];
      assert j >= k;
    }
  }

  /** There is only one such list. */
  lemma {:induction false} TopIsUnique(r: seq<nat>, s: seq<nat>, pool: set<nat>, limit: nat, score: nat -> Score)
    requires IsTop(r, pool, limit, score) && IsTop(s, pool, limit, score)
    ensures r == s
  {
    for k := 0 to |r|
      invariant r[..k] == s[..k]
    {
      TopAgrees(r, s, pool, limit, score, k);
      TopAgrees(s, r, pool, limit, score, k);
      AheadIsAnOrder(r[k], s[k], s[k], score);
      OneLonger(r, s, k);
    }
    assert r[..|r|] == r && s[..|s|] == s;
  }

  // ---- Ranking yields the top ----

  lemma {:induction false} FilterDistinct(s: seq<nat>, keep: nat -> bool)
    requires Distinct(s)
    ensures Distinct(Filter(s, keep))
  {
    if s != [] {
      FilterDistinct(s[1..], keep);
      FilterMembers(s[1..], keep);
    }
  }

  function Existing(candidates: seq<nat>, count: nat): set<nat> {
    set i | i in candidates && i < count
  }

  /** Exact re-ranking of distinct candidates lists the best of those that exist. */
  lemma RankedIsTop(candidates: seq<nat>, count: nat, limit: nat, score: nat -> Score)
    requires Distinct(candidates)
    ensures IsTop(NearestByExact(candidates, count, limit, score),
                  Existing(candidates, count), limit, score)
  {
    var valid := Filter(candidates, IndexBelow(count));
    var ranked := Ranked(candidates, count, score);
    FilterDistinct(candidates, IndexBelow(count));
    FilterMembers(candidates, IndexBelow(count));
    RankingIsAPreorder(score);
    SortSorts(valid, Ranking(score));
    RearrangedIsDistinct(valid, ranked);
    DistinctCounts(ranked, 0);
    CutIsTop(ranked, limit, score);
    assert Members(ranked) == Existing(candidates, count);
  }

  lemma CutIsTop(ranked: seq<nat>, limit: nat, score: nat -> Score)
    requires Distinct(ranked) && Sorted(ranked, Ranking(score)) && |Members(ranked)| == |ranked|
    ensures IsTop(ranked[..Min(limit, |ranked|)], Members(ranked), limit, score)
  {
    var r := ranked[..Min(limit, |ranked|)];
    assert forall i, j :: 0 <= i < j < |ranked| ==> Ahead(ranked[i], ranked[j], score) by {
      forall i, j | 0 <= i < j < |ranked| ensures Ahead(ranked[i], ranked[j], score) {
        assert Ranking(score)(ranked[i], ranked[j]);
      }
    }
    forall x, i | x in Members(ranked) && x !in r && 0 <= i < |r| ensures Ahead(r[i], x, score) {
      assert forall m :: 0 <= m < |r| ==> r[m] == ranked[m];
      var j :| 0 <= j < |ranked| && ranked[j] == x;
    }
  }

  function Everything(count: nat): set<nat> {
    Members(AllIndices(count))
  }

  /** Exact mode returns the unique list of the best `limit` vectors. */
  lemma ExactModeIsTop(vectors: seq<seq<real>>, query: seq<real>, limit: nat, search: nat -> seq<nat>,
                       root: real -> real, largest: nat, r: seq<nat>)
    requires IsSquareRoot(root) && limit > 0 && query != [] && vectors != [] && |vectors[0]| == |query|
    ensures var exact := Nearest(vectors, query, limit, Exact, search, root, largest);
            IsTop(r, Everything(|vectors|), limit, ScoreAgainst(query, vectors, root)) <==> r == exact
  {
    var all, score := AllIndices(|vectors|), ScoreAgainst(query, vectors, root);
    RankedIsTop(all, |vectors|, limit, score);
    assert Existing(all, |vectors|) == Everything(|vectors|);
    var exact := NearestByExact(all, |vectors|, limit, score);
    if IsTop(r, Everything(|vectors|), limit, score) {
      TopIsUnique(r, exact, Everything(|vectors|), limit, score);
    }
  }

  // ---- The approximate path ----

  /** The valid candidates, each as often as it came, in an order that only repetitions tie. */
  ghost predicate IsRankingOf(ranked: seq<nat>, candidates: seq<nat>, count: nat, score: nat -> Score) {
    && (forall i, j :: 0 <= i < j < |ranked| ==> ranked[i] == ranked[j] || Ahead(ranked[i], ranked[j], score))
    && (forall x :: x in ranked <==> x in candidates && x < count)
    && (forall x: nat :: x < count ==> multiset(ranked)[x] == multiset(candidates)[x])
  }

  lemma RankedIsRanking(candidates: seq<nat>, count: nat, score: nat -> Score)
    ensures IsRankingOf(Ranked(candidates, count, score), candidates, count, score)
  {
    var valid, ranked := Filter(candidates, IndexBelow(count)), Ranked(candidates, count, score);
    RankingIsAPreorder(score);
    SortSorts(valid, Ranking(score));
    SameMembers(valid, ranked);
    FilterMembers(candidates, IndexBelow(count));
    forall i, j | 0 <= i < j < |ranked| ensures ranked[i] == ranked[j] || Ahead(ranked[i], ranked[j], score) {
      assert Ranking(score)(ranked[i], ranked[j]);
    }
    forall x: nat | x < count ensures multiset(ranked)[x] == multiset(candidates)[x] {
      FilterCounts(candidates, IndexBelow(count), x);
    }
  }

  /** The candidates hold every member of `exact`, and repeat none but the last of a full list. */
  ghost predicate HoldsOnce(candidates: seq<nat>, exact: seq<nat>, limit: nat) {
    forall i :: 0 <= i < |exact| ==>
      multiset(candidates)[exact[i]] >= 1 && (i < limit - 1 ==> multiset(candidates)[exact[i]] == 1)
  }

  /** A member of the top that occurs at two places of the ranking is the last of a full list. */
  lemma NoRepetition(ranked: seq<nat>, candidates: seq<nat>, exact: seq<nat>, limit: nat, l: nat, i: nat, j: nat)
    requires HoldsOnce(candidates, exact, limit) && l < |exact| && i < j < |ranked|
    requires ranked[i] == ranked[j] == exact[l] && multiset(ranked)[exact[l]] == multiset(candidates)[exact[l]]
    ensures l >= limit - 1
  {
    TwoPlacesCount(ranked, i, j);
  }

  lemma NextOfTop(ranked: seq<nat>, candidates: seq<nat>, exact: seq<nat>, count: nat, limit: nat,
                  score: nat -> Score, k: nat)
    requires IsTop(exact, Everything(count), limit, score) && HoldsOnce(candidates, exact, limit)
    requires IsRankingOf(ranked, candidates, count, score)
    requires k < |exact| && k <= |ranked| && ranked[..k] == exact[..k]
    ensures k < |ranked| && ranked[k] == exact[k]
  {
    var x := exact[k];
    EverythingCounts(count);
    assert x in candidates && x in ranked;
    var j :| 0 <= j < |ranked| && ranked[j] == x;
    forall i | 0 <= i < k ensures ranked[i] != x {
      assert ranked[..k][i] == exact[..k][i];
      AheadIsAnOrder(exact[i], x, x, score);
    }
    var y := ranked[k];
    assert y in ranked;
    AheadIsAnOrder(x, y, x, score);
    if y in exact {
      var l :| 0 <= l < |exact| && exact[l] == y;
      if l < k {
        assert ranked[..k][l] == exact[..k][l];
        NoRepetition(ranked, candidates, exact, limit, l, l, k);
      }
    }
  }

  lemma OneLonger(r: seq<nat>, s: seq<nat>, k: nat)
    requires k < |r| && k < |s| && r[..k] == s[..k] && r[k] == s[k]
    ensures r[..k + 1] == s[..k + 1]
  {
    assert r[..k + 1] == r[..k] + [r[k]] && s[..k + 1] == s[..k] + [s[k]];
  }

  lemma {:induction false} RankingBeginsWithTop(ranked: seq<nat>, candidates: seq<nat>, exact: seq<nat>, count: nat,
                                                limit: nat, score: nat -> Score, k: nat)
    requires IsTop(exact, Everything(count), limit, score) && HoldsOnce(candidates, exact, limit)
    requires IsRankingOf(ranked, candidates, count, score) && k <= |exact|
    ensures k <= |ranked| && ranked[..k] == exact[..k]
    decreases k
  {
    if k > 0 {
      RankingBeginsWithTop(ranked, candidates, exact, count, limit, score, k - 1);
      NextOfTop(ranked, candidates, exact, count, limit, score, k - 1);
      OneLonger(ranked, exact, k - 1);
    }
  }

  /** If the top is shorter than the limit, nothing comes behind it. */
  lemma NothingBehind(ranked: seq<nat>, candidates: seq<nat>, exact: seq<nat>, count: nat, limit: nat, score: nat -> Score)
    requires IsTop(exact, Everything(count), limit, score) && HoldsOnce(candidates, exact, limit)
    requires IsRankingOf(ranked, candidates, count, score)
    requires |exact| <= |ranked| && ranked[..|exact|] == exact
    ensures |exact| == Min(limit, |ranked|)
  {
    if |exact| < limit && |exact| < |ranked| {
      var z := ranked[|exact|];
      assert z in ranked;
      AllInTop(exact, count, limit, score, z);
      var l :| 0 <= l < |exact| && exact[l] == z;
      assert ranked[..|exact|][l] == exact[l];
      NoRepetition(ranked, candidates, exact, limit, l, l, |exact|);
    }
  }

  lemma CandidatesGiveTop(candidates: seq<nat>, exact: seq<nat>, count: nat, limit: nat, score: nat -> Score)
    requires IsTop(exact, Everything(count), limit, score) && HoldsOnce(candidates, exact, limit)
    ensures NearestByExact(candidates, count, limit, score) == exact
  {
    var ranked := Ranked(candidates, count, score);
    RankedIsRanking(candidates, count, score);
    RankingBeginsWithTop(ranked, candidates, exact, count, limit, score, |exact|);
    assert exact[..|exact|] == exact;
    NothingBehind(ranked, candidates, exact, count, limit, score);
  }

  /** A list shorter than the limit holds every index. */
  lemma AllInTop(exact: seq<nat>, count: nat, limit: nat, score: nat -> Score, z: nat)
    requires IsTop(exact, Everything(count), limit, score) && |exact| < limit && z < count
    ensures z in exact
  {
    EverythingCounts(count);
    TopIsDistinct(exact, Everything(count), limit, score);
    DistinctCounts(exact, 0);
    SubsetEqual(Members(exact), Everything(count));
    assert z in Members(exact);
  }

  lemma TopIsDistinct(r: seq<nat>, pool: set<nat>, limit: nat, score: nat -> Score)
    requires IsTop(r, pool, limit, score)
    ensures Distinct(r)
  {
    forall i, j | 0 <= i < j < |r| ensures r[i] != r[j] {
      AheadIsAnOrder(r[i], r[j], r[j], score);
    }
  }

  lemma {:induction false} SubsetEqual(small: set<nat>, big: set<nat>)
    requires small <= big && |small| == |big|
    ensures small == big
  {
    if small != {} {
      var x :| x in small;
      SubsetEqual(small - {x}, big - {x});
    }
  }

  lemma TopComesFromCandidates(ranked: seq<nat>, candidates: seq<nat>, exact: seq<nat>, count: nat, limit: nat,
                               score: nat -> Score)
    requires IsTop(exact, Everything(count), limit, score)
    requires IsRankingOf(ranked, candidates, count, score) && ranked[..Min(limit, |ranked|)] == exact
    ensures HoldsOnce(candidates, exact, limit)
  {
    TopIsDistinct(exact, Everything(count), limit, score);
    forall i | 0 <= i < |exact|
      ensures multiset(candidates)[exact[i]] >= 1 && (i < limit - 1 ==> multiset(candidates)[exact[i]] == 1)
    {
      var x := exact[i];
      assert x == ranked[i] && x in ranked && x in multiset(candidates);
      if i < limit - 1 && multiset(ranked)[x] >= 2 {
        var p, q := CountedTwice(ranked, x);
        SecondPlace(ranked, exact, limit, score, i, if p == i then q else p);
      }
    }
  }

  /** No second place of the ranking holds an earlier member of its own beginning. */
  lemma SecondPlace(ranked: seq<nat>, exact: seq<nat>, limit: nat, score: nat -> Score, i: nat, q: nat)
    requires forall i, j :: 0 <= i < j < |ranked| ==> ranked[i] == ranked[j] || Ahead(ranked[i], ranked[j], score)
    requires exact == ranked[..Min(limit, |ranked|)] && Distinct(exact)
    requires i < |exact| && i < limit - 1 && q < |ranked| && q != i
    ensures ranked[q] != ranked[i]
  {
    if q < |exact| {
      assert exact[q] == ranked[q] && exact[i] == ranked[i];
    } else {
      var last := |exact| - 1;
      assert exact[last] == ranked[last] && exact[i] == ranked[i] && i < last < q;
      AheadIsAnOrder(ranked[i], ranked[last], ranked[i], score);
    }
  }

  /** The approximate path returns exactly the exhaustive list, whatever the index answers, if and only
      if the answer holds that list and repeats none of its members, save the last of a full list. */
  lemma ApproximateEqualsExactIff(vectors: seq<seq<real>>, query: seq<real>, limit: nat, search: nat -> seq<nat>,
                                  root: real -> real, largest: nat)
    requires IsSquareRoot(root) && limit > 0 && query != [] && vectors != [] && |vectors[0]| == |query|
    ensures var exact := Nearest(vectors, query, limit, Exact, search, root, largest);
            Nearest(vectors, query, limit, Ann, search, root, largest) == exact
            <==> HoldsOnce(search(Oversampled(limit, |vectors|, largest)), exact, limit)
  {
    var candidates := search(Oversampled(limit, |vectors|, largest));
    var score := ScoreAgainst(query, vectors, root);
    var exact := Nearest(vectors, query, limit, Exact, search, root, largest);
    ExactModeIsTop(vectors, query, limit, search, root, largest, exact);
    if HoldsOnce(candidates, exact, limit) {
      CandidatesGiveTop(candidates, exact, |vectors|, limit, score);
    }
    if NearestByExact(candidates, |vectors|, limit, score) == exact {
      RankedIsRanking(candidates, |vectors|, score);
      TopComesFromCandidates(Ranked(candidates, |vectors|, score), candidates, exact, |vectors|, limit, score);
    }
  }

  /** Four times the limit is asked for, but at least eight, and at most what the machine word and the
      number of vectors allow. */
  lemma AsksForFourTimes(limit: nat, count: nat, largest: nat)
    requires limit <= largest && 8 <= largest
    ensures Oversampled(limit, count, largest) ==
            if count <= 8 || count <= limit then count
            else if limit <= 2 then 8
            else if 4 * limit <= largest && 4 * limit <= count then 4 * limit
            else if count <= largest then count
            else largest
  {
  }

  /** Asked for enough, despite saturation and clamping. */
  lemma OversamplingSuffices(limit: nat, count: nat, largest: nat)
    requires limit <= largest
    ensures Min(limit, count) <= Oversampled(limit, count, largest) <= count
  {
  }

  /** If the index returns as many distinct existing candidates as it is asked for, the result has as
      many entries as the limit and the number of vectors allow. */
  lemma ResultIsComplete(vectors: seq<seq<real>>, query: seq<real>, limit: nat, mode: Mode,
                         search: nat -> seq<nat>, root: real -> real, largest: nat)
    requires IsSquareRoot(root) && limit <= largest && query != [] && vectors != [] && |vectors[0]| == |query|
    requires var asked := Oversampled(limit, |vectors|, largest);
             Distinct(search(asked)) && |search(asked)| == asked && forall i :: i in search(asked) ==> i < |vectors|
    ensures |Nearest(vectors, query, limit, mode, search, root, largest)| == Min(limit, |vectors|)
  {
    if limit > 0 {
      var score := ScoreAgainst(query, vectors, root);
      var asked := Oversampled(limit, |vectors|, largest);
      var candidates := search(asked);
      OversamplingSuffices(limit, |vectors|, largest);
      RankedIsTop(candidates, |vectors|, limit, score);
      DistinctCounts(candidates, 0);
      assert Existing(candidates, |vectors|) == Members(candidates);
      ExactModeIsTop(vectors, query, limit, search, root, largest,
                     Nearest(vectors, query, limit, Exact, search, root, largest));
      EverythingCounts(|vectors|);
    }
  }

  /** In automatic mode up to 128 vectors are searched exactly, and more through the index. */
  lemma AutomaticMode(vectors: seq<seq<real>>, query: seq<real>, limit: nat, search: nat -> seq<nat>,
                      root: real -> real, largest: nat)
    requires IsSquareRoot(root)
    ensures Nearest(vectors, query, limit, Auto, search, root, largest) ==
            Nearest(vectors, query, limit, if |vectors| <= 128 then Exact else Ann, search, root, largest)
  {
  }

  /** Nothing is found exactly when nothing is asked for, the query has another dimension than the
      vectors or none, or the index answers with no vector that exists. */
  lemma NothingFoundIff(vectors: seq<seq<real>>, query: seq<real>, limit: nat, mode: Mode, search: nat -> seq<nat>,
                        root: real -> real, largest: nat)
    requires IsSquareRoot(root)
    ensures Nearest(vectors, query, limit, mode, search, root, largest) == [] <==>
            || limit == 0 || vectors == [] || query == [] || |vectors[0]| != |query|
            || ((mode == Ann || (mode == Auto && |vectors| > 128))
                && forall i :: i in search(Oversampled(limit, |vectors|, largest)) ==> i >= |vectors|)
  {
    if limit > 0 && vectors != [] && query != [] && |vectors[0]| == |query| {
      var n, score := |vectors|, ScoreAgainst(query, vectors, root);
      var candidates := if mode == Ann || (mode == Auto && n > 128) then search(Oversampled(limit, n, largest)) else AllIndices(n);
      RankedIsRanking(candidates, n, score);
      var ranked := Ranked(candidates, n, score);
      assert mode == Exact || n <= 128 ==> AllIndices(n)[0] == 0;
      if ranked != [] {
        assert ranked[0] in ranked;
      }
    }
  }

  lemma EverythingCounts(count: nat)
    ensures |Everything(count)| == count
    ensures forall i :: i in Everything(count) <==> 0 <= i < count
  {
    var all := AllIndices(count);
    DistinctCounts(all, 0);
    forall i | 0 <= i < count ensures i in Everything(count) {
      assert all[i] == i;
    }
  }

  /** `nearest`: a stored vector as the query, in automatic mode. */
  function NearestToStored(vectors: seq<seq<real>>, k: nat, limit: nat, search: nat -> seq<nat>,
                           root: real -> real, largest: nat): (r: seq<nat>)
    requires IsSquareRoot(root)
    ensures k >= |vectors| ==> r == []
  {
    if k >= |vectors| then [] else Nearest(vectors, vectors[k], limit, Auto, search, root, largest)
  }

  /** A candidate that exists is never ahead of the first of the result. */
  lemma FirstIsBest(candidates: seq<nat>, count: nat, limit: nat, score: nat -> Score, k: nat)
    requires limit > 0 && k in candidates && k < count
    ensures var r := NearestByExact(candidates, count, limit, score);
            r != [] && r[0] in candidates && r[0] < count && (r[0] == k || Ahead(r[0], k, score))
  {
    RankedIsRanking(candidates, count, score);
    var ranked := Ranked(candidates, count, score);
    assert k in ranked;
    var j :| 0 <= j < |ranked| && ranked[j] == k;
    assert ranked[0] in ranked;
  }

  /** A stored vector whose norm sum is above the threshold finds itself, or an earlier vector with the
      same score of 1, in front: among up to 128 vectors always, and among more whenever it is one of
      the candidates. */
  lemma StoredVectorIsFoundFirst(vectors: seq<seq<real>>, k: nat, limit: nat, search: nat -> seq<nat>,
                                 root: real -> real, largest: nat)
    requires IsSquareRoot(root) && limit > 0 && k < |vectors| && vectors[k] != [] && |vectors[0]| == |vectors[k]|
    requires 8388608.0 * Dot(vectors[k], vectors[k]) > 1.0
    requires |vectors| <= 128 || k in search(Oversampled(limit, |vectors|, largest))
    ensures var r := NearestToStored(vectors, k, limit, search, root, largest);
            && r != [] && r[0] <= k && Similarity(vectors[k], vectors[r[0]], root) == Finite(1.0)
  {
    var n, score := |vectors|, ScoreAgainst(vectors[k], vectors, root);
    var r := NearestToStored(vectors, k, limit, search, root, largest);
    var all := AllIndices(n);
    assert all[k] == k;
    FirstIsBest(if n <= 128 then all else search(Oversampled(limit, n, largest)), n, limit, score, k);
    SelfSimilarity(vectors[k], vectors[k], root);
    SimilarityIsBounded(vectors[k], vectors[r[0]], root);
  }
}
