/** `se_topk_execute` of se_topk.c and the result loop of `topk_body` in static_embeddings.c.

    A row's score is a function of the query and the row; it is given here. Scores are compared as
    IEEE floats: a comparison with NaN is false.
  */
module TopK {

  datatype Score = NaN | NegInf | Finite(v: real) | PosInf

  /** a > b */
  predicate Greater(a: Score, b: Score) {
    match (a, b)
    case (NaN, _) => false
    case (_, NaN) => false
    case (NegInf, _) => false
    case (_, PosInf) => false
    case (PosInf, _) => true
    case (_, NegInf) => true
    case (Finite(x), Finite(y)) => x > y
  }

  /** A row can be returned unless its score is NaN or minus infinity. */
  predicate Eligible(s: Score) { s != NaN && s != NegInf }

  // ----- the ranking -----

  ghost predicate Rows(scores: seq<Score>, ranking: seq<nat>) {
    forall i | 0 <= i < |ranking| :: ranking[i] < |scores| && Eligible(scores[ranking[i]])
  }

  /** Row a is returned before row b: higher score first, then lower index. */
  predicate Before(scores: seq<Score>, a: nat, b: nat)
    requires a < |scores| && b < |scores|
  {
    Greater(scores[a], scores[b]) || (!Greater(scores[b], scores[a]) && a < b)
  }

  /** The eligible rows, each once, in the order they are returned. */
  ghost predicate IsRanking(scores: seq<Score>, ranking: seq<nat>) {
    && Rows(scores, ranking)
    && (forall i, j | 0 <= i < j < |ranking| :: Before(scores, ranking[i], ranking[j]))
    && (forall r: nat | r < |scores| && Eligible(scores[r]) :: r in ranking)
  }

  lemma BeforeIsTotal(scores: seq<Score>, a: nat, b: nat, c: nat)
    requires a < |scores| && b < |scores| && c < |scores|
    requires Eligible(scores[a]) && Eligible(scores[b]) && Eligible(scores[c])
    ensures a == b || (Before(scores, a, b) <==> !Before(scores, b, a))
    ensures Before(scores, a, b) && Before(scores, b, c) ==> Before(scores, a, c)
    ensures !Before(scores, a, a)
  {
  }

  /** There is only one ranking. */
  lemma {:induction false} OneRanking(scores: seq<Score>, a: seq<nat>, b: seq<nat>)
    requires Rows(scores, a) && Rows(scores, b)
    requires forall i, j | 0 <= i < j < |a| :: Before(scores, a[i], a[j])
    requires forall i, j | 0 <= i < j < |b| :: Before(scores, b[i], b[j])
    requires forall r | r in a :: r in b
    requires forall r | r in b :: r in a
    ensures a == b
    decreases |a|
  {
    FirstIsMember(a);
    FirstIsMember(b);
    if a != [] && b != [] {
      assert a[0] == b[0] by {
        var i :| 0 <= i < |b| && b[i] == a[0];
        var j :| 0 <= j < |a| && a[j] == b[0];
        BeforeIsTotal(scores, a[0], b[0], a[0]);
      }
      forall r | r in a[1..] ensures r in b[1..] { InRest(scores, a, b, r); }
      forall r | r in b[1..] ensures r in a[1..] { InRest(scores, b, a, r); }
      OneRanking(scores, a[1..], b[1..]);
      assert a == [a[0]] + a[1..] && b == [b[0]] + b[1..];
    }
  }

  lemma FirstIsMember(s: seq<nat>)
    ensures s != [] ==> s[0] in s
  {
  }

  lemma InRest(scores: seq<Score>, a: seq<nat>, b: seq<nat>, r: nat)
    requires Rows(scores, a) && a != [] && b != [] && a[0] == b[0] && r in a[1..] && r in b
    requires forall i, j | 0 <= i < j < |a| :: Before(scores, a[i], a[j])
    ensures r in b[1..]
  {
    var i :| 0 <= i < |a| - 1 && a[1..][i] == r;
    assert a[i + 1] == r;
    BeforeIsTotal(scores, a[0], r, r);
    var j :| 0 <= j < |b| && b[j] == r;
    assert b[1..][j - 1] == r;
  }

  // ----- insertion -----

  /** Row r goes in front of the rows with a smaller score. */
  ghost function Place(scores: seq<Score>, l: seq<nat>, r: nat): (p: seq<nat>)
    requires r < |scores| && Eligible(scores[r]) && Rows(scores, l)
    ensures |p| == |l| + 1 && Rows(scores, p)
  {
    if l == [] then [r]
    else if Greater(scores[r], scores[l[|l| - 1]]) then Place(scores, l[..|l| - 1], r) + [l[|l| - 1]]
    else l + [r]
  }

  lemma {:induction false} PlaceHolds(scores: seq<Score>, l: seq<nat>, r: nat, x: nat)
    requires r < |scores| && Eligible(scores[r]) && Rows(scores, l)
    ensures x in Place(scores, l, r) <==> x in l || x == r
  {
    if l != [] {
      var last := |l| - 1;
      assert l == l[..last] + [l[last]];
      PlaceHolds(scores, l[..last], r, x);
    }
  }

  /** Where row r goes. */
  lemma {:induction false} PlaceAt(scores: seq<Score>, l: seq<nat>, r: nat, p: nat)
    requires r < |scores| && Eligible(scores[r]) && Rows(scores, l) && p <= |l|
    requires p > 0 ==> !Greater(scores[r], scores[l[p - 1]])
    requires forall i | p <= i < |l| :: Greater(scores[r], scores[l[i]])
    ensures Place(scores, l, r) == l[..p] + [r] + l[p..]
  {
    if p == |l| {
      assert l[..p] == l && l[p..] == [];
    } else {
      var last := |l| - 1;
      PlaceAt(scores, l[..last], r, p);
      assert l[..last][..p] == l[..p];
      assert l[..last][p..] + [l[last]] == l[p..];
      assert l[..p] + [r] + l[..last][p..] + [l[last]] == l[..p] + [r] + (l[..last][p..] + [l[last]]);
    }
  }

  lemma {:induction false} PlaceBehind(scores: seq<Score>, l: seq<nat>, r: nat, k: nat)
    requires r < |scores| && Eligible(scores[r]) && Rows(scores, l) && 0 < k <= |l|
        && !Greater(scores[r], scores[l[k - 1]])
    ensures Place(scores, l, r)[..k] == l[..k]
  {
    if k < |l| && Greater(scores[r], scores[l[|l| - 1]]) {
      PlaceBehind(scores, l[..|l| - 1], r, k);
      assert l[..|l| - 1][..k] == l[..k];
    }
  }

  /** The ranking of the first n rows. */
  ghost function Ranking(scores: seq<Score>, n: nat): (l: seq<nat>)
    requires n <= |scores|
    ensures Rows(scores, l)
  {
    if n == 0 then []
    else
      var l := Ranking(scores, n - 1);
      if Eligible(scores[n - 1]) then Place(scores, l, n - 1) else l
  }

  lemma {:induction false} SplitPoint(scores: seq<Score>, l: seq<nat>, r: nat) returns (p: nat)
    requires r < |scores| && Eligible(scores[r]) && Rows(scores, l)
    ensures p <= |l| && (p > 0 ==> !Greater(scores[r], scores[l[p - 1]]))
    ensures forall i | p <= i < |l| :: Greater(scores[r], scores[l[i]])
  {
    if l == [] || !Greater(scores[r], scores[l[|l| - 1]]) {
      p := |l|;
    } else {
      p := SplitPoint(scores, l[..|l| - 1], r);
    }
  }

  /** Inserting the rows one by one sorts them: `Ranking` is the ranking of the rows seen. */
  lemma {:induction false} RankingSorts(scores: seq<Score>, n: nat)
    requires n <= |scores|
    ensures forall i, j | 0 <= i < j < |Ranking(scores, n)| ::
        Before(scores, Ranking(scores, n)[i], Ranking(scores, n)[j])
    ensures forall r: nat :: r in Ranking(scores, n) <==> r < n && Eligible(scores[r])
  {
    if n > 0 {
      var r := n - 1;
      var l := Ranking(scores, r);
      RankingSorts(scores, r);
      if Eligible(scores[r]) {
        forall x: nat ensures x in Place(scores, l, r) <==> x in l || x == r { PlaceHolds(scores, l, r, x); }
        var p := SplitPoint(scores, l, r);
        PlaceAt(scores, l, r, p);
        PlaceSorts(scores, l, r, p);
      }
    }
  }

  lemma PlaceSorts(scores: seq<Score>, l: seq<nat>, r: nat, p: nat)
    requires r < |scores| && Eligible(scores[r]) && Rows(scores, l) && p <= |l|
    requires forall i, j | 0 <= i < j < |l| :: Before(scores, l[i], l[j])
    requires forall x | x in l :: x < r
    requires p > 0 ==> !Greater(scores[r], scores[l[p - 1]])
    requires forall i | p <= i < |l| :: Greater(scores[r], scores[l[i]])
    ensures var out := l[..p] + [r] + l[p..];
            Rows(scores, out) && forall i, j | 0 <= i < j < |out| :: Before(scores, out[i], out[j])
  {
    var out := l[..p] + [r] + l[p..];
    hide Greater;
    forall i | 0 <= i < p ensures Before(scores, l[i], r) {
      assert l[p - 1] in l;
      assert Before(scores, l[p - 1], r);
      if i < p - 1 { BeforeIsTotal(scores, l[i], l[p - 1], r); }
    }
    forall i, j | 0 <= i < j < |out| ensures Before(scores, out[i], out[j]) {
      if j < p { assert Before(scores, l[i], l[j]); }
      else if i > p { assert Before(scores, l[i - 1], l[j - 1]); }
      else if i < p && j > p { assert Before(scores, l[i], l[j - 1]); }
    }
  }

  /** Sort and take: the ranking of all rows is the one `Ranking` builds. */
  lemma RankingIsUnique(scores: seq<Score>, ranking: seq<nat>)
    ensures IsRanking(scores, ranking) <==> ranking == Ranking(scores, |scores|)
  {
    RankingSorts(scores, |scores|);
    var built := Ranking(scores, |scores|);
    if IsRanking(scores, ranking) { OneRanking(scores, ranking, built); }
  }

  // ----- the scan -----

  /** The buffers hold the first k rows of the ranking; the rest is still minus infinity. */
  ghost predicate HoldBest(scores: seq<Score>, l: seq<nat>, bestScore: seq<Score>, bestIdx: seq<nat>)
    requires Rows(scores, l)
  {
    && |bestScore| == |bestIdx|
    && (forall i | 0 <= i < |bestIdx| && i < |l| :: bestIdx[i] == l[i] && bestScore[i] == scores[l[i]])
    && (forall i | |l| <= i < |bestScore| :: bestScore[i] == NegInf)
  }

  lemma Skipped(scores: seq<Score>, r: nat, bestScore: seq<Score>, bestIdx: seq<nat>)
    requires r < |scores| && 0 < |bestScore| && HoldBest(scores, Ranking(scores, r), bestScore, bestIdx)
    requires !Greater(scores[r], bestScore[|bestScore| - 1])
    ensures HoldBest(scores, Ranking(scores, r + 1), bestScore, bestIdx)
  {
    var l, k := Ranking(scores, r), |bestScore|;
    if Eligible(scores[r]) {
      assert k <= |l| && bestScore[k - 1] == scores[l[k - 1]];
      PlaceBehind(scores, l, r, k);
      assert forall i | 0 <= i < k :: l[i] == l[..k][i] == Place(scores, l, r)[i];
    }
  }

  lemma RankingStep(scores: seq<Score>, r: nat)
    requires r < |scores| && Eligible(scores[r])
    ensures Ranking(scores, r + 1) == Place(scores, Ranking(scores, r), r)
  {
  }

  /** `after` is `before` with v at p, the entries from p on moved down by one and the last one gone. */
  ghost predicate ShiftedIn<T(!new)>(before: seq<T>, p: nat, v: T, after: seq<T>) {
    && p < |before| == |after| && after[p] == v
    && (forall i | 0 <= i < p :: after[i] == before[i])
    && (forall i | p < i < |after| :: after[i] == before[i - 1])
  }

  lemma InsertionPoint(scores: seq<Score>, r: nat, bestScore: seq<Score>, bestIdx: seq<nat>, p: nat)
    requires r < |scores| && p < |bestScore| && HoldBest(scores, Ranking(scores, r), bestScore, bestIdx)
    requires forall i | p <= i < |bestScore| :: Greater(scores[r], bestScore[i])
    requires p > 0 ==> !Greater(scores[r], bestScore[p - 1])
    ensures Eligible(scores[r]) && p <= |Ranking(scores, r)|
    ensures var l := Ranking(scores, r); Place(scores, l, r) == l[..p] + [r] + l[p..]
  {
    var l, k := Ranking(scores, r), |bestScore|;
    RankingSorts(scores, r);
    NotEligibleIsNotGreater(scores[r], bestScore[k - 1]);
    hide Ranking, Place;
    forall i | p <= i < |l| ensures Greater(scores[r], scores[l[i]]) {
      if i >= k {
        assert bestScore[k - 1] == scores[l[k - 1]] && Before(scores, l[k - 1], l[i]);
        GreaterThanAll(scores[r], scores[l[k - 1]], scores[l[i]]);
      } else {
        assert bestScore[i] == scores[l[i]];
      }
    }
    assert forall i | |l| <= i < k :: Greater(scores[r], bestScore[i]);
    hide Greater;
    PlaceAt(scores, l, r, p);
  }

  lemma NotEligibleIsNotGreater(a: Score, b: Score)
    ensures Greater(a, b) ==> Eligible(a)
  {
  }

  lemma GreaterThanAll(a: Score, b: Score, c: Score)
    requires Greater(a, b) && (Greater(b, c) || !Greater(c, b)) && Eligible(b) && Eligible(c)
    ensures Greater(a, c)
  {
  }

  lemma Inserted(scores: seq<Score>, r: nat, bestScore: seq<Score>, bestIdx: seq<nat>, p: nat, newScore: seq<Score>,
                 newIdx: seq<nat>)
    requires r < |scores| && p < |bestScore| && HoldBest(scores, Ranking(scores, r), bestScore, bestIdx)
    requires forall i | p <= i < |bestScore| :: Greater(scores[r], bestScore[i])
    requires p > 0 ==> !Greater(scores[r], bestScore[p - 1])
    requires ShiftedIn(bestScore, p, scores[r], newScore) && ShiftedIn(bestIdx, p, r, newIdx)
    ensures HoldBest(scores, Ranking(scores, r + 1), newScore, newIdx)
  {
    InsertionPoint(scores, r, bestScore, bestIdx, p);
    RankingStep(scores, r);
    hide Ranking, Place, Greater;
    var l := Ranking(scores, r);
    var after := Ranking(scores, r + 1);
    assert forall i | p < i < |after| :: after[i] == l[i - 1];
  }

  /** `se_topk_execute` */
  method Execute(scores: seq<Score>, bestScore: array<Score>, bestIdx: array<nat>)
    requires 0 < bestScore.Length == bestIdx.Length && forall i | 0 <= i < bestScore.Length :: bestScore[i] == NegInf
    modifies bestScore, bestIdx
    ensures HoldBest(scores, Ranking(scores, |scores|), bestScore[..], bestIdx[..])
  {
    hide HoldBest, Ranking, Greater;
    EmptyHolds(scores, bestScore[..], bestIdx[..]);
    var k := bestScore.Length;
    var r: nat := 0;
    while r < |scores|
      invariant r <= |scores| && HoldBest(scores, Ranking(scores, r), bestScore[..], bestIdx[..])
    {
      var score := scores[r];
      if Greater(score, bestScore[k - 1]) {
        var pos := Insert(score, r, bestScore, bestIdx, scores);
      } else {
        Skipped(scores, r, bestScore[..], bestIdx[..]);
      }
      r := r + 1;
    }
  }

  lemma EmptyHolds(scores: seq<Score>, bestScore: seq<Score>, bestIdx: seq<nat>)
    requires |bestScore| == |bestIdx| && forall i | 0 <= i < |bestScore| :: bestScore[i] == NegInf
    ensures HoldBest(scores, Ranking(scores, 0), bestScore, bestIdx)
  {
  }

  /** The inner loop: the entries below the new score move down by one. */
  method Insert(score: Score, r: nat, bestScore: array<Score>, bestIdx: array<nat>, ghost scores: seq<Score>)
      returns (pos: nat)
    requires 0 < bestScore.Length == bestIdx.Length && Greater(score, bestScore[bestScore.Length - 1])
    requires r < |scores| && scores[r] == score && HoldBest(scores, Ranking(scores, r), bestScore[..], bestIdx[..])
    modifies bestScore, bestIdx
    ensures HoldBest(scores, Ranking(scores, r + 1), bestScore[..], bestIdx[..])
  {
    hide HoldBest, Ranking, Greater;
    var k := bestScore.Length;
    ghost var s, x := bestScore[..], bestIdx[..];
    pos := k - 1;
    while pos > 0 && Greater(score, bestScore[pos - 1])
      invariant pos < k
      invariant forall i | 0 <= i <= pos :: bestScore[i] == s[i] && bestIdx[i] == x[i]
      invariant forall i | pos < i < k :: bestScore[i] == s[i - 1] && bestIdx[i] == x[i - 1]
      invariant forall i | pos <= i < k :: Greater(score, s[i])
    {
      bestScore[pos], bestIdx[pos] := bestScore[pos - 1], bestIdx[pos - 1];
      pos := pos - 1;
    }
    bestScore[pos], bestIdx[pos] := score, r;
    HoldLengths(scores, Ranking(scores, r), s, x);
    Inserted(scores, r, s, x, pos, bestScore[..], bestIdx[..]);
  }

  lemma HoldLengths(scores: seq<Score>, l: seq<nat>, bestScore: seq<Score>, bestIdx: seq<nat>)
    requires Rows(scores, l) && HoldBest(scores, l, bestScore, bestIdx)
    ensures |bestScore| == |bestIdx|
  {
  }

  datatype Pair = Pair(row: nat, score: Score)
  datatype Answer = Pairs(pairs: seq<Pair>) | BadK

  ghost function Pairing(scores: seq<Score>, l: seq<nat>): seq<Pair>
    requires Rows(scores, l)
  {
    seq(|l|, i requires 0 <= i < |l| => Pair(l[i], scores[l[i]]))
  }

  /** `top_k_impl` and `topk_body`: the first k rows of the ranking, fewer if there are not k. */
  method TopRows(scores: seq<Score>, k: int) returns (r: Answer)
    ensures var ranking := Ranking(scores, |scores|);
            r == if k < 1 then BadK else Pairs(Pairing(scores, if k < |ranking| then ranking[..k] else ranking))
  {
    if k < 1 {
      return BadK;
    }
    ghost var ranking := Ranking(scores, |scores|);
    if |scores| == 0 {
      return Pairs([]);
    }
    var n: nat := if k > |scores| then |scores| else k;
    var bestScore, bestIdx := new Score[n](_ => NegInf), new nat[n](_ => 0);
    Execute(scores, bestScore, bestIdx);
    AtMostAll(scores);
    hide Ranking;
    var pairs: seq<Pair> := [];
    var i: nat := 0;
    while i < n && bestScore[i] != NegInf
      invariant i <= n && i <= |ranking| && pairs == Pairing(scores, ranking[..i])
    {
      assert bestScore[..][i] == bestScore[i] && bestIdx[..][i] == bestIdx[i];
      pairs := pairs + [Pair(bestIdx[i], bestScore[i])];
      i := i + 1;
    }
    assert i < n ==> bestScore[..][i] == bestScore[i];
    assert i < |ranking| ==> i == n == k;
    assert ranking[..i] == if k < |ranking| then ranking[..k] else ranking;
    r := Pairs(pairs);
  }

  lemma {:induction false} RankingLength(scores: seq<Score>, n: nat)
    requires n <= |scores|
    ensures |Ranking(scores, n)| <= n
  {
    if n > 0 { RankingLength(scores, n - 1); }
  }

  lemma AtMostAll(scores: seq<Score>)
    ensures |Ranking(scores, |scores|)| <= |scores|
  {
    RankingLength(scores, |scores|);
  }
}
