/**
 * The rank statistics the detector evaluation reports, as pure functions:
 * the AUC that `auc` computes from a stable ascending sort and a rank sum,
 * the Mann–Whitney pair count it equals, the median threshold and the
 * attack success rate.
 */
module RankStatistic {
  import opened Wrappers
  import opened Sorting

  /** A class label: 0 for real / un-attacked, 1 for fake / attacked. */
  type Label = x: int | 0 <= x <= 1

  /** One `(score, label)` element of the zipped input. */
  type Scored = (real, Label)

  predicate ScoreLe(a: Scored, b: Scored)
  {
    a.0 <= b.0
  }

  predicate RealLe(a: real, b: real)
  {
    a <= b
  }

  lemma ScoreLeTotalPreorder()
    ensures TotalPreorder(ScoreLe)
  {
  }

  lemma RealLeTotalPreorder()
    ensures TotalPreorder(RealLe)
  {
  }

  function Min(a: int, b: int): int { if a <= b then a else b }

  function Max(a: int, b: int): int { if a >= b then a else b }

  /** `zip(scores, labels)`: pairs up to the shorter input. */
  function Zip(scores: seq<real>, labels: seq<Label>): (r: seq<Scored>)
    ensures |r| == Min(|scores|, |labels|)
    ensures forall i :: 0 <= i < |r| ==> r[i] == (scores[i], labels[i])
  {
    if scores == [] || labels == [] then []
    else [(scores[0], labels[0])] + Zip(scores[1..], labels[1..])
  }

  /** `sum(labels)`: the number of label-1 entries. */
  function Sum(labels: seq<Label>): (n: nat)
    ensures n <= |labels|
  {
    if labels == [] then 0 else labels[0] + Sum(labels[1..])
  }

  function CountPos(t: seq<Scored>): (n: nat)
    ensures n <= |t|
  {
    if t == [] then 0 else (if t[0].1 == 1 then 1 else 0) + CountPos(t[1..])
  }

  function CountNeg(t: seq<Scored>): (n: nat)
    ensures n + CountPos(t) == |t|
  {
    if t == [] then 0 else (if t[0].1 == 0 then 1 else 0) + CountNeg(t[1..])
  }

  /** Label-1 elements whose score is at least `v`. */
  function CountPosAtLeast(t: seq<Scored>, v: real): (n: nat)
    ensures n <= CountPos(t)
  {
    if t == [] then 0 else (if t[0].1 == 1 && v <= t[0].0 then 1 else 0) + CountPosAtLeast(t[1..], v)
  }

  /** Label-0 elements whose score is below `v`. */
  function CountNegBelow(t: seq<Scored>, v: real): (n: nat)
    ensures n <= CountNeg(t)
  {
    if t == [] then 0 else (if t[0].1 == 0 && t[0].0 < v then 1 else 0) + CountNegBelow(t[1..], v)
  }

  /** The number of (label-0, label-1) pairs of `t` in which the label-0 element comes first. */
  function NegBeforePos(t: seq<Scored>): nat
  {
    if t == [] then 0 else (if t[0].1 == 0 then CountPos(t[1..]) else 0) + NegBeforePos(t[1..])
  }

  /** The sum of the 1-based ranks of the label-1 elements of `t`, when `t[0]` has rank `r + 1`. */
  function RankSumFrom(t: seq<Scored>, r: nat): nat
  {
    if t == [] then 0 else (if t[0].1 == 1 then r + 1 else 0) + RankSumFrom(t[1..], r + 1)
  }

  /** One round of the rank-sum loop: the element at `k` has rank `k + 1`. */
  lemma RankSumStep(t: seq<Scored>, k: nat)
    requires k < |t|
    ensures RankSumFrom(t[k..], k) == (if t[k].1 == 1 then k + 1 else 0) + RankSumFrom(t[k + 1..], k + 1)
  {
    assert t[k..][1..] == t[k + 1..];
  }

  /**
   * The pairs that element `x` forms with the later elements `ys` of the
   * input and that a stable ascending sort puts label-0 first: a label-0 `x`
   * precedes every later label-1 element whose score is not smaller; a
   * label-1 `x` follows every later label-0 element whose score is smaller.
   */
  function Beats(x: Scored, ys: seq<Scored>): nat
  {
    if x.1 == 0 then CountPosAtLeast(ys, x.0) else CountNegBelow(ys, x.0)
  }

  /** The Mann–Whitney U of the input, pair by pair, ties going to the earlier element. */
  function PairCount(xs: seq<Scored>): nat
  {
    if xs == [] then 0 else Beats(xs[0], xs[1..]) + PairCount(xs[1..])
  }

  /** The statistic as `auc` computes it: stable sort, rank sum, U, normalisation by `max(pos*neg, 1)`. */
  function RankAuc(scores: seq<real>, labels: seq<Label>): real
  {
    var t := SortBy(Zip(scores, labels), ScoreLe);
    var pos := Sum(labels);
    var neg := |labels| - pos;
    Normalise(RankSumFrom(t, 0), pos, neg)
  }

  /** The Mann-Whitney U of a rank sum, `rsum - pos*(pos+1)/2`, over `max(pos*neg, 1)`. */
  function Normalise(rsum: int, pos: int, neg: int): real
  {
    (rsum - Triangle(pos)) as real / Max(pos * neg, 1) as real
  }

  /** `pos*(pos+1)/2`, the rank sum of `pos` elements ranked first. */
  function Triangle(pos: int): int
  {
    pos * (pos + 1) / 2
  }

  /** The same statistic stated without a sort: pairs counted over the input, over `max(pos*neg, 1)`. */
  function PairAuc(scores: seq<real>, labels: seq<Label>): real
  {
    var pos := Sum(labels);
    PairCount(Zip(scores, labels)) as real / Max(pos * (|labels| - pos), 1) as real
  }

  // ---------------------------------------------------------------------
  // The rank-sum identity: U = rank_sum - pos*(pos+1)/2 counts pairs.

  /** Twice the rank sum splits into twice the pair count, the triangle number of the positives and the rank offset. */
  lemma {:induction false} RankSumIdentity(t: seq<Scored>, r: nat)
    ensures 2 * RankSumFrom(t, r) == 2 * NegBeforePos(t) + CountPos(t) * (CountPos(t) + 1) + 2 * r * CountPos(t)
  {
    if t != [] {
      var z := t[1..];
      var p := CountPos(z);
      RankSumIdentity(z, r + 1);
      if t[0].1 == 1 {
        assert RankSumFrom(t, r) == r + 1 + RankSumFrom(z, r + 1);
        assert NegBeforePos(t) == NegBeforePos(z);
        assert CountPos(t) == p + 1;
        TrianglePos(p, r);
      } else {
        assert RankSumFrom(t, r) == RankSumFrom(z, r + 1);
        assert NegBeforePos(t) == p + NegBeforePos(z);
        assert CountPos(t) == p;
        TriangleNeg(p, r);
      }
    }
  }

  lemma TrianglePos(p: int, r: int)
    ensures 2 * (r + 1) + p * (p + 1) + 2 * (r + 1) * p == (p + 1) * (p + 1 + 1) + 2 * r * (p + 1)
  {
  }

  lemma TriangleNeg(p: int, r: int)
    ensures p * (p + 1) + 2 * (r + 1) * p == 2 * p + p * (p + 1) + 2 * r * p
  {
  }

  /** `rsum - pos*(pos+1)/2` over a sequence is exactly its label-0-before-label-1 pair count. */
  lemma {:induction false} RankSumMinusTriangle(t: seq<Scored>)
    ensures RankSumFrom(t, 0) - Triangle(CountPos(t)) == NegBeforePos(t)
  {
    RankSumIdentity(t, 0);
    HalveIdentity(RankSumFrom(t, 0), NegBeforePos(t), CountPos(t));
  }

  lemma HalveIdentity(a: int, b: int, p: nat)
    requires 2 * a == 2 * b + p * (p + 1) + 2 * 0 * p
    ensures a - Triangle(p) == b
  {
    EvenProduct(p);
  }

  lemma {:induction false} EvenProduct(p: nat)
    ensures (p * (p + 1)) % 2 == 0
  {
    if p > 0 {
      EvenProduct(p - 1);
      assert p * (p + 1) == (p - 1) * p + 2 * p;
    }
  }

  /** On equal-length inputs `sum(labels)` is the number of label-1 elements of the zip. */
  lemma {:induction false} SumIsCountPos(scores: seq<real>, labels: seq<Label>)
    requires |scores| == |labels|
    ensures Sum(labels) == CountPos(Zip(scores, labels))
  {
    if labels != [] {
      SumIsCountPos(scores[1..], labels[1..]);
      assert Zip(scores, labels)[1..] == Zip(scores[1..], labels[1..]);
    }
  }

  // ---------------------------------------------------------------------
  // The stable sort turns the input's pair count into the sorted sequence's.

  lemma {:induction false} InsertCounts(x: Scored, ys: seq<Scored>, v: real)
    ensures CountPos(Insert(x, ys, ScoreLe)) == CountPos(ys) + (if x.1 == 1 then 1 else 0)
    ensures CountPosAtLeast(Insert(x, ys, ScoreLe), v) == CountPosAtLeast(ys, v) + CountPosAtLeast([x], v)
    ensures CountNegBelow(Insert(x, ys, ScoreLe), v) == CountNegBelow(ys, v) + CountNegBelow([x], v)
  {
    var r := Insert(x, ys, ScoreLe);
    if ys == [] {
    } else if ScoreLe(x, ys[0]) {
      assert r[1..] == ys;
    } else {
      InsertCounts(x, ys[1..], v);
      assert r[1..] == Insert(x, ys[1..], ScoreLe);
    }
  }

  lemma {:induction false} SortCounts(xs: seq<Scored>, v: real)
    ensures CountPos(SortBy(xs, ScoreLe)) == CountPos(xs)
    ensures CountPosAtLeast(SortBy(xs, ScoreLe), v) == CountPosAtLeast(xs, v)
    ensures CountNegBelow(SortBy(xs, ScoreLe), v) == CountNegBelow(xs, v)
  {
    if xs != [] {
      SortCounts(xs[1..], v);
      InsertCounts(xs[0], SortBy(xs[1..], ScoreLe), v);
    }
  }

  /** In a sorted sequence whose first score is at least `v`, every element is at least `v`. */
  lemma {:induction false} SortedAbove(ys: seq<Scored>, v: real)
    requires SortedBy(ys, ScoreLe)
    requires ys != [] ==> v <= ys[0].0
    ensures CountPosAtLeast(ys, v) == CountPos(ys)
    ensures CountNegBelow(ys, v) == 0
  {
    if ys != [] {
      if |ys| > 1 {
        assert ScoreLe(ys[0], ys[1]);
      }
      SortedAbove(ys[1..], v);
    }
  }

  /** Inserting `x` into a sorted sequence adds exactly the pairs `x` forms with it. */
  lemma {:induction false} InsertNegBeforePos(x: Scored, ys: seq<Scored>)
    requires SortedBy(ys, ScoreLe)
    ensures NegBeforePos(Insert(x, ys, ScoreLe)) == NegBeforePos(ys) + Beats(x, ys)
  {
    var r := Insert(x, ys, ScoreLe);
    if ys == [] {
    } else if ScoreLe(x, ys[0]) {
      assert r[1..] == ys;
      SortedAbove(ys, x.0);
    } else {
      var t := Insert(x, ys[1..], ScoreLe);
      assert r[1..] == t;
      InsertNegBeforePos(x, ys[1..]);
      InsertCounts(x, ys[1..], x.0);
    }
  }

  /** The stable ascending sort by score realises the input's pair count as label-0-before-label-1 pairs. */
  lemma {:induction false} SortedNegBeforePos(xs: seq<Scored>)
    ensures NegBeforePos(SortBy(xs, ScoreLe)) == PairCount(xs)
  {
    if xs != [] {
      var rest := SortBy(xs[1..], ScoreLe);
      SortedNegBeforePos(xs[1..]);
      ScoreLeTotalPreorder();
      SortBySorted(xs[1..], ScoreLe);
      InsertNegBeforePos(xs[0], rest);
      SortCounts(xs[1..], xs[0].0);
    }
  }

  /**
   * The rank-sum formula of `auc` equals the Mann–Whitney pair count over
   * `max(pos*neg, 1)`, whenever scores and labels have the same length.
   */
  lemma {:induction false} RankAucIsPairAuc(scores: seq<real>, labels: seq<Label>)
    requires |scores| == |labels|
    ensures RankAuc(scores, labels) == PairAuc(scores, labels)
  {
    var xs := Zip(scores, labels);
    var pos := Sum(labels);
    var rsum := RankSumFrom(SortBy(xs, ScoreLe), 0);
    SumIsCountPos(scores, labels);
    RankUIsPairCount(xs);
    NormaliseCount(rsum, pos, |labels| - pos, PairCount(xs));
    assert RankAuc(scores, labels) == Normalise(rsum, pos, |labels| - pos);
  }

  /** The Mann-Whitney U of the sorted ranks is the input's pair count. */
  lemma RankUIsPairCount(xs: seq<Scored>)
    ensures RankSumFrom(SortBy(xs, ScoreLe), 0) - Triangle(CountPos(xs)) == PairCount(xs)
  {
    var t := SortBy(xs, ScoreLe);
    SortCounts(xs, 0.0);
    RankSumMinusTriangle(t);
    SortedNegBeforePos(xs);
  }

  /** A rank sum whose U is `c` normalises to `c` over `max(pos*neg, 1)`. */
  lemma NormaliseCount(rsum: int, pos: int, neg: int, c: int)
    requires rsum - Triangle(pos) == c
    ensures Normalise(rsum, pos, neg) == c as real / Max(pos * neg, 1) as real
  {
  }

  // ---------------------------------------------------------------------
  // Range and extreme values.

  lemma PairBound(n: nat, p: nat, b: nat, c: nat)
    requires c <= n * p
    ensures b <= p ==> b + c <= (n + 1) * p
    ensures b <= n ==> b + c <= n * (p + 1)
  {
  }

  /** U never exceeds the number of (label-0, label-1) pairs. */
  lemma {:induction false} PairCountBound(xs: seq<Scored>)
    ensures PairCount(xs) <= CountNeg(xs) * CountPos(xs)
  {
    if xs != [] {
      var rest := xs[1..];
      PairCountBound(rest);
      PairBound(CountNeg(rest), CountPos(rest), Beats(xs[0], rest), PairCount(rest));
    }
  }

  /** On equal-length inputs the AUC lies in [0, 1], and it is 0 when either class is empty. */
  lemma {:induction false} PairAucRange(scores: seq<real>, labels: seq<Label>)
    requires |scores| == |labels|
    ensures 0.0 <= PairAuc(scores, labels) <= 1.0
    ensures Sum(labels) == 0 || Sum(labels) == |labels| ==> PairAuc(scores, labels) == 0.0
  {
    var xs := Zip(scores, labels);
    SumIsCountPos(scores, labels);
    PairCountBound(xs);
    RatioRange(PairCount(xs), CountNeg(xs), Sum(labels));
  }

  lemma RatioRange(a: nat, n: nat, p: nat)
    requires a <= n * p
    ensures 0.0 <= a as real / Max(p * n, 1) as real <= 1.0
    ensures p == 0 || n == 0 ==> a as real / Max(p * n, 1) as real == 0.0
  {
    assert p * n == n * p;
    if p * n > 0 {
      assert a as real <= Max(p * n, 1) as real;
    }
  }

  lemma {:induction false} AllPosAtLeast(ys: seq<Scored>, v: real)
    requires forall k :: 0 <= k < |ys| && ys[k].1 == 1 ==> v <= ys[k].0
    ensures CountPosAtLeast(ys, v) == CountPos(ys)
  {
    if ys != [] {
      AllPosAtLeast(ys[1..], v);
    }
  }

  lemma {:induction false} AllNegBelow(ys: seq<Scored>, v: real)
    requires forall k :: 0 <= k < |ys| && ys[k].1 == 0 ==> ys[k].0 < v
    ensures CountNegBelow(ys, v) == CountNeg(ys)
  {
    if ys != [] {
      AllNegBelow(ys[1..], v);
    }
  }

  lemma {:induction false} NoPosAtLeast(ys: seq<Scored>, v: real)
    requires forall k :: 0 <= k < |ys| && ys[k].1 == 1 ==> ys[k].0 < v
    ensures CountPosAtLeast(ys, v) == 0
  {
    if ys != [] {
      NoPosAtLeast(ys[1..], v);
    }
  }

  lemma {:induction false} NoNegBelow(ys: seq<Scored>, v: real)
    requires forall k :: 0 <= k < |ys| && ys[k].1 == 0 ==> v <= ys[k].0
    ensures CountNegBelow(ys, v) == 0
  {
    if ys != [] {
      NoNegBelow(ys[1..], v);
    }
  }

  /** Every label-1 score is strictly above every label-0 score. */
  ghost predicate PositivesAbove(xs: seq<Scored>)
  {
    forall i, j :: 0 <= i < |xs| && 0 <= j < |xs| && xs[i].1 == 1 && xs[j].1 == 0 ==> xs[j].0 < xs[i].0
  }

  /** Every label-1 score is strictly below every label-0 score. */
  ghost predicate PositivesBelow(xs: seq<Scored>)
  {
    forall i, j :: 0 <= i < |xs| && 0 <= j < |xs| && xs[i].1 == 1 && xs[j].1 == 0 ==> xs[i].0 < xs[j].0
  }

  lemma PairExact(n: nat, p: nat, b: nat, c: nat)
    requires c == n * p
    ensures b == p ==> b + c == (n + 1) * p
    ensures b == n ==> b + c == n * (p + 1)
  {
  }

  lemma {:induction false} AbovePairCount(xs: seq<Scored>)
    requires PositivesAbove(xs)
    ensures PairCount(xs) == CountNeg(xs) * CountPos(xs)
  {
    if xs != [] {
      var rest := xs[1..];
      assert PositivesAbove(rest) by {
        forall i, j | 0 <= i < |rest| && 0 <= j < |rest| && rest[i].1 == 1 && rest[j].1 == 0
          ensures rest[j].0 < rest[i].0
        {
          assert rest[i] == xs[i + 1] && rest[j] == xs[j + 1];
        }
      }
      AbovePairCount(rest);
      var n, p := CountNeg(rest), CountPos(rest);
      if xs[0].1 == 0 {
        forall k | 0 <= k < |rest| && rest[k].1 == 1 ensures xs[0].0 <= rest[k].0 {
          assert rest[k] == xs[k + 1];
        }
        AllPosAtLeast(rest, xs[0].0);
        assert CountNeg(xs) == n + 1 && CountPos(xs) == p;
        PairExact(n, p, p, PairCount(rest));
      } else {
        forall k | 0 <= k < |rest| && rest[k].1 == 0 ensures rest[k].0 < xs[0].0 {
          assert rest[k] == xs[k + 1];
        }
        AllNegBelow(rest, xs[0].0);
        assert CountNeg(xs) == n && CountPos(xs) == p + 1;
        PairExact(n, p, n, PairCount(rest));
      }
    }
  }

  lemma {:induction false} BelowPairCount(xs: seq<Scored>)
    requires PositivesBelow(xs)
    ensures PairCount(xs) == 0
  {
    if xs != [] {
      var rest := xs[1..];
      assert PositivesBelow(rest) by {
        forall i, j | 0 <= i < |rest| && 0 <= j < |rest| && rest[i].1 == 1 && rest[j].1 == 0
          ensures rest[i].0 < rest[j].0
        {
          assert rest[i] == xs[i + 1] && rest[j] == xs[j + 1];
        }
      }
      BelowPairCount(rest);
      if xs[0].1 == 0 {
        forall k | 0 <= k < |rest| && rest[k].1 == 1 ensures rest[k].0 < xs[0].0 {
          assert rest[k] == xs[k + 1];
        }
        NoPosAtLeast(rest, xs[0].0);
      } else {
        forall k | 0 <= k < |rest| && rest[k].1 == 0 ensures xs[0].0 <= rest[k].0 {
          assert rest[k] == xs[k + 1];
        }
        NoNegBelow(rest, xs[0].0);
      }
    }
  }

  /** Perfect separation: both classes present, every label-1 score above every label-0 score, gives AUC 1. */
  lemma {:induction false} PairAucAbove(scores: seq<real>, labels: seq<Label>)
    requires |scores| == |labels|
    requires PositivesAbove(Zip(scores, labels))
    requires 0 < Sum(labels) < |labels|
    ensures PairAuc(scores, labels) == 1.0
  {
    var xs := Zip(scores, labels);
    SumIsCountPos(scores, labels);
    AbovePairCount(xs);
    FullRatio(CountNeg(xs), Sum(labels), PairCount(xs));
  }

  /** Every label-1 score below every label-0 score gives AUC 0. */
  lemma {:induction false} PairAucBelow(scores: seq<real>, labels: seq<Label>)
    requires |scores| == |labels|
    requires PositivesBelow(Zip(scores, labels))
    ensures PairAuc(scores, labels) == 0.0
  {
    var xs := Zip(scores, labels);
    BelowPairCount(xs);
    ZeroRatio(PairCount(xs), Sum(labels), |labels| - Sum(labels));
  }

  lemma ZeroRatio(a: nat, p: int, n: int)
    requires a == 0
    ensures a as real / Max(p * n, 1) as real == 0.0
  {
  }

  lemma FullRatio(n: nat, p: nat, a: nat)
    requires 0 < n && 0 < p && a == n * p
    ensures a as real / Max(p * n, 1) as real == 1.0
  {
    assert p * n == n * p;
    assert n * p >= 1;
  }

  /** What `auc` computes, on equal-length inputs: the pair-count AUC, in [0, 1]. */
  lemma {:induction false} RankAucMeaning(scores: seq<real>, labels: seq<Label>)
    requires |scores| == |labels|
    ensures RankAuc(scores, labels) == PairAuc(scores, labels)
    ensures 0.0 <= RankAuc(scores, labels) <= 1.0
  {
    RankAucIsPairAuc(scores, labels);
    PairAucRange(scores, labels);
  }

  // ---------------------------------------------------------------------
  // Only comparisons matter: a strictly increasing rescoring changes nothing.

  ghost predicate StrictlyIncreasing(f: real -> real)
  {
    forall x, y :: x < y ==> f(x) < f(y)
  }

  /** The scores after applying `f` to each. */
  function MapScores(f: real -> real, s: seq<real>): (r: seq<real>)
    ensures |r| == |s|
    ensures forall i :: 0 <= i < |s| ==> r[i] == f(s[i])
  {
    seq(|s|, i requires 0 <= i < |s| => f(s[i]))
  }

  function Rescore(f: real -> real, xs: seq<Scored>): (r: seq<Scored>)
    ensures |r| == |xs|
    ensures forall i :: 0 <= i < |xs| ==> r[i] == (f(xs[i].0), xs[i].1)
  {
    seq(|xs|, i requires 0 <= i < |xs| => (f(xs[i].0), xs[i].1))
  }

  lemma {:induction false} InsertRescore(f: real -> real, x: Scored, ys: seq<Scored>)
    requires StrictlyIncreasing(f)
    ensures Insert((f(x.0), x.1), Rescore(f, ys), ScoreLe) == Rescore(f, Insert(x, ys, ScoreLe))
  {
    var fx := (f(x.0), x.1);
    var fys := Rescore(f, ys);
    if ys != [] {
      assert ScoreLe(fx, fys[0]) <==> ScoreLe(x, ys[0]) by {
        assert fys[0] == (f(ys[0].0), ys[0].1);
        if ys[0].0 < x.0 { assert f(ys[0].0) < f(x.0); }
        if x.0 < ys[0].0 { assert f(x.0) < f(ys[0].0); }
      }
      assert fys == [fys[0]] + Rescore(f, ys[1..]);
      if ScoreLe(x, ys[0]) {
        RescoreCons(f, x, ys);
      } else {
        InsertRescore(f, x, ys[1..]);
        RescoreCons(f, ys[0], Insert(x, ys[1..], ScoreLe));
      }
    }
  }

  /** Rescoring a sequence rescores its head and its tail. */
  lemma RescoreCons(f: real -> real, x: Scored, ys: seq<Scored>)
    ensures Rescore(f, [x] + ys) == [(f(x.0), x.1)] + Rescore(f, ys)
  {
  }

  lemma {:induction false} SortRescore(f: real -> real, xs: seq<Scored>)
    requires StrictlyIncreasing(f)
    ensures SortBy(Rescore(f, xs), ScoreLe) == Rescore(f, SortBy(xs, ScoreLe))
  {
    if xs != [] {
      var fxs := Rescore(f, xs);
      assert fxs[1..] == Rescore(f, xs[1..]);
      SortRescore(f, xs[1..]);
      InsertRescore(f, xs[0], SortBy(xs[1..], ScoreLe));
    }
  }

  lemma {:induction false} RankSumRescore(f: real -> real, t: seq<Scored>, r: nat)
    ensures RankSumFrom(Rescore(f, t), r) == RankSumFrom(t, r)
  {
    if t != [] {
      assert Rescore(f, t)[1..] == Rescore(f, t[1..]);
      RankSumRescore(f, t[1..], r + 1);
    }
  }

  /**
   * `auc` sees the scores only through the sort's comparisons: applying a
   * strictly increasing function to every score leaves it unchanged, on all
   * inputs.
   */
  lemma {:induction false} RankAucRescore(f: real -> real, scores: seq<real>, labels: seq<Label>)
    requires StrictlyIncreasing(f)
    ensures RankAuc(MapScores(f, scores), labels) == RankAuc(scores, labels)
  {
    var xs := Zip(scores, labels);
    assert Zip(MapScores(f, scores), labels) == Rescore(f, xs);
    var t := SortBy(xs, ScoreLe);
    SortRescore(f, xs);
    RankSumRescore(f, t, 0);
    assert RankSumFrom(SortBy(Zip(MapScores(f, scores), labels), ScoreLe), 0) == RankSumFrom(t, 0);
  }

  // ---------------------------------------------------------------------
  // Reals labelled 0 placed before fakes labelled 1, as both scripts build the input.

  /** Every score of `s` paired with the one label `l`. */
  function Labelled(s: seq<real>, l: Label): (r: seq<Scored>)
    ensures |r| == |s|
    ensures forall i :: 0 <= i < |s| ==> r[i] == (s[i], l)
  {
    seq(|s|, i requires 0 <= i < |s| => (s[i], l))
  }

  /** `[0]*n`, `np.zeros(n)`. */
  function Zeros(n: nat): (r: seq<Label>)
    ensures |r| == n && forall i :: 0 <= i < n ==> r[i] == 0
  {
    seq(n, _ => 0)
  }

  /** `[1]*n`, `np.ones(n)`. */
  function Ones(n: nat): (r: seq<Label>)
    ensures |r| == n && forall i :: 0 <= i < n ==> r[i] == 1
  {
    seq(n, _ => 1)
  }

  /** The scores of `s` that are at least `v`. */
  function CountAtLeast(s: seq<real>, v: real): (n: nat)
    ensures n <= |s|
  {
    if s == [] then 0 else (if v <= s[0] then 1 else 0) + CountAtLeast(s[1..], v)
  }

  /** The (real, fake) pairs whose fake score is at least the real score: ties count for the fake. */
  function PairsLe(reals: seq<real>, fakes: seq<real>): nat
  {
    if reals == [] then 0 else CountAtLeast(fakes, reals[0]) + PairsLe(reals[1..], fakes)
  }

  lemma {:induction false} CountPosAtLeastConcat(a: seq<Scored>, b: seq<Scored>, v: real)
    ensures CountPosAtLeast(a + b, v) == CountPosAtLeast(a, v) + CountPosAtLeast(b, v)
  {
    if a != [] {
      assert (a + b)[1..] == a[1..] + b;
      CountPosAtLeastConcat(a[1..], b, v);
    } else {
      assert a + b == b;
    }
  }

  lemma {:induction false} CountPosAtLeastLabelled(s: seq<real>, v: real)
    ensures CountPosAtLeast(Labelled(s, 0), v) == 0
    ensures CountPosAtLeast(Labelled(s, 1), v) == CountAtLeast(s, v)
  {
    if s != [] {
      assert Labelled(s, 0)[1..] == Labelled(s[1..], 0);
      assert Labelled(s, 1)[1..] == Labelled(s[1..], 1);
      CountPosAtLeastLabelled(s[1..], v);
    }
  }

  lemma {:induction false} PairCountAllFake(fakes: seq<real>)
    ensures PairCount(Labelled(fakes, 1)) == 0
  {
    if fakes != [] {
      var xs := Labelled(fakes, 1);
      assert xs[1..] == Labelled(fakes[1..], 1);
      NoNegBelow(xs[1..], xs[0].0);
      PairCountAllFake(fakes[1..]);
    }
  }

  lemma {:induction false} RealsFirstPairCount(reals: seq<real>, fakes: seq<real>)
    ensures PairCount(Labelled(reals, 0) + Labelled(fakes, 1)) == PairsLe(reals, fakes)
  {
    if reals == [] {
      assert Labelled(reals, 0) + Labelled(fakes, 1) == Labelled(fakes, 1);
      PairCountAllFake(fakes);
    } else {
      var xs := Labelled(reals, 0) + Labelled(fakes, 1);
      var rest := Labelled(reals[1..], 0) + Labelled(fakes, 1);
      assert xs[0] == (reals[0], 0);
      assert xs[1..] == rest;
      CountPosAtLeastConcat(Labelled(reals[1..], 0), Labelled(fakes, 1), reals[0]);
      CountPosAtLeastLabelled(reals[1..], reals[0]);
      CountPosAtLeastLabelled(fakes, reals[0]);
      RealsFirstPairCount(reals[1..], fakes);
    }
  }

  lemma {:induction false} SumZerosOnes(a: nat, b: nat)
    ensures Sum(Zeros(a) + Ones(b)) == b
  {
    if a > 0 {
      assert (Zeros(a) + Ones(b))[1..] == Zeros(a - 1) + Ones(b);
      SumZerosOnes(a - 1, b);
    } else if b > 0 {
      assert (Zeros(0) + Ones(b))[1..] == Zeros(0) + Ones(b - 1);
      SumZerosOnes(0, b - 1);
    }
  }

  /**
   * With the reals labelled 0 placed before the fakes labelled 1, the AUC is
   * the fraction of (real, fake) pairs whose fake score is at least the real
   * score: the stable sort keeps a tied real in front of its fake, so every
   * tie counts in the fake's favour.
   */
  lemma {:induction false} RealsFirstAuc(reals: seq<real>, fakes: seq<real>)
    ensures PairAuc(reals + fakes, Zeros(|reals|) + Ones(|fakes|))
         == PairsLe(reals, fakes) as real / Max(|fakes| * |reals|, 1) as real
  {
    var labels := Zeros(|reals|) + Ones(|fakes|);
    assert Zip(reals + fakes, labels) == Labelled(reals, 0) + Labelled(fakes, 1);
    RealsFirstPairCount(reals, fakes);
    SumZerosOnes(|reals|, |fakes|);
    assert |labels| - Sum(labels) == |reals|;
  }

  /** A tie decides by position: a tied real placed before its fake counts fully for the fake... */
  lemma TieRealFirst(v: real)
    ensures RankAuc([v, v], [0, 1]) == 1.0
  {
    assert Zip([v, v], [0, 1]) == [(v, 0), (v, 1)];
    var sorted: seq<Scored> := [(v, 0), (v, 1)];
    assert sorted[1..] == [(v, 1)];
    assert SortBy([(v, 1)], ScoreLe) == [(v, 1)];
    assert SortBy(sorted, ScoreLe) == sorted;
    assert RankSumFrom(sorted, 0) == 2 by {
      assert RankSumFrom([(v, 1)], 1) == 2;
    }
    assert Sum([0, 1]) == 1 by {
      assert [0, 1][1..] == [1];
    }
  }

  /** ...and a fake placed before its tied real counts not at all. */
  lemma TieFakeFirst(v: real)
    ensures RankAuc([v, v], [1, 0]) == 0.0
  {
    assert Zip([v, v], [1, 0]) == [(v, 1), (v, 0)];
    var sorted: seq<Scored> := [(v, 1), (v, 0)];
    assert sorted[1..] == [(v, 0)];
    assert SortBy([(v, 0)], ScoreLe) == [(v, 0)];
    assert SortBy(sorted, ScoreLe) == sorted;
    assert RankSumFrom(sorted, 0) == 1 by {
      assert RankSumFrom([(v, 0)], 1) == 0;
    }
    assert Sum([1, 0]) == 1 by {
      assert [1, 0][1..] == [0];
    }
  }

  // ---------------------------------------------------------------------
  // The robustness threshold and the attack success rate.

  /**
   * `np.median`: the middle of the sorted scores, or the mean of the two
   * middle ones; `None` stands for the NaN of an empty input.
   */
  function Median(s: seq<real>): (m: Option<real>)
    ensures m.None? <==> s == []
  {
    if s == [] then None
    else
      var t := SortBy(s, RealLe);
      var n := |t|;
      if n % 2 == 1 then Some(t[n / 2]) else Some((t[n / 2 - 1] + t[n / 2]) / 2.0)
  }

  /** The scores strictly below `thr`. */
  function CountBelow(s: seq<real>, thr: real): (n: nat)
    ensures n <= |s|
  {
    if s == [] then 0 else (if s[0] < thr then 1 else 0) + CountBelow(s[1..], thr)
  }

  /**
   * `np.mean(attacked < thr)`: the fraction of attacked scores strictly below
   * the threshold. `None` stands for the NaN of an empty population; a NaN
   * threshold compares false with every score, so it gives 0.
   */
  function Asr(attacked: seq<real>, thr: Option<real>): (r: Option<real>)
    ensures r.None? <==> attacked == []
    ensures r.Some? ==> 0.0 <= r.value <= 1.0
  {
    if attacked == [] then None
    else match thr
      case None => Some(0.0)
      case Some(v) => Some(CountBelow(attacked, v) as real / |attacked| as real)
  }

  /**
   * The median splits the sorted scores: it is at least every score of the
   * lower half and at most every score of the upper half.
   */
  lemma {:induction false} MedianSplits(s: seq<real>)
    requires s != []
    ensures var t, m := SortBy(s, RealLe), Median(s).value;
      && (forall k :: 0 <= k < |t| / 2 ==> t[k] <= m)
      && (forall k :: (|t| - 1) / 2 < k < |t| ==> m <= t[k])
  {
    var t := SortBy(s, RealLe);
    SortedReals(s);
    var n := |t|;
    var lo, hi := (if n % 2 == 1 then n / 2 else n / 2 - 1), n / 2;
    assert t[lo] <= Median(s).value <= t[hi];
  }

  /** The scores sorted by `sorted` ascend. */
  lemma SortedReals(s: seq<real>)
    ensures forall i, j :: 0 <= i <= j < |SortBy(s, RealLe)| ==> SortBy(s, RealLe)[i] <= SortBy(s, RealLe)[j]
  {
    RealLeTotalPreorder();
    SortBySorted(s, RealLe);
  }

  /** The median lies between the smallest and the largest of two scores of the input. */
  lemma {:induction false} MedianBetween(s: seq<real>)
    requires s != []
    ensures exists i, j :: 0 <= i < |s| && 0 <= j < |s| && s[i] <= Median(s).value <= s[j]
  {
    var t := SortBy(s, RealLe);
    var n := |t|;
    var lo, hi := (if n % 2 == 1 then n / 2 else n / 2 - 1), n / 2;
    SortedReals(s);
    assert t[lo] <= Median(s).value <= t[hi];
    assert t[lo] in multiset(s) && t[hi] in multiset(s) by {
      assert t[lo] in multiset(t) && t[hi] in multiset(t);
    }
    var i :| 0 <= i < |s| && s[i] == t[lo];
    var j :| 0 <= j < |s| && s[j] == t[hi];
  }

  lemma {:induction false} CountBelowAll(s: seq<real>, thr: real)
    ensures (forall i :: 0 <= i < |s| ==> s[i] < thr) ==> CountBelow(s, thr) == |s|
    ensures (forall i :: 0 <= i < |s| ==> thr <= s[i]) ==> CountBelow(s, thr) == 0
  {
    if s != [] {
      CountBelowAll(s[1..], thr);
      assert forall i :: 0 <= i < |s| - 1 ==> s[1..][i] == s[i + 1];
    }
  }

  /** The rate is 1 when every attacked score is below the threshold and 0 when none is. */
  lemma {:induction false} AsrExtremes(attacked: seq<real>, thr: real)
    requires attacked != []
    ensures (forall i :: 0 <= i < |attacked| ==> attacked[i] < thr) ==> Asr(attacked, Some(thr)) == Some(1.0)
    ensures (forall i :: 0 <= i < |attacked| ==> thr <= attacked[i]) ==> Asr(attacked, Some(thr)) == Some(0.0)
  {
    CountBelowAll(attacked, thr);
    SelfRatio(|attacked|);
  }

  lemma SelfRatio(n: nat)
    requires 0 < n
    ensures n as real / n as real == 1.0
  {
  }

  /**
   * Against the median of the reference scores: the rate is 1 when every
   * attacked score is below every reference score, and 0 when every attacked
   * score is above every reference score.
   */
  lemma {:induction false} AsrAgainstMedian(reference: seq<real>, attacked: seq<real>)
    requires reference != [] && attacked != []
    ensures (forall a, r :: a in attacked && r in reference ==> a < r) ==> Asr(attacked, Median(reference)) == Some(1.0)
    ensures (forall a, r :: a in attacked && r in reference ==> r < a) ==> Asr(attacked, Median(reference)) == Some(0.0)
  {
    MedianBetween(reference);
    var m := Median(reference).value;
    var i, j :| 0 <= i < |reference| && 0 <= j < |reference| && reference[i] <= m <= reference[j];
    AsrExtremes(attacked, m);
    if forall a, r :: a in attacked && r in reference ==> a < r {
      assert forall k :: 0 <= k < |attacked| ==> attacked[k] < m by {
        forall k | 0 <= k < |attacked| ensures attacked[k] < m {
          assert attacked[k] in attacked && reference[i] in reference;
        }
      }
    }
    if forall a, r :: a in attacked && r in reference ==> r < a {
      assert forall k :: 0 <= k < |attacked| ==> m <= attacked[k] by {
        forall k | 0 <= k < |attacked| ensures m <= attacked[k] {
          assert attacked[k] in attacked && reference[j] in reference;
        }
      }
    }
  }
}