/**
 * The metrics summary script: a second copy of `auc`, the robust AUC over
 * the robustness reals and the inpainted images, the drop from the baseline
 * AUC, the median threshold, the attack success rate and the sample counts.
 * The score tables arrive as parameters; reading them and writing the JSON
 * record are not modelled.
 */
module UfdSummary {
  import opened Wrappers
  import opened Sorting
  import opened RankStatistic
  import UfdScoring

  /** The summary script's own `auc`, the same loop as the scoring script's. */
  method Auc(scores: seq<real>, labels: seq<Label>) returns (a: real)
    ensures a == RankAuc(scores, labels)
    ensures |scores| == |labels| ==> a == PairAuc(scores, labels) && 0.0 <= a <= 1.0
  {
    var s := SortBy(Zip(scores, labels), ScoreLe);
    var pos := Sum(labels);
    var neg := |labels| - pos;
    var rsum := 0;
    var rank := 0;
    for k := 0 to |s|
      invariant rank == k
      invariant rsum + RankSumFrom(s[k..], k) == RankSumFrom(s, 0)
    {
      RankSumStep(s, k);
      rank := rank + 1;
      if s[k].1 == 1 {
        rsum := rsum + rank;
      }
    }
    assert s[|s|..] == [];
    assert rsum == RankSumFrom(s, 0);
    a := Normalise(rsum, pos, neg);
    if |scores| == |labels| {
      RankAucMeaning(scores, labels);
    }
  }

  /** The two copies of `auc` return the same value on every input. */
  method AucCopiesAgree(scores: seq<real>, labels: seq<Label>) returns (fromScoring: real, fromSummary: real)
    ensures fromScoring == fromSummary
  {
    fromScoring := UfdScoring.Auc(scores, labels);
    fromSummary := Auc(scores, labels);
  }

  /** The numeric fields of the metrics record, before rounding. */
  datatype Metrics = Metrics(
    robustAuc: real,
    deltaAuc: real,
    asr: Option<real>,
    asrThreshold: Option<real>,
    nBaseline: nat,
    nRobust: nat)

  /**
   * The summary: `baselineFakes` is `None` when the baseline fakes table is
   * absent, which then contributes nothing to the baseline count.
   */
  method Summarize(
    baseAuc: real,
    baselineReals: seq<real>,
    baselineFakes: Option<seq<real>>,
    robustReals: seq<real>,
    inpainted: seq<real>)
    returns (m: Metrics)
    ensures m.robustAuc == PairsLe(robustReals, inpainted) as real / Max(|inpainted| * |robustReals|, 1) as real
    ensures 0.0 <= m.robustAuc <= 1.0
    ensures m.deltaAuc == baseAuc - m.robustAuc
    ensures m.asrThreshold == Median(robustReals) && m.asr == Asr(inpainted, m.asrThreshold)
    ensures inpainted != [] ==> m.asr.Some? && 0.0 <= m.asr.value <= 1.0
    ensures m.nBaseline == |baselineReals| + (if baselineFakes.Some? then |baselineFakes.value| else 0)
    ensures m.nRobust == |robustReals| + |inpainted|
  {
    var robAuc := Auc(robustReals + inpainted, Zeros(|robustReals|) + Ones(|inpainted|));
    RealsFirstAuc(robustReals, inpainted);
    var delta := baseAuc - robAuc;
    var thr := Median(robustReals);
    var asr := Asr(inpainted, thr);
    var nBaseline := |baselineReals| + (if baselineFakes.Some? then |baselineFakes.value| else 0);
    m := Metrics(robAuc, delta, asr, thr, nBaseline, |robustReals| + |inpainted|);
  }
}
