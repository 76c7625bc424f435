/**
 * The pure and loop logic of the detector scoring script: the image-name
 * filter of `list_imgs`, the rank-sum loop of `auc`, the label layout of
 * `run_split` and the threshold and rate of `run_robust`. Scores arrive as
 * parameters; the image encoder that produces them is not modelled.
 */
module UfdScoring {
  import opened Wrappers
  import opened Strings
  import opened Sorting
  import opened RankStatistic

  /** The extensions `list_imgs` accepts, compared after lower-casing. */
  const ImageExts: seq<string> := [".jpg", ".jpeg", ".png", ".bmp", ".webp"]

  predicate IsImagePath(p: string)
  {
    Lower(PathSuffix(p)) in ImageExts
  }

  /** The paths of the entries of `folder` that `keep` accepts, in directory order. */
  function Kept(folder: string, names: seq<string>, keep: string -> bool): (r: seq<string>)
    ensures forall p :: p in r ==> keep(p)
    ensures forall n :: n in names && keep(Join(folder, n)) ==> Join(folder, n) in r
    ensures forall p :: p in r ==> exists n :: n in names && p == Join(folder, n)
  {
    if names == [] then []
    else
      var rest := Kept(folder, names[1..], keep);
      var p := Join(folder, names[0]);
      assert forall n :: n in names[1..] ==> n in names;
      if keep(p) then [p] + rest else rest
  }

  /** Paths in one folder are equal only for equal entry names. */
  lemma JoinInjective(folder: string, a: string, b: string)
    requires Join(folder, a) == Join(folder, b)
    ensures a == b
  {
    assert a == Join(folder, a)[|folder| + 1..];
    assert b == Join(folder, b)[|folder| + 1..];
  }

  /** The filter keeps an accepted entry as many times as it occurs, and drops every other entry. */
  lemma {:induction false} KeptCount(folder: string, names: seq<string>, keep: string -> bool, n: string)
    ensures multiset(Kept(folder, names, keep))[Join(folder, n)] == if keep(Join(folder, n)) then multiset(names)[n] else 0
  {
    if names != [] {
      KeptCount(folder, names[1..], keep, n);
      assert names == [names[0]] + names[1..];
      if Join(folder, names[0]) == Join(folder, n) {
        JoinInjective(folder, names[0], n);
      }
    }
  }

  /** The entries of `folder` that pass the extension filter, as paths, in directory order. */
  function ImagePaths(folder: string, names: seq<string>): (r: seq<string>)
    ensures forall p :: p in r ==> IsImagePath(p)
    ensures forall n :: n in names && IsImagePath(Join(folder, n)) ==> Join(folder, n) in r
    ensures forall p :: p in r ==> exists n :: n in names && p == Join(folder, n)
  {
    Kept(folder, names, IsImagePath)
  }

  /**
   * The filter keeps an entry whose path passes as many times as the entry
   * occurs, and drops every other entry.
   */
  lemma ImagePathsCount(folder: string, names: seq<string>, n: string)
    ensures multiset(ImagePaths(folder, names))[Join(folder, n)] == if IsImagePath(Join(folder, n)) then multiset(names)[n] else 0
  {
    KeptCount(folder, names, IsImagePath, n);
  }

  lemma LexLeTotalPreorder()
    ensures TotalPreorder(LexLe)
  {
    forall x, y ensures LexLe(x, y) || LexLe(y, x) {
      LexLeTotal(x, y);
    }
    forall x, y, z | LexLe(x, y) && LexLe(y, z) ensures LexLe(x, z) {
      LexLeTransitive(x, y, z);
    }
  }

  /** Two sequences with the same multiset have the same members. */
  lemma SameMembers(q: seq<string>, r: seq<string>)
    requires multiset(q) == multiset(r)
    ensures forall p :: p in r <==> p in q
  {
    forall p ensures p in r <==> p in q {
      assert p in r <==> p in multiset(r);
      assert p in q <==> p in multiset(q);
    }
  }

  /**
   * `list_imgs(folder)` over the directory entries `names`: exactly the
   * entries whose lower-cased suffix is an image extension, as paths, sorted.
   */
  function ListImages(folder: string, names: seq<string>): (r: seq<string>)
    ensures SortedBy(r, LexLe)
    ensures multiset(r) == multiset(ImagePaths(folder, names))
    ensures forall p :: p in r ==> IsImagePath(p)
    ensures forall n :: n in names ==> (Join(folder, n) in r <==> IsImagePath(Join(folder, n)))
    ensures forall p :: p in r ==> exists n :: n in names && p == Join(folder, n)
  {
    var q := ImagePaths(folder, names);
    var r := SortBy(q, LexLe);
    LexLeTotalPreorder();
    SortBySorted(q, LexLe);
    SameMembers(q, r);
    r
  }

  /**
   * `auc(scores, labels)`: sort the zipped pairs stably by score, walk them
   * accumulating each element's 1-based rank and the rank sum of the label-1
   * elements, then normalise U = rsum - pos*(pos+1)/2 by max(pos*neg, 1).
   */
  method Auc(scores: seq<real>, labels: seq<Label>) returns (a: real)
    ensures a == RankAuc(scores, labels)
    ensures |scores| == |labels| ==> a == PairAuc(scores, labels) && 0.0 <= a <= 1.0
  {
    var s := SortBy(Zip(scores, labels), ScoreLe);
    var pos := Sum(labels);
    var neg := |labels| - pos;
    var rsum := 0;
    var rank := 0;
    for k := 0 to |s|
      invariant rank == k
      invariant rsum + RankSumFrom(s[k..], k) == RankSumFrom(s, 0)
    {
      RankSumStep(s, k);
      rank := rank + 1;
      if s[k].1 == 1 {
        rsum := rsum + rank;
      }
    }
    assert s[|s|..] == [];
    assert rsum == RankSumFrom(s, 0);
    a := Normalise(rsum, pos, neg);
    if |scores| == |labels| {
      RankAucMeaning(scores, labels);
    }
  }

  /**
   * The AUC of `run_split`: reals labelled 0 first, then fakes labelled 1.
   * It is the fraction of (real, fake) pairs with the fake scored at least
   * as high as the real.
   */
  method RunSplit(reals: seq<real>, fakes: seq<real>) returns (a: real)
    ensures a == PairsLe(reals, fakes) as real / Max(|fakes| * |reals|, 1) as real
    ensures 0.0 <= a <= 1.0
  {
    var scores := reals + fakes;
    var labels := Zeros(|reals|) + Ones(|fakes|);
    a := Auc(scores, labels);
    RealsFirstAuc(reals, fakes);
  }

  /**
   * The threshold and rate of `run_robust`: the median of the real scores,
   * and the fraction of edited scores strictly below it.
   */
  function RunRobust(reals: seq<real>, edited: seq<real>): (r: (Option<real>, Option<real>))
    ensures r.1 == Median(reals) && r.0 == Asr(edited, r.1)
    ensures edited != [] ==> r.0.Some? && 0.0 <= r.0.value <= 1.0
    ensures reals != [] && edited != [] && (forall e, x :: e in edited && x in reals ==> e < x) ==> r.0 == Some(1.0)
    ensures reals != [] && edited != [] && (forall e, x :: e in edited && x in reals ==> x < e) ==> r.0 == Some(0.0)
  {
    var thr := Median(reals);
    if reals != [] && edited != [] then
      AsrAgainstMedian(reals, edited);
      (Asr(edited, thr), thr)
    else
      (Asr(edited, thr), thr)
  }
}
