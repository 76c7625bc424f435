/**
 * Rebuilding a pair manifest so that each original image appears at most
 * once: rows are keyed by the stem of their original image's path, only
 * the first row of each key is kept, and the result is cut to `n` rows.
 */
module UniqueManifest {
  import opened Wrappers
  import opened Strings
  import opened Slices
  import opened Manifest

  /** The original id of a row: the stem of its original image's path. */
  function OrigId(r: Row): string
  {
    PathStem(r.originalLocal)
  }

  /** The keys that occur among `xs`. */
  function Keys<T(==), K>(xs: seq<T>, key: T -> K): set<K>
  {
    set x | x in xs :: key(x)
  }

  /** No two elements share a key. */
  ghost predicate DistinctKeys<T, K>(xs: seq<T>, key: T -> K)
  {
    forall i, j :: 0 <= i < j < |xs| ==> key(xs[i]) != key(xs[j])
  }

  lemma {:induction false} KeysSnoc<T, K>(init: seq<T>, last: T, key: T -> K)
    ensures Keys(init + [last], key) == Keys(init, key) + {key(last)}
  {
    var xs := init + [last];
    forall k | k in Keys(xs, key) ensures k in Keys(init, key) + {key(last)} {
      var x :| x in xs && key(x) == k;
      if x != last {
        assert x in init;
      }
    }
    forall k | k in Keys(init, key) + {key(last)} ensures k in Keys(xs, key) {
      if k != key(last) {
        var x :| x in init && key(x) == k;
        assert x in xs;
      } else {
        assert last in xs;
      }
    }
  }

  lemma {:induction false} KeyOfIndex<T, K>(xs: seq<T>, i: int, key: T -> K)
    requires 0 <= i < |xs|
    ensures key(xs[i]) in Keys(xs, key)
  {
    assert xs[i] in xs;
  }

  /**
   * `drop_duplicates` on a key: the first element of every key, in the order
   * of the input. The result has one element per key of the input.
   */
  function DropDuplicates<T(==), K(==)>(xs: seq<T>, key: T -> K): (d: seq<T>)
    ensures DistinctKeys(d, key)
    ensures Keys(d, key) == Keys(xs, key)
    ensures |d| == |Keys(xs, key)|
  {
    if xs == [] then []
    else
      var init, last := xs[..|xs| - 1], xs[|xs| - 1];
      var kept := DropDuplicates(init, key);
      assert xs == init + [last];
      KeysSnoc(init, last, key);
      if key(last) in Keys(init, key) then kept
      else
        KeysSnoc(kept, last, key);
        KeyNotAmong(kept, key(last), key);
        kept + [last]
  }

  /** A key missing from `xs` is the key of none of its elements. */
  lemma {:induction false} KeyNotAmong<T, K>(xs: seq<T>, k: K, key: T -> K)
    requires k !in Keys(xs, key)
    ensures forall j :: 0 <= j < |xs| ==> key(xs[j]) != k
  {
    forall j | 0 <= j < |xs| ensures key(xs[j]) != k {
      KeyOfIndex(xs, j, key);
    }
  }

  /**
   * The positions `drop_duplicates` keeps: strictly increasing, each the
   * first position holding its key.
   */
  function KeptPositions<T(==), K(==)>(xs: seq<T>, key: T -> K): (idx: seq<nat>)
    ensures forall i :: 0 <= i < |idx| ==> idx[i] < |xs|
    ensures forall i, j :: 0 <= i < j < |idx| ==> idx[i] < idx[j]
    ensures forall i, j :: 0 <= i < |idx| && 0 <= j < idx[i] ==> key(xs[j]) != key(xs[idx[i]])
  {
    if xs == [] then []
    else
      var init, last := xs[..|xs| - 1], xs[|xs| - 1];
      var before := KeptPositions(init, key);
      if key(last) in Keys(init, key) then before
      else
        KeyNotAmong(init, key(last), key);
        before + [|xs| - 1]
  }

  /** `drop_duplicates` keeps exactly the elements at the kept positions, in order. */
  lemma {:induction false} DropDuplicatesPositions<T, K>(xs: seq<T>, key: T -> K)
    ensures |KeptPositions(xs, key)| == |DropDuplicates(xs, key)|
    ensures forall i :: 0 <= i < |KeptPositions(xs, key)| ==> DropDuplicates(xs, key)[i] == xs[KeptPositions(xs, key)[i]]
  {
    if xs != [] {
      DropDuplicatesPositions(xs[..|xs| - 1], key);
    }
  }

  /** On elements whose keys are already distinct, dropping duplicates changes nothing. */
  lemma {:induction false} DropDuplicatesDistinct<T, K>(xs: seq<T>, key: T -> K)
    requires DistinctKeys(xs, key)
    ensures DropDuplicates(xs, key) == xs
  {
    if xs != [] {
      var init, last := xs[..|xs| - 1], xs[|xs| - 1];
      assert DistinctKeys(init, key);
      DropDuplicatesDistinct(init, key);
      forall x | x in init ensures key(x) != key(last) {
        var k :| 0 <= k < |init| && init[k] == x;
        assert xs[k] == x;
      }
      assert xs == init + [last];
    }
  }

  /** The original ids that occur among `rows`. */
  function Ids(rows: seq<Row>): set<string>
  {
    Keys(rows, OrigId)
  }

  /** `drop_duplicates("orig_id").head(n)`. */
  function Rebuild(rows: seq<Row>, n: int): (r: seq<Row>)
    ensures DistinctKeys(r, OrigId)
    ensures Ids(r) <= Ids(rows)
    ensures n >= 0 ==> |r| == if n <= |Ids(rows)| then n else |Ids(rows)|
    ensures n >= |Ids(rows)| ==> Ids(r) == Ids(rows)
  {
    var d := DropDuplicates(rows, OrigId);
    var r := PyPrefix(d, n);
    assert forall x :: x in r ==> x in d;
    r
  }

  /** Rebuilding a rebuilt manifest with the same non-negative `n` gives it back. */
  lemma {:induction false} RebuildIdempotent(rows: seq<Row>, n: int)
    requires n >= 0
    ensures Rebuild(Rebuild(rows, n), n) == Rebuild(rows, n)
  {
    var r := Rebuild(rows, n);
    DropDuplicatesDistinct(r, OrigId);
  }

  /** Rows with distinct ids, no more than `n` of them, come back unchanged. */
  lemma {:induction false} RebuildDistinct(rows: seq<Row>, n: int)
    requires DistinctKeys(rows, OrigId) && n >= |rows|
    ensures Rebuild(rows, n) == rows
  {
    DropDuplicatesDistinct(rows, OrigId);
  }

  /** Whether some row's `original_local` reads as missing, so that taking its path's stem raises. */
  predicate MissingOriginal(rows: seq<Row>)
  {
    exists k :: 0 <= k < |rows| && rows[k].originalLocal in MissingTokens
  }

  /**
   * The whole script on the manifest's text: read the rows, rebuild them and
   * write the four manifest columns; nothing when the text does not read, or
   * when an `original_local` reads as missing and the id column cannot be built.
   */
  function RebuildManifest(text: string, n: int): (out: Option<string>)
    ensures out.Some? <==> (Parse(text).Some? &&
      forall k :: 0 <= k < |Parse(text).value| ==> Parse(text).value[k].originalLocal !in MissingTokens)
  {
    match Parse(text)
    case None => None
    case Some(rows) => if MissingOriginal(rows) then None else Some(Text(Rebuild(rows, n)))
  }

  /**
   * A manifest whose rows name each original once, with none missing, comes
   * back unchanged when the rebuild keeps at least as many rows as it has.
   */
  lemma {:induction false} RebuildManifestFixed(text: string, n: int)
    requires Parse(text).Some? && DistinctKeys(Parse(text).value, OrigId) && n >= |Parse(text).value|
    requires forall k :: 0 <= k < |Parse(text).value| ==> Parse(text).value[k].originalLocal !in MissingTokens
    ensures RebuildManifest(text, n) == Some(text)
  {
    RebuildDistinct(Parse(text).value, n);
    TextParse(text);
  }

  /** The rebuilt file reads back as the rebuilt rows. */
  lemma {:induction false} RebuildManifestReads(text: string, n: int)
    requires RebuildManifest(text, n).Some?
    ensures Parse(RebuildManifest(text, n).value) == Some(Rebuild(Parse(text).value, n))
  {
    var rows := Parse(text).value;
    var r := Rebuild(rows, n);
    var d, idx := DropDuplicates(rows, OrigId), KeptPositions(rows, OrigId);
    DropDuplicatesPositions(rows, OrigId);
    forall k | 0 <= k < |r| ensures PlainRow(r[k]) {
      assert r[k] == d[k] == rows[idx[k]];
    }
    ParseText(r);
  }
}
