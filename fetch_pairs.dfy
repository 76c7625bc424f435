/**
 * Rebuilding (edited, original) image pairs from sharded archives: scan the
 * edited shards for candidates keyed by original id, select the first ids,
 * extract the wanted members on each side, and join them into manifest rows.
 *
 * A shard fetch is an `Option<Archive>` (`None` when the download fails), an
 * archive is the sequence of its members, and extracting a member into the
 * flat output directory is the insertion of its key into a set.
 */
module FetchPairs {
  import opened Wrappers
  import opened Strings
  import opened Slices
  import opened Manifest
  import UniqueManifest

  /** One member of a tar archive: its path inside the archive and whether it is a regular file. */
  datatype Member = Member(name: string, isFile: bool)

  type Archive = seq<Member>

  /* ---------------------------------------------------------------- scan */

  /**
   * The original id under which the scan admits a member: a regular file
   * whose path ends in `.png` and whose base name starts with a hex id
   * before its first `_`.
   */
  function AdmittedId(m: Member): Option<string>
  {
    if m.isFile && EndsWith(m.name, ".png") then
      var id := SplitFirstHead(Basename(m.name), '_');
      if IsHex(id) then Some(id) else None
    else None
  }

  /**
   * A member is admitted exactly when it is a regular `.png` file whose base
   * name has a hex head before its first `_`; the base name then starts
   * with that id and `_`.
   */
  lemma AdmittedIdMeaning(m: Member)
    ensures AdmittedId(m).Some? <==> m.isFile && EndsWith(m.name, ".png") && IsHex(SplitFirstHead(Basename(m.name), '_'))
    ensures AdmittedId(m).Some? ==> IsHex(AdmittedId(m).value) && StartsWith(Basename(m.name), AdmittedId(m).value + "_")
  {
    if AdmittedId(m).Some? {
      BasenameKeepsSuffix(m.name, ".png");
      HexHeadPrefix(Basename(m.name));
    }
  }

  /**
   * The candidate map: its ids in insertion order, and for each id the base
   * names of its edited files in the order they were found.
   */
  datatype Candidates = Candidates(keys: seq<string>, lists: map<string, seq<string>>)

  const NoCandidates := Candidates([], map[])

  /** `wanted_by_orig[id].append(f)` on a `defaultdict(list)`. */
  function Add(c: Candidates, id: string, f: string): Candidates
  {
    if id in c.lists then Candidates(c.keys, c.lists[id := c.lists[id] + [f]])
    else Candidates(c.keys + [id], c.lists[id := [f]])
  }

  ghost predicate DistinctKeys(c: Candidates)
  {
    forall i, j :: 0 <= i < j < |c.keys| ==> c.keys[i] != c.keys[j]
  }

  /**
   * The candidate map's invariant: the ids are distinct and are exactly the
   * map's keys; each id is hex, its list is non-empty, and every entry
   * starts with the id followed by `_`.
   */
  ghost predicate Valid(c: Candidates)
  {
    DistinctKeys(c) &&
    (forall id :: id in c.lists <==> id in c.keys) &&
    (forall id :: id in c.lists ==> IsHex(id) && c.lists[id] != []) &&
    (forall id, f :: id in c.lists && f in c.lists[id] ==> StartsWith(f, id + "_"))
  }

  /** Every entry of every list is one of `names`. */
  ghost predicate DrawnFrom(c: Candidates, names: set<string>)
  {
    forall id, f :: id in c.lists && f in c.lists[id] ==> f in names
  }

  /**
   * Adding an admitted name keeps the invariant, grows the ids by at most
   * one, and only appends: earlier ids and earlier entries stay in place.
   */
  lemma AddValid(c: Candidates, id: string, f: string)
    requires Valid(c) && IsHex(id) && StartsWith(f, id + "_")
    ensures Valid(Add(c, id, f))
    ensures Add(c, id, f).keys == c.keys || Add(c, id, f).keys == c.keys + [id]
    ensures id in Add(c, id, f).lists && Add(c, id, f).lists[id][|Add(c, id, f).lists[id]| - 1] == f
  {
    var d := Add(c, id, f);
    if id !in c.lists {
      forall i, j | 0 <= i < j < |d.keys| ensures d.keys[i] != d.keys[j] {
        if j == |c.keys| {
          assert d.keys[i] == c.keys[i] && c.keys[i] in c.lists;
        }
      }
    }
  }

  lemma AddGrows(c: Candidates, id: string, f: string)
    ensures Grows(c, Add(c, id, f))
  {
  }

  /** The side of the pairs an extraction loop collects. */
  datatype Side = Edited | Original

  /**
   * The key an extraction loop looks a member up by: the name pathlib gives
   * it on the edited side, that name before its last `.` on the original side.
   */
  function KeyOf(side: Side, m: Member): string
  {
    if side.Edited? then PathName(m.name) else RSplitHead(PathName(m.name), '.')
  }

  /** The keys of an archive's regular files. */
  function FileKeys(side: Side, a: Archive): set<string>
  {
    if a == [] then {} else (if a[0].isFile then {KeyOf(side, a[0])} else {}) + FileKeys(side, a[1..])
  }

  /** The keys of the regular files of every archive that was fetched. */
  function KeysIn(side: Side, shards: seq<Option<Archive>>): set<string>
  {
    if shards == [] then {}
    else (match shards[0] case None => {} case Some(a) => FileKeys(side, a)) + KeysIn(side, shards[1..])
  }

  lemma {:induction false} KeysInAppend(side: Side, shards: seq<Option<Archive>>, s: Option<Archive>)
    ensures KeysIn(side, shards + [s]) == KeysIn(side, shards) + KeysIn(side, [s])
  {
    if shards != [] {
      assert (shards + [s])[1..] == shards[1..] + [s];
      KeysInAppend(side, shards[1..], s);
    }
  }

  /**
   * The member loop over one edited archive: admits members in order and
   * reports a hit, leaving the loop, at the first admission that brings the
   * number of ids to `target`.
   */
  function ScanArchive(c: Candidates, a: Archive, target: int): (Candidates, bool)
    decreases |a|
  {
    if a == [] then (c, false)
    else match AdmittedId(a[0])
      case None => ScanArchive(c, a[1..], target)
      case Some(id) =>
        var d := Add(c, id, Basename(a[0].name));
        if |d.keys| >= target then (d, true) else ScanArchive(d, a[1..], target)
  }

  /** The scan's state: the candidate map and the shards used so far, by index. */
  datatype ScanState = ScanState(cands: Candidates, used: seq<nat>)

  /**
   * The shard loop from shard `i` on: a shard whose fetch failed is skipped;
   * a scanned shard is recorded as used, twice after a hit; the loop stops
   * once the number of ids reaches `target`.
   */
  function ScanShards(s: ScanState, shards: seq<Option<Archive>>, i: nat, target: int): ScanState
    requires i <= |shards|
    decreases |shards| - i
  {
    if i == |shards| then s
    else match shards[i]
      case None => ScanShards(s, shards, i + 1, target)
      case Some(a) =>
        var r := ScanArchive(s.cands, a, target);
        var t := ScanState(r.0, s.used + (if r.1 then [i, i] else [i]));
        if |r.0.keys| >= target then t else ScanShards(t, shards, i + 1, target)
  }

  /** The whole scan over the edited shards. */
  function Scan(shards: seq<Option<Archive>>, target: int): ScanState
  {
    ScanShards(ScanState(NoCandidates, []), shards, 0, target)
  }

  /** The archives listed in `used_edited_shards`, in order. */
  function UsedArchives(shards: seq<Option<Archive>>, used: seq<nat>): (r: seq<Option<Archive>>)
    requires forall k :: 0 <= k < |used| ==> used[k] < |shards|
    ensures |r| == |used| && forall k :: 0 <= k < |used| ==> r[k] == shards[used[k]]
  {
    if used == [] then [] else UsedArchives(shards, used[..|used| - 1]) + [shards[used[|used| - 1]]]
  }

  /** The bound the scan keeps the number of ids within: `target`, or 1 when `target` is not positive. */
  function Cap(target: int): int
  {
    if target >= 1 then target else 1
  }

  /** Whether `xs` starts with `ys`. */
  ghost predicate Extends<T>(xs: seq<T>, ys: seq<T>)
  {
    |ys| <= |xs| && xs[..|ys|] == ys
  }

  /** Whether every list of `c` is continued, and not rewritten, in `d`. */
  ghost predicate Grows(c: Candidates, d: Candidates)
  {
    Extends(d.keys, c.keys) &&
    forall id :: id in c.lists ==> id in d.lists && Extends(d.lists[id], c.lists[id])
  }

  lemma GrowsTransitive(c: Candidates, d: Candidates, e: Candidates)
    requires Grows(c, d) && Grows(d, e)
    ensures Grows(c, e)
  {
    forall id | id in c.lists ensures id in e.lists && Extends(e.lists[id], c.lists[id]) {
      assert e.lists[id][..|c.lists[id]|] == e.lists[id][..|d.lists[id]|][..|c.lists[id]|];
    }
    assert e.keys[..|c.keys|] == e.keys[..|d.keys|][..|c.keys|];
  }

  /** Scanning one archive keeps the candidate invariant and only appends. */
  lemma {:induction false} ScanArchiveValid(c: Candidates, a: Archive, target: int)
    requires Valid(c)
    ensures Valid(ScanArchive(c, a, target).0) && Grows(c, ScanArchive(c, a, target).0)
    decreases |a|
  {
    if a != [] {
      var r := ScanArchive(c, a, target);
      match AdmittedId(a[0])
      case None =>
        assert r == ScanArchive(c, a[1..], target);
        ScanArchiveValid(c, a[1..], target);
      case Some(id) =>
        var f := Basename(a[0].name);
        var d := Add(c, id, f);
        AdmittedIdMeaning(a[0]);
        AddValid(c, id, f);
        AddGrows(c, id, f);
        if |d.keys| < target {
          assert r == ScanArchive(d, a[1..], target);
          ScanArchiveValid(d, a[1..], target);
          GrowsTransitive(c, d, r.0);
        } else {
          assert r.0 == d;
        }
    }
  }

  /**
   * Starting below the bound, scanning one archive either hits exactly at
   * the bound or stays below it.
   */
  lemma {:induction false} ScanArchiveBound(c: Candidates, a: Archive, target: int)
    requires Valid(c) && |c.keys| < Cap(target)
    ensures var (d, hit) := ScanArchive(c, a, target);
      if hit then |d.keys| == Cap(target) else |d.keys| < Cap(target)
    decreases |a|
  {
    if a != [] {
      var r := ScanArchive(c, a, target);
      match AdmittedId(a[0])
      case None =>
        assert r == ScanArchive(c, a[1..], target);
        ScanArchiveBound(c, a[1..], target);
      case Some(id) =>
        var f := Basename(a[0].name);
        var d := Add(c, id, f);
        AdmittedIdMeaning(a[0]);
        AddValid(c, id, f);
        if |d.keys| < target {
          assert r == ScanArchive(d, a[1..], target);
          ScanArchiveBound(d, a[1..], target);
        } else {
          assert r == (d, true);
        }
    }
  }

  /** The names the scan draws from one archive are base names of its regular files. */
  lemma {:induction false} ScanArchiveDrawn(c: Candidates, a: Archive, target: int, names: set<string>)
    requires DrawnFrom(c, names)
    ensures DrawnFrom(ScanArchive(c, a, target).0, names + FileKeys(Edited, a))
    decreases |a|
  {
    if a != [] {
      var r := ScanArchive(c, a, target);
      var all := names + FileKeys(Edited, a);
      assert names + FileKeys(Edited, a[1..]) <= all;
      match AdmittedId(a[0])
      case None =>
        assert r == ScanArchive(c, a[1..], target);
        ScanArchiveDrawn(c, a[1..], target, names);
        DrawnMore(r.0, names + FileKeys(Edited, a[1..]), all);
      case Some(id) =>
        var f := Basename(a[0].name);
        var d := Add(c, id, f);
        AddDrawn(c, id, f, names);
        assert f in all;
        if |d.keys| < target {
          assert r == ScanArchive(d, a[1..], target);
          ScanArchiveDrawn(d, a[1..], target, names + {f});
          DrawnMore(r.0, names + {f} + FileKeys(Edited, a[1..]), all);
        } else {
          assert r.0 == d;
          DrawnMore(d, names + {f}, all);
        }
    }
  }

  lemma AddDrawn(c: Candidates, id: string, f: string, names: set<string>)
    requires DrawnFrom(c, names)
    ensures DrawnFrom(Add(c, id, f), names + {f})
  {
  }

  lemma DrawnMore(c: Candidates, names: set<string>, more: set<string>)
    requires DrawnFrom(c, names) && names <= more
    ensures DrawnFrom(c, more)
  {
  }

  /** Every recorded shard index names a shard whose fetch succeeded. */
  ghost predicate UsedOk(shards: seq<Option<Archive>>, used: seq<nat>)
  {
    forall k :: 0 <= k < |used| ==> used[k] < |shards| && shards[used[k]].Some?
  }

  lemma UseShard(shards: seq<Option<Archive>>, used: seq<nat>, i: nat)
    requires UsedOk(shards, used) && i < |shards| && shards[i].Some?
    ensures UsedOk(shards, used + [i])
    ensures KeysIn(Edited, UsedArchives(shards, used + [i])) == KeysIn(Edited, UsedArchives(shards, used)) + FileKeys(Edited, shards[i].value)
  {
    assert (used + [i])[..|used|] == used;
    assert UsedArchives(shards, used + [i]) == UsedArchives(shards, used) + [shards[i]];
    KeysInAppend(Edited, UsedArchives(shards, used), shards[i]);
  }

  lemma ExtendsTransitive<T>(xs: seq<T>, ys: seq<T>, zs: seq<T>)
    requires Extends(xs, ys) && Extends(ys, zs)
    ensures Extends(xs, zs)
  {
    assert xs[..|zs|] == xs[..|ys|][..|zs|];
  }

  /** Recording a scanned shard, once or twice, adds its file names to the recorded archives' names. */
  lemma RecordShard(shards: seq<Option<Archive>>, used: seq<nat>, i: nat, hit: bool)
    requires UsedOk(shards, used) && i < |shards| && shards[i].Some?
    ensures var more := used + (if hit then [i, i] else [i]);
      UsedOk(shards, more) && Extends(more, used) &&
      KeysIn(Edited, UsedArchives(shards, more)) == KeysIn(Edited, UsedArchives(shards, used)) + FileKeys(Edited, shards[i].value)
  {
    UseShard(shards, used, i);
    if hit {
      UseShard(shards, used + [i], i);
      assert used + [i, i] == used + [i] + [i];
    }
  }

  /** The shard loop keeps the candidate invariant and the bound, and only appends. */
  lemma {:induction false} ScanShardsValid(s: ScanState, shards: seq<Option<Archive>>, i: nat, target: int)
    requires i <= |shards|
    requires Valid(s.cands) && |s.cands.keys| < Cap(target)
    ensures var r := ScanShards(s, shards, i, target);
      Valid(r.cands) && |r.cands.keys| <= Cap(target) && Grows(s.cands, r.cands)
    decreases |shards| - i
  {
    var r := ScanShards(s, shards, i, target);
    if i == |shards| {
    } else if shards[i].None? {
      ScanShardsValid(s, shards, i + 1, target);
    } else {
      var a := shards[i].value;
      var (c, hit) := ScanArchive(s.cands, a, target);
      ScanArchiveValid(s.cands, a, target);
      ScanArchiveBound(s.cands, a, target);
      var t := ScanState(c, s.used + (if hit then [i, i] else [i]));
      if |c.keys| >= target {
        assert r == t;
      } else {
        assert r == ScanShards(t, shards, i + 1, target);
        ScanShardsValid(t, shards, i + 1, target);
        GrowsTransitive(s.cands, c, r.cands);
      }
    }
  }

  /**
   * The shard loop records only fetched shards, only appends to the record,
   * and draws every candidate from the archives it records.
   */
  lemma {:induction false} ScanShardsDrawn(s: ScanState, shards: seq<Option<Archive>>, i: nat, target: int)
    requires i <= |shards| && UsedOk(shards, s.used)
    requires DrawnFrom(s.cands, KeysIn(Edited, UsedArchives(shards, s.used)))
    ensures var r := ScanShards(s, shards, i, target);
      UsedOk(shards, r.used) && DrawnFrom(r.cands, KeysIn(Edited, UsedArchives(shards, r.used))) &&
      Extends(r.used, s.used)
    decreases |shards| - i
  {
    var r := ScanShards(s, shards, i, target);
    if i == |shards| {
    } else if shards[i].None? {
      ScanShardsDrawn(s, shards, i + 1, target);
    } else {
      var (c, hit) := ScanArchive(s.cands, shards[i].value, target);
      var t := ScanState(c, s.used + (if hit then [i, i] else [i]));
      ShardDrawn(s, shards, i, target);
      if |c.keys| >= target {
        assert r == t;
      } else {
        assert r == ScanShards(t, shards, i + 1, target);
        ScanShardsDrawn(t, shards, i + 1, target);
        ExtendsTransitive(r.used, t.used, s.used);
      }
    }
  }

  /** One fetched shard of the loop keeps the record and the candidates drawn from it. */
  lemma ShardDrawn(s: ScanState, shards: seq<Option<Archive>>, i: nat, target: int)
    requires i < |shards| && shards[i].Some? && UsedOk(shards, s.used)
    requires DrawnFrom(s.cands, KeysIn(Edited, UsedArchives(shards, s.used)))
    ensures var (c, hit) := ScanArchive(s.cands, shards[i].value, target);
      var used := s.used + (if hit then [i, i] else [i]);
      UsedOk(shards, used) && DrawnFrom(c, KeysIn(Edited, UsedArchives(shards, used))) && Extends(used, s.used)
  {
    var a := shards[i].value;
    var (c, hit) := ScanArchive(s.cands, a, target);
    var names := KeysIn(Edited, UsedArchives(shards, s.used));
    ScanArchiveDrawn(s.cands, a, target, names);
    var used := s.used + (if hit then [i, i] else [i]);
    RecordShard(shards, s.used, i, hit);
    DrawnMore(c, names + FileKeys(Edited, a), KeysIn(Edited, UsedArchives(shards, used)));
  }

  /** One round of the shard loop. */
  lemma ScanShardsStep(s: ScanState, shards: seq<Option<Archive>>, i: nat, target: int)
    requires i < |shards| && shards[i].Some?
    ensures var r := ScanArchive(s.cands, shards[i].value, target);
      var t := ScanState(r.0, s.used + (if r.1 then [i, i] else [i]));
      ScanShards(s, shards, i, target) == if |r.0.keys| >= target then t else ScanShards(t, shards, i + 1, target)
  {
  }

  /**
   * The member loop over one fetched edited archive: admits members in order
   * and leaves at the admission that brings the number of ids to `target`.
   */
  method ScanMembers(c0: Candidates, a: Archive, target: int) returns (c: Candidates, hit: bool)
    ensures c == ScanArchive(c0, a, target).0 && hit == ScanArchive(c0, a, target).1
  {
    c, hit := c0, false;
    var j := 0;
    while j < |a|
      invariant 0 <= j <= |a|
      invariant ScanArchive(c, a[j..], target) == ScanArchive(c0, a, target)
      decreases |a| - j
    {
      assert a[j..][1..] == a[j + 1..];
      var admitted := AdmittedId(a[j]);
      if admitted.Some? {
        c := Add(c, admitted.value, Basename(a[j].name));
        if |c.keys| >= target {
          hit := true;
          return;
        }
      }
      j := j + 1;
    }
  }

  /**
   * The scan loop: walks the edited shards in order, skipping those whose
   * fetch failed, records each scanned shard as used (twice when the member
   * loop left early), and stops as soon as the number of ids reaches `target`.
   */
  method ScanEdited(shards: seq<Option<Archive>>, target: int) returns (c: Candidates, used: seq<nat>)
    ensures ScanState(c, used) == Scan(shards, target)
    ensures Valid(c) && |c.keys| <= Cap(target)
    ensures UsedOk(shards, used) && DrawnFrom(c, KeysIn(Edited, UsedArchives(shards, used)))
  {
    c, used := NoCandidates, [];
    var i := 0;
    while i < |shards|
      invariant 0 <= i <= |shards|
      invariant ScanShards(ScanState(c, used), shards, i, target) == Scan(shards, target)
      decreases |shards| - i
    {
      ghost var before := ScanState(c, used);
      if shards[i].Some? {
        var hit;
        c, hit := ScanMembers(c, shards[i].value, target);
        if hit {
          used := used + [i];
        }
        used := used + [i];
        assert used == before.used + (if hit then [i, i] else [i]);
        ScanShardsStep(before, shards, i, target);
        if |c.keys| >= target {
          break;
        }
      }
      i := i + 1;
    }
    ScanShardsValid(ScanState(NoCandidates, []), shards, 0, target);
    ScanShardsDrawn(ScanState(NoCandidates, []), shards, 0, target);
  }

  /** No member of `a` is admitted. */
  ghost predicate Quiet(a: Archive)
  {
    forall j :: 0 <= j < |a| ==> AdmittedId(a[j]).None?
  }

  /** No fetched shard from index `i` on holds an admitted member. */
  ghost predicate NoneAdmitted(shards: seq<Option<Archive>>, i: nat)
  {
    forall k :: i <= k < |shards| && shards[k].Some? ==> Quiet(shards[k].value)
  }

  /** An archive with nothing to admit leaves the map as it is, without a hit. */
  lemma {:induction false} ScanArchiveQuiet(c: Candidates, a: Archive, target: int)
    requires Quiet(a)
    ensures ScanArchive(c, a, target) == (c, false)
    decreases |a|
  {
    if a != [] {
      assert AdmittedId(a[0]).None?;
      assert Quiet(a[1..]) by {
        forall j | 0 <= j < |a| - 1 ensures AdmittedId(a[1..][j]).None? {
          assert a[1..][j] == a[j + 1];
        }
      }
      ScanArchiveQuiet(c, a[1..], target);
    }
  }

  /** An archive with an admissible member leaves at least one id. */
  lemma ScanArchiveLoud(c: Candidates, a: Archive, target: int)
    requires Valid(c) && !Quiet(a)
    ensures ScanArchive(c, a, target).0.keys != []
  {
    var j :| 0 <= j < |a| && AdmittedId(a[j]).Some?;
    ScanArchiveLoudAt(c, a, target, j);
  }

  /** An archive whose member `j` is admitted leaves at least one id. */
  lemma {:induction false} ScanArchiveLoudAt(c: Candidates, a: Archive, target: int, j: nat)
    requires Valid(c) && j < |a| && AdmittedId(a[j]).Some?
    ensures ScanArchive(c, a, target).0.keys != []
    decreases j, 1
  {
    if AdmittedId(a[0]).Some? {
      ScanArchiveHit(c, a, target, AdmittedId(a[0]).value);
    } else {
      ScanArchivePass(c, a, target, j);
    }
  }

  /** The same, when the first member is passed over. */
  lemma {:induction false} ScanArchivePass(c: Candidates, a: Archive, target: int, j: nat)
    requires Valid(c) && j < |a| && AdmittedId(a[j]).Some? && AdmittedId(a[0]).None?
    ensures ScanArchive(c, a, target).0.keys != []
    decreases j, 0
  {
    assert j != 0;
    ScanArchiveSkip(c, a, target);
    assert a[1..][j - 1] == a[j];
    ScanArchiveLoudAt(c, a[1..], target, j - 1);
  }

  /** A member that is not admitted is passed over. */
  lemma ScanArchiveSkip(c: Candidates, a: Archive, target: int)
    requires a != [] && AdmittedId(a[0]).None?
    ensures ScanArchive(c, a, target) == ScanArchive(c, a[1..], target)
  {
  }

  /** An archive whose first member is admitted leaves at least one id. */
  lemma ScanArchiveHit(c: Candidates, a: Archive, target: int, id: string)
    requires Valid(c) && a != [] && AdmittedId(a[0]) == Some(id)
    ensures ScanArchive(c, a, target).0.keys != []
  {
    var d := Add(c, id, Basename(a[0].name));
    assert d.keys != [] by {
      if id in c.lists {
        assert id in c.keys;
      }
    }
    if |d.keys| < target {
      ScanArchiveKeys(d, a[1..], target);
    }
  }

  /** The archive scan never drops an id. */
  lemma {:induction false} ScanArchiveKeys(c: Candidates, a: Archive, target: int)
    ensures |ScanArchive(c, a, target).0.keys| >= |c.keys|
    decreases |a|
  {
    if a != [] {
      match AdmittedId(a[0])
      case None =>
        ScanArchiveKeys(c, a[1..], target);
      case Some(id) =>
        var d := Add(c, id, Basename(a[0].name));
        ScanArchiveKeys(d, a[1..], target);
    }
  }

  /**
   * With a positive target, the scan from shard `i` on, started with no
   * candidates, ends with none exactly when none of those shards holds an
   * admissible member.
   */
  lemma {:induction false} ScanShardsEmpty(used: seq<nat>, shards: seq<Option<Archive>>, i: nat, target: int)
    requires i <= |shards| && target >= 1
    ensures ScanShards(ScanState(NoCandidates, used), shards, i, target).cands.keys == [] <==> NoneAdmitted(shards, i)
    decreases |shards| - i
  {
    var s := ScanState(NoCandidates, used);
    if i < |shards| {
      match shards[i]
      case None =>
        ScanShardsEmpty(used, shards, i + 1, target);
      case Some(a) =>
        if Quiet(a) {
          ScanArchiveQuiet(NoCandidates, a, target);
          ScanShardsEmpty(used + [i], shards, i + 1, target);
        } else {
          var r := ScanArchive(NoCandidates, a, target);
          ScanArchiveLoud(NoCandidates, a, target);
          ScanArchiveValid(NoCandidates, a, target);
          ScanArchiveBound(NoCandidates, a, target);
          if |r.0.keys| < target {
            ScanShardsValid(ScanState(r.0, used + (if r.1 then [i, i] else [i])), shards, i + 1, target);
          }
        }
    }
  }

  /** The base name of the first member of `a` admitted under `id`. */
  function FirstIn(a: Archive, id: string): Option<string>
  {
    if a == [] then None
    else if AdmittedId(a[0]) == Some(id) then Some(Basename(a[0].name))
    else FirstIn(a[1..], id)
  }

  /** The base name of the first member admitted under `id` in the fetched shards, in shard order. */
  function FirstOf(shards: seq<Option<Archive>>, id: string): Option<string>
  {
    if shards == [] then None
    else if shards[0].Some? && FirstIn(shards[0].value, id).Some? then FirstIn(shards[0].value, id)
    else FirstOf(shards[1..], id)
  }

  /** Growing keeps the first entry of every list. */
  lemma GrowsFirst(c: Candidates, d: Candidates, id: string)
    requires Valid(c) && Grows(c, d) && id in c.lists
    ensures id in d.lists && d.lists[id][0] == c.lists[id][0]
  {
    assert d.lists[id][..|c.lists[id]|] == c.lists[id];
  }

  /** An id the scan of one archive adds starts its list with the first member admitted under it. */
  lemma {:induction false} ScanArchiveFirst(c: Candidates, a: Archive, target: int, id: string)
    requires Valid(c)
    ensures var r := ScanArchive(c, a, target).0;
      id in r.lists && id !in c.lists ==> r.lists[id] != [] && FirstIn(a, id) == Some(r.lists[id][0])
    decreases |a|
  {
    ScanArchiveValid(c, a, target);
    if a != [] {
      var r := ScanArchive(c, a, target);
      match AdmittedId(a[0])
      case None =>
        ScanArchiveFirst(c, a[1..], target, id);
      case Some(id') =>
        var f := Basename(a[0].name);
        var d := Add(c, id', f);
        AdmittedIdMeaning(a[0]);
        AddValid(c, id', f);
        if |d.keys| < target {
          ScanArchiveValid(d, a[1..], target);
          ScanArchiveFirst(d, a[1..], target, id);
          if id' == id && id !in c.lists {
            GrowsFirst(d, r.0, id);
          }
        }
    }
  }

  /** A scan of one archive that does not hit sees every member, so it adds every id admitted there. */
  lemma {:induction false} ScanArchiveComplete(c: Candidates, a: Archive, target: int, id: string)
    requires Valid(c)
    ensures var r := ScanArchive(c, a, target);
      !r.1 && FirstIn(a, id).Some? ==> id in r.0.lists
    decreases |a|
  {
    if a != [] {
      var r := ScanArchive(c, a, target);
      match AdmittedId(a[0])
      case None =>
        ScanArchiveComplete(c, a[1..], target, id);
      case Some(id') =>
        var f := Basename(a[0].name);
        var d := Add(c, id', f);
        AdmittedIdMeaning(a[0]);
        AddValid(c, id', f);
        if |d.keys| < target {
          ScanArchiveValid(d, a[1..], target);
          ScanArchiveComplete(d, a[1..], target, id);
        }
    }
  }

  /**
   * An id the shard loop adds starts its list with the first member admitted
   * under it across the shards, in shard order and member order.
   */
  lemma {:induction false} ScanShardsFirst(s: ScanState, shards: seq<Option<Archive>>, i: nat, target: int, id: string)
    requires i <= |shards| && Valid(s.cands) && |s.cands.keys| < Cap(target)
    ensures var r := ScanShards(s, shards, i, target);
      id in r.cands.lists && id !in s.cands.lists ==> r.cands.lists[id] != [] && FirstOf(shards[i..], id) == Some(r.cands.lists[id][0])
    decreases |shards| - i
  {
    ScanShardsValid(s, shards, i, target);
    if i < |shards| {
      var r := ScanShards(s, shards, i, target);
      assert shards[i..][1..] == shards[i + 1..];
      match shards[i]
      case None =>
        ScanShardsFirst(s, shards, i + 1, target, id);
      case Some(a) =>
        var rr := ScanArchive(s.cands, a, target);
        var t := ScanState(rr.0, s.used + (if rr.1 then [i, i] else [i]));
        ScanArchiveValid(s.cands, a, target);
        ScanArchiveBound(s.cands, a, target);
        ScanArchiveFirst(s.cands, a, target, id);
        ScanArchiveComplete(s.cands, a, target, id);
        if |rr.0.keys| < target {
          ScanShardsValid(t, shards, i + 1, target);
          ScanShardsFirst(t, shards, i + 1, target, id);
          if id in rr.0.lists {
            GrowsFirst(rr.0, r.cands, id);
          }
        }
    }
  }

  /** Each id's first candidate is the first member admitted under it in the edited shards. */
  lemma ScanFirst(shards: seq<Option<Archive>>, target: int, id: string)
    requires id in Scan(shards, target).cands.lists
    ensures Scan(shards, target).cands.lists[id] != [] && FirstOf(shards, id) == Some(Scan(shards, target).cands.lists[id][0])
  {
    ScanShardsFirst(ScanState(NoCandidates, []), shards, 0, target, id);
    assert shards[0..] == shards;
  }

  /** Whether the recorded shard indices strictly increase. */
  ghost predicate Increasing(u: seq<nat>)
  {
    forall j, k :: 0 <= j < k < |u| ==> u[j] < u[k]
  }

  /** Whether the record ends with its last shard written twice, after strictly increasing indices. */
  ghost predicate DoubledLast(u: seq<nat>)
  {
    |u| >= 2 && Increasing(u[..|u| - 1]) && u[|u| - 1] == u[|u| - 2]
  }

  /** A hit in the archive scan means the number of ids reached `target`. */
  lemma {:induction false} ScanArchiveHitKeys(c: Candidates, a: Archive, target: int)
    ensures ScanArchive(c, a, target).1 ==> |ScanArchive(c, a, target).0.keys| >= target
    decreases |a|
  {
    if a != [] {
      match AdmittedId(a[0])
      case None =>
        ScanArchiveHitKeys(c, a[1..], target);
      case Some(id) =>
        var d := Add(c, id, Basename(a[0].name));
        if |d.keys| < target {
          ScanArchiveHitKeys(d, a[1..], target);
        }
    }
  }

  /**
   * The shard loop records each shard it scans once, in order, except the
   * shard of a hit, which it records twice and last, since the loop then stops.
   */
  lemma {:induction false} ScanShardsShape(s: ScanState, shards: seq<Option<Archive>>, i: nat, target: int)
    requires i <= |shards|
    requires Increasing(s.used) && forall k :: 0 <= k < |s.used| ==> s.used[k] < i
    ensures var u := ScanShards(s, shards, i, target).used; Increasing(u) || DoubledLast(u)
    decreases |shards| - i
  {
    if i < |shards| {
      match shards[i]
      case None =>
        ScanShardsShape(s, shards, i + 1, target);
      case Some(a) =>
        var r := ScanArchive(s.cands, a, target);
        ScanArchiveHitKeys(s.cands, a, target);
        var once := s.used + [i];
        assert Increasing(once);
        if r.1 {
          var twice := s.used + [i, i];
          assert twice[..|twice| - 1] == once;
          assert DoubledLast(twice);
        } else if |r.0.keys| < target {
          ScanShardsShape(ScanState(r.0, once), shards, i + 1, target);
        }
    }
  }

  /* ----------------------------------------------------------- selection */

  /** The ids are distinct and all have candidates. */
  ghost predicate Selectable(c: Candidates, ids: seq<string>)
  {
    (forall k :: 0 <= k < |ids| ==> ids[k] in c.lists) &&
    (forall i, j :: 0 <= i < j < |ids| ==> ids[i] != ids[j])
  }

  /** The first candidate of each id: `want_edited_names`. */
  function FirstNames(c: Candidates, ids: seq<string>): set<string>
    requires Valid(c) && forall k :: 0 <= k < |ids| ==> ids[k] in c.lists
  {
    if ids == [] then {} else FirstNames(c, ids[..|ids| - 1]) + {c.lists[ids[|ids| - 1]][0]}
  }

  /** The wanted names are exactly the first candidates of the selected ids. */
  lemma {:induction false} FirstNamesMembers(c: Candidates, ids: seq<string>)
    requires Valid(c) && forall k :: 0 <= k < |ids| ==> ids[k] in c.lists
    ensures forall k :: 0 <= k < |ids| ==> c.lists[ids[k]][0] in FirstNames(c, ids)
    ensures forall f :: f in FirstNames(c, ids) ==> exists k :: 0 <= k < |ids| && f == c.lists[ids[k]][0]
  {
    if ids != [] {
      var init := ids[..|ids| - 1];
      FirstNamesMembers(c, init);
      forall f | f in FirstNames(c, ids) ensures exists k :: 0 <= k < |ids| && f == c.lists[ids[k]][0] {
        if f in FirstNames(c, init) {
          var k :| 0 <= k < |init| && f == c.lists[init[k]][0];
          assert ids[k] == init[k];
        } else {
          assert f == c.lists[ids[|ids| - 1]][0];
        }
      }
    }
  }

  /** A first candidate that starts with an id and `_` belongs to that id. */
  lemma FirstNameOwner(c: Candidates, id: string, owner: string)
    requires Valid(c) && id in c.lists && owner in c.lists
    requires StartsWith(c.lists[owner][0], id + "_")
    ensures id == owner
  {
    var f := c.lists[owner][0];
    assert f in c.lists[owner];
    HexPrefixUnique(f, id, owner);
  }

  /** Distinct ids have distinct first candidates. */
  lemma FirstNameDistinct(c: Candidates, id1: string, id2: string)
    requires Valid(c) && id1 in c.lists && id2 in c.lists && id1 != id2
    ensures c.lists[id1][0] != c.lists[id2][0]
  {
    var f1, f2 := c.lists[id1][0], c.lists[id2][0];
    assert f1 in c.lists[id1] && f2 in c.lists[id2];
    HexPrefixDistinct(f1, f2, id1, id2);
  }

  /** A wanted name that starts with a selected id and `_` is that id's first candidate. */
  lemma FirstNamesUnique(c: Candidates, ids: seq<string>, f: string, id: string)
    requires Valid(c) && forall k :: 0 <= k < |ids| ==> ids[k] in c.lists
    requires f in FirstNames(c, ids) && id in c.lists && StartsWith(f, id + "_")
    ensures f == c.lists[id][0]
  {
    FirstNamesMembers(c, ids);
    var k :| 0 <= k < |ids| && f == c.lists[ids[k]][0];
    FirstNameOwner(c, id, ids[k]);
  }

  /** Distinct ids give distinct first candidates: one wanted name per selected id. */
  lemma {:induction false} FirstNamesCount(c: Candidates, ids: seq<string>)
    requires Valid(c) && Selectable(c, ids)
    ensures |FirstNames(c, ids)| == |ids|
  {
    if ids != [] {
      var init, last := ids[..|ids| - 1], ids[|ids| - 1];
      assert Selectable(c, init);
      FirstNamesCount(c, init);
      FirstNameFresh(c, ids);
    }
  }

  /** The last selected id's first candidate is none of the earlier ids' first candidates. */
  lemma FirstNameFresh(c: Candidates, ids: seq<string>)
    requires Valid(c) && Selectable(c, ids) && ids != []
    ensures c.lists[ids[|ids| - 1]][0] !in FirstNames(c, ids[..|ids| - 1])
  {
    var init, last := ids[..|ids| - 1], ids[|ids| - 1];
    var g := c.lists[last][0];
    FirstNamesMembers(c, init);
    forall k | 0 <= k < |init| ensures c.lists[init[k]][0] != g {
      assert init[k] == ids[k];
      FirstNameDistinct(c, init[k], last);
    }
  }

  /** The ids selected from a valid map are selectable. */
  lemma PrefixSelectable(c: Candidates, n: int)
    requires Valid(c)
    ensures Selectable(c, PyPrefix(c.keys, n))
  {
    var ids := PyPrefix(c.keys, n);
    assert forall k :: 0 <= k < |ids| ==> ids[k] == c.keys[k];
  }

  /**
   * The selection: the first `n_pairs` ids in insertion order, as Python's
   * `[:n_pairs]` takes them, and the first candidate of each.
   */
  method SelectPairs(c: Candidates, nPairs: int) returns (origIds: seq<string>, want: set<string>)
    requires Valid(c)
    ensures origIds == PyPrefix(c.keys, nPairs) && Selectable(c, origIds)
    ensures want == FirstNames(c, origIds) && |want| == |origIds|
  {
    origIds := PyPrefix(c.keys, nPairs);
    PrefixSelectable(c, nPairs);
    want := {};
    var k := 0;
    while k < |origIds|
      invariant 0 <= k <= |origIds|
      invariant want == FirstNames(c, origIds[..k])
      decreases |origIds| - k
    {
      assert origIds[..k + 1][..k] == origIds[..k];
      want := want + {c.lists[origIds[k]][0]};
      k := k + 1;
    }
    assert origIds[..k] == origIds;
    FirstNamesCount(c, origIds);
  }

  /** Among the wanted names, exactly one starts with a selected id and `_`: that id's first candidate. */
  lemma EditedForUnique(c: Candidates, ids: seq<string>, k: int)
    requires Valid(c) && Selectable(c, ids) && 0 <= k < |ids|
    ensures EditedFor(FirstNames(c, ids), ids[k]) == {c.lists[ids[k]][0]}
  {
    var id := ids[k];
    FirstNamesMembers(c, ids);
    assert c.lists[id][0] in c.lists[id];
    forall f | f in EditedFor(FirstNames(c, ids), id) ensures f == c.lists[id][0] {
      FirstNamesUnique(c, ids, f, id);
    }
  }

  /* ---------------------------------------------------------- extraction */

  /**
   * The member loop of an extraction over one archive: a regular file whose
   * key is wanted and not yet saved is extracted, so the first member with a
   * key wins. What ends up saved is what was saved before plus the wanted
   * keys of the archive's regular files.
   */
  function ExtractArchive(side: Side, saved: set<string>, a: Archive, wanted: set<string>): (r: set<string>)
    ensures r == saved + FileKeys(side, a) * wanted
    decreases |a|
  {
    if a == [] then saved
    else
      var k := KeyOf(side, a[0]);
      ExtractArchive(side, if a[0].isFile && k in wanted && k !in saved then saved + {k} else saved, a[1..], wanted)
  }

  /**
   * The shard loop of an extraction: skips shards whose fetch failed and
   * stops after the first archive that leaves as many keys saved as wanted.
   * It never saves an unwanted key, and when every wanted key is among the
   * keys of the archives it can reach, it saves them all.
   */
  function ExtractShards(side: Side, saved: set<string>, shards: seq<Option<Archive>>, wanted: set<string>): (r: set<string>)
    ensures saved <= r <= saved + wanted
    ensures r <= saved + KeysIn(side, shards)
    ensures saved <= wanted && wanted <= saved + KeysIn(side, shards) ==> r == wanted
    decreases |shards|
  {
    if shards == [] then saved
    else match shards[0]
      case None => ExtractShards(side, saved, shards[1..], wanted)
      case Some(a) =>
        var s := ExtractArchive(side, saved, a, wanted);
        if |s| == |wanted| then
          if saved <= wanted then SameSize(s, wanted); s else s
        else ExtractShards(side, s, shards[1..], wanted)
  }

  /** A subset as large as its superset is the superset. */
  lemma SameSize<T>(s: set<T>, t: set<T>)
    requires s <= t && |s| == |t|
    ensures s == t
  {
    var d := t - s;
    assert t == s + d && s * d == {};
    assert |d| == 0;
  }

  /** One round of the extraction's member loop. */
  lemma ExtractArchiveStep(side: Side, saved: set<string>, a: Archive, j: nat, wanted: set<string>)
    requires j < |a|
    ensures var k := KeyOf(side, a[j]);
      ExtractArchive(side, saved, a[j..], wanted) ==
      ExtractArchive(side, if a[j].isFile && k in wanted && k !in saved then saved + {k} else saved, a[j + 1..], wanted)
  {
    assert a[j..][0] == a[j] && a[j..][1..] == a[j + 1..];
  }

  /**
   * The member loop of an extraction, counting what it extracts like the
   * source's `picked`: every extraction saves a new key.
   */
  method ExtractMembers(side: Side, saved0: set<string>, a: Archive, wanted: set<string>) returns (saved: set<string>, picked: nat)
    ensures saved == ExtractArchive(side, saved0, a, wanted)
    ensures |saved| == |saved0| + picked
  {
    saved, picked := saved0, 0;
    var j := 0;
    while j < |a|
      invariant 0 <= j <= |a|
      invariant ExtractArchive(side, saved, a[j..], wanted) == ExtractArchive(side, saved0, a, wanted)
      invariant |saved| == |saved0| + picked
      decreases |a| - j
    {
      ExtractArchiveStep(side, saved, a, j, wanted);
      if a[j].isFile {
        var k := KeyOf(side, a[j]);
        if k in wanted && k !in saved {
          saved := saved + {k};
          picked := picked + 1;
        }
      }
      j := j + 1;
    }
  }

  /**
   * The shard loop of an extraction: each key is extracted at most once,
   * so the number of extractions is the number of keys saved.
   */
  method Extract(side: Side, shards: seq<Option<Archive>>, wanted: set<string>) returns (saved: set<string>, extracted: nat)
    ensures saved == ExtractShards(side, {}, shards, wanted)
    ensures extracted == |saved|
  {
    saved, extracted := {}, 0;
    var i := 0;
    while i < |shards|
      invariant 0 <= i <= |shards|
      invariant ExtractShards(side, saved, shards[i..], wanted) == ExtractShards(side, {}, shards, wanted)
      invariant extracted == |saved|
      decreases |shards| - i
    {
      ExtractShardsStep(side, saved, shards, i, wanted);
      if shards[i].Some? {
        var picked;
        saved, picked := ExtractMembers(side, saved, shards[i].value, wanted);
        extracted := extracted + picked;
        if |saved| == |wanted| {
          break;
        }
      }
      i := i + 1;
    }
    assert shards[|shards|..] == [];
  }

  /** One round of the extraction's shard loop: it skips a failed fetch, stops at an archive that completes the wanted keys, or goes on from what it saved. */
  lemma ExtractShardsStep(side: Side, saved: set<string>, shards: seq<Option<Archive>>, i: nat, wanted: set<string>)
    requires i < |shards|
    ensures shards[i].None? ==> ExtractShards(side, saved, shards[i..], wanted) == ExtractShards(side, saved, shards[i + 1..], wanted)
    ensures shards[i].Some? ==> var s := ExtractArchive(side, saved, shards[i].value, wanted);
      ExtractShards(side, saved, shards[i..], wanted) == if |s| == |wanted| then s else ExtractShards(side, s, shards[i + 1..], wanted)
  {
    assert shards[i..][0] == shards[i] && shards[i..][1..] == shards[i + 1..];
  }

  /**
   * How many entries of `shards` the extraction's shard loop goes through
   * before it stops, counting the one it stops at.
   */
  ghost function ExtractVisits(side: Side, saved: set<string>, shards: seq<Option<Archive>>, wanted: set<string>): (r: nat)
    ensures r <= |shards|
    decreases |shards|
  {
    if shards == [] then 0
    else match shards[0]
      case None => 1 + ExtractVisits(side, saved, shards[1..], wanted)
      case Some(a) =>
        var s := ExtractArchive(side, saved, a, wanted);
        if |s| == |wanted| then 1 else 1 + ExtractVisits(side, s, shards[1..], wanted)
  }

  /**
   * When the wanted keys are all among those already saved and those of the
   * fetched archives `pre`, a loop over `pre` and then `post` stops within `pre`.
   */
  lemma {:induction false} ExtractVisitsWithin(side: Side, saved: set<string>, pre: seq<Option<Archive>>, post: seq<Option<Archive>>, wanted: set<string>)
    requires pre != [] && forall k :: 0 <= k < |pre| ==> pre[k].Some?
    requires saved <= wanted && wanted <= saved + KeysIn(side, pre)
    ensures ExtractVisits(side, saved, pre + post, wanted) <= |pre|
    decreases |pre|
  {
    var shards := pre + post;
    assert shards[0] == pre[0];
    var a := pre[0].value;
    var s := ExtractArchive(side, saved, a, wanted);
    ExtractCovers(side, saved, a, wanted, KeysIn(side, pre[1..]));
    if |pre| == 1 {
      assert pre[1..] == [];
      assert s == wanted;
    }
    if |s| == |wanted| {
      ExtractVisitsStop(side, saved, shards, wanted);
    } else {
      ExtractVisitsNext(side, saved, shards, wanted);
      TailOfAppend(pre, post);
      ExtractVisitsWithin(side, s, pre[1..], post, wanted);
    }
  }

  /** Dropping the head of `pre + post` drops the head of `pre`. */
  lemma TailOfAppend<T>(pre: seq<T>, post: seq<T>)
    requires pre != []
    ensures (pre + post)[1..] == pre[1..] + post
  {
  }

  /** The loop stops at an archive that leaves as many keys saved as wanted. */
  lemma ExtractVisitsStop(side: Side, saved: set<string>, shards: seq<Option<Archive>>, wanted: set<string>)
    requires shards != [] && shards[0].Some?
    requires |ExtractArchive(side, saved, shards[0].value, wanted)| == |wanted|
    ensures ExtractVisits(side, saved, shards, wanted) == 1
  {
  }

  /** The loop goes on past an archive that leaves wanted keys unsaved. */
  lemma ExtractVisitsNext(side: Side, saved: set<string>, shards: seq<Option<Archive>>, wanted: set<string>)
    requires shards != [] && shards[0].Some?
    requires |ExtractArchive(side, saved, shards[0].value, wanted)| != |wanted|
    ensures ExtractVisits(side, saved, shards, wanted) == 1 + ExtractVisits(side, ExtractArchive(side, saved, shards[0].value, wanted), shards[1..], wanted)
  {
  }

  /** What one archive leaves unsaved of the wanted keys is among the keys still to come. */
  lemma ExtractCovers(side: Side, saved: set<string>, a: Archive, wanted: set<string>, rest: set<string>)
    requires saved <= wanted && wanted <= saved + FileKeys(side, a) + rest
    ensures var s := ExtractArchive(side, saved, a, wanted); s <= wanted && wanted <= s + rest
  {
  }

  /* ---------------------------------------------------------------- join */

  /** The saved edited names that start with `oid` and `_`. */
  function EditedFor(savedEdited: set<string>, oid: string): set<string>
  {
    set n | n in savedEdited && StartsWith(n, oid + "_")
  }

  /** Whether `xs` is `ys` with some elements left out, the rest in order. */
  ghost predicate Subsequence<T>(xs: seq<T>, ys: seq<T>)
    decreases |ys|
  {
    xs == [] || (ys != [] && (if xs[0] == ys[0] then Subsequence(xs[1..], ys[1..]) else Subsequence(xs, ys[1..])))
  }

  /**
   * The join loop from the current id on, with `have` rows already built:
   * an id gets a row when an edited name for it and its original were both
   * saved, and the loop stops at the row that makes `have` reach `n_pairs`.
   * The ids that get rows are an order-preserving selection of the input,
   * no more than `n_pairs - have` of them when `have` is below `n_pairs`.
   */
  function JoinFrom(ids: seq<string>, savedEdited: set<string>, savedOrig: set<string>, nPairs: int, have: nat): (r: seq<string>)
    ensures Subsequence(r, ids)
    ensures forall x :: x in r ==> EditedFor(savedEdited, x) != {} && x in savedOrig
    ensures have < nPairs ==> |r| <= nPairs - have
    ensures (forall i, j :: 0 <= i < j < |ids| ==> ids[i] != ids[j]) ==> forall i, j :: 0 <= i < j < |r| ==> r[i] != r[j]
    decreases |ids|
  {
    if ids == [] then []
    else
      var rest := JoinFrom(ids[1..], savedEdited, savedOrig, nPairs, if EditedFor(savedEdited, ids[0]) != {} && ids[0] in savedOrig then have + 1 else have);
      assert forall x :: x in rest ==> x in ids[1..] by {
        SubsequenceIn(rest, ids[1..]);
      }
      assert (forall i, j :: 0 <= i < j < |ids| ==> ids[i] != ids[j]) ==> ids[0] !in ids[1..] by {
        if forall i, j :: 0 <= i < j < |ids| ==> ids[i] != ids[j] {
          forall k | 0 <= k < |ids| - 1 ensures ids[1..][k] != ids[0] {
            assert ids[1..][k] == ids[k + 1];
          }
        }
      }
      if EditedFor(savedEdited, ids[0]) != {} && ids[0] in savedOrig then
        if have + 1 == nPairs then [ids[0]] else [ids[0]] + rest
      else rest
  }

  lemma {:induction false} SubsequenceIn<T>(xs: seq<T>, ys: seq<T>)
    requires Subsequence(xs, ys)
    ensures forall x :: x in xs ==> x in ys
    decreases |ys|
  {
    if xs != [] {
      if xs[0] == ys[0] {
        SubsequenceIn(xs[1..], ys[1..]);
        assert forall x :: x in xs ==> x == xs[0] || x in xs[1..];
      } else {
        SubsequenceIn(xs, ys[1..]);
      }
    }
  }

  /** The ids that get manifest rows. */
  function Joinable(ids: seq<string>, savedEdited: set<string>, savedOrig: set<string>, nPairs: int): seq<string>
  {
    JoinFrom(ids, savedEdited, savedOrig, nPairs, 0)
  }

  /** The manifest row for a selected id, naming its first candidate and `<id>.jpg` in the output directory. */
  function PairRow(out: string, source: string, model: string, c: Candidates, oid: string): Row
    requires Valid(c) && oid in c.lists
  {
    Row(Join(out, c.lists[oid][0]), Join(out, oid + ".jpg"), source, model)
  }

  function PairRows(out: string, source: string, model: string, c: Candidates, oids: seq<string>): (rows: seq<Row>)
    requires Valid(c) && forall k :: 0 <= k < |oids| ==> oids[k] in c.lists
    ensures |rows| == |oids| && forall k :: 0 <= k < |oids| ==> rows[k] == PairRow(out, source, model, c, oids[k])
  {
    if oids == [] then [] else [PairRow(out, source, model, c, oids[0])] + PairRows(out, source, model, c, oids[1..])
  }

  /**
   * One row per id, in order: the original is `<id>.jpg` in the output
   * directory, and the edited image is a saved edited name for that id.
   */
  ghost predicate RowsFor(out: string, source: string, model: string, savedEdited: set<string>, oids: seq<string>, rows: seq<Row>)
  {
    |rows| == |oids| && forall k :: 0 <= k < |rows| ==> RowFor(out, source, model, savedEdited, oids[k], rows[k])
  }

  /** The row for `oid`: its original `<oid>.jpg` and a saved edited name for `oid`, in the output directory. */
  ghost predicate RowFor(out: string, source: string, model: string, savedEdited: set<string>, oid: string, row: Row)
  {
    row.originalLocal == Join(out, oid + ".jpg") && row.dataset == source && row.diffusionModel == model &&
    StartsWith(row.editedLocal, out + "/") && row.editedLocal[|out| + 1..] in EditedFor(savedEdited, oid)
  }

  /**
   * The join loop: in selection order, an id whose original was saved and
   * for which some saved edited name starts with the id and `_` gets a row
   * naming one such edited name (the first the set yields) and `<id>.jpg`.
   */
  method BuildRows(out: string, source: string, model: string, origIds: seq<string>, savedEdited: set<string>, savedOrig: set<string>, nPairs: int)
    returns (rows: seq<Row>)
    ensures RowsFor(out, source, model, savedEdited, Joinable(origIds, savedEdited, savedOrig, nPairs), rows)
  {
    rows := [];
    var have := 0;
    ghost var chosen: seq<string> := [];
    ghost var j := Joinable(origIds, savedEdited, savedOrig, nPairs);
    var k := 0;
    while k < |origIds|
      invariant 0 <= k <= |origIds|
      invariant have == |chosen|
      invariant chosen + JoinFrom(origIds[k..], savedEdited, savedOrig, nPairs, have) == j
      invariant RowsFor(out, source, model, savedEdited, chosen, rows)
      decreases |origIds| - k
    {
      var oid := origIds[k];
      var edited := EditedFor(savedEdited, oid);
      JoinAdvance(origIds, k, savedEdited, savedOrig, nPairs, have, chosen, j);
      if edited != {} && oid in savedOrig {
        var e :| e in edited;
        RowsForSnoc(out, source, model, savedEdited, chosen, rows, oid, e);
        rows := rows + [Row(Join(out, e), Join(out, oid + ".jpg"), source, model)];
        chosen := chosen + [oid];
        have := have + 1;
        if have == nPairs {
          break;
        }
      }
      k := k + 1;
    }
  }

  /** One round of the join loop: what is left to choose after id `k`. */
  lemma JoinAdvance(ids: seq<string>, k: nat, savedEdited: set<string>, savedOrig: set<string>, nPairs: int, have: nat,
                    chosen: seq<string>, j: seq<string>)
    requires k < |ids|
    requires chosen + JoinFrom(ids[k..], savedEdited, savedOrig, nPairs, have) == j
    ensures EditedFor(savedEdited, ids[k]) != {} && ids[k] in savedOrig ==>
      if have + 1 == nPairs then chosen + [ids[k]] == j
      else (chosen + [ids[k]]) + JoinFrom(ids[k + 1..], savedEdited, savedOrig, nPairs, have + 1) == j
    ensures !(EditedFor(savedEdited, ids[k]) != {} && ids[k] in savedOrig) ==>
      chosen + JoinFrom(ids[k + 1..], savedEdited, savedOrig, nPairs, have) == j
  {
    assert ids[k..][0] == ids[k] && ids[k..][1..] == ids[k + 1..];
    var tail := JoinFrom(ids[k + 1..], savedEdited, savedOrig, nPairs, have + 1);
    assert chosen + ([ids[k]] + tail) == (chosen + [ids[k]]) + tail;
  }

  /** Appending the row for `oid` and a saved edited name `e` for it. */
  lemma RowsForSnoc(out: string, source: string, model: string, savedEdited: set<string>, oids: seq<string>, rows: seq<Row>, oid: string, e: string)
    requires RowsFor(out, source, model, savedEdited, oids, rows)
    requires e in EditedFor(savedEdited, oid)
    ensures RowsFor(out, source, model, savedEdited, oids + [oid], rows + [Row(Join(out, e), Join(out, oid + ".jpg"), source, model)])
  {
    var row := Row(Join(out, e), Join(out, oid + ".jpg"), source, model);
    assert row.editedLocal[..|out| + 1] == out + "/";
    assert row.editedLocal[|out| + 1..] == e;
  }


  /** Writing the manifest: the header line, then one comma-joined line per row. */
  method WriteManifest(rows: seq<Row>) returns (text: string)
    ensures text == Text(rows)
  {
    text := Header + "\n";
    var k := 0;
    while k < |rows|
      invariant 0 <= k <= |rows|
      invariant text + Lines(rows[k..]) == Text(rows)
      decreases |rows| - k
    {
      assert rows[k..][1..] == rows[k + 1..];
      text := text + (RowLine(rows[k]) + "\n");
      k := k + 1;
    }
  }

  /* ------------------------------------------------------------ pipeline */

  /** The command line: dataset, diffusion model, `n_pairs`, `oversample` and output directory. */
  datatype Config = Config(source: string, model: string, nPairs: int, oversample: int, out: string)

  /** How a run ends: with an error status, or with its rows and the manifest text written, if any. */
  datatype Outcome = Exit(status: int) | Done(rows: seq<Row>, written: Option<string>)

  /** What the scan leaves behind, with the facts the later stages rely on. */
  lemma ScanFacts(shards: seq<Option<Archive>>, target: int)
    ensures var s := Scan(shards, target);
      Valid(s.cands) && |s.cands.keys| <= Cap(target) &&
      UsedOk(shards, s.used) && DrawnFrom(s.cands, KeysIn(Edited, UsedArchives(shards, s.used)))
  {
    ScanShardsValid(ScanState(NoCandidates, []), shards, 0, target);
    ScanShardsDrawn(ScanState(NoCandidates, []), shards, 0, target);
  }

  /**
   * A whole run on the fetched edited and original shards: status 1 when the
   * scan finds no candidate, status 2 when no edited image is extracted,
   * and otherwise the joined rows, written out only when there are some.
   */
  function Pipeline(cfg: Config, edited: seq<Option<Archive>>, originals: seq<Option<Archive>>): Outcome
  {
    var s := Scan(edited, cfg.nPairs * cfg.oversample);
    if s.cands.keys == [] then Exit(1)
    else
      ScanFacts(edited, cfg.nPairs * cfg.oversample);
      PrefixSelectable(s.cands, cfg.nPairs);
      var ids := PyPrefix(s.cands.keys, cfg.nPairs);
      var savedEdited := ExtractShards(Edited, {}, UsedArchives(edited, s.used), FirstNames(s.cands, ids));
      if savedEdited == {} then Exit(2)
      else
        var rows := Joined(cfg, s.cands, ids, savedEdited, ExtractShards(Original, {}, originals, set oid | oid in ids));
        Done(rows, if rows == [] then None else Some(Text(rows)))
  }

  /** The rows the join builds from the saved names on both sides. */
  function Joined(cfg: Config, c: Candidates, ids: seq<string>, savedEdited: set<string>, savedOrig: set<string>): seq<Row>
    requires Valid(c) && Selectable(c, ids)
  {
    var oids := Joinable(ids, savedEdited, savedOrig, cfg.nPairs);
    JoinableSelectable(c, ids, oids);
    PairRows(cfg.out, cfg.source, cfg.model, c, oids)
  }

  /** The ids that get rows are selected ids, so they have candidates. */
  lemma JoinableSelectable(c: Candidates, ids: seq<string>, oids: seq<string>)
    requires Selectable(c, ids) && Subsequence(oids, ids)
    ensures forall k :: 0 <= k < |oids| ==> oids[k] in c.lists
  {
    SubsequenceIn(oids, ids);
    forall k | 0 <= k < |oids| ensures oids[k] in c.lists {
      assert oids[k] in oids;
      var j :| 0 <= j < |ids| && ids[j] == oids[k];
    }
  }

  /** A name that starts with `dir/` is `dir` joined with the rest. */
  lemma JoinRest(p: string, dir: string)
    requires StartsWith(p, dir + "/")
    ensures p == Join(dir, p[|dir| + 1..])
  {
    assert p == p[..|dir| + 1] + p[|dir| + 1..];
  }

  /**
   * Whatever saved edited name the join picks for an id, it is that id's
   * first candidate, since only first candidates are extracted: the rows
   * do not depend on the order in which the set of saved names is walked.
   */
  lemma RowsArePairRows(cfg: Config, c: Candidates, ids: seq<string>, savedEdited: set<string>, oids: seq<string>, rows: seq<Row>)
    requires Valid(c) && Selectable(c, ids) && savedEdited <= FirstNames(c, ids)
    requires forall k :: 0 <= k < |oids| ==> oids[k] in c.lists
    requires RowsFor(cfg.out, cfg.source, cfg.model, savedEdited, oids, rows)
    ensures rows == PairRows(cfg.out, cfg.source, cfg.model, c, oids)
  {
    forall k | 0 <= k < |rows| ensures rows[k] == PairRow(cfg.out, cfg.source, cfg.model, c, oids[k]) {
      var e := rows[k].editedLocal[|cfg.out| + 1..];
      assert e in savedEdited && StartsWith(e, oids[k] + "_");
      FirstNamesUnique(c, ids, e, oids[k]);
      JoinRest(rows[k].editedLocal, cfg.out);
    }
  }

  /** The script's main flow, stage by stage. */
  method Run(cfg: Config, edited: seq<Option<Archive>>, originals: seq<Option<Archive>>) returns (o: Outcome)
    ensures o == Pipeline(cfg, edited, originals)
  {
    var c, used := ScanEdited(edited, cfg.nPairs * cfg.oversample);
    if |c.keys| == 0 {
      return Exit(1);
    }
    var origIds, want := SelectPairs(c, cfg.nPairs);
    var savedEdited, _ := Extract(Edited, UsedArchives(edited, used), want);
    if |savedEdited| == 0 {
      return Exit(2);
    }
    var needed := set oid | oid in origIds;
    var savedOrig, _ := Extract(Original, originals, needed);
    var rows := BuildRows(cfg.out, cfg.source, cfg.model, origIds, savedEdited, savedOrig, cfg.nPairs);
    ghost var oids := Joinable(origIds, savedEdited, savedOrig, cfg.nPairs);
    JoinableSelectable(c, origIds, oids);
    RowsArePairRows(cfg, c, origIds, savedEdited, oids, rows);
    assert rows == Joined(cfg, c, origIds, savedEdited, savedOrig);
    if |rows| == 0 {
      return Done(rows, None);
    }
    var text := WriteManifest(rows);
    return Done(rows, Some(text));
  }

  /* ----------------------------------------------------- run properties */

  /** With a positive target, a run ends with status 1 exactly when no fetched edited shard holds an admissible member. */
  lemma ExitNoCandidates(cfg: Config, edited: seq<Option<Archive>>, originals: seq<Option<Archive>>)
    requires cfg.nPairs * cfg.oversample >= 1
    ensures Pipeline(cfg, edited, originals) == Exit(1) <==> NoneAdmitted(edited, 0)
  {
    ScanShardsEmpty([], edited, 0, cfg.nPairs * cfg.oversample);
  }

  /** The first candidates of selectable ids are among the names the candidates were drawn from. */
  lemma WantedDrawn(c: Candidates, ids: seq<string>, names: set<string>)
    requires Valid(c) && Selectable(c, ids) && DrawnFrom(c, names)
    ensures FirstNames(c, ids) <= names
  {
    FirstNamesMembers(c, ids);
    forall f | f in FirstNames(c, ids) ensures f in names {
      var k :| 0 <= k < |ids| && f == c.lists[ids[k]][0];
      assert f in c.lists[ids[k]];
    }
  }

  /**
   * Once the scan has candidates, the edited extraction saves every wanted
   * name, one per selected id: the wanted names come from the very archives
   * it reads.
   */
  lemma EditedSaved(cfg: Config, edited: seq<Option<Archive>>)
    ensures var s := Scan(edited, cfg.nPairs * cfg.oversample);
      var ids := PyPrefix(s.cands.keys, cfg.nPairs);
      Valid(s.cands) && Selectable(s.cands, ids) && UsedOk(edited, s.used) &&
      ExtractShards(Edited, {}, UsedArchives(edited, s.used), FirstNames(s.cands, ids)) == FirstNames(s.cands, ids) &&
      |FirstNames(s.cands, ids)| == |ids|
  {
    var s := Scan(edited, cfg.nPairs * cfg.oversample);
    var ids := PyPrefix(s.cands.keys, cfg.nPairs);
    ScanFacts(edited, cfg.nPairs * cfg.oversample);
    PrefixSelectable(s.cands, cfg.nPairs);
    WantedDrawn(s.cands, ids, KeysIn(Edited, UsedArchives(edited, s.used)));
    FirstNamesCount(s.cands, ids);
  }

  /**
   * With `--purge_tars` each edited archive is deleted after its extraction
   * pass. The pass never opens an archive twice: a hit records its shard a
   * second time, last, but every wanted name is saved by then and the loop
   * stops before that entry.
   */
  lemma PurgeOnce(cfg: Config, edited: seq<Option<Archive>>)
    ensures var s := Scan(edited, cfg.nPairs * cfg.oversample);
      var ids := PyPrefix(s.cands.keys, cfg.nPairs);
      Valid(s.cands) && UsedOk(edited, s.used) && Selectable(s.cands, ids) &&
      var v := ExtractVisits(Edited, {}, UsedArchives(edited, s.used), FirstNames(s.cands, ids));
      v <= |s.used| && forall j, k :: 0 <= j < k < v ==> s.used[j] != s.used[k]
  {
    var target := cfg.nPairs * cfg.oversample;
    var s := Scan(edited, target);
    var ids := PyPrefix(s.cands.keys, cfg.nPairs);
    var u := s.used;
    ScanFacts(edited, target);
    PrefixSelectable(s.cands, cfg.nPairs);
    ScanShardsShape(ScanState(NoCandidates, []), edited, 0, target);
    var shards := UsedArchives(edited, u);
    var wanted := FirstNames(s.cands, ids);
    var v := ExtractVisits(Edited, {}, shards, wanted);
    if DoubledLast(u) {
      var n := |u|;
      WantedDrawn(s.cands, ids, KeysIn(Edited, shards));
      KeysBeforeLast(Edited, shards);
      SplitLast(shards);
      ExtractVisitsWithin(Edited, {}, shards[..n - 1], [shards[n - 1]], wanted);
      DoubledLastDistinct(u, v);
    }
  }

  /** A sequence is its part before the last element, then the last element. */
  lemma SplitLast<T>(xs: seq<T>)
    requires xs != []
    ensures xs == xs[..|xs| - 1] + [xs[|xs| - 1]]
  {
  }

  /** An archive recorded a second time in a row adds no keys. */
  lemma KeysBeforeLast(side: Side, shards: seq<Option<Archive>>)
    requires |shards| >= 2 && shards[|shards| - 1] == shards[|shards| - 2]
    ensures KeysIn(side, shards) == KeysIn(side, shards[..|shards| - 1])
  {
    var n := |shards|;
    var init := shards[..n - 1];
    SplitLast(shards);
    KeysInAppend(side, init, shards[n - 1]);
    SplitLast(init);
    assert init[..n - 2] == shards[..n - 2];
    KeysInAppend(side, shards[..n - 2], shards[n - 2]);
  }

  /** Before its doubled last entry, a record holds no index twice. */
  lemma DoubledLastDistinct(u: seq<nat>, v: nat)
    requires DoubledLast(u) && v <= |u| - 1
    ensures forall j, k :: 0 <= j < k < v ==> u[j] != u[k]
  {
    var init := u[..|u| - 1];
    forall j, k | 0 <= j < k < v ensures u[j] != u[k] {
      assert u[j] == init[j] && u[k] == init[k];
    }
  }

  /**
   * A run ends with status 2 exactly when the scan found candidates but the
   * selection is empty, which a positive `n_pairs` rules out.
   */
  lemma ExitNoEdited(cfg: Config, edited: seq<Option<Archive>>, originals: seq<Option<Archive>>)
    ensures var keys := Scan(edited, cfg.nPairs * cfg.oversample).cands.keys;
      Pipeline(cfg, edited, originals) == Exit(2) <==> keys != [] && PyPrefix(keys, cfg.nPairs) == []
    ensures cfg.nPairs >= 1 ==> Pipeline(cfg, edited, originals) != Exit(2)
  {
    EditedSaved(cfg, edited);
  }

  /** The original id each manifest row names, in row order. */
  function RowIds(rows: seq<Row>): (ids: seq<string>)
    ensures |ids| == |rows| && forall k :: 0 <= k < |rows| ==> ids[k] == UniqueManifest.OrigId(rows[k])
  {
    if rows == [] then [] else [UniqueManifest.OrigId(rows[0])] + RowIds(rows[1..])
  }

  lemma {:induction false} SubsequenceLength<T>(xs: seq<T>, ys: seq<T>)
    requires Subsequence(xs, ys)
    ensures |xs| <= |ys|
    decreases |ys|
  {
    if xs != [] {
      if xs[0] == ys[0] {
        SubsequenceLength(xs[1..], ys[1..]);
      } else {
        SubsequenceLength(xs, ys[1..]);
      }
    }
  }

  /** The rows for the joined ids name those ids as their originals. */
  lemma PairRowIds(cfg: Config, c: Candidates, oids: seq<string>)
    requires Valid(c) && forall k :: 0 <= k < |oids| ==> oids[k] in c.lists
    ensures RowIds(PairRows(cfg.out, cfg.source, cfg.model, c, oids)) == oids
  {
    var rows := PairRows(cfg.out, cfg.source, cfg.model, c, oids);
    forall k | 0 <= k < |oids| ensures UniqueManifest.OrigId(rows[k]) == oids[k] {
      StemOfJoin(cfg.out, oids[k]);
    }
  }

  /**
   * The joined rows: at most one per selected id, in selection order, never
   * two for one original; each names `<id>.jpg` for an id whose original was
   * saved, and the id's first candidate.
   */
  lemma JoinedRows(cfg: Config, c: Candidates, ids: seq<string>, savedEdited: set<string>, savedOrig: set<string>)
    requires Valid(c) && Selectable(c, ids)
    ensures var rows := Joined(cfg, c, ids, savedEdited, savedOrig);
      Subsequence(RowIds(rows), ids) && |rows| <= |ids| &&
      UniqueManifest.DistinctKeys(rows, UniqueManifest.OrigId) &&
      forall k :: 0 <= k < |rows| ==>
        var oid := UniqueManifest.OrigId(rows[k]);
        oid in savedOrig && oid in c.lists && c.lists[oid] != [] &&
        rows[k] == Row(Join(cfg.out, c.lists[oid][0]), Join(cfg.out, oid + ".jpg"), cfg.source, cfg.model)
  {
    var oids := Joinable(ids, savedEdited, savedOrig, cfg.nPairs);
    JoinableSelectable(c, ids, oids);
    PairRowIds(cfg, c, oids);
    SubsequenceLength(oids, ids);
    assert forall k :: 0 <= k < |oids| ==> oids[k] in oids;
  }

  /** When every id passes the join's test, the join keeps them all, since the cut at `n_pairs` comes no earlier than the last. */
  lemma {:induction false} JoinFromAll(ids: seq<string>, savedEdited: set<string>, savedOrig: set<string>, nPairs: int, have: nat)
    requires forall k :: 0 <= k < |ids| ==> EditedFor(savedEdited, ids[k]) != {} && ids[k] in savedOrig
    requires nPairs < 0 || have + |ids| <= nPairs
    ensures JoinFrom(ids, savedEdited, savedOrig, nPairs, have) == ids
    decreases |ids|
  {
    if ids != [] {
      assert EditedFor(savedEdited, ids[0]) != {} && ids[0] in savedOrig;
      JoinFromAll(ids[1..], savedEdited, savedOrig, nPairs, have + 1);
    }
  }

  /** When every selected id has a saved first candidate and a saved original, the join keeps them all. */
  lemma JoinedAll(cfg: Config, c: Candidates, ids: seq<string>, savedEdited: set<string>, savedOrig: set<string>)
    requires Valid(c) && Selectable(c, ids) && (cfg.nPairs < 0 || |ids| <= cfg.nPairs)
    requires FirstNames(c, ids) <= savedEdited && forall k :: 0 <= k < |ids| ==> ids[k] in savedOrig
    ensures RowIds(Joined(cfg, c, ids, savedEdited, savedOrig)) == ids
  {
    FirstNamesMembers(c, ids);
    forall k | 0 <= k < |ids| ensures EditedFor(savedEdited, ids[k]) != {} {
      var f := c.lists[ids[k]][0];
      assert f in c.lists[ids[k]];
      assert f in EditedFor(savedEdited, ids[k]);
    }
    JoinFromAll(ids, savedEdited, savedOrig, cfg.nPairs, 0);
    JoinableSelectable(c, ids, ids);
    PairRowIds(cfg, c, ids);
  }

  /** The rows of a finished run are the joined rows of the selection. */
  lemma DoneJoined(cfg: Config, edited: seq<Option<Archive>>, originals: seq<Option<Archive>>)
    requires Pipeline(cfg, edited, originals).Done?
    ensures var s := Scan(edited, cfg.nPairs * cfg.oversample);
      var ids := PyPrefix(s.cands.keys, cfg.nPairs);
      Valid(s.cands) && Selectable(s.cands, ids) &&
      Pipeline(cfg, edited, originals).rows == Joined(cfg, s.cands, ids, FirstNames(s.cands, ids), ExtractShards(Original, {}, originals, set oid | oid in ids))
  {
    EditedSaved(cfg, edited);
  }

  /**
   * The rows of a finished run: at most one per selected id, in selection
   * order, never two for one original; each names `<id>.jpg`, an id found
   * in the original shards, and the first edited file admitted under that
   * id, together with the dataset and the model.
   */
  lemma DoneRows(cfg: Config, edited: seq<Option<Archive>>, originals: seq<Option<Archive>>)
    requires Pipeline(cfg, edited, originals).Done?
    ensures var rows := Pipeline(cfg, edited, originals).rows;
      var ids := PyPrefix(Scan(edited, cfg.nPairs * cfg.oversample).cands.keys, cfg.nPairs);
      Subsequence(RowIds(rows), ids) && |rows| <= |ids| && (cfg.nPairs >= 0 ==> |rows| <= cfg.nPairs) &&
      UniqueManifest.DistinctKeys(rows, UniqueManifest.OrigId) &&
      forall k :: 0 <= k < |rows| ==>
        var oid := UniqueManifest.OrigId(rows[k]);
        rows[k].originalLocal == Join(cfg.out, oid + ".jpg") && oid in KeysIn(Original, originals) &&
        FirstOf(edited, oid).Some? && rows[k].editedLocal == Join(cfg.out, FirstOf(edited, oid).value) &&
        rows[k].dataset == cfg.source && rows[k].diffusionModel == cfg.model
  {
    var s := Scan(edited, cfg.nPairs * cfg.oversample);
    var ids := PyPrefix(s.cands.keys, cfg.nPairs);
    var savedOrig := ExtractShards(Original, {}, originals, set oid | oid in ids);
    DoneJoined(cfg, edited, originals);
    var rows := Pipeline(cfg, edited, originals).rows;
    JoinedRows(cfg, s.cands, ids, FirstNames(s.cands, ids), savedOrig);
    forall k | 0 <= k < |rows|
      ensures FirstOf(edited, UniqueManifest.OrigId(rows[k])) == Some(s.cands.lists[UniqueManifest.OrigId(rows[k])][0])
    {
      ScanFirst(edited, cfg.nPairs * cfg.oversample, UniqueManifest.OrigId(rows[k]));
    }
  }

  /**
   * When the original shards hold every selected id, a finished run has a
   * row for each selected id, in selection order.
   */
  lemma DoneComplete(cfg: Config, edited: seq<Option<Archive>>, originals: seq<Option<Archive>>)
    requires Pipeline(cfg, edited, originals).Done?
    requires forall id :: id in PyPrefix(Scan(edited, cfg.nPairs * cfg.oversample).cands.keys, cfg.nPairs) ==> id in KeysIn(Original, originals)
    ensures RowIds(Pipeline(cfg, edited, originals).rows) == PyPrefix(Scan(edited, cfg.nPairs * cfg.oversample).cands.keys, cfg.nPairs)
  {
    var s := Scan(edited, cfg.nPairs * cfg.oversample);
    var ids := PyPrefix(s.cands.keys, cfg.nPairs);
    var needed := set oid | oid in ids;
    var savedOrig := ExtractShards(Original, {}, originals, needed);
    assert savedOrig == needed;
    DoneJoined(cfg, edited, originals);
    JoinedAll(cfg, s.cands, ids, FirstNames(s.cands, ids), savedOrig);
  }

  lemma {:induction false} FirstInFile(a: Archive, id: string)
    ensures FirstIn(a, id).Some? ==> FirstIn(a, id).value in FileKeys(Edited, a)
    decreases |a|
  {
    if a != [] && AdmittedId(a[0]) != Some(id) {
      FirstInFile(a[1..], id);
    }
  }

  /** The edited name found first for an id is the base name of a regular file of a fetched shard. */
  lemma {:induction false} FirstOfFile(shards: seq<Option<Archive>>, id: string)
    ensures FirstOf(shards, id).Some? ==> FirstOf(shards, id).value in KeysIn(Edited, shards)
    decreases |shards|
  {
    if shards != [] {
      if shards[0].Some? {
        FirstInFile(shards[0].value, id);
      }
      FirstOfFile(shards[1..], id);
    }
  }

  lemma PlainJoin(dir: string, name: string)
    requires PlainField(dir) && PlainField(name)
    ensures PlainField(Join(dir, name))
  {
    var p := Join(dir, name);
    forall i | 0 <= i < |p| ensures p[i] != ',' && p[i] != '\n' && p[i] != '"' && p[i] != '\r' {
      if i < |dir| {
        assert p[i] == dir[i];
      } else if i > |dir| {
        assert p[i] == name[i - |dir| - 1];
      }
    }
  }

  lemma HexJpgPlain(id: string)
    requires IsHex(id)
    ensures PlainField(id + ".jpg")
  {
    var name := id + ".jpg";
    forall i | 0 <= i < |name| ensures name[i] != ',' && name[i] != '\n' && name[i] != '"' && name[i] != '\r' {
      if i < |id| {
        assert name[i] == id[i] && IsHexDigit(id[i]);
      } else {
        assert name[i] == ".jpg"[i - |id|];
      }
    }
  }

  /**
   * A finished run writes a manifest exactly when it has rows, and what it
   * writes reads back as those rows, provided the output directory, the
   * dataset, the model and the edited file names hold no comma or line break.
   */
  lemma DoneWritten(cfg: Config, edited: seq<Option<Archive>>, originals: seq<Option<Archive>>)
    requires Pipeline(cfg, edited, originals).Done?
    requires PlainField(cfg.out) && PlainField(cfg.source) && PlainField(cfg.model)
    requires forall f :: f in KeysIn(Edited, edited) ==> PlainField(f)
    ensures var o := Pipeline(cfg, edited, originals);
      (o.written.None? <==> o.rows == []) &&
      (o.written.Some? ==> Parse(o.written.value) == Some(o.rows))
  {
    var rows := Pipeline(cfg, edited, originals).rows;
    DoneRows(cfg, edited, originals);
    forall k | 0 <= k < |rows| ensures PlainRow(rows[k]) {
      var oid := UniqueManifest.OrigId(rows[k]);
      FirstOfFile(edited, oid);
      PlainJoin(cfg.out, FirstOf(edited, oid).value);
      assert oid in Scan(edited, cfg.nPairs * cfg.oversample).cands.lists by {
        EditedSaved(cfg, edited);
        SubsequenceIn(RowIds(rows), PyPrefix(Scan(edited, cfg.nPairs * cfg.oversample).cands.keys, cfg.nPairs));
        assert oid in RowIds(rows);
      }
      ScanFacts(edited, cfg.nPairs * cfg.oversample);
      HexJpgPlain(oid);
      PlainJoin(cfg.out, oid + ".jpg");
    }
    ParseText(rows);
  }

  /**
   * Rebuilding a manifest this run wrote, keeping at least as many rows as
   * it has, gives back the same text: the rows already name each original
   * once.
   */
  lemma DoneRebuildUnchanged(cfg: Config, edited: seq<Option<Archive>>, originals: seq<Option<Archive>>, n: int)
    requires Pipeline(cfg, edited, originals).Done? && Pipeline(cfg, edited, originals).written.Some?
    requires PlainField(cfg.out) && PlainField(cfg.source) && PlainField(cfg.model)
    requires PandasKeeps(cfg.source) && PandasKeeps(cfg.model)
    requires forall f :: f in KeysIn(Edited, edited) ==> PlainField(f)
    requires n >= |Pipeline(cfg, edited, originals).rows|
    ensures UniqueManifest.RebuildManifest(Pipeline(cfg, edited, originals).written.value, n) == Pipeline(cfg, edited, originals).written
  {
    DoneWritten(cfg, edited, originals);
    DoneRows(cfg, edited, originals);
    DoneOriginalsPresent(cfg, edited, originals);
    UniqueManifest.RebuildManifestFixed(Pipeline(cfg, edited, originals).written.value, n);
  }

  /** No `original_local` a run writes reads as missing: each ends in `.jpg`. */
  lemma DoneOriginalsPresent(cfg: Config, edited: seq<Option<Archive>>, originals: seq<Option<Archive>>)
    requires Pipeline(cfg, edited, originals).Done?
    ensures var rows := Pipeline(cfg, edited, originals).rows;
      forall k :: 0 <= k < |rows| ==> rows[k].originalLocal !in MissingTokens
  {
    var rows := Pipeline(cfg, edited, originals).rows;
    DoneRows(cfg, edited, originals);
    forall k | 0 <= k < |rows| ensures rows[k].originalLocal !in MissingTokens {
      JpgNotMissing(cfg.out, UniqueManifest.OrigId(rows[k]));
    }
  }

  /** A path ending in `.jpg` is not a missing-value text. */
  lemma JpgNotMissing(dir: string, id: string)
    ensures Join(dir, id + ".jpg") !in MissingTokens
  {
    var p := Join(dir, id + ".jpg");
    assert p[|p| - 1] == 'g';
    EndsInGNotMissing(p);
  }
}
