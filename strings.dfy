/**
 * The small pieces of Python string and `pathlib` behaviour the scripts rely on,
 * on strings as sequences of characters.
 */
module Strings {

  predicate StartsWith(s: string, prefix: string)
  {
    |prefix| <= |s| && s[..|prefix|] == prefix
  }

  predicate EndsWith(s: string, suffix: string)
  {
    |suffix| <= |s| && s[|s| - |suffix|..] == suffix
  }

  /** `s.find(c)`: the first index of `c`, or -1. */
  function Find(s: string, c: char): (i: int)
    ensures -1 <= i < |s|
    ensures i >= 0 ==> s[i] == c
    ensures forall j :: 0 <= j < |s| && (i < 0 || j < i) ==> s[j] != c
  {
    if s == [] then -1
    else if s[0] == c then 0
    else var k := Find(s[1..], c); if k < 0 then -1 else k + 1
  }

  /** `s.rfind(c)`: the last index of `c`, or -1. */
  function RFind(s: string, c: char): (i: int)
    ensures -1 <= i < |s|
    ensures i >= 0 ==> s[i] == c
    ensures forall j :: 0 <= j < |s| && i < j ==> s[j] != c
  {
    if s == [] then -1
    else if s[|s| - 1] == c then |s| - 1
    else RFind(s[..|s| - 1], c)
  }

  /** `s.split(c, 1)[0]`: the text before the first `c`, or all of `s`. */
  function SplitFirstHead(s: string, c: char): (r: string)
    ensures c !in r
    ensures StartsWith(s, r)
    ensures r == s || s[|r|] == c
  {
    var i := Find(s, c);
    if i < 0 then s else s[..i]
  }

  /** `s.rsplit(c, 1)[0]`: the text before the last `c`, or all of `s`. */
  function RSplitHead(s: string, c: char): (r: string)
    ensures StartsWith(s, r)
    ensures r == s <==> c !in s
    ensures r != s ==> s[|r|] == c && c !in s[|r| + 1..]
  {
    var i := RFind(s, c);
    if i < 0 then s else s[..i]
  }

  /**
   * The text after the last `/`. It is `PurePosixPath(p).name` unless that
   * text is empty or `.`, components pathlib drops (see `PathName`).
   */
  function Basename(p: string): (r: string)
    ensures '/' !in r
    ensures EndsWith(p, r)
    ensures r == p || p[|p| - |r| - 1] == '/'
  {
    var i := RFind(p, '/');
    if i < 0 then p else p[i + 1..]
  }

  /**
   * `PurePosixPath(p).name`: the last component once the empty and `.`
   * components pathlib drops are gone, or "" when none is left.
   */
  function PathName(p: string): (r: string)
    ensures '/' !in r && r != "."
    ensures Basename(p) != "" && Basename(p) != "." ==> r == Basename(p)
    decreases |p|
  {
    var b := Basename(p);
    if b != "" && b != "." then b
    else if |b| == |p| then ""
    else PathName(p[..|p| - |b| - 1])
  }

  /** A trailing `/` or `/.` does not change the name pathlib gives a path. */
  lemma PathNameTrailing(p: string)
    ensures PathName(p + "/") == PathName(p)
    ensures PathName(p + "/.") == PathName(p)
  {
    var q, d := p + "/", p + "/.";
    assert Basename(q) == "";
    assert q[..|q| - 1] == p;
    assert d[|d| - 2] == '/' && d[|d| - 1] == '.';
    assert Basename(d) == ".";
    assert d[..|d| - 2] == p;
  }

  /** The stem and suffix pathlib gives a path do not change with a trailing `/` or `/.`. */
  lemma PathStemTrailing(p: string)
    ensures PathStem(p + "/") == PathStem(p) && PathSuffix(p + "/") == PathSuffix(p)
    ensures PathStem(p + "/.") == PathStem(p) && PathSuffix(p + "/.") == PathSuffix(p)
  {
    PathNameTrailing(p);
  }

  /** Paths with no component left, such as `.` and `/`, have the empty name, stem and suffix. */
  lemma PathNameEmpty()
    ensures PathName(".") == "" && PathStem(".") == "" && PathSuffix(".") == ""
    ensures PathName("/") == "" && PathStem("/") == ""
  {
    assert Basename(".") == ".";
    assert "/"[..0] == "";
  }

  /** The index `i` of the dot that `PurePath.suffix` and `PurePath.stem` split at, when there is one. */
  function SuffixDot(name: string): (i: int)
    ensures i == -1 || (0 < i < |name| - 1 && name[i] == '.')
    ensures i >= 0 ==> forall j :: i < j < |name| ==> name[j] != '.'
  {
    var i := RFind(name, '.');
    if 0 < i < |name| - 1 then i else -1
  }

  /**
   * A final component split at its suffix dot: the stem and the suffix,
   * the suffix empty when there is no such dot.
   */
  function SplitSuffix(name: string): (r: (string, string))
    ensures name == r.0 + r.1
    ensures r.1 != [] ==> 2 <= |r.1| && r.1[0] == '.' && r.0 != []
    ensures forall j :: 0 < j < |r.1| ==> r.1[j] != '.'
  {
    var i := SuffixDot(name);
    if i < 0 then (name, "")
    else
      assert name == name[..i] + name[i..];
      (name[..i], name[i..])
  }

  /** `PurePath(p).suffix`: the final component's last extension, dot included, or "". */
  function PathSuffix(p: string): (r: string)
    ensures r != [] ==> 2 <= |r| && r[0] == '.' && '/' !in r
    ensures forall j :: 0 < j < |r| ==> r[j] != '.'
  {
    SplitSuffix(PathName(p)).1
  }

  /** `PurePath(p).stem`: the final component without its last extension. */
  function PathStem(p: string): (r: string)
    ensures '/' !in r
    ensures PathName(p) == r + PathSuffix(p)
  {
    SplitSuffix(PathName(p)).0
  }

  /** `p / name` rendered with `str`, for a directory that does not end in `/`. */
  function Join(dir: string, name: string): string
  {
    dir + "/" + name
  }

  predicate IsHexDigit(c: char)
  {
    ('0' <= c <= '9') || ('a' <= c <= 'f') || ('A' <= c <= 'F')
  }

  /** `re.fullmatch(r"[0-9a-fA-F]+", s)` succeeds. */
  predicate IsHex(s: string)
  {
    |s| > 0 && forall i :: 0 <= i < |s| ==> IsHexDigit(s[i])
  }

  /** `str.lower` restricted to ASCII letters. */
  function Lower(s: string): (r: string)
    ensures |r| == |s|
    ensures forall i :: 0 <= i < |s| ==> r[i] == (if 'A' <= s[i] <= 'Z' then (s[i] as int + 32) as char else s[i])
  {
    if s == [] then [] else Lower(s[..|s| - 1]) + [if 'A' <= s[|s| - 1] <= 'Z' then (s[|s| - 1] as int + 32) as char else s[|s| - 1]]
  }

  /** The characters of a name that starts with `k + "_"`. */
  lemma PrefixChars(f: string, k: string)
    requires StartsWith(f, k + "_")
    ensures |k| < |f| && f[|k|] == '_'
    ensures forall i :: 0 <= i < |k| ==> f[i] == k[i]
  {
    assert f[|k|] == (k + "_")[|k|];
    forall i | 0 <= i < |k| ensures f[i] == k[i] {
      assert f[i] == (k + "_")[i];
    }
  }

  /**
   * Two hex ids cannot both be followed by `_` at the start of one name:
   * the underscore ends the id.
   */
  lemma HexPrefixUnique(f: string, k1: string, k2: string)
    requires IsHex(k1) && IsHex(k2)
    requires StartsWith(f, k1 + "_") && StartsWith(f, k2 + "_")
    ensures k1 == k2
  {
    PrefixChars(f, k1);
    PrefixChars(f, k2);
    if |k1| == |k2| {
      assert k1 == f[..|k1|] == k2;
    }
  }

  /** Names that start with two different hex ids, each followed by `_`, are different names. */
  lemma HexPrefixDistinct(f: string, g: string, k1: string, k2: string)
    requires IsHex(k1) && IsHex(k2) && k1 != k2
    requires StartsWith(f, k1 + "_") && StartsWith(g, k2 + "_")
    ensures f != g
  {
    PrefixChars(f, k1);
    PrefixChars(g, k2);
    if |k1| < |k2| {
      assert IsHexDigit(g[|k1|]);
    } else if |k2| < |k1| {
      assert IsHexDigit(f[|k2|]);
    } else {
      var i :| 0 <= i < |k1| && k1[i] != k2[i];
      assert f[i] != g[i];
    }
  }

  /** Lexicographic order on code points, as Python compares `str` values. */
  predicate LexLe(a: string, b: string)
  {
    a == [] || (b != [] && (a[0] < b[0] || (a[0] == b[0] && LexLe(a[1..], b[1..]))))
  }

  lemma {:induction false} LexLeTotal(a: string, b: string)
    ensures LexLe(a, b) || LexLe(b, a)
  {
    if a != [] && b != [] && a[0] == b[0] {
      LexLeTotal(a[1..], b[1..]);
    }
  }

  lemma {:induction false} LexLeTransitive(a: string, b: string, c: string)
    requires LexLe(a, b) && LexLe(b, c)
    ensures LexLe(a, c)
  {
    if a != [] && b != [] && c != [] && a[0] == b[0] && b[0] == c[0] {
      LexLeTransitive(a[1..], b[1..], c[1..]);
    }
  }

  lemma {:induction false} LexLeAntisymmetric(a: string, b: string)
    requires LexLe(a, b) && LexLe(b, a)
    ensures a == b
  {
    if a != [] && b != [] {
      LexLeAntisymmetric(a[1..], b[1..]);
      assert a == [a[0]] + a[1..];
      assert b == [b[0]] + b[1..];
    }
  }

  /** A suffix without `/` survives taking the final path component. */
  lemma BasenameKeepsSuffix(p: string, suf: string)
    requires EndsWith(p, suf) && '/' !in suf
    ensures EndsWith(Basename(p), suf)
  {
    var r := Basename(p);
    assert forall k :: |p| - |suf| <= k < |p| ==> p[k] == suf[k - (|p| - |suf|)];
  }

  /**
   * In a name ending in `.png`, a hex head before the first `_` is followed
   * by that `_`: the head cannot run to the end, since `.` is not hex.
   */
  lemma HexHeadPrefix(b: string)
    requires EndsWith(b, ".png") && IsHex(SplitFirstHead(b, '_'))
    ensures StartsWith(b, SplitFirstHead(b, '_') + "_")
  {
    var id := SplitFirstHead(b, '_');
    var k := |b| - 4;
    assert b[k] == ".png"[0];
    assert !IsHexDigit(b[k]);
    assert id != b;
    assert b[..|id| + 1] == id + "_";
  }

  /** The stem of `dir/<id>.jpg` is `<id>` for a hex id. */
  lemma StemOfJoin(dir: string, id: string)
    requires IsHex(id)
    ensures PathStem(Join(dir, id + ".jpg")) == id
  {
    var name := id + ".jpg";
    var p := Join(dir, name);
    assert p == dir + "/" + name;
    assert '/' !in name by {
      forall i | 0 <= i < |name| ensures name[i] != '/' {
        if i < |id| {
          assert name[i] == id[i] && IsHexDigit(id[i]);
        } else {
          assert name[i] == ".jpg"[i - |id|];
        }
      }
    }
    var s := RFind(p, '/');
    assert p[|dir|] == '/';
    forall j | |dir| < j < |p| ensures p[j] != '/' {
      assert p[j] == name[j - |dir| - 1];
    }
    assert s == |dir|;
    assert Basename(p) == name;
    assert name[|id|] == '.';
    forall j | |id| < j < |name| ensures name[j] != '.' {
      assert name[j] == ".jpg"[j - |id|];
    }
    assert RFind(name, '.') == |id|;
    assert name[..|id|] == id;
  }
}
