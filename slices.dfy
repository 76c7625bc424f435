/** Python's prefix slice `s[:n]`, which pandas' `head(n)` shares. */
module Slices {

  /** `s[:n]`: the first `n` elements, or, for a negative `n`, all but the last `-n`. */
  function PyPrefix<T>(s: seq<T>, n: int): (r: seq<T>)
    ensures |r| <= |s| && r == s[..|r|]
    ensures n >= 0 ==> |r| == if n <= |s| then n else |s|
    ensures n < 0 ==> |r| == if -n <= |s| then |s| + n else 0
  {
    if n >= 0 then (if n <= |s| then s[..n] else s)
    else (if -n <= |s| then s[..|s| + n] else [])
  }
}
