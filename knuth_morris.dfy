/**
 * `search_algorithms/knuth_morris_algorithm.py`: the prefix function, the
 * Knuth–Morris–Pratt scan that accepts an occurrence only when it fills whole
 * lines, and the cached `find_string_match` that runs it on every line.
 */
module KnuthMorrisPratt {
  import opened Wrappers
  import opened PyStr
  import opened Frame
  import opened DatasetCache

  /**
   * `p[..k]` is a suffix of `t[..end]` that starts at or after `lo`. With
   * `t == p` and `lo == 1` this says that `k` is a proper border of `p[..end]`.
   */
  ghost predicate EndsWith(p: string, t: string, lo: int, end: int, k: int) {
    0 <= k <= |p| && 0 <= lo <= end - k && end <= |t| && p[..k] == t[end - k..end]
  }

  /** `q` is the longest prefix of `p` that ends `t[lo..end]`. */
  ghost predicate Longest(p: string, t: string, lo: int, end: int, q: int) {
    EndsWith(p, t, lo, end, q) && forall k :: q < k <= |p| ==> !EndsWith(p, t, lo, end, k)
  }

  /** `v` is the longest proper border of `p[..q + 1]`: the classic prefix function at `q`. */
  ghost predicate LongestBorder(p: string, q: int, v: int) {
    Longest(p, p, 1, q + 1, v)
  }

  /** Every prefix longer than `q` that still ends `t[lo..end]` fails to extend by `t[end]`. */
  ghost predicate NoLongerExtends(p: string, t: string, lo: int, end: int, q: int)
    requires 0 <= end < |t|
  {
    forall k :: q < k <= |p| && EndsWith(p, t, lo, end, k) ==> k < |p| && p[k] != t[end]
  }

  /** Below a prefix that ends `t[..end]`, the prefixes that also end it are its borders. */
  lemma BorderChain(p: string, t: string, lo: int, end: int, k: int, j: int)
    requires EndsWith(p, t, lo, end, k) && 0 <= j < k
    ensures EndsWith(p, t, lo, end, j) <==> EndsWith(p, p, 1, k, j)
  {
    assert t[end - j..end] == t[end - k..end][k - j..];
    assert p[k - j..k] == p[..k][k - j..];
  }

  /** A prefix of length `k` ends `t[..end + 1]` exactly when `k - 1` ends `t[..end]` and `p[k - 1] == t[end]`. */
  lemma Extend(p: string, t: string, lo: int, end: int, k: int)
    requires 1 <= k <= |p| && 0 <= lo <= end < |t|
    ensures EndsWith(p, t, lo, end + 1, k) <==> EndsWith(p, t, lo, end, k - 1) && p[k - 1] == t[end]
  {
    if k <= end + 1 {
      assert p[..k] == p[..k - 1] + [p[k - 1]];
      assert t[end + 1 - k..end + 1] == t[end + 1 - k..end] + [t[end]];
    }
  }

  /** One step of `k = pi[k - 1]` (or `q = pi[q - 1]`) loses no candidate. */
  lemma FallBack(p: string, t: string, lo: int, end: int, q: int, v: int)
    requires 0 <= end < |t| && 1 <= q < |p|
    requires EndsWith(p, t, lo, end, q) && NoLongerExtends(p, t, lo, end, q) && p[q] != t[end]
    requires LongestBorder(p, q - 1, v)
    ensures 0 <= v < q && EndsWith(p, t, lo, end, v) && NoLongerExtends(p, t, lo, end, v)
  {
    BorderChain(p, t, lo, end, q, v);
    forall k | v < k < q
      ensures !EndsWith(p, t, lo, end, k)
    {
      BorderChain(p, t, lo, end, q, k);
    }
  }

  /**
   * After the fallback loop, growing `q` by one when `p[q]` equals `t[end]` gives the longest
   * prefix of `p` that ends `t[lo..end + 1]`.
   */
  lemma Advance(p: string, t: string, lo: int, end: int, q: int)
    requires 0 <= end < |t| && 0 <= q < |p|
    requires EndsWith(p, t, lo, end, q) && NoLongerExtends(p, t, lo, end, q)
    requires q == 0 || p[q] == t[end]
    ensures p[q] == t[end] ==> Longest(p, t, lo, end + 1, q + 1)
    ensures p[q] != t[end] ==> Longest(p, t, lo, end + 1, q)
  {
    var r, e := if p[q] == t[end] then q + 1 else 0, end + 1;
    if p[q] == t[end] {
      Extend(p, t, lo, end, q + 1);
    }
    forall k | r < k <= |p|
      ensures !EndsWith(p, t, lo, e, k)
    {
      Extend(p, t, lo, end, k);
    }
  }

  lemma SliceAll<T>(s: seq<T>)
    ensures s[0..|s|] == s && s[..|s|] == s
  {
  }

  /** Nothing but the empty prefix ends an empty stretch of text. */
  lemma LongestEmpty(p: string, t: string, e: int)
    requires 0 <= e <= |t|
    ensures Longest(p, t, e, e, 0)
  {
  }

  /** Every entry of `pi` is the longest proper border of the prefix it stands for. */
  ghost predicate PrefixTable(p: string, pi: seq<int>) {
    forall j :: 0 <= j < |pi| ==> LongestBorder(p, j, pi[j])
  }

  lemma PrefixTableExtend(p: string, pi: seq<int>, v: int)
    requires PrefixTable(p, pi) && LongestBorder(p, |pi|, v)
    ensures PrefixTable(p, pi + [v])
  {
  }

  /**
   * The step both loops share, for the next character `t[end]`:
   * fall back through `pi` while `k` is positive and `p[k]` differs from
   * `t[end]`, then grow `k` by one on agreement. It keeps `k` the longest prefix of `p`
   * that ends the text read so far.
   */
  method Step(p: string, pi: seq<int>, t: string, ghost lo: int, end: int, k0: int) returns (k: int)
    requires 0 <= end < |t| && 0 <= k0 < |p| && k0 <= |pi|
    requires PrefixTable(p, pi) && Longest(p, t, lo, end, k0)
    ensures 0 <= k <= k0 + 1 && Longest(p, t, lo, end + 1, k)
  {
    k := k0;
    while k > 0 && p[k] != t[end]
      invariant 0 <= k <= k0
      invariant EndsWith(p, t, lo, end, k) && NoLongerExtends(p, t, lo, end, k)
      decreases k
    {
      FallBack(p, t, lo, end, k, pi[k - 1]);
      k := pi[k - 1];
    }
    Advance(p, t, lo, end, k);
    if p[k] == t[end] {
      k := k + 1;
    }
  }

  /**
   * `compute_prefix_function(pattern)`: `pi[q]` is the length of the
   * longest proper prefix of `pattern[:q + 1]` that is also its suffix.
   */
  method ComputePrefixFunction(pattern: string) returns (pi: seq<int>)
    ensures |pi| == |pattern|
    ensures |pattern| >= 1 ==> pi[0] == 0
    ensures forall q :: 0 <= q < |pattern| ==> 0 <= pi[q] <= q
    ensures PrefixTable(pattern, pi)
  {
    var m := |pattern|;
    var a := new int[m](_ => 0);
    if m == 0 {
      return a[..];
    }
    assert LongestBorder(pattern, 0, 0);
    assert a[..1] == [] + [0];
    PrefixTableExtend(pattern, [], 0);
    var k := 0;
    var q := 1;
    while q < m
      invariant 1 <= q <= m
      invariant k == a[q - 1]
      invariant PrefixTable(pattern, a[..q])
    {
      ghost var done := a[..q];
      k := Step(pattern, a[..q], pattern, 1, q, k);
      a[q] := k;
      PrefixTableExtend(pattern, done, k);
      assert a[..q + 1] == done + [k];
      q := q + 1;
    }
    pi := a[..];
    assert pi == a[..m];
    forall j | 0 <= j < m
      ensures 0 <= pi[j] <= j
    {
      assert LongestBorder(pattern, j, pi[j]);
    }
  }

  /** `t[a..b]` runs from a line start to a line end: each bound is an end of `t` or next to a `'\n'`. */
  predicate LineBoundsAt(t: string, a: int, b: int) {
    0 <= a <= b <= |t| && (a == 0 || t[a - 1] == '\n') && (b == |t| || t[b] == '\n')
  }

  /** `p` occurs in `t` between two line boundaries. */
  predicate OnWholeLines(p: string, t: string) {
    exists a, b | 0 <= a <= b <= |t| :: LineBoundsAt(t, a, b) && t[a..b] == p
  }

  /**
   * The line around a match `text[first..last + 1]`: `line_start` walks left
   * from `first` to the previous `'\n'` (or to -1), `line_end` walks right
   * from `last` to the next `'\n'` (or to the end).
   */
  method LineAround(text: string, first: int, last: int) returns (lineStart: int, lineEnd: int)
    requires 0 <= first <= last < |text|
    ensures -1 <= lineStart <= first && last <= lineEnd <= |text|
    ensures lineStart == -1 || text[lineStart] == '\n'
    ensures lineEnd == |text| || text[lineEnd] == '\n'
    ensures '\n' !in text ==> lineStart == -1 && lineEnd == |text|
  {
    lineStart := first;
    while lineStart >= 0 && text[lineStart] != '\n'
      invariant -1 <= lineStart <= first
      decreases lineStart + 1
    {
      lineStart := lineStart - 1;
    }
    lineEnd := last;
    while lineEnd < |text| && text[lineEnd] != '\n'
      invariant last <= lineEnd <= |text|
      decreases |text| - lineEnd
    {
      lineEnd := lineEnd + 1;
    }
  }

  /**
   * The check after a full match ending at `text[last]`: the line around it,
   * `text[line_start + 1:line_end]`, must equal the pattern.
   */
  method IsWholeLine(text: string, pattern: string, last: int) returns (whole: bool)
    requires 0 <= last - |pattern| + 1 <= last < |text|
    ensures whole ==> OnWholeLines(pattern, text)
    ensures '\n' !in text ==> (whole <==> text == pattern)
  {
    var lineStart, lineEnd := LineAround(text, last - |pattern| + 1, last);
    // Python slices `text[a:b]` with `a > b` to the empty string.
    var line := if lineStart + 1 <= lineEnd then text[lineStart + 1..lineEnd] else [];
    if '\n' !in text {
      assert line == text[0..|text|] == text;
    }
    whole := line == pattern;
    if whole {
      assert LineBoundsAt(text, lineStart + 1, lineEnd);
    }
  }

  /**
   * `knuth_search(text, pattern)`. Every full match is checked against the
   * line around it, and a match that is not a whole line resets `q` to 0.
   * With an empty pattern the first step reads `pattern[0]`, which raises
   * `IndexError` unless the text is empty too.
   */
  method KnuthSearch(text: string, pattern: string) returns (r: Result<bool>)
    ensures r.Err? <==> pattern == [] && text != []
    ensures r.Err? ==> r.error == IndexError
    ensures r == Ok(true) ==> OnWholeLines(pattern, text)
    ensures pattern != [] && '\n' !in text ==> (r == Ok(true) <==> text == pattern)
    ensures text == [] || |pattern| > |text| ==> r == Ok(false)
  {
    var n, m := |text|, |pattern|;
    var pi := ComputePrefixFunction(pattern);
    var q := 0;
    ghost var base := 0;
    ghost var single := m >= 1 && '\n' !in text && text == pattern;
    var i := 0;
    while i < n
      invariant 0 <= base <= i <= n
      invariant m == 0 ==> q == 0 && i == 0
      invariant m > 0 ==> q < m && Longest(pattern, text, base, i, q)
      invariant 0 < base ==> m <= base
      invariant single ==> i < n
    {
      if q >= m {
        // `pattern[q]` with `q == len(pattern) == 0`
        return Err(IndexError);
      }
      q := Step(pattern, pi, text, base, i, q);
      if single && i == n - 1 {
        assert base == 0;
        assert EndsWith(pattern, text, 0, n, m) by {
          SliceAll(text);
          SliceAll(pattern);
        }
        assert q == m;
      }
      if q == m {
        assert m <= i + 1 by {
          assert EndsWith(pattern, text, base, i + 1, q);
        }
        var whole := IsWholeLine(text, pattern, i);
        if whole {
          return Ok(true);
        }
        q := 0;
        base := i + 1;
        LongestEmpty(pattern, text, base);
      }
      i := i + 1;
    }
    r := Ok(false);
  }

  /** What `find_string_match` reports for a dataset, with an empty message included. */
  function KnuthVerdict(message: string, data: string): (r: Result<Verdict>)
    ensures message != [] ==> r == Ok(VerdictOf(message in SplitLines(data)))
    ensures message == [] ==> (r == Ok(NotFound) <==> forall k :: 0 <= k < |SplitLines(data)| ==> SplitLines(data)[k] == [])
    ensures message == [] && r != Ok(NotFound) ==> r == Err(IndexError)
  {
    if message != [] then Ok(VerdictOf(message in SplitLines(data)))
    else if forall k :: 0 <= k < |SplitLines(data)| ==> SplitLines(data)[k] == [] then Ok(NotFound)
    else Err(IndexError)
  }

  /** The default of `REREAD_ON_QUERY` in this module. */
  const DefaultReread := false

  /**
   * `find_string_match(message, REREAD_ON_QUERY)`: resolve the dataset
   * through the cache, then run `knuth_search(line, message)` on every line
   * of `file_data.splitlines()` until one succeeds. Neither side is stripped.
   */
  method FindStringMatch(cache: Cache, message: string, reread: bool, source: string) returns (r: Result<Verdict>)
    modifies cache
    ensures cache.fileData == Some(Refreshed(old(cache.fileData), reread, source))
    ensures r == KnuthVerdict(message, Refreshed(old(cache.fileData), reread, source))
  {
    var data := cache.Resolve(reread, source);
    var lines := SplitLines(data);
    var k := 0;
    while k < |lines|
      invariant 0 <= k <= |lines|
      invariant cache.fileData == Some(data)
      invariant forall j :: 0 <= j < k ==> (message != [] ==> lines[j] != message) && (message == [] ==> lines[j] == [])
    {
      SplitLinesPieceFree(data, k);
      var hit := KnuthSearch(lines[k], message);
      if hit.Err? {
        return Err(hit.error);
      }
      if hit.value {
        return Ok(Exists);
      }
      k := k + 1;
    }
    return Ok(NotFound);
  }
}
