/**
 * `search_algorithms/karp_algorithm.py`: `karp_rabin_string_match`, which
 * despite its name compares the pattern's lines with every window of the
 * text's lines, and `find_string_match` with the lazy dataset cache.
 */
module KarpLines {
  import opened Wrappers
  import opened PyStr
  import opened LineScan
  import opened Frame
  import opened DatasetCache
  import TwoWaySearch

  /**
   * The loop over every window of the text's lines, from the start `i`:
   * succeed at the first window equal to the pattern's lines.
   */
  function LineWindowScan(pl: seq<string>, tl: seq<string>, i: nat): bool
    decreases |tl| - i
  {
    if i + |pl| > |tl| then false
    else pl == tl[i..i + |pl|] || LineWindowScan(pl, tl, i + 1)
  }

  /** The scan from `i` succeeds exactly when there is a window at or after `i`. */
  lemma {:induction false} LineWindowScanFinds(pl: seq<string>, tl: seq<string>, i: nat)
    ensures LineWindowScan(pl, tl, i) <==> FirstWindowFrom(pl, tl, i) >= 0
    decreases |tl| - i
  {
    if i + |pl| <= |tl| && pl != tl[i..i + |pl|] {
      LineWindowScanFinds(pl, tl, i + 1);
    }
  }

  /** `karp_rabin_string_match(pattern, text)`: the pattern's lines occur as a run of the text's lines. */
  function KarpRabinStringMatch(pattern: string, text: string): (v: Verdict)
    ensures v == Exists <==> Occurs(SplitLines(pattern), SplitLines(text))
    ensures pattern == [] ==> v == Exists
    ensures |SplitLines(pattern)| > |SplitLines(text)| ==> v == NotFound
  {
    LineWindowScanFinds(SplitLines(pattern), SplitLines(text), 0);
    FirstWindowOccurs(SplitLines(pattern), SplitLines(text));
    VerdictOf(LineWindowScan(SplitLines(pattern), SplitLines(text), 0))
  }

  /** This module's matcher and the line-window `two_way_string_match` classify every input alike. */
  lemma KarpAgreesWithTwoWay(pattern: string, text: string)
    ensures KarpRabinStringMatch(pattern, text) == VerdictOf(TwoWaySearch.TwoWayStringMatch(pattern, text))
  {
  }

  /** The default of `REREAD_ON_QUERY` in this module. */
  const DefaultReread := false

  /**
   * `find_string_match(message, REREAD_ON_QUERY)`: resolve the dataset
   * through the module's cache, then report `karp_rabin_string_match(message, file_data)`.
   */
  method FindStringMatch(cache: Cache, message: string, reread: bool, source: string) returns (v: Verdict)
    modifies cache
    ensures cache.fileData == Some(Refreshed(old(cache.fileData), reread, source))
    ensures v == KarpRabinStringMatch(message, Refreshed(old(cache.fileData), reread, source))
  {
    var data := cache.Resolve(reread, source);
    v := KarpRabinStringMatch(message, data);
  }

  /**
   * With the default flag, once the cache is loaded later calls keep
   * answering from the first text, whatever the file holds by then.
   */
  method LoadedCacheIsReused(first: string, later: string, message: string) returns (v: Verdict)
    ensures v == KarpRabinStringMatch(message, first)
  {
    var cache := new Cache();
    var loaded := FindStringMatch(cache, message, DefaultReread, first);
    v := FindStringMatch(cache, message, DefaultReread, later);
  }
}
