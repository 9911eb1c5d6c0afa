/** `search_algorithms/depth_first_serach.py`: `dfs_search` and its recursive `dfs_helper`. */
module DepthFirstSearch {
  import opened PyStr
  import opened LineScan
  import LinearSearch

  /**
   * `dfs_helper(start_index, pattern)`: compare the segment from `start`
   * up to the next `'\n'` (or the end of the text), both sides stripped, and
   * otherwise go on after that `'\n'`. Every call starts past the previous
   * segment, so the recursion ends.
   */
  function DfsHelper(text: string, pattern: string, start: nat): bool
    decreases |text| - start
  {
    if start >= |text| then false
    else
      var newline := Find(text, '\n', start);
      var end := if newline == -1 then |text| else newline;
      if Strip(text[start..end]) == Strip(pattern) then true
      else DfsHelper(text, pattern, end + 1)
  }

  /** One call of the helper: the segment up to the next `'\n'`, then the call after it. */
  lemma DfsHelperNext(text: string, pattern: string, start: nat, end: nat)
    requires start < |text|
    requires end == if Find(text, '\n', start) == -1 then |text| else Find(text, '\n', start)
    ensures start <= end <= |text|
    ensures DfsHelper(text, pattern, start) == (Strip(text[start..end]) == Strip(pattern) || DfsHelper(text, pattern, end + 1))
  {
  }

  /** The lines from `start` when no `'\n'` follows it: the rest of the text is one line. */
  lemma RestIsOneLine(text: string, start: nat)
    requires start < |text| && Find(text, '\n', start) == -1
    ensures SplitLines(text[start..]) == [text[start..]]
  {
    var s := text[start..];
    assert forall k :: 0 <= k < |s| ==> s[k] == text[start + k];
    SplitLinesOneLine(s);
  }

  /** Cutting a suffix and then its prefix, or its tail after one more item, is one slice of the whole. */
  lemma SuffixSlices<T>(t: seq<T>, a: nat, b: nat)
    requires a <= b < |t|
    ensures t[a..][..b - a] == t[a..b] && t[a..][b - a + 1..] == t[b + 1..]
  {
  }

  /** In the suffix from `start`, the first `'\n'` sits at `end - start`. */
  lemma NewlineInSuffix(text: string, start: nat, end: nat)
    requires start <= end < |text| && Find(text, '\n', start) == end
    ensures text[start..][end - start] == '\n'
    ensures forall k :: 0 <= k < end - start ==> text[start..][k] != '\n'
  {
    assert forall k :: 0 <= k < end - start ==> text[start..][k] == text[start + k];
  }

  /** The lines from `start` when the next `'\n'` is at `end`: the segment before it, then the lines after it. */
  lemma RestSplitsAt(text: string, start: nat, end: nat)
    requires start <= end < |text| && Find(text, '\n', start) == end
    ensures SplitLines(text[start..]) == [text[start..end]] + SplitLines(text[end + 1..])
  {
    NewlineInSuffix(text, start, end);
    SplitLinesFirst(text[start..], end - start);
    SuffixSlices(text, start, end);
  }

  /** At the end of the text there is nothing left to scan. */
  lemma DfsAtEnd(text: string, pattern: string)
    ensures DfsHelper(text, pattern, |text|) == StrippedScan(pattern, SplitLines(text[|text|..]))
  {
    assert text[|text|..] == [];
  }

  /** The last segment: no `'\n'` follows `start`, so the helper compares the one remaining line. */
  lemma DfsLastSegment(text: string, pattern: string, start: nat)
    requires start < |text| && Find(text, '\n', start) == -1
    ensures DfsHelper(text, pattern, start) == StrippedScan(pattern, SplitLines(text[start..]))
  {
    DfsHelperNext(text, pattern, start, |text|);
    var line := text[start..];
    assert text[start..|text|] == line;
    calc {
      DfsHelper(text, pattern, start);
      Strip(line) == Strip(pattern) || DfsHelper(text, pattern, |text| + 1);
      Strip(pattern) == Strip(line) || StrippedScan(pattern, []);
      { StrippedScanCons(pattern, line, []); assert [line] + [] == [line]; }
      StrippedScan(pattern, [line]);
      { RestIsOneLine(text, start); }
      StrippedScan(pattern, SplitLines(text[start..]));
    }
  }

  /** A segment ending at the `'\n'` at `newline`: the helper after it scans the later lines, so this one scans these. */
  lemma {:induction false} DfsNextSegment(text: string, pattern: string, start: nat, newline: nat)
    requires start <= newline < |text| && Find(text, '\n', start) == newline
    ensures DfsHelper(text, pattern, start) == StrippedScan(pattern, SplitLines(text[start..]))
    decreases |text| - start, 0
  {
    DfsHelperLines(text, pattern, newline + 1);
    DfsHelperNext(text, pattern, start, newline);
    var line, rest := text[start..newline], SplitLines(text[newline + 1..]);
    calc {
      DfsHelper(text, pattern, start);
      Strip(line) == Strip(pattern) || DfsHelper(text, pattern, newline + 1);
      Strip(pattern) == Strip(line) || StrippedScan(pattern, rest);
      { StrippedScanCons(pattern, line, rest); }
      StrippedScan(pattern, [line] + rest);
      { RestSplitsAt(text, start, newline); }
      StrippedScan(pattern, SplitLines(text[start..]));
    }
  }

  /** From any start, the helper scans exactly the lines of the rest of the text. */
  lemma {:induction false} DfsHelperLines(text: string, pattern: string, start: nat)
    requires start <= |text|
    ensures DfsHelper(text, pattern, start) == StrippedScan(pattern, SplitLines(text[start..]))
    decreases |text| - start, 2
  {
    if start == |text| {
      DfsAtEnd(text, pattern);
    } else {
      DfsSegment(text, pattern, start);
    }
  }

  /** The induction step: the segment at `start`, then the helper after it. */
  lemma {:induction false} DfsSegment(text: string, pattern: string, start: nat)
    requires start < |text|
    ensures DfsHelper(text, pattern, start) == StrippedScan(pattern, SplitLines(text[start..]))
    decreases |text| - start, 1
  {
    var newline := Find(text, '\n', start);
    if newline == -1 {
      DfsLastSegment(text, pattern, start);
    } else {
      DfsNextSegment(text, pattern, start, newline);
    }
  }

  /**
   * `dfs_search(text, pattern)`: some `'\n'`-delimited segment of the text
   * equals the pattern once both are stripped. `dfs_helper` cuts at
   * `text.find('\n', ...)` only, which is exactly `SplitLines`: the empty
   * segment after a final `'\n'` is never looked at, and the empty text has
   * no segment at all.
   */
  function DfsSearch(text: string, pattern: string): (found: bool)
    ensures found <==> HasStrippedLine(SplitLines(text), pattern)
    ensures text == [] ==> !found
  {
    DfsHelperLines(text, pattern, 0);
    assert text[0..] == text;
    DfsHelper(text, pattern, 0)
  }

  /** On a non-empty text without a final `'\n'` this agrees with `linear_search`. */
  lemma DfsAgreesWithLinear(text: string, pattern: string)
    requires text != [] && text[|text| - 1] != '\n'
    ensures DfsSearch(text, pattern) == LinearSearch.LinearSearch(text, pattern)
  {
    SplitVersusSplitLines(text);
  }

  /**
   * `linear_search` also sees the empty segment after a final `'\n'` (and
   * the one empty segment of the empty text), so it additionally accepts
   * every blank pattern there.
   */
  lemma DfsVersusLinearAtEnd(text: string, pattern: string)
    requires text == [] || text[|text| - 1] == '\n'
    ensures LinearSearch.LinearSearch(text, pattern) == (DfsSearch(text, pattern) || AllSpace(pattern))
  {
    SplitVersusSplitLines(text);
    StripEmpty(pattern);
    assert Split(text, '\n') == SplitLines(text) + [[]];
    HasStrippedLineBlank(SplitLines(text), pattern);
  }
}
