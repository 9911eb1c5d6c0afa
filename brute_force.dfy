/** `search_algorithms/brute_force.py`: `brute_force_match`. */
module BruteForce {
  import opened PyStr

  /** The loop over the lines: succeed at the first line equal to the pattern. */
  function LineEqualScan(pattern: string, lines: seq<string>): (found: bool)
    ensures found <==> pattern in lines
  {
    if lines == [] then false else lines[0] == pattern || LineEqualScan(pattern, lines[1..])
  }

  /**
   * `brute_force_match(pattern, text)`: a length guard, then exact,
   * case-sensitive equality with some line of `text.splitlines()`. The guard
   * never changes the answer, since no line is longer than the text.
   */
  function BruteForceMatch(pattern: string, text: string): (found: bool)
    ensures found <==> pattern in SplitLines(text)
  {
    if |pattern| > |text| then
      assert pattern !in SplitLines(text) by {
        forall k | 0 <= k < |SplitLines(text)| ensures SplitLines(text)[k] != pattern {
          SplitLinesPieceLength(text, k);
        }
      }
      false
    else LineEqualScan(pattern, SplitLines(text))
  }

  /** A non-empty single-line text matches itself. */
  lemma BruteForceSingleLine(pattern: string)
    requires pattern != [] && '\n' !in pattern
    ensures BruteForceMatch(pattern, pattern)
  {
    SplitLinesOneLine(pattern);
  }

  /** The empty text matches nothing, not even the empty pattern. */
  lemma BruteForceEmptyText(pattern: string)
    ensures !BruteForceMatch(pattern, [])
  {
  }
}
