/** `search_algorithms/native_search.py`: `naive_string_match` with the substring test `pattern in line`. */
module NativeSearch {
  import opened PyStr
  import opened LineScan
  import opened Frame
  import BruteForce

  /** The loop over the lines: succeed at the first line that contains the pattern. */
  function ContainsScan(pattern: string, lines: seq<string>): (found: bool)
    ensures found <==> exists k :: 0 <= k < |lines| && Occurs(pattern, lines[k])
  {
    if lines == [] then false
    else
      assert forall k :: 1 <= k < |lines| ==> lines[1..][k - 1] == lines[k];
      Occurs(pattern, lines[0]) || ContainsScan(pattern, lines[1..])
  }

  /** `naive_string_match(pattern, text)`: the pattern is a substring of some line of `text.splitlines()`. */
  function NativeStringMatch(pattern: string, text: string): (v: Verdict)
    ensures v == Exists <==> exists k :: 0 <= k < |SplitLines(text)| && Occurs(pattern, SplitLines(text)[k])
    ensures text == [] ==> v == NotFound
  {
    VerdictOf(ContainsScan(pattern, SplitLines(text)))
  }

  /** Every whole-line match is a substring match: this strategy accepts all that brute force accepts. */
  lemma NativeCoversBruteForce(pattern: string, text: string)
    requires BruteForce.BruteForceMatch(pattern, text)
    ensures NativeStringMatch(pattern, text) == Exists
  {
    var lines := SplitLines(text);
    var k :| 0 <= k < |lines| && lines[k] == pattern;
    assert WindowAt(pattern, lines[k], 0);
  }

  /** The empty pattern is in every line, so it is found exactly when the text has a line. */
  lemma NativeEmptyPattern(text: string)
    ensures NativeStringMatch([], text) == Exists <==> text != []
  {
    if text != [] {
      assert WindowAt([], SplitLines(text)[0], 0);
    }
  }

  /** No line holds a `'\n'`, so a pattern with one is never found. */
  lemma NativeNewlinePattern(pattern: string, text: string)
    requires '\n' in pattern
    ensures NativeStringMatch(pattern, text) == NotFound
  {
    var lines := SplitLines(text);
    var d :| 0 <= d < |pattern| && pattern[d] == '\n';
    forall k | 0 <= k < |lines| ensures !Occurs(pattern, lines[k]) {
      SplitLinesPieceFree(text, k);
      forall i | 0 <= i <= |lines[k]| ensures !WindowAt(pattern, lines[k], i) {
        if i + |pattern| <= |lines[k]| {
          assert lines[k][i..i + |pattern|][d] == lines[k][i + d];
        }
      }
    }
  }
}
