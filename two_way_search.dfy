/**
 * `search_algorithms/two_way_search.py`: `preprocess(pattern)`, the
 * character skip table, and `two_way_string_match(pattern, text)`, which
 * despite its name compares windows of whole lines.
 */
module TwoWaySearch {
  import opened PyStr
  import opened LineScan
  import opened SkipTable

  /**
   * `preprocess(pattern)`: the keys are the distinct characters of the
   * pattern, and each maps to `m - 1` minus the index of its last occurrence.
   * `search_algorithms/2_way_search.py` defines the same `preprocess`.
   */
  method Preprocess(pattern: string) returns (table: map<char, int>)
    ensures table == LastSkips(pattern, |pattern|)
    ensures forall c :: c in table <==> c in pattern
    ensures forall c :: c in pattern ==> table[c] == |pattern| - 1 - LastIndex(pattern, c)
    ensures forall c :: c in table ==> 0 <= table[c] < |pattern|
    ensures pattern == [] ==> table == map[]
  {
    table := Fill(pattern, |pattern|);
    assert pattern[..|pattern|] == pattern;
    forall c
      ensures c in table <==> c in pattern
      ensures c in pattern ==> table[c] == |pattern| - 1 - LastIndex(pattern, c)
    {
      LastSkipsKeys(pattern, |pattern|, c);
      if c in pattern {
        LastSkipsValue(pattern, |pattern|, c);
      }
    }
    forall c | c in table
      ensures 0 <= table[c] < |pattern|
    {
      LastSkipsRange(pattern, |pattern|, c);
    }
  }

  /** `preprocess("ABCD") == {'A': 3, 'B': 2, 'C': 1, 'D': 0}`. */
  lemma PreprocessAbcd()
    ensures LastSkips("ABCD", 4) == map['A' := 3, 'B' := 2, 'C' := 1, 'D' := 0]
  {
  }

  /**
   * `two_way_string_match(pattern, text)`: every window of the text's
   * lines is compared with the pattern's lines.
   * The skip table it computes first is never read.
   */
  function TwoWayStringMatch(pattern: string, text: string): (found: bool)
    ensures found <==> Occurs(SplitLines(pattern), SplitLines(text))
    ensures pattern == [] ==> found
    ensures pattern != [] && text == [] ==> !found
  {
    FirstWindowOccurs(SplitLines(pattern), SplitLines(text));
    FirstWindowFrom(SplitLines(pattern), SplitLines(text), 0) >= 0
  }
}
