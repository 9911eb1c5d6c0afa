/** `search_algorithms/linear_search.py`: `linear_search` and its cached `find_string_match`. */
module LinearSearch {
  import opened Wrappers
  import opened PyStr
  import opened LineScan
  import opened Frame
  import opened DatasetCache

  /**
   * `linear_search(text, pattern)`: some piece of `text.split('\n')` equals
   * the pattern once both are stripped. `split` keeps the empty piece after
   * a final `'\n'`, and gives `['']` for the empty text.
   */
  function LinearSearch(text: string, pattern: string): (found: bool)
    ensures found <==> HasStrippedLine(Split(text, '\n'), pattern)
  {
    StrippedScan(pattern, Split(text, '\n'))
  }

  /** Whitespace around the pattern or around a line makes no difference. */
  lemma LinearIgnoresPadding(text: string, pre: string, pattern: string, post: string)
    requires AllSpace(pre) && AllSpace(post)
    ensures LinearSearch(text, pre + pattern + post) == LinearSearch(text, pattern)
  {
    StripPadded(pre, pattern, post);
  }

  /** A blank pattern matches the empty text and every text ending in `'\n'`. */
  lemma LinearBlankMatchesTrailingPiece(text: string, pattern: string)
    requires AllSpace(pattern)
    requires text == [] || text[|text| - 1] == '\n'
    ensures LinearSearch(text, pattern)
  {
    SplitVersusSplitLines(text);
    StripEmpty(pattern);
    StripEmpty([]);
    var pieces := Split(text, '\n');
    assert pieces[|pieces| - 1] == [];
  }

  /** The empty text matches only blank patterns. */
  lemma LinearEmptyText(pattern: string)
    ensures LinearSearch([], pattern) <==> AllSpace(pattern)
  {
    SplitVersusSplitLines([]);
    StripEmpty(pattern);
    StripEmpty([]);
  }

  /** A pattern whose stripped form is longer than the text never matches. */
  lemma LinearLongPattern(text: string, pattern: string)
    requires |Strip(pattern)| > |text|
    ensures !LinearSearch(text, pattern)
  {
    forall k | 0 <= k < |Split(text, '\n')| ensures Strip(Split(text, '\n')[k]) != Strip(pattern) {
      SplitPieceLength(text, '\n', k);
    }
  }

  /** The empty pattern fails on a text with no blank piece. */
  lemma LinearEmptyPatternNeedsBlankPiece(text: string)
    requires forall k :: 0 <= k < |Split(text, '\n')| ==> !AllSpace(Split(text, '\n')[k])
    ensures !LinearSearch(text, [])
  {
    StripEmpty([]);
    forall k | 0 <= k < |Split(text, '\n')| ensures Strip(Split(text, '\n')[k]) != [] {
      StripEmpty(Split(text, '\n')[k]);
    }
  }

  /** The default of `REREAD_ON_QUERY` in this module. */
  const DefaultReread := false

  /**
   * `find_string_match(message, REREAD_ON_QUERY)`: resolve the dataset
   * through the module's cache, then report `linear_search(file_data, message)`.
   */
  method FindStringMatch(cache: Cache, message: string, reread: bool, source: string) returns (v: Verdict)
    modifies cache
    ensures cache.fileData == Some(Refreshed(old(cache.fileData), reread, source))
    ensures v == VerdictOf(LinearSearch(Refreshed(old(cache.fileData), reread, source), message))
  {
    var data := cache.Resolve(reread, source);
    v := VerdictOf(LinearSearch(data, message));
  }
}
