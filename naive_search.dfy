/**
 * `search_algorithms/naive_search.py`: `naive_string_match`, where only the
 * line is stripped, and a `find_string_match` whose cache global is never
 * bound at module level.
 */
module NaiveSearch {
  import opened Wrappers
  import opened PyStr
  import opened Frame
  import opened DatasetCache

  /** The loop over the lines: succeed at the first line that equals the pattern once the line alone is stripped. */
  function NaiveScan(pattern: string, lines: seq<string>): (found: bool)
    ensures found <==> exists k :: 0 <= k < |lines| && Strip(lines[k]) == pattern
  {
    if lines == [] then false
    else
      assert forall k :: 1 <= k < |lines| ==> lines[1..][k - 1] == lines[k];
      pattern == Strip(lines[0]) || NaiveScan(pattern, lines[1..])
  }

  /**
   * `naive_string_match(pattern, text)`: the verdict on whether some line of
   * `text.splitlines()`, stripped, equals the pattern as given.
   */
  function NaiveStringMatch(pattern: string, text: string): (v: Verdict)
    ensures v == Exists <==> exists k :: 0 <= k < |SplitLines(text)| && Strip(SplitLines(text)[k]) == pattern
    ensures text == [] ==> v == NotFound
  {
    VerdictOf(NaiveScan(pattern, SplitLines(text)))
  }

  /** The pattern is not stripped, so one with whitespace at either end is never found. */
  lemma NaivePaddedPattern(pattern: string, text: string)
    requires pattern != [] && (IsSpace(pattern[0]) || IsSpace(pattern[|pattern| - 1]))
    ensures NaiveStringMatch(pattern, text) == NotFound
  {
    forall k | 0 <= k < |SplitLines(text)| ensures Strip(SplitLines(text)[k]) != pattern {
      var line := Strip(SplitLines(text)[k]);
      assert line == [] || line[0] != pattern[0] || line[|line| - 1] != pattern[|pattern| - 1];
    }
  }

  /** A line is found by its stripped form, whatever whitespace surrounds it in the text. */
  lemma NaiveFindsStrippedLine(text: string, k: nat)
    requires k < |SplitLines(text)|
    ensures NaiveStringMatch(Strip(SplitLines(text)[k]), text) == Exists
  {
  }

  /**
   * The module's global `file_data`: this module never assigns it at the
   * top level, so it starts unbound (`None`) and is bound by the first
   * refreshing call.
   */
  class Globals {
    var fileData: Option<string>

    /** A freshly imported module: `file_data` is not bound. */
    constructor ()
      ensures fileData == None
    {
      fileData := None;
    }
  }

  /** The default of `REREAD_ON_QUERY` in this module. */
  const DefaultReread := false

  /**
   * `find_string_match(message, REREAD_ON_QUERY)` as written. With the flag
   * set the file is fetched and bound; otherwise `file_data is None` reads
   * the global, which raises `NameError` until some earlier call bound it.
   */
  method FindStringMatch(g: Globals, message: string, reread: bool, source: string) returns (r: Result<Verdict>)
    modifies g
    ensures reread ==> g.fileData == Some(source) && r == Ok(NaiveStringMatch(message, source))
    ensures !reread && old(g.fileData) == None ==> g.fileData == None && r == Err(NameError)
    ensures !reread && old(g.fileData).Some? ==>
      g.fileData == old(g.fileData) && r == Ok(NaiveStringMatch(message, old(g.fileData).value))
  {
    if reread {
      g.fileData := Some(source);
    } else if g.fileData == None {
      return Err(NameError);
    }
    r := Ok(NaiveStringMatch(message, g.fileData.value));
  }

  /** The first call in a fresh process, with the default flag, raises `NameError`. */
  method FirstDefaultCallFails(message: string, source: string) returns (r: Result<Verdict>)
    ensures r == Err(NameError)
  {
    var g := new Globals();
    r := FindStringMatch(g, message, DefaultReread, source);
  }

  /**
   * The intended wrapper: `file_data = None` bound at module level, so the
   * lazy branch loads the file on first use and no call raises.
   */
  method FindStringMatchFixed(cache: Cache, message: string, reread: bool, source: string) returns (v: Verdict)
    modifies cache
    ensures cache.fileData == Some(Refreshed(old(cache.fileData), reread, source))
    ensures v == NaiveStringMatch(message, Refreshed(old(cache.fileData), reread, source))
  {
    var data := cache.Resolve(reread, source);
    v := NaiveStringMatch(message, data);
  }

  /** With the global bound, the first default call loads the file and answers from it. */
  method FirstDefaultCallFixed(message: string, source: string) returns (v: Verdict)
    ensures v == NaiveStringMatch(message, source)
  {
    var cache := new Cache();
    v := FindStringMatchFixed(cache, message, DefaultReread, source);
  }
}
