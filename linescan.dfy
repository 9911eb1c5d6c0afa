/**
 * The two scans that several matchers share: "some line, stripped, equals
 * the stripped query" and "the pattern lines occur as a contiguous window of
 * the text lines".
 */
module LineScan {
  import opened PyStr

  /** Some line equals the query once both are stripped. */
  predicate HasStrippedLine(lines: seq<string>, query: string) {
    exists k :: 0 <= k < |lines| && Strip(lines[k]) == Strip(query)
  }

  /** One more empty line adds exactly the queries that strip to nothing. */
  lemma HasStrippedLineBlank(lines: seq<string>, query: string)
    ensures HasStrippedLine(lines + [[]], query) <==> HasStrippedLine(lines, query) || Strip(query) == []
  {
    var all := lines + [[]];
    assert Strip(all[|lines|]) == [] by { assert all[|lines|] == []; }
    assert forall k :: 0 <= k < |lines| ==> all[k] == lines[k];
  }

  /** The loop over the lines: succeed at the first line equal to the query once both are stripped. */
  function StrippedScan(query: string, lines: seq<string>): (found: bool)
    ensures found <==> HasStrippedLine(lines, query)
  {
    if lines == [] then false
    else Strip(query) == Strip(lines[0]) || StrippedScan(query, lines[1..])
  }

  /** The scan looks at the first line, then at the rest. */
  lemma StrippedScanCons(query: string, line: string, rest: seq<string>)
    ensures StrippedScan(query, [line] + rest) == (Strip(query) == Strip(line) || StrippedScan(query, rest))
  {
    assert ([line] + rest)[1..] == rest;
  }

  /** `t[i:i + len(p)] == p` with the window inside `t`. */
  predicate WindowAt<T(==)>(p: seq<T>, t: seq<T>, i: int) {
    0 <= i && i + |p| <= |t| && t[i..i + |p|] == p
  }

  /** `p` occurs as a contiguous run of `t`. */
  predicate Occurs<T(==)>(p: seq<T>, t: seq<T>) {
    exists i | 0 <= i <= |t| :: WindowAt(p, t, i)
  }

  /**
   * The window scan from `lo`, in increasing order of start:
   * the least start at or after `lo` whose window is `p`, or -1 when there is none.
   */
  function FirstWindowFrom<T(==)>(p: seq<T>, t: seq<T>, lo: nat): (r: int)
    ensures r == -1 || (lo <= r && WindowAt(p, t, r))
    ensures forall i :: lo <= i && (r == -1 || i < r) ==> !WindowAt(p, t, i)
    decreases |t| - lo
  {
    if lo + |p| > |t| then -1
    else if t[lo..lo + |p|] == p then lo
    else FirstWindowFrom(p, t, lo + 1)
  }

  /** The full scan from 0 finds a window exactly when the pattern occurs. */
  lemma FirstWindowOccurs<T>(p: seq<T>, t: seq<T>)
    ensures FirstWindowFrom(p, t, 0) >= 0 <==> Occurs(p, t)
  {
    var r := FirstWindowFrom(p, t, 0);
    if Occurs(p, t) {
      var i :| 0 <= i <= |t| && WindowAt(p, t, i);
    }
  }

  /** Starts with no window before `hi` can be skipped without changing the first window found. */
  lemma {:induction false} FirstWindowSkip<T>(p: seq<T>, t: seq<T>, lo: nat, hi: nat)
    requires lo <= hi
    requires forall i :: lo <= i < hi ==> !WindowAt(p, t, i)
    ensures FirstWindowFrom(p, t, lo) == FirstWindowFrom(p, t, hi)
    decreases hi - lo
  {
    if lo < hi && lo + |p| <= |t| {
      assert !WindowAt(p, t, lo);
      FirstWindowSkip(p, t, lo + 1, hi);
    }
  }

  /** A window at `lo` is the first one found from `lo`. */
  lemma FirstWindowHere<T>(p: seq<T>, t: seq<T>, lo: nat)
    requires WindowAt(p, t, lo)
    ensures FirstWindowFrom(p, t, lo) == lo
  {
  }
}
