/**
 * `search_algorithms/boyer_moore.py`: `boyer_moore(pattern_lines, text_lines)`,
 * a Horspool-style skip search over lines, and its cached `find_string_match`.
 */
module BoyerMoore {
  import opened Wrappers
  import opened PyStr
  import opened LineScan
  import opened SkipTable
  import opened Frame
  import opened DatasetCache

  /** Every value of the table is a forward move of one to `m` lines. */
  predicate ValidSkips(skip: map<string, int>, m: int) {
    forall c :: c in skip ==> 1 <= skip[c] <= m
  }

  /** How far the index moves after a mismatched window ending in `last`. */
  function SkipFor(skip: map<string, int>, m: nat, last: string): (s: int)
    requires ValidSkips(skip, m) && m >= 1
    ensures 1 <= s <= m
    ensures last !in skip ==> s == m
  {
    if last in skip then skip[last] else m
  }

  /** `text_lines[index:index + m]`, cut short by the end of the text. */
  function Window(t: seq<string>, index: nat, m: nat): (w: seq<string>)
    requires index < |t| && m >= 1
    ensures 1 <= |w| <= m
    ensures index + m <= |t| ==> w == t[index..index + m]
    ensures index + |w| <= |t|
    ensures w[|w| - 1] == t[index + |w| - 1]
  {
    t[index..if index + m <= |t| then index + m else |t|]
  }

  /**
   * The result of the loop `while index < text_length` entered at `index`:
   * the first examined window equal to the pattern, jumping by the table
   * entry of each mismatched window's last line.
   */
  function ScanFrom(p: seq<string>, t: seq<string>, skip: map<string, int>, index: nat): (r: int)
    requires |p| >= 1 && ValidSkips(skip, |p|)
    decreases |t| - index
  {
    if index >= |t| then -1
    else
      var w := Window(t, index, |p|);
      if w == p then index
      else ScanFrom(p, t, skip, index + SkipFor(skip, |p|, w[|w| - 1]))
  }

  /** One mismatched window: the scan resumes at `index` plus the window's skip. */
  lemma ScanFromStep(p: seq<string>, t: seq<string>, skip: map<string, int>, index: nat, w: seq<string>, next: nat)
    requires |p| >= 1 && ValidSkips(skip, |p|) && index < |t|
    requires w == Window(t, index, |p|) && w != p
    requires next == index + SkipFor(skip, |p|, w[|w| - 1])
    ensures ScanFrom(p, t, skip, index) == ScanFrom(p, t, skip, next)
  {
  }

  /** What the scan returns is -1 or the start of a window equal to the pattern. */
  lemma {:induction false} ScanFromSound(p: seq<string>, t: seq<string>, skip: map<string, int>, index: nat)
    requires |p| >= 1 && ValidSkips(skip, |p|)
    ensures var r := ScanFrom(p, t, skip, index); r == -1 || (index <= r && WindowAt(p, t, r))
    decreases |t| - index
  {
    if index < |t| {
      var w := Window(t, index, |p|);
      if w == p {
        assert index + |p| <= |t| && t[index..index + |p|] == p;
      } else {
        var next := index + SkipFor(skip, |p|, w[|w| - 1]);
        ScanFromStep(p, t, skip, index, w, next);
        ScanFromSound(p, t, skip, next);
      }
    }
  }

  /**
   * A table is safe when no line of the pattern (but its last) is jumped
   * over: the entry of `p[j]` is at most its distance `len(p) - 1 - j` to
   * the end of the pattern.
   */
  predicate SafeSkips(p: seq<string>, skip: map<string, int>) {
    forall j :: 0 <= j < |p| - 1 ==> p[j] in skip && skip[p[j]] <= |p| - 1 - j
  }

  /** With a safe table, a jump never passes over a window equal to the pattern. */
  lemma SafeJump(p: seq<string>, t: seq<string>, skip: map<string, int>, index: nat, d: nat)
    requires |p| >= 1 && ValidSkips(skip, |p|) && SafeSkips(p, skip) && index < |t|
    requires Window(t, index, |p|) != p
    requires index <= d < index + SkipFor(skip, |p|, Window(t, index, |p|)[|Window(t, index, |p|)| - 1])
    ensures !WindowAt(p, t, d)
  {
    if d > index && d + |p| <= |t| {
      var j := index + |p| - 1 - d;
      assert t[d..d + |p|][j] == Window(t, index, |p|)[|p| - 1];
    }
  }

  /** With a safe table the scan finds the first window at or after `index`. */
  lemma {:induction false} ScanFromFinds(p: seq<string>, t: seq<string>, skip: map<string, int>, index: nat)
    requires |p| >= 1 && ValidSkips(skip, |p|) && SafeSkips(p, skip)
    ensures ScanFrom(p, t, skip, index) == FirstWindowFrom(p, t, index)
    decreases |t| - index
  {
    if index < |t| {
      var w := Window(t, index, |p|);
      if w == p {
        assert WindowAt(p, t, index);
        FirstWindowHere(p, t, index);
      } else {
        var next := index + SkipFor(skip, |p|, w[|w| - 1]);
        forall d | index <= d < next
          ensures !WindowAt(p, t, d)
        {
          SafeJump(p, t, skip, index, d);
        }
        FirstWindowSkip(p, t, index, next);
        ScanFromStep(p, t, skip, index, w, next);
        ScanFromFinds(p, t, skip, next);
      }
    }
  }

  /** The loop `while index < text_length` itself, started at `start`. */
  method SkipScan(p: seq<string>, t: seq<string>, skip: map<string, int>, start: nat) returns (index: int)
    requires |p| >= 1 && ValidSkips(skip, |p|)
    ensures index == ScanFrom(p, t, skip, start)
  {
    var m := |p|;
    var i := start;
    while i < |t|
      invariant ScanFrom(p, t, skip, i) == ScanFrom(p, t, skip, start)
      decreases |t| - i
    {
      var w := t[i..if i + m <= |t| then i + m else |t|];
      if w == p {
        return i;
      }
      ghost var before := i;
      if w[|w| - 1] in skip {
        i := i + skip[w[|w| - 1]];
      } else {
        i := i + m;
      }
      ScanFromStep(p, t, skip, before, w, i);
    }
    return -1;
  }

  /** The table of `boyer_moore`: each pattern line but the last maps to its distance from the end, then the empty line is set to `m`. */
  function BmSkips(p: seq<string>): (skip: map<string, int>)
    requires |p| >= 1
    ensures ValidSkips(skip, |p|)
    ensures [] in skip && skip[[]] == |p|
  {
    var base := LastSkips(p, |p| - 1);
    LastSkipsSafe(p);
    base[[] := |p|]
  }

  /** The table before the `''` entry is overwritten is safe. */
  lemma LastSkipsSafe(p: seq<string>)
    requires |p| >= 1
    ensures ValidSkips(LastSkips(p, |p| - 1), |p|) && SafeSkips(p, LastSkips(p, |p| - 1))
  {
    var base := LastSkips(p, |p| - 1);
    forall c | c in base ensures 1 <= base[c] <= |p| {
      LastSkipsRange(p, |p| - 1, c);
    }
    forall j | 0 <= j < |p| - 1 ensures p[j] in base && base[p[j]] <= |p| - 1 - j {
      LastSkipsAt(p, |p| - 1, j);
    }
  }

  /** `boyer_moore`'s table is safe when no pattern line before the last one is empty. */
  lemma BmSkipsSafe(p: seq<string>)
    requires |p| >= 1 && [] !in p[..|p| - 1]
    ensures SafeSkips(p, BmSkips(p))
  {
    LastSkipsSafe(p);
    forall j | 0 <= j < |p| - 1 ensures p[j] in BmSkips(p) && BmSkips(p)[p[j]] <= |p| - 1 - j {
      assert p[..|p| - 1][j] == p[j];
    }
  }

  /** The table-filling loop in the order of the dictionary comprehension. */
  method BuildSkips(p: seq<string>) returns (skip: map<string, int>)
    requires |p| >= 1
    ensures skip == BmSkips(p)
  {
    skip := Fill(p, |p| - 1);
    skip := skip[[] := |p|];
  }

  /**
   * `boyer_moore(pattern_lines, text_lines)` as written: the search starts at
   * index `m - 1`, so a window starting before it is never examined, and the
   * `''` entry always jumps the whole pattern length.
   */
  method BoyerMoore(p: seq<string>, t: seq<string>) returns (index: int)
    ensures |p| == 0 ==> index == -1
    ensures |p| >= 1 ==> index == ScanFrom(p, t, BmSkips(p), |p| - 1)
    ensures index == -1 || (|p| - 1 <= index && WindowAt(p, t, index))
    ensures t == [] ==> index == -1
    ensures |p| >= 1 && [] !in p[..|p| - 1] ==> index == FirstWindowFrom(p, t, |p| - 1)
  {
    if |p| == 0 {
      // `index = -1` is below every `text_length`, so the loop starts, and its first
      // window `text_lines[-1:-1]` is empty and equals the pattern: it returns -1.
      return -1;
    }
    var skip := BuildSkips(p);
    index := SkipScan(p, t, skip, |p| - 1);
    ScanFromSound(p, t, skip, |p| - 1);
    if [] !in p[..|p| - 1] {
      BmSkipsSafe(p);
      ScanFromFinds(p, t, skip, |p| - 1);
    }
  }

  /** `boyer_moore(['a', 'b'], ['a', 'b'])` is -1 although the pattern is the whole text. */
  lemma BoyerMooreMissesLeadingWindow()
    ensures ScanFrom(["a", "b"], ["a", "b"], BmSkips(["a", "b"]), 1) == -1
    ensures WindowAt(["a", "b"], ["a", "b"], 0)
  {
    var p: seq<string> := ["a", "b"];
    var skip := BmSkips(p);
    assert "b" !in skip by {
      assert p[..1] == ["a"];
    }
    assert Window(p, 1, 2) == ["b"];
    assert ScanFrom(p, p, skip, 3) == -1;
  }

  /**
   * `boyer_moore(['', 'x'], ['y', 'y', '', 'x'])` is -1 although the window
   * at 2, which the scan could examine, equals the pattern: the `''` entry
   * jumps from 1 straight to 3.
   */
  lemma BoyerMooreBlankLineJump()
    ensures ScanFrom(["", "x"], ["y", "y", "", "x"], BmSkips(["", "x"]), 1) == -1
    ensures WindowAt(["", "x"], ["y", "y", "", "x"], 2)
  {
    var p: seq<string> := ["", "x"];
    var t: seq<string> := ["y", "y", "", "x"];
    var skip := BmSkips(p);
    assert skip[[]] == 2;
    assert "x" !in skip by {
      assert p[..1] == [""];
    }
    assert Window(t, 1, 2) == ["y", ""];
    assert Window(t, 3, 2) == ["x"];
    assert ScanFrom(p, t, skip, 5) == -1;
    assert t[2..4] == p;
  }

  /**
   * The search as intended: the same skip loop, started at the first window
   * and without the `''` override, so it finds the first window equal to a
   * non-empty pattern. The empty pattern keeps the result -1.
   */
  method BoyerMooreFixed(p: seq<string>, t: seq<string>) returns (index: int)
    ensures |p| == 0 ==> index == -1
    ensures |p| >= 1 ==> index == FirstWindowFrom(p, t, 0)
    ensures |p| >= 1 ==> (index >= 0 <==> Occurs(p, t))
  {
    if |p| == 0 {
      return -1;
    }
    var skip := Fill(p, |p| - 1);
    LastSkipsSafe(p);
    index := SkipScan(p, t, skip, 0);
    ScanFromFinds(p, t, skip, 0);
    FirstWindowOccurs(p, t);
  }

  /** The as-written scan from `m - 1` reports only real windows. */
  lemma ScanVerdictSound(p: seq<string>, t: seq<string>)
    requires |p| >= 1
    ensures ScanFrom(p, t, BmSkips(p), |p| - 1) != -1 ==> Occurs(p, t)
  {
    var skip := BmSkips(p);
    var r := ScanFrom(p, t, skip, |p| - 1);
    ScanFromSound(p, t, skip, |p| - 1);
    if r != -1 {
      assert WindowAt(p, t, r);
    }
  }

  /** With no blank line before the pattern's last, the as-written scan finds the first window from `m - 1`. */
  lemma ScanVerdictFirst(p: seq<string>, t: seq<string>)
    requires |p| >= 1
    ensures [] !in p[..|p| - 1] ==> ScanFrom(p, t, BmSkips(p), |p| - 1) == FirstWindowFrom(p, t, |p| - 1)
  {
    if [] !in p[..|p| - 1] {
      BmSkipsSafe(p);
      ScanFromFinds(p, t, BmSkips(p), |p| - 1);
    }
  }

  /**
   * What `find_string_match` reports for a message and the dataset text:
   * EXISTS when `boyer_moore` on their lines, as written, returns an index.
   * Whatever it reports is a real occurrence; it is complete only for the
   * windows from `m - 1` on, and only when no earlier pattern line is blank.
   */
  function BoyerMooreVerdict(message: string, data: string): (v: Verdict)
    ensures v == Exists ==> message != [] && Occurs(SplitLines(message), SplitLines(data))
    ensures |SplitLines(message)| >= 1 && [] !in SplitLines(message)[..|SplitLines(message)| - 1] ==>
      (v == Exists <==> FirstWindowFrom(SplitLines(message), SplitLines(data), |SplitLines(message)| - 1) >= 0)
  {
    var p, t := SplitLines(message), SplitLines(data);
    if |p| == 0 then NotFound
    else
      ScanVerdictSound(p, t);
      ScanVerdictFirst(p, t);
      VerdictOf(ScanFrom(p, t, BmSkips(p), |p| - 1) != -1)
  }

  /** The message `"a\nb"` is reported NOT FOUND in the dataset `"a\nb"`, which it occurs in. */
  lemma VerdictMissesWholeDataset()
    ensures BoyerMooreVerdict("a\nb", "a\nb") == NotFound
    ensures Occurs(SplitLines("a\nb"), SplitLines("a\nb"))
  {
    var lines := SplitLines("a\nb");
    assert lines == ["a", "b"] by {
      SplitLinesFirst("a\nb", 1);
      assert "a\nb"[..1] == "a" && "a\nb"[2..] == "b";
      SplitLinesOneLine("b");
    }
    BoyerMooreMissesLeadingWindow();
  }

  /** The default of `REREAD_ON_QUERY` in this module. */
  const DefaultReread := true

  /**
   * `find_string_match(message, REREAD_ON_QUERY)`: resolve the dataset
   * through the cache, then report whether `boyer_moore` finds the lines of
   * the message among the lines of the dataset.
   */
  method FindStringMatch(cache: Cache, message: string, reread: bool, source: string) returns (v: Verdict)
    modifies cache
    ensures cache.fileData == Some(Refreshed(old(cache.fileData), reread, source))
    ensures v == BoyerMooreVerdict(message, Refreshed(old(cache.fileData), reread, source))
  {
    var data := cache.Resolve(reread, source);
    var index := BoyerMoore(SplitLines(message), SplitLines(data));
    v := VerdictOf(index != -1);
  }

  /** `find_string_match` with the corrected search: EXISTS exactly when the message's lines occur in the dataset's. */
  method FindStringMatchFixed(cache: Cache, message: string, reread: bool, source: string) returns (v: Verdict)
    modifies cache
    ensures cache.fileData == Some(Refreshed(old(cache.fileData), reread, source))
    ensures v == VerdictOf(message != [] && Occurs(SplitLines(message), SplitLines(Refreshed(old(cache.fileData), reread, source))))
  {
    var data := cache.Resolve(reread, source);
    var index := BoyerMooreFixed(SplitLines(message), SplitLines(data));
    v := VerdictOf(index != -1);
  }
}
