/**
 * `search_algorithms/2_way_search.py`: `two_way_string_match(pattern, text)`,
 * a right-to-left character scan that moves the alignment with the table of
 * `preprocess` (the same function as in `search_algorithms/two_way_search.py`).
 */
module TwoWayChar {
  import opened Wrappers
  import opened PyStr
  import opened LineScan
  import opened SkipTable
  import opened TwoWaySearch

  /** `table.get(c, -1)` */
  function Get(table: map<char, int>, c: char): int {
    if c in table then table[c] else -1
  }

  function Min(a: int, b: int): (r: int)
    ensures r <= a && r <= b && (r == a || r == b)
  {
    if a <= b then a else b
  }

  /**
   * The result of the loop `while j < n` in the state `(i, j)`: `i` indexes
   * the pattern, `j` the text, and the alignment starts at `j - i`. A
   * mismatch moves `j` by `m - min(i, 1 + table.get(text[j], -1))`, which
   * moves the alignment at least one place to the right.
   */
  function CharScan(p: string, t: string, table: map<char, int>, i: int, j: int): bool
    requires 0 <= i < |p| && i <= j
    decreases |t| - (j - i), i
  {
    if j >= |t| then false
    else if t[j] == p[i] then
      if i == 0 then true else CharScan(p, t, table, i - 1, j - 1)
    else if j + 1 >= |t| then false
    else CharScan(p, t, table, |p| - 1, j + |p| - Min(i, 1 + Get(table, t[j])))
  }

  /** The characters after `i` of the alignment starting at `s` already agree with the text. */
  ghost predicate Matched(p: string, t: string, s: int, i: int) {
    i + 1 < |p| ==> 0 <= s && s + |p| <= |t| && 0 <= i + 1 && t[s + i + 1..s + |p|] == p[i + 1..]
  }

  /** Matching `p[i]` extends the agreeing part by one character. */
  lemma MatchedStep(p: string, t: string, s: int, i: int)
    requires 0 <= s && 0 <= i < |p| && Matched(p, t, s, i) && s + i < |t| && t[s + i] == p[i]
    ensures Matched(p, t, s, i - 1)
  {
    if i + 1 < |p| {
      assert t[s + i..s + |p|] == [t[s + i]] + t[s + i + 1..s + |p|];
      assert p[i..] == [p[i]] + p[i + 1..];
    } else {
      assert t[s + i..s + |p|] == [t[s + i]];
      assert p[i..] == [p[i]];
    }
  }

  /** An alignment that agrees down to `p[0]` is an occurrence. */
  lemma MatchedWhole(p: string, t: string, s: int)
    requires |p| >= 1 && Matched(p, t, s, 0) && 0 <= s < |t| && t[s] == p[0]
    ensures WindowAt(p, t, s)
  {
    MatchedStep(p, t, s, 0);
    assert p[0..] == p;
  }

  /** Whatever table is used, the scan only reports an occurrence that is there. */
  lemma {:induction false} CharScanSound(p: string, t: string, table: map<char, int>, i: int, j: int)
    requires 0 <= i < |p| && i <= j && Matched(p, t, j - i, i)
    ensures CharScan(p, t, table, i, j) ==> Occurs(p, t)
    decreases |t| - (j - i), i
  {
    if j < |t| && t[j] == p[i] {
      if i == 0 {
        MatchedWhole(p, t, j);
      } else {
        MatchedStep(p, t, j - i, i);
        CharScanSound(p, t, table, i - 1, j - 1);
      }
    } else if j + 1 < |t| {
      CharScanSound(p, t, table, |p| - 1, j + |p| - Min(i, 1 + Get(table, t[j])));
    }
  }

  /**
   * A table that never overshoots: every character of the pattern maps to
   * an index at or after each of its occurrences, as the index of its last
   * occurrence does.
   */
  ghost predicate SafeLast(p: string, table: map<char, int>) {
    && (forall c :: c in table ==> table[c] >= 0)
    && (forall k :: 0 <= k < |p| ==> p[k] in table && table[p[k]] >= k)
  }

  /** A mismatch at `(i, j)` with a safe table passes over no occurrence. */
  lemma SafeMove(p: string, t: string, table: map<char, int>, i: int, j: int, a: int)
    requires 0 <= i < |p| && i <= j < |t| && t[j] != p[i] && SafeLast(p, table)
    requires j - i <= a < j + 1 - Min(i, 1 + Get(table, t[j]))
    ensures !WindowAt(p, t, a)
  {
    if a + |p| <= |t| {
      assert t[a..a + |p|][j - a] == t[j];
    }
  }

  /** After a mismatch with a safe table, the first occurrence is at or after the new alignment. */
  lemma MismatchMove(p: string, t: string, table: map<char, int>, i: int, j: int)
    requires 0 <= i < |p| && i <= j < |t| && t[j] != p[i] && SafeLast(p, table)
    ensures FirstWindowFrom(p, t, j - i) == FirstWindowFrom(p, t, j + 1 - Min(i, 1 + Get(table, t[j])))
  {
    var next := j + 1 - Min(i, 1 + Get(table, t[j]));
    forall a | j - i <= a < next
      ensures !WindowAt(p, t, a)
    {
      SafeMove(p, t, table, i, j, a);
    }
    FirstWindowSkip(p, t, j - i, next);
  }

  /** A mismatch at the last character of the text leaves no occurrence to find. */
  lemma MismatchAtEnd(p: string, t: string, i: int, j: int)
    requires 0 <= i < |p| && i <= j && j + 1 == |t| && t[j] != p[i]
    ensures FirstWindowFrom(p, t, j - i) == -1
  {
    var s := j - i;
    assert !WindowAt(p, t, s) by {
      if s + |p| <= |t| {
        assert t[s..s + |p|][i] == t[j];
      }
    }
    assert FirstWindowFrom(p, t, s + 1) == -1;
  }

  /** With a safe table the scan finds an occurrence whenever there is one at or after the alignment. */
  lemma {:induction false} CharScanComplete(p: string, t: string, table: map<char, int>, i: int, j: int)
    requires 0 <= i < |p| && i <= j && Matched(p, t, j - i, i) && SafeLast(p, table)
    ensures CharScan(p, t, table, i, j) <==> FirstWindowFrom(p, t, j - i) >= 0
    decreases |t| - (j - i), i, 1
  {
    if j >= |t| {
      assert (j - i) + |p| > |t|;
      assert FirstWindowFrom(p, t, j - i) == -1;
    } else if t[j] == p[i] {
      CompleteOnMatch(p, t, table, i, j);
    } else {
      CompleteOnMismatch(p, t, table, i, j);
    }
  }

  /** Agreement down to `p[0]` ends the scan with True at the first occurrence from `j`. */
  lemma FoundAtStart(p: string, t: string, table: map<char, int>, j: int)
    requires |p| >= 1 && 0 <= j < |t| && t[j] == p[0] && Matched(p, t, j, 0)
    ensures CharScan(p, t, table, 0, j) && FirstWindowFrom(p, t, j) == j
  {
    MatchedWhole(p, t, j);
    FirstWindowHere(p, t, j);
  }

  lemma {:induction false} CompleteOnMatch(p: string, t: string, table: map<char, int>, i: int, j: int)
    requires 0 <= i < |p| && i <= j < |t| && t[j] == p[i] && Matched(p, t, j - i, i) && SafeLast(p, table)
    ensures CharScan(p, t, table, i, j) <==> FirstWindowFrom(p, t, j - i) >= 0
    decreases |t| - (j - i), i, 0
  {
    if i == 0 {
      FoundAtStart(p, t, table, j);
    } else {
      assert Matched(p, t, (j - 1) - (i - 1), i - 1) by {
        MatchedStep(p, t, j - i, i);
      }
      CharScanComplete(p, t, table, i - 1, j - 1);
    }
  }

  lemma {:induction false} CompleteOnMismatch(p: string, t: string, table: map<char, int>, i: int, j: int)
    requires 0 <= i < |p| && i <= j < |t| && t[j] != p[i] && SafeLast(p, table)
    ensures CharScan(p, t, table, i, j) <==> FirstWindowFrom(p, t, j - i) >= 0
    decreases |t| - (j - i), i, 0
  {
    if j + 1 >= |t| {
      MismatchAtEnd(p, t, i, j);
    } else {
      var next := j + |p| - Min(i, 1 + Get(table, t[j]));
      MismatchMove(p, t, table, i, j);
      CharScanComplete(p, t, table, |p| - 1, next);
    }
  }

  /** From the start, with a safe table, the scan reports exactly whether the pattern occurs. */
  lemma CharScanFinds(p: string, t: string, table: map<char, int>)
    requires |p| >= 1 && SafeLast(p, table)
    ensures CharScan(p, t, table, |p| - 1, |p| - 1) <==> Occurs(p, t)
  {
    CharScanComplete(p, t, table, |p| - 1, |p| - 1);
    FirstWindowOccurs(p, t);
  }

  /** The loop `while j < n` itself, from `i = j = m - 1`. */
  method RightToLeft(pattern: string, text: string, table: map<char, int>) returns (found: bool)
    requires |pattern| >= 1
    ensures found == CharScan(pattern, text, table, |pattern| - 1, |pattern| - 1)
  {
    var n := |text|;
    var m := |pattern|;
    var i := m - 1;
    var j := m - 1;
    ghost var goal := CharScan(pattern, text, table, i, j);
    found := false;
    while j < n
      invariant 0 <= i < m && i <= j
      invariant CharScan(pattern, text, table, i, j) == goal
      decreases n - (j - i), i
    {
      if text[j] == pattern[i] {
        if i == 0 {
          return true;
        } else {
          i := i - 1;
          j := j - 1;
        }
      } else {
        if j + 1 >= n {
          break;
        } else {
          j := j + m - Min(i, 1 + Get(table, text[j]));
          i := m - 1;
        }
      }
    }
  }

  /**
   * `two_way_string_match(pattern, text)` as written. The empty pattern
   * raises `IndexError`: `text[-1]` on the empty text, `pattern[-1]`
   * otherwise. The mismatch rule treats the `preprocess` value, a distance
   * from the end of the pattern, as the index of the last occurrence.
   */
  method TwoWayStringMatch(pattern: string, text: string) returns (r: Result<bool>)
    ensures pattern == [] <==> r == Err(IndexError)
    ensures pattern != [] ==> r == Ok(CharScan(pattern, text, LastSkips(pattern, |pattern|), |pattern| - 1, |pattern| - 1))
    ensures r == Ok(true) ==> Occurs(pattern, text)
    ensures pattern != [] && |pattern| > |text| ==> r == Ok(false)
  {
    if |pattern| == 0 {
      return Err(IndexError);
    }
    var table := Preprocess(pattern);
    var found := RightToLeft(pattern, text, table);
    CharScanSound(pattern, text, table, |pattern| - 1, |pattern| - 1);
    r := Ok(found);
  }

  /**
   * `two_way_string_match("xyaz", "qxyaz")` is False although the pattern
   * starts at index 1: the first mismatch reads `'a'`, whose table value 1
   * moves `j` from 3 to 5, past the end of the text.
   */
  lemma TwoWayMissesShiftedMatch()
    ensures !CharScan("xyaz", "qxyaz", LastSkips("xyaz", 4), 3, 3)
    ensures WindowAt("xyaz", "qxyaz", 1)
  {
    assert LastSkips("xyaz", 4)['a'] == 1;
    assert "qxyaz"[1..5] == "xyaz";
  }

  /** The table the mismatch rule expects: each character of the pattern mapped to the index of its last occurrence. */
  function LastOccurrence(skip: map<char, int>, m: int): (last: map<char, int>)
    ensures forall c :: c in last <==> c in skip
    ensures forall c :: c in skip ==> last[c] == m - 1 - skip[c]
  {
    map c | c in skip :: m - 1 - skip[c]
  }

  lemma LastOccurrenceSafe(pattern: string)
    ensures SafeLast(pattern, LastOccurrence(LastSkips(pattern, |pattern|), |pattern|))
  {
    forall c | c in LastSkips(pattern, |pattern|)
      ensures LastSkips(pattern, |pattern|)[c] <= |pattern| - 1
    {
      LastSkipsRange(pattern, |pattern|, c);
    }
    forall k | 0 <= k < |pattern|
      ensures pattern[k] in LastSkips(pattern, |pattern|)
      ensures LastSkips(pattern, |pattern|)[pattern[k]] <= |pattern| - 1 - k
    {
      LastSkipsAt(pattern, |pattern|, k);
    }
  }

  /**
   * The scan as intended: the same loop with `preprocess`'s values turned
   * back into last-occurrence indices. It finds every occurrence of a
   * non-empty pattern and keeps the `IndexError` of the empty one.
   */
  method TwoWayFixed(pattern: string, text: string) returns (r: Result<bool>)
    ensures pattern == [] <==> r == Err(IndexError)
    ensures pattern != [] ==> r == Ok(Occurs(pattern, text))
  {
    if |pattern| == 0 {
      return Err(IndexError);
    }
    var skip := Preprocess(pattern);
    LastOccurrenceSafe(pattern);
    var last := LastOccurrence(skip, |pattern|);
    var found := RightToLeft(pattern, text, last);
    CharScanFinds(pattern, text, last);
    r := Ok(found);
  }
}
