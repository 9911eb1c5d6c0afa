/**
 * The pieces of Python's `str` that the matchers rely on, over `'\n'` line
 * boundaries and ASCII whitespace only: `strip`, `split(sep)`, `splitlines`,
 * `find`, `startswith`, `in` and `lower`.
 */
module PyStr {

  /** The ASCII characters for which `str.isspace()` holds; `str.strip()` removes them. */
  predicate IsSpace(c: char) {
    c == ' ' || c == '\t' || c == '\n' || c == '\r' || c == '\U{000B}' || c == '\U{000C}'
    || c == '\U{001C}' || c == '\U{001D}' || c == '\U{001E}' || c == '\U{001F}'
  }

  predicate AllSpace(s: string) {
    forall i :: 0 <= i < |s| ==> IsSpace(s[i])
  }

  /** True when `s` has no whitespace at either end, i.e. `s.strip() == s`. */
  predicate Unpadded(s: string) {
    s == [] || (!IsSpace(s[0]) && !IsSpace(s[|s| - 1]))
  }

  /** `s.lstrip()`: `s` without its leading whitespace. */
  function StripLeft(s: string): (r: string)
    ensures |r| <= |s|
    ensures r == [] || !IsSpace(r[0])
  {
    if s != [] && IsSpace(s[0]) then StripLeft(s[1..]) else s
  }

  /** `s.rstrip()`: `s` without its trailing whitespace. */
  function StripRight(s: string): (r: string)
    ensures |r| <= |s|
    ensures r == [] || !IsSpace(r[|r| - 1])
  {
    if s != [] && IsSpace(s[|s| - 1]) then StripRight(s[..|s| - 1]) else s
  }

  /** `lstrip()` keeps a suffix of the string. */
  lemma {:induction false} StripLeftSuffix(s: string)
    ensures StripLeft(s) == s[|s| - |StripLeft(s)|..]
    decreases |s|
  {
    if s != [] && IsSpace(s[0]) {
      StripLeftSuffix(s[1..]);
      assert s[1..][|s| - 1 - |StripLeft(s)|..] == s[|s| - |StripLeft(s)|..];
    }
  }

  /** `rstrip()` keeps a prefix of the string. */
  lemma {:induction false} StripRightPrefix(s: string)
    ensures StripRight(s) == s[..|StripRight(s)|]
    decreases |s|
  {
    if s != [] && IsSpace(s[|s| - 1]) {
      StripRightPrefix(s[..|s| - 1]);
    }
  }

  /** `s.strip()`: `s` with its leading and trailing whitespace removed. */
  function Strip(s: string): (r: string)
    ensures |r| <= |s| && Unpadded(r)
  {
    StripRightPrefix(StripLeft(s));
    StripRight(StripLeft(s))
  }

  /** Everything `lstrip` removes is whitespace. */
  lemma {:induction false} StripLeftRemovesSpace(s: string)
    ensures forall k :: 0 <= k < |s| - |StripLeft(s)| ==> IsSpace(s[k])
    decreases |s|
  {
    if s != [] && IsSpace(s[0]) {
      StripLeftRemovesSpace(s[1..]);
      assert forall k :: 1 <= k < |s| ==> s[k] == s[1..][k - 1];
    }
  }

  /** Everything `rstrip` removes is whitespace. */
  lemma {:induction false} StripRightRemovesSpace(s: string)
    ensures forall k :: |StripRight(s)| <= k < |s| ==> IsSpace(s[k])
    decreases |s|
  {
    if s != [] && IsSpace(s[|s| - 1]) {
      StripRightRemovesSpace(s[..|s| - 1]);
    }
  }

  /** Where the stripped text sits in `s`: everything outside `s[a..b]` is whitespace. */
  lemma StripBounds(s: string) returns (a: nat, b: nat)
    ensures a <= b <= |s| && Strip(s) == s[a..b]
    ensures forall k :: 0 <= k < a ==> IsSpace(s[k])
    ensures forall k :: b <= k < |s| ==> IsSpace(s[k])
  {
    var left := StripLeft(s);
    a := |s| - |left|;
    b := a + |Strip(s)|;
    StripLeftRemovesSpace(s);
    StripRightRemovesSpace(left);
    StripLeftSuffix(s);
    StripRightPrefix(left);
    assert left == s[a..];
    assert forall k :: b <= k < |s| ==> s[k] == left[k - a];
  }

  lemma StripUnpadded(s: string)
    requires Unpadded(s)
    ensures Strip(s) == s
  {
  }

  lemma StripIdempotent(s: string)
    ensures Strip(Strip(s)) == Strip(s)
  {
    StripUnpadded(Strip(s));
  }

  /** Leading whitespace does not survive `lstrip()`. */
  lemma {:induction false} StripLeftPad(pre: string, x: string)
    requires AllSpace(pre)
    ensures StripLeft(pre + x) == StripLeft(x)
    decreases |pre|
  {
    if pre == [] {
      assert pre + x == x;
    } else {
      assert (pre + x)[0] == pre[0];
      assert (pre + x)[1..] == pre[1..] + x;
      StripLeftPad(pre[1..], x);
    }
  }

  /** Trailing whitespace does not survive `rstrip()`. */
  lemma {:induction false} StripRightPad(x: string, post: string)
    requires AllSpace(post)
    ensures StripRight(x + post) == StripRight(x)
    decreases |post|
  {
    if post == [] {
      assert x + post == x;
    } else {
      var shorter := post[..|post| - 1];
      assert (x + post)[|x + post| - 1] == post[|post| - 1];
      assert (x + post)[..|x + post| - 1] == x + shorter;
      StripRightPad(x, shorter);
    }
  }

  /** Trailing whitespace is removed by `strip()` whether or not the text before it is blank. */
  lemma {:induction false} StripAcross(t: string, post: string)
    requires AllSpace(post)
    ensures StripRight(StripLeft(t + post)) == StripRight(StripLeft(t))
    decreases |t|
  {
    if t == [] {
      assert t + post == post + [];
      StripLeftPad(post, []);
    } else if IsSpace(t[0]) {
      assert (t + post)[0] == t[0];
      assert (t + post)[1..] == t[1..] + post;
      StripAcross(t[1..], post);
    } else {
      assert (t + post)[0] == t[0];
      StripRightPad(t, post);
    }
  }

  /** Whitespace added around a string does not survive `strip()`. */
  lemma StripPadded(pre: string, t: string, post: string)
    requires AllSpace(pre) && AllSpace(post)
    ensures Strip(pre + t + post) == Strip(t)
  {
    StripAcross(pre + t, post);
    StripLeftPad(pre, t);
  }

  /** `lstrip()` leaves nothing exactly when the string is all whitespace. */
  lemma {:induction false} StripLeftEmpty(s: string)
    ensures StripLeft(s) == [] <==> AllSpace(s)
    decreases |s|
  {
    if s != [] && IsSpace(s[0]) {
      StripLeftEmpty(s[1..]);
      assert forall k :: 1 <= k < |s| ==> s[k] == s[1..][k - 1];
    }
  }

  /** `rstrip()` leaves nothing exactly when the string is all whitespace. */
  lemma {:induction false} StripRightEmpty(s: string)
    ensures StripRight(s) == [] <==> AllSpace(s)
    decreases |s|
  {
    if s != [] && IsSpace(s[|s| - 1]) {
      StripRightEmpty(s[..|s| - 1]);
    }
  }

  /** `s.strip()` is empty exactly when `s` is all whitespace. */
  lemma StripEmpty(s: string)
    ensures Strip(s) == [] <==> AllSpace(s)
  {
    StripLeftEmpty(s);
    StripRightEmpty(StripLeft(s));
  }

  /** A character that is not in `s` is not in `s.strip()`. */
  lemma StripKeepsOut(s: string, c: char)
    requires c !in s
    ensures c !in Strip(s)
  {
    var a, b := StripBounds(s);
    assert forall k :: 0 <= k < b - a ==> Strip(s)[k] == s[a + k];
  }

  /** `s.find(c, from)`: the first index at or after `from` holding `c`, or -1. */
  function Find(s: string, c: char, from: nat): (r: int)
    ensures r == -1 || (from <= r < |s| && s[r] == c)
    ensures forall k :: from <= k < (if r == -1 then |s| else r) ==> s[k] != c
    decreases |s| - from
  {
    if from >= |s| then -1
    else if s[from] == c then from
    else Find(s, c, from + 1)
  }

  /** `find` returns the first occurrence, and -1 exactly when there is none. */
  lemma FindFirst(s: string, c: char, e: nat)
    requires e <= |s| && (e == |s| || s[e] == c)
    requires forall k :: 0 <= k < e ==> s[k] != c
    ensures Find(s, c, 0) == (if e == |s| then -1 else e)
  {
  }

  /** `s.split(sep)`: the pieces between separators; there is always at least one. */
  function Split(s: string, sep: char): (r: seq<string>)
    ensures |r| >= 1
    decreases |s|
  {
    var i := Find(s, sep, 0);
    if i < 0 then [s] else [s[..i]] + Split(s[i + 1..], sep)
  }

  /** Splitting at the first separator, or not at all when there is none. */
  lemma SplitAtFirst(s: string, sep: char, e: nat)
    requires e <= |s| && (e == |s| || s[e] == sep)
    requires forall k :: 0 <= k < e ==> s[k] != sep
    ensures e == |s| ==> Split(s, sep) == [s]
    ensures e < |s| ==> Split(s, sep) == [s[..e]] + Split(s[e + 1..], sep)
  {
    FindFirst(s, sep, e);
  }

  /** No piece of a split holds the separator. */
  lemma {:induction false} SplitPieceFree(s: string, sep: char, k: nat)
    requires k < |Split(s, sep)|
    ensures sep !in Split(s, sep)[k]
    decreases |s|
  {
    var i := Find(s, sep, 0);
    if i >= 0 {
      var tail := Split(s[i + 1..], sep);
      assert Split(s, sep) == [s[..i]] + tail;
      if k == 0 {
        assert forall j :: 0 <= j < i ==> s[..i][j] == s[j];
      } else {
        SplitPieceFree(s[i + 1..], sep, k - 1);
        assert Split(s, sep)[k] == tail[k - 1];
      }
    } else {
      assert Split(s, sep) == [s];
    }
  }

  /** `sep.join(parts)` for a non-empty list of parts. */
  function Join(parts: seq<string>, sep: char): string
    requires |parts| >= 1
  {
    if |parts| == 1 then parts[0] else parts[0] + [sep] + Join(parts[1..], sep)
  }

  /** Joining the pieces of a split gives back the string. */
  lemma {:induction false} JoinSplit(s: string, sep: char)
    ensures Join(Split(s, sep), sep) == s
    decreases |s|
  {
    var i := Find(s, sep, 0);
    if i >= 0 {
      JoinSplit(s[i + 1..], sep);
      JoinSplitCons(s, sep, i);
    }
  }

  /** The split at the first separator `i` joins back to `s` when the split of the rest does. */
  lemma JoinSplitCons(s: string, sep: char, i: nat)
    requires Find(s, sep, 0) == i
    requires Join(Split(s[i + 1..], sep), sep) == s[i + 1..]
    ensures Join(Split(s, sep), sep) == s
  {
    var head, tail := s[..i], s[i + 1..];
    JoinFirst(Split(s, sep), head, Split(tail, sep), sep);
    assert s == head + [sep] + tail;
  }

  /** `Join` on a list of at least two parts. */
  lemma JoinFirst(parts: seq<string>, head: string, rest: seq<string>, sep: char)
    requires |rest| >= 1 && parts == [head] + rest
    ensures Join(parts, sep) == head + [sep] + Join(rest, sep)
  {
    assert parts[1..] == rest;
  }

  /** Splitting a join of separator-free pieces gives back the pieces. */
  lemma {:induction false} SplitJoin(parts: seq<string>, sep: char)
    requires |parts| >= 1
    requires forall k :: 0 <= k < |parts| ==> sep !in parts[k]
    ensures Split(Join(parts, sep), sep) == parts
  {
    if |parts| == 1 {
      SplitJoinOne(parts, sep);
    } else {
      SplitJoin(parts[1..], sep);
      SplitJoinCons(parts, sep);
    }
  }

  /** A single separator-free part is split into itself. */
  lemma SplitJoinOne(parts: seq<string>, sep: char)
    requires |parts| == 1 && sep !in parts[0]
    ensures Split(Join(parts, sep), sep) == parts
  {
    SplitAtFirst(parts[0], sep, |parts[0]|);
  }

  /** A first separator-free part comes off the split of a join first. */
  lemma SplitJoinCons(parts: seq<string>, sep: char)
    requires |parts| >= 2 && sep !in parts[0]
    requires Split(Join(parts[1..], sep), sep) == parts[1..]
    ensures Split(Join(parts, sep), sep) == parts
  {
    SplitAfterPrefix(parts[0], sep, Join(parts[1..], sep));
    assert parts == [parts[0]] + parts[1..];
  }

  /** Slicing inside the first operand of a concatenation. */
  lemma SliceAppend<T>(t: seq<T>, x: seq<T>, i: nat)
    requires i < |t|
    ensures (t + x)[..i] == t[..i] && (t + x)[i + 1..] == t[i + 1..] + x
  {
  }

  /** Concatenation is associative. */
  lemma AppendAssoc<T>(a: seq<T>, b: seq<T>, c: seq<T>)
    ensures a + (b + c) == (a + b) + c
  {
  }

  /** A trailing separator adds one empty piece. */
  lemma {:induction false} SplitTrailingSep(t: string, sep: char)
    ensures Split(t + [sep], sep) == Split(t, sep) + [[]]
    decreases |t|
  {
    var i := Find(t, sep, 0);
    if i < 0 {
      TrailingSepOnly(t, sep);
    } else {
      SplitTrailingSep(t[i + 1..], sep);
      TrailingSepCons(t, sep, i);
    }
  }

  /** With no separator in `t`, `t + [sep]` splits into `t` and one empty piece. */
  lemma TrailingSepOnly(t: string, sep: char)
    requires Find(t, sep, 0) == -1
    ensures Split(t + [sep], sep) == Split(t, sep) + [[]]
  {
    var s := t + [sep];
    assert forall k :: 0 <= k < |t| ==> s[k] == t[k];
    SplitAtFirst(s, sep, |t|);
    assert s[..|t|] == t && s[|t| + 1..] == [];
    SplitAtFirst([], sep, 0);
    SplitAtFirst(t, sep, |t|);
  }

  /** The first separator of `t`, at `i`, is also the first of `t + [sep]`; the rest carries the trailing piece. */
  lemma TrailingSepCons(t: string, sep: char, i: nat)
    requires Find(t, sep, 0) == i
    requires Split(t[i + 1..] + [sep], sep) == Split(t[i + 1..], sep) + [[]]
    ensures Split(t + [sep], sep) == Split(t, sep) + [[]]
  {
    var s := t + [sep];
    assert forall k :: 0 <= k < i ==> s[k] == t[k];
    SplitAtFirst(s, sep, i);
    SplitAtFirst(t, sep, i);
    SliceAppend(t, [sep], i);
    AppendAssoc([t[..i]], Split(t[i + 1..], sep), [[]]);
  }

  /**
   * `s.splitlines()` restricted to `'\n'` boundaries: the pieces of
   * `s.split('\n')` without the empty piece after a final `'\n'`, and no
   * pieces at all for the empty string.
   */
  function SplitLines(s: string): (r: seq<string>)
    ensures r == [] <==> s == []
  {
    if s == [] then []
    else if s[|s| - 1] == '\n' then Split(s[..|s| - 1], '\n')
    else Split(s, '\n')
  }

  /** The first piece of a split runs up to the first separator, or to the end. */
  lemma SplitHead(s: string, sep: char)
    ensures StartsWith(s, Split(s, sep)[0])
    ensures |Split(s, sep)[0]| == |s| || s[|Split(s, sep)[0]|] == sep
  {
  }

  /** Splitting past a first piece that holds no separator. */
  lemma SplitAfterPrefix(pre: string, sep: char, rest: string)
    requires sep !in pre
    ensures Split(pre + [sep] + rest, sep) == [pre] + Split(rest, sep)
  {
    var s := pre + [sep] + rest;
    assert s[|pre|] == sep;
    assert s[..|pre|] == pre && s[|pre| + 1..] == rest;
    SplitAtFirst(s, sep, |pre|);
  }

  /** No line of `splitlines()` holds a `'\n'`. */
  lemma SplitLinesPieceFree(s: string, k: nat)
    requires k < |SplitLines(s)|
    ensures '\n' !in SplitLines(s)[k]
  {
    if s != [] {
      if s[|s| - 1] == '\n' {
        SplitPieceFree(s[..|s| - 1], '\n', k);
      } else {
        SplitPieceFree(s, '\n', k);
      }
    }
  }

  /** The two splitters agree except for the final empty piece that `split` keeps. */
  lemma SplitVersusSplitLines(s: string)
    ensures s == [] ==> Split(s, '\n') == [[]]
    ensures s != [] && s[|s| - 1] == '\n' ==> Split(s, '\n') == SplitLines(s) + [[]]
    ensures s != [] && s[|s| - 1] != '\n' ==> Split(s, '\n') == SplitLines(s)
  {
    if s == [] {
      assert Find(s, '\n', 0) == -1;
    } else if s[|s| - 1] == '\n' {
      assert s[|s| - 1..] == ['\n'];
      assert s == s[..|s| - 1] + s[|s| - 1..];
      SplitTrailingSep(s[..|s| - 1], '\n');
    }
  }

  /** `splitlines()` peels off the text up to the first `'\n'` (or the whole text). */
  lemma SplitLinesFirst(s: string, e: nat)
    requires s != []
    requires e <= |s| && (e == |s| || s[e] == '\n')
    requires forall k :: 0 <= k < e ==> s[k] != '\n'
    ensures e == |s| ==> SplitLines(s) == [s]
    ensures e < |s| ==> SplitLines(s) == [s[..e]] + SplitLines(s[e + 1..])
  {
    if e == |s| {
      assert s[|s| - 1] != '\n';
      assert Find(s, '\n', 0) == -1;
    } else if s[|s| - 1] == '\n' {
      var t := s[..|s| - 1];
      if e == |s| - 1 {
        assert Find(t, '\n', 0) == -1;
        assert t == s[..e];
      } else {
        assert t[e] == '\n';
        SplitAtFirst(t, '\n', e);
        assert t[..e] == s[..e];
        var u := s[e + 1..];
        assert u != [] && u[|u| - 1] == '\n';
        assert t[e + 1..] == u[..|u| - 1];
      }
    } else {
      SplitAtFirst(s, '\n', e);
      var u := s[e + 1..];
      assert u != [] && u[|u| - 1] != '\n';
    }
  }

  /** Every piece of a line split is at most as long as the text. */
  lemma {:induction false} SplitPieceLength(s: string, sep: char, k: nat)
    requires k < |Split(s, sep)|
    ensures |Split(s, sep)[k]| <= |s|
    decreases |s|
  {
    var i := Find(s, sep, 0);
    if i >= 0 && k > 0 {
      SplitPieceLength(s[i + 1..], sep, k - 1);
    }
  }

  lemma SplitLinesPieceLength(s: string, k: nat)
    requires k < |SplitLines(s)|
    ensures |SplitLines(s)[k]| <= |s|
  {
    if s != [] {
      if s[|s| - 1] == '\n' { SplitPieceLength(s[..|s| - 1], '\n', k); }
      else { SplitPieceLength(s, '\n', k); }
    }
  }

  /** A text with no `'\n'` is one line. */
  lemma SplitLinesOneLine(s: string)
    requires s != [] && '\n' !in s
    ensures SplitLines(s) == [s]
  {
    SplitLinesFirst(s, |s|);
  }

  /** `s.startswith(prefix)` */
  predicate StartsWith(s: string, prefix: string) {
    |prefix| <= |s| && s[..|prefix|] == prefix
  }

  /** Stripping keeps a prefix that starts and ends with a non-space character. */
  lemma StripKeepsPrefix(s: string, p: string)
    requires StartsWith(s, p) && p != []
    requires !IsSpace(p[0]) && !IsSpace(p[|p| - 1])
    ensures StartsWith(Strip(s), p)
  {
    var a, b := StripBounds(s);
    assert s[0] == p[0] && s[|p| - 1] == p[|p| - 1];
    assert Strip(s)[..|p|] == s[..|p|];
  }

  /** The index of the last occurrence of `x` in `s`. */
  function LastIndex<T(==)>(s: seq<T>, x: T): (r: nat)
    requires x in s
    ensures r < |s| && s[r] == x
    ensures forall k :: r < k < |s| ==> s[k] != x
  {
    if s[|s| - 1] == x then |s| - 1 else LastIndex(s[..|s| - 1], x)
  }

  /** The first `n` characters of `s`, or all of them when there are fewer. */
  function Take(s: string, n: int): (r: string)
    ensures |r| <= |s| && (n >= 0 ==> |r| <= n)
    ensures r == s[..|r|]
    ensures 0 <= n <= |s| ==> |r| == n
    ensures n >= |s| ==> r == s
  {
    if n <= 0 then [] else if n >= |s| then s else s[..n]
  }

  /** `c.lower()` for an ASCII letter; other characters are left as they are. */
  function LowerChar(c: char): char {
    if 'A' <= c <= 'Z' then (c as int + 32) as char else c
  }

  /** `s.lower()` on ASCII letters. */
  function LowerAscii(s: string): (r: string)
    ensures |r| == |s|
  {
    if s == [] then [] else [LowerChar(s[0])] + LowerAscii(s[1..])
  }
}
