/**
 * `search_algorithms/karp.py`: `karp_rabin_string_match` over characters,
 * with a rolling update of `text_hash`. Python's `hash` is randomised per
 * process, so it is a parameter here: any function from strings to integers.
 */
module KarpRolling {
  import opened PyStr
  import opened LineScan
  import opened Frame

  /** `prime` */
  const Prime: int := 101

  function Power(b: int, e: nat): int
  {
    if e == 0 then 1 else b * Power(b, e - 1)
  }

  /**
   * The rolling update: drop `out`, shift by `prime`, add `next`, reduce
   * modulo `sys.maxsize`. Python's `%` with a positive modulus is the
   * non-negative remainder, as Dafny's is.
   */
  function Roll(h: int, out: char, next: char, m: nat): (r: int)
    requires m >= 1
    ensures 0 <= r < MaxSize
  {
    (Prime * (h - (out as int) * Power(Prime, m - 1)) + next as int) % MaxSize
  }

  /**
   * The loop `for i in range(n - m + 1)` from index `i` with the current
   * `text_hash`: a hash hit confirmed by comparing the window ends the scan,
   * and the hash is rolled only while another window follows.
   */
  function RollingScan(p: string, t: string, ph: int, i: nat, th: int): bool
    requires |p| == 0 ==> ph == th
    decreases |t| - |p| + 1 - i
  {
    if i >= |t| - |p| + 1 then false
    else if ph == th && p == t[i..i + |p|] then true
    else RollingScan(p, t, ph, i + 1, if i < |t| - |p| then Roll(th, t[i], t[i + |p|], |p|) else th)
  }

  /** Whatever the hash, the scan reports only windows that equal the pattern. */
  lemma {:induction false} RollingScanSound(p: string, t: string, ph: int, i: nat, th: int)
    requires |p| == 0 ==> ph == th
    ensures RollingScan(p, t, ph, i, th) ==> Occurs(p, t)
    decreases |t| - |p| + 1 - i
  {
    if i < |t| - |p| + 1 {
      if ph == th && p == t[i..i + |p|] {
        assert WindowAt(p, t, i);
      } else {
        RollingScanSound(p, t, ph, i + 1, if i < |t| - |p| then Roll(th, t[i], t[i + |p|], |p|) else th);
      }
    }
  }

  /** The verdict from the start: `hash(pattern)` against `hash(text[:m])`. */
  function KarpVerdict(pattern: string, text: string, hash: string -> int): (v: Verdict)
    ensures v == Exists ==> Occurs(pattern, text)
    ensures pattern == [] ==> v == Exists
  {
    RollingScanSound(pattern, text, hash(pattern), 0, hash(Take(text, |pattern|)));
    VerdictOf(RollingScan(pattern, text, hash(pattern), 0, hash(Take(text, |pattern|))))
  }

  /**
   * `karp_rabin_string_match(pattern, text)` as written. An empty pattern
   * hits at once, since both hashes are `hash('')`; a text that starts with
   * the pattern hits on the first window; a pattern longer than the text
   * leaves the loop range empty.
   */
  method KarpRabinStringMatch(pattern: string, text: string, hash: string -> int) returns (v: Verdict)
    ensures v == KarpVerdict(pattern, text, hash)
    ensures v == Exists ==> Occurs(pattern, text)
    ensures pattern == [] ==> v == Exists
    ensures StartsWith(text, pattern) ==> v == Exists
    ensures |pattern| > |text| ==> v == NotFound
  {
    var m := |pattern|;
    var n := |text|;
    var patternHash := hash(pattern);
    var textHash := hash(Take(text, m));
    ghost var goal := RollingScan(pattern, text, patternHash, 0, textHash);
    var i := 0;
    while i < n - m + 1
      invariant 0 <= i
      invariant m == 0 ==> patternHash == textHash
      invariant RollingScan(pattern, text, patternHash, i, textHash) == goal
      decreases n - m + 1 - i
    {
      if patternHash == textHash && pattern == text[i..i + m] {
        v := Exists;
        RollingScanSound(pattern, text, patternHash, 0, hash(Take(text, m)));
        return;
      }
      if i < n - m {
        textHash := Roll(textHash, text[i], text[i + m], m);
      }
      i := i + 1;
    }
    v := NotFound;
  }

  /**
   * The rolled value is not `hash` of the next window, so an occurrence
   * after the start can be missed: with a constant hash, `"b"` in `"ab"`
   * rolls to a value other than `hash("b")` and is never compared.
   */
  lemma RollingMissesLaterWindow()
    ensures KarpVerdict("b", "ab", _ => 0) == NotFound
    ensures WindowAt("b", "ab", 1)
  {
    assert Take("ab", 1) == "a";
    assert "ab"[0..1] == "a" && "ab"[1..2] == "b";
    assert Roll(0, 'a', 'b', 1) == MaxSize - 9699;
    assert !RollingScan("b", "ab", 0, 2, MaxSize - 9699);
    assert !RollingScan("b", "ab", 0, 1, MaxSize - 9699);
  }

  /** The intended scan: every window is hashed afresh, so a hit is never missed. */
  function FreshScan(p: string, t: string, hash: string -> int, i: nat): bool
    decreases |t| - i
  {
    if i + |p| > |t| then false
    else (hash(p) == hash(t[i..i + |p|]) && p == t[i..i + |p|]) || FreshScan(p, t, hash, i + 1)
  }

  /** For every hash, the fresh scan finds the first window exactly as the plain window scan does. */
  lemma {:induction false} FreshScanFinds(p: string, t: string, hash: string -> int, i: nat)
    ensures FreshScan(p, t, hash, i) <==> FirstWindowFrom(p, t, i) >= 0
    decreases |t| - i
  {
    if i + |p| <= |t| && p != t[i..i + |p|] {
      FreshScanFinds(p, t, hash, i + 1);
    }
  }

  /** `karp_rabin_string_match` with `text_hash = hash(text[i:i + m])` on every window. */
  method KarpRabinFixed(pattern: string, text: string, hash: string -> int) returns (v: Verdict)
    ensures v == Exists <==> Occurs(pattern, text)
  {
    var m := |pattern|;
    var n := |text|;
    var patternHash := hash(pattern);
    var i := 0;
    ghost var goal := FreshScan(pattern, text, hash, 0);
    while i < n - m + 1
      invariant 0 <= i
      invariant FreshScan(pattern, text, hash, i) == goal
      decreases n - m + 1 - i
    {
      var textHash := hash(text[i..i + m]);
      if patternHash == textHash && pattern == text[i..i + m] {
        v := Exists;
        FreshScanFinds(pattern, text, hash, 0);
        FirstWindowOccurs(pattern, text);
        return;
      }
      i := i + 1;
    }
    v := NotFound;
    FreshScanFinds(pattern, text, hash, 0);
    FirstWindowOccurs(pattern, text);
  }
}
