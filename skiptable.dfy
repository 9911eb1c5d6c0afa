/**
 * The skip tables of the Boyer–Moore-style matchers: a dictionary from each
 * item of the first `k` items of `p` to its distance from the end of `p`,
 * where a later occurrence of an item overwrites an earlier one.
 */
module SkipTable {
  import opened PyStr

  /** The table over the first `k` items of `p`, in the order the loop fills it. */
  function LastSkips<T(==)>(p: seq<T>, k: nat): map<T, int>
    requires k <= |p|
  {
    if k == 0 then map[] else LastSkips(p, k - 1)[p[k - 1] := |p| - k]
  }

  /** The keys are exactly the first `k` items of `p`. */
  lemma {:induction false} LastSkipsKeys<T>(p: seq<T>, k: nat, c: T)
    requires k <= |p|
    ensures c in LastSkips(p, k) <==> c in p[..k]
  {
    if k > 0 {
      LastSkipsKeys(p, k - 1, c);
      assert p[..k] == p[..k - 1] + [p[k - 1]];
    }
  }

  /** Each item maps to the distance from its last occurrence among the first `k` to the end of `p`. */
  lemma {:induction false} LastSkipsValue<T>(p: seq<T>, k: nat, c: T)
    requires k <= |p| && c in p[..k]
    ensures c in LastSkips(p, k) && LastSkips(p, k)[c] == |p| - 1 - LastIndex(p[..k], c)
  {
    assert p[..k][k - 1] == p[k - 1];
    if c != p[k - 1] {
      assert p[..k][..k - 1] == p[..k - 1];
      assert p[..k] == p[..k - 1] + [p[k - 1]];
      LastSkipsValue(p, k - 1, c);
    }
  }

  /** Every value lies between `len(p) - k` and `len(p) - 1`. */
  lemma {:induction false} LastSkipsRange<T>(p: seq<T>, k: nat, c: T)
    requires k <= |p| && c in LastSkips(p, k)
    ensures |p| - k <= LastSkips(p, k)[c] <= |p| - 1
  {
    if c != p[k - 1] {
      LastSkipsRange(p, k - 1, c);
    }
  }

  /**
   * The value for an item is at most its distance from the end of `p`,
   * measured from any of its occurrences among the first `k` items.
   */
  lemma {:induction false} LastSkipsAt<T>(p: seq<T>, k: nat, j: nat)
    requires j < k <= |p|
    ensures p[j] in LastSkips(p, k) && LastSkips(p, k)[p[j]] <= |p| - 1 - j
  {
    if j < k - 1 && p[j] != p[k - 1] {
      LastSkipsAt(p, k - 1, j);
    }
  }

  /** The loop that writes each of the first `k` items' distance from the end into an empty dictionary. */
  method Fill<T(==)>(p: seq<T>, k: nat) returns (skip: map<T, int>)
    requires k <= |p|
    ensures skip == LastSkips(p, k)
  {
    skip := map[];
    for i := 0 to k
      invariant skip == LastSkips(p, i)
    {
      skip := skip[p[i] := |p| - i - 1];
    }
  }
}
