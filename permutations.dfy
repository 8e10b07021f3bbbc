/**
 * Index permutations and `argsort`: the list of indices that visits a vector
 * of reals in ascending order.  The library routine the Roe splitting calls
 * does not promise an order among equal values; the concrete definition here
 * is a stable insertion sort, and the lemmas in EigenSplit show that the split
 * matrix does not depend on which ascending order is chosen.
 */
module Permutations {
  import opened LinearAlgebra

  /** The indices `0, 1, ..., n-1`. */
  function Range(n: nat): (r: seq<nat>)
    ensures |r| == n
    ensures forall k :: 0 <= k < n ==> r[k] == k
  {
    seq(n, k requires 0 <= k < n => k)
  }

  /** `p` lists each index below `n` exactly once. */
  predicate IsPermutation(p: seq<nat>, n: nat) {
    multiset(p) == multiset(Range(n))
  }

  /** Every index of `p` is an index of `v`, and `p` visits `v` in ascending order. */
  predicate Ascending(v: seq<real>, p: seq<nat>) {
    (forall k :: 0 <= k < |p| ==> p[k] < |v|) &&
    (forall a, b :: 0 <= a < b < |p| ==> v[p[a]] <= v[p[b]])
  }

  lemma PermutationInRange(p: seq<nat>, n: nat)
    requires IsPermutation(p, n)
    ensures |p| == n
    ensures forall k :: 0 <= k < |p| ==> p[k] < n
  {
    assert |p| == |multiset(p)| == |multiset(Range(n))| == n;
    forall k | 0 <= k < |p|
      ensures p[k] < n
    {
      assert p[k] in multiset(Range(n));
    }
  }

  /**
   * Inserts index `k` into `q`, which is ascending by `v`, in front of the first
   * index whose value is strictly greater than `v[k]` (so equal values keep their
   * order of arrival).
   */
  function Insert(v: seq<real>, q: seq<nat>, k: nat): (r: seq<nat>)
    requires k < |v|
    requires forall i :: 0 <= i < |q| ==> q[i] < |v|
    ensures |r| == |q| + 1
  {
    if q == [] then [k]
    else if v[k] < v[q[0]] then [k] + q
    else [q[0]] + Insert(v, q[1..], k)
  }

  /** The insertion adds `k` and keeps every index already there. */
  lemma {:induction false} InsertMultiset(v: seq<real>, q: seq<nat>, k: nat)
    requires k < |v|
    requires forall i :: 0 <= i < |q| ==> q[i] < |v|
    ensures multiset(Insert(v, q, k)) == multiset(q) + multiset{k}
  {
    if q != [] && v[q[0]] <= v[k] {
      InsertMultiset(v, q[1..], k);
      assert q == [q[0]] + q[1..];
    }
  }

  lemma {:induction false} InsertAscending(v: seq<real>, q: seq<nat>, k: nat)
    requires k < |v|
    requires Ascending(v, q)
    ensures Ascending(v, Insert(v, q, k))
    decreases |q|, 1
  {
    if q == [] {
      assert Insert(v, q, k) == [k];
    } else if v[k] < v[q[0]] {
      InsertInFront(v, q, k);
    } else {
      InsertBehindHead(v, q, k);
    }
  }

  /** When `v[k]` is below the head's value, `k` goes in front and the list stays ascending. */
  lemma InsertInFront(v: seq<real>, q: seq<nat>, k: nat)
    requires k < |v| && Ascending(v, q) && q != [] && v[k] < v[q[0]]
    ensures Ascending(v, Insert(v, q, k))
  {
    assert Insert(v, q, k) == [k] + q;
    AscendingCons(v, k, q);
  }

  /** Otherwise `k` goes into the tail, whose values all stay at or above the head's value. */
  lemma InsertBehindHead(v: seq<real>, q: seq<nat>, k: nat)
    requires k < |v| && Ascending(v, q) && q != [] && v[q[0]] <= v[k]
    ensures Ascending(v, Insert(v, q, k))
    decreases |q|, 0
  {
    var rest := q[1..];
    AscendingTail(v, q);
    InsertAscending(v, rest, k);
    InsertKeepsLowerBound(v, rest, k, v[q[0]]);
    var tail := Insert(v, rest, k);
    assert Insert(v, q, k) == [q[0]] + tail;
    AscendingCons(v, q[0], tail);
  }

  /** Putting an index whose value is at most the head's value in front keeps a list ascending. */
  lemma AscendingCons(v: seq<real>, x: nat, q: seq<nat>)
    requires x < |v| && Ascending(v, q)
    requires q != [] ==> v[x] <= v[q[0]]
    ensures Ascending(v, [x] + q)
  {
    var r := [x] + q;
    forall a, b | 0 <= a < b < |r|
      ensures v[r[a]] <= v[r[b]]
    {
      assert r[b] == q[b - 1];
      if a > 0 {
        assert r[a] == q[a - 1];
      } else if b > 1 {
        assert v[q[0]] <= v[q[b - 1]];
      }
    }
  }

  /** Dropping the head of an ascending list keeps it ascending, above the head's value. */
  lemma AscendingTail(v: seq<real>, q: seq<nat>)
    requires Ascending(v, q) && q != []
    ensures Ascending(v, q[1..])
    ensures forall i :: 0 <= i < |q[1..]| ==> q[1..][i] < |v| && v[q[0]] <= v[q[1..][i]]
  {
    forall a, b | 0 <= a < b < |q[1..]|
      ensures v[q[1..][a]] <= v[q[1..][b]]
    {
      assert q[1..][a] == q[a + 1] && q[1..][b] == q[b + 1];
    }
    forall i | 0 <= i < |q[1..]|
      ensures q[1..][i] < |v| && v[q[0]] <= v[q[1..][i]]
    {
      assert q[1..][i] == q[i + 1];
    }
  }

  /** A lower bound on the values visited by `q` and on `v[k]` bounds the values visited after the insertion. */
  lemma {:induction false} InsertKeepsLowerBound(v: seq<real>, q: seq<nat>, k: nat, lo: real)
    requires k < |v| && lo <= v[k]
    requires forall i :: 0 <= i < |q| ==> q[i] < |v| && lo <= v[q[i]]
    ensures forall i :: 0 <= i < |Insert(v, q, k)| ==> Insert(v, q, k)[i] < |v| && lo <= v[Insert(v, q, k)[i]]
  {
    var r := Insert(v, q, k);
    if q == [] {
      assert r == [k];
    } else if v[k] < v[q[0]] {
      assert r == [k] + q;
      forall i | 1 <= i < |r|
        ensures r[i] < |v| && lo <= v[r[i]]
      {
        assert r[i] == q[i - 1];
      }
    } else {
      var tail := Insert(v, q[1..], k);
      InsertKeepsLowerBound(v, q[1..], k, lo);
      assert r == [q[0]] + tail;
      forall i | 1 <= i < |r|
        ensures r[i] < |v| && lo <= v[r[i]]
      {
        assert r[i] == tail[i - 1];
      }
    }
  }

  /** The indices `0 .. m-1` of `v`, in ascending order of their values. */
  function ArgsortPrefix(v: seq<real>, m: nat): (p: seq<nat>)
    requires m <= |v|
    ensures IsPermutation(p, m) && Ascending(v, p)
  {
    if m == 0 then []
    else
      var q := ArgsortPrefix(v, m - 1);
      ArgsortStep(v, q, m);
      Insert(v, q, m - 1)
  }

  /** Inserting index `m - 1` into an ascending permutation of `0 .. m-2` gives one of `0 .. m-1`. */
  lemma ArgsortStep(v: seq<real>, q: seq<nat>, m: nat)
    requires 0 < m <= |v| && IsPermutation(q, m - 1) && Ascending(v, q)
    ensures IsPermutation(Insert(v, q, m - 1), m) && Ascending(v, Insert(v, q, m - 1))
  {
    InsertAscending(v, q, m - 1);
    InsertMultiset(v, q, m - 1);
    assert Range(m) == Range(m - 1) + [m - 1];
  }

  /** `argsort(v)`: a permutation of the indices of `v` that orders `v` ascending. */
  function Argsort(v: seq<real>): (p: seq<nat>)
    ensures IsPermutation(p, |v|)
    ensures Ascending(v, p)
  {
    ArgsortPrefix(v, |v|)
  }

  /** `v[p]`: the values of `v` in the order the index list `p` visits them. */
  function PermuteValues(v: seq<real>, p: seq<nat>): (r: seq<real>)
    requires forall k :: 0 <= k < |p| ==> p[k] < |v|
    ensures |r| == |p|
    ensures forall k :: 0 <= k < |p| ==> r[k] == v[p[k]]
  {
    seq(|p|, k requires 0 <= k < |p| => v[p[k]])
  }

  lemma PermuteValuesSorted(v: seq<real>)
    ensures IsPermutation(Argsort(v), |v|)
    ensures var w := PermuteValues(v, Argsort(v));
            |w| == |v| && forall a, b :: 0 <= a < b < |w| ==> w[a] <= w[b]
  {
    PermutationInRange(Argsort(v), |v|);
  }

  // ---------------------------------------------------------------------
  // Re-indexing a finite sum by a permutation

  /** `f(s[0]) + f(s[1]) + ...`: a sum over the indices listed in `s`. */
  function SumOver(s: seq<nat>, f: nat -> real): real {
    if s == [] then 0.0 else f(s[0]) + SumOver(s[1..], f)
  }

  /** The summand `k |-> f(p[k])`. */
  function Along(f: nat -> real, p: seq<nat>): nat -> real {
    (k: nat) => if k < |p| then f(p[k]) else 0.0
  }

  lemma {:induction false} SumOverAppend(s: seq<nat>, t: seq<nat>, f: nat -> real)
    ensures SumOver(s + t, f) == SumOver(s, f) + SumOver(t, f)
  {
    if s != [] {
      assert (s + t)[1..] == s[1..] + t;
      SumOverAppend(s[1..], t, f);
    } else {
      assert s + t == t;
    }
  }

  lemma {:induction false} SumOverIsSum(s: seq<nat>, f: nat -> real)
    ensures SumOver(s, f) == Sum(|s|, Along(f, s))
  {
    if s != [] {
      var init := s[..|s| - 1];
      assert s == init + [s[|s| - 1]];
      SumOverAppend(init, [s[|s| - 1]], f);
      assert SumOver([s[|s| - 1]], f) == f(s[|s| - 1]);
      SumOverIsSum(init, f);
      forall k: nat | k < |init|
        ensures Along(f, init)(k) == Along(f, s)(k)
      {
      }
      SumExt(|init|, Along(f, init), Along(f, s));
    }
  }

  /** Removing the element at position `j` takes `f(s[j])` out of the sum. */
  lemma {:induction false} SumOverRemove(s: seq<nat>, j: nat, f: nat -> real)
    requires j < |s|
    ensures SumOver(s, f) == SumOver(s[..j] + s[j + 1..], f) + f(s[j])
  {
    if j == 0 {
      assert s[..0] + s[1..] == s[1..];
    } else {
      SumOverRemove(s[1..], j - 1, f);
      assert s[..j] + s[j + 1..] == [s[0]] + (s[1..][..j - 1] + s[1..][j..]);
    }
  }

  /** Taking the head of `s` off `s`, and a matching entry off `t`, keeps the two multisets equal. */
  lemma MultisetRemoveHead(s: seq<nat>, t: seq<nat>, j: nat)
    requires multiset(s) == multiset(t) && s != [] && j < |t| && t[j] == s[0]
    ensures multiset(s[1..]) == multiset(t[..j] + t[j + 1..])
  {
    assert t == t[..j] + [t[j]] + t[j + 1..];
    assert s == [s[0]] + s[1..];
    assert multiset(t) == multiset(t[..j]) + multiset{t[j]} + multiset(t[j + 1..]);
    assert multiset(s) == multiset{s[0]} + multiset(s[1..]);
    assert multiset(t[..j] + t[j + 1..]) == multiset(t[..j]) + multiset(t[j + 1..]);
    assert multiset(s[1..]) == multiset(s) - multiset{s[0]};
    assert multiset(t[..j] + t[j + 1..]) == multiset(t) - multiset{t[j]};
  }

  lemma {:induction false} SumOverMultiset(s: seq<nat>, t: seq<nat>, f: nat -> real)
    requires multiset(s) == multiset(t)
    ensures SumOver(s, f) == SumOver(t, f)
    decreases |s|
  {
    if s == [] {
      assert |t| == |multiset(t)| == 0;
    } else {
      assert s[0] in multiset(t);
      var j :| 0 <= j < |t| && t[j] == s[0];
      var rest := t[..j] + t[j + 1..];
      MultisetRemoveHead(s, t, j);
      SumOverMultiset(s[1..], rest, f);
      SumOverRemove(t, j, f);
    }
  }

  /** Summing `f(p[k])` over `k < n` is summing `f` when `p` is a permutation. */
  lemma SumPermuted(n: nat, f: nat -> real, p: seq<nat>)
    requires IsPermutation(p, n)
    ensures Sum(n, Along(f, p)) == Sum(n, f)
  {
    PermutationInRange(p, n);
    SumOverMultiset(p, Range(n), f);
    SumOverIsSum(p, f);
    SumOverIsSum(Range(n), f);
    forall k: nat | k < n
      ensures Along(f, Range(n))(k) == f(k)
    {
    }
    SumExt(n, Along(f, Range(n)), f);
  }
}
