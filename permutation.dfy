/**
 * Rearranging a sequence through a bijection of its indices keeps its
 * multiset of elements: the fact behind "rotation only moves samples".
 */
module Permutation {

  /** p and q are mutually inverse maps of [0, |p|) onto itself. */
  ghost predicate Inverses(p: seq<int>, q: seq<int>) {
    && |p| == |q|
    && (forall j :: 0 <= j < |p| ==> 0 <= p[j] < |q| && q[p[j]] == j)
    && (forall v :: 0 <= v < |q| ==> 0 <= q[v] < |p| && p[q[v]] == v)
  }

  /**
   * Taking out of p the position k that maps to the last index, and out of q
   * that last index, leaves a bijection of one element fewer.
   */
  lemma DropLast(p: seq<int>, q: seq<int>) returns (p': seq<int>, q': seq<int>)
    requires Inverses(p, q) && |p| > 0
    ensures Inverses(p', q') && |p'| == |p| - 1
    ensures forall j {:trigger p'[j]} :: 0 <= j < |p'| ==> p'[j] == if j < q[|p| - 1] then p[j] else p[j + 1]
  {
    var n, k := |p| - 1, q[|p| - 1];
    p' := seq(n, j requires 0 <= j < n => if j < k then p[j] else p[j + 1]);
    q' := seq(n, v requires 0 <= v < n => if q[v] < k then q[v] else q[v] - 1);
    forall j | 0 <= j < n
      ensures 0 <= p'[j] < n && q'[p'[j]] == j
    {
      var jj := if j < k then j else j + 1;
      assert p'[j] == p[jj] && q[p[jj]] == jj;
    }
    forall v | 0 <= v < n
      ensures 0 <= q'[v] < n && p'[q'[v]] == v
    {
      assert q[v] != k;
    }
  }

  /** Removing element k from a sequence removes one copy of it from the multiset. */
  lemma MultisetRemove<T>(r: seq<T>, k: nat)
    requires k < |r|
    ensures multiset(r) == multiset(r[..k] + r[k + 1..]) + multiset{r[k]}
  {
    assert r == r[..k] + [r[k]] + r[k + 1..];
  }

  /** If r[j] == s[p[j]] for a bijection p, then r is a permutation of s. */
  lemma {:induction false} PermutedMultiset<T>(r: seq<T>, s: seq<T>, p: seq<int>, q: seq<int>)
    requires |r| == |s| == |p| && Inverses(p, q)
    requires forall j :: 0 <= j < |r| ==> r[j] == s[p[j]]
    ensures multiset(r) == multiset(s)
  {
    if |s| > 0 {
      var n := |s| - 1;
      var k := q[n];
      var p', q' := DropLast(p, q);
      var r' := r[..k] + r[k + 1..];
      forall j | 0 <= j < n
        ensures r'[j] == s[..n][p'[j]]
      {
        assert 0 <= p'[j] < n;
        if j < k {
          assert r'[j] == r[j] && p'[j] == p[j];
        } else {
          assert r'[j] == r[j + 1] && p'[j] == p[j + 1];
        }
      }
      PermutedMultiset(r', s[..n], p', q');
      MultisetRemove(r, k);
      assert s == s[..n] + [s[n]];
    }
  }
}
