/** Order-preserving filtering of a sequence, as `Array.prototype.filter`
    does it, with a characterisation that does not depend on how it is
    computed. */
module Seqs {

  /** `r` can be obtained from `s` by deleting elements, keeping the order. */
  ghost predicate Subsequence<T>(r: seq<T>, s: seq<T>)
    decreases |s|
  {
    if r == [] then true
    else if s == [] then false
    else (r[0] == s[0] && Subsequence(r[1..], s[1..])) || Subsequence(r, s[1..])
  }

  /** `s.filter(p)`: the elements satisfying `p`, each as often as in `s`,
      in their original order. */
  function Filter<T(!new)>(s: seq<T>, p: T -> bool): (r: seq<T>)
    ensures |r| <= |s|
    ensures forall x :: x in r <==> x in s && p(x)
    ensures forall x :: multiset(r)[x] == if p(x) then multiset(s)[x] else 0
    ensures Subsequence(r, s)
  {
    if s == [] then []
    else
      assert s == [s[0]] + s[1..];
      if p(s[0]) then [s[0]] + Filter(s[1..], p) else Filter(s[1..], p)
  }

  /** Filtering distributes over concatenation. */
  lemma {:induction false} FilterAppend<T(!new)>(a: seq<T>, b: seq<T>, p: T -> bool)
    ensures Filter(a + b, p) == Filter(a, p) + Filter(b, p)
  {
    if a == [] {
      assert a + b == b;
    } else {
      assert (a + b)[0] == a[0];
      assert (a + b)[1..] == a[1..] + b;
      FilterAppend(a[1..], b, p);
    }
  }

  /** Filtering with a predicate every element satisfies keeps everything. */
  lemma {:induction false} AllPass<T(!new)>(s: seq<T>, p: T -> bool)
    requires forall x :: x in s ==> p(x)
    ensures Filter(s, p) == s
  {
    if s != [] {
      assert s[0] in s;
      assert forall x :: x in s[1..] ==> x in s;
      AllPass(s[1..], p);
      assert s == [s[0]] + s[1..];
    }
  }

  /** Replaces element `k` of `s` by the elements of `mid`, as inserting
      siblings next to a node and rewriting it does; nothing else moves. */
  function ReplaceAt<T>(s: seq<T>, k: nat, mid: seq<T>): (r: seq<T>)
    requires k < |s|
    ensures |r| == |s| - 1 + |mid|
    ensures r[..k] == s[..k]
    ensures r[k..k + |mid|] == mid
    ensures r[k + |mid|..] == s[k + 1..]
  {
    var r := s[..k] + (mid + s[k + 1..]);
    assert r[..k] == s[..k];
    assert r[k..k + |mid|] == mid;
    assert r[k + |mid|..] == s[k + 1..];
    r
  }

  /** Element `j` of the inserted run sits at `k + j`. */
  lemma ReplaceAtMid<T>(s: seq<T>, k: nat, mid: seq<T>, j: nat)
    requires k < |s| && j < |mid|
    ensures ReplaceAt(s, k, mid)[k + j] == mid[j]
  {
    var r := ReplaceAt(s, k, mid);
    assert r[k + j] == r[k..k + |mid|][j];
  }
}
