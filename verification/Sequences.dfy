/** Facts about sequences: no element twice, and permutations; and about
    intervals of numbers. */
module Sequences {

  ghost predicate Distinct<T>(s: seq<T>) {
    forall i, j | 0 <= i < j < |s| :: s[i] != s[j]
  }

  lemma {:induction false} DistinctCount<T>(s: seq<T>)
    ensures Distinct(s) <==> forall x | x in s :: multiset(s)[x] == 1
  {
    if s != [] {
      var n := |s| - 1;
      var t := s[..n];
      DistinctCount(t);
      assert s == t + [s[n]];
      assert multiset(s) == multiset(t) + multiset{s[n]};
      if Distinct(s) {
        assert Distinct(t) && s[n] !in t;
        assert s[n] !in multiset(t);
      } else {
        if Distinct(t) {
          assert s[n] in t && s[n] in multiset(t);
          assert s[n] in s && multiset(s)[s[n]] >= 2;
        } else {
          var x :| x in t && multiset(t)[x] != 1;
          assert x in s && multiset(t)[x] >= 1 && multiset(s)[x] >= 2;
        }
      }
    }
  }

  ghost function Reindex<T>(a: seq<T>, p: seq<nat>): (r: seq<T>)
    requires forall i | 0 <= i < |p| :: p[i] < |a|
    ensures |r| == |p|
  {
    seq(|p|, i requires 0 <= i < |p| => a[p[i]])
  }

  ghost predicate IsPermutation(p: seq<nat>, n: nat) {
    |p| == n && Distinct(p) && (forall i | 0 <= i < |p| :: p[i] < n) && forall k: nat | k < n :: k in p
  }

  ghost function RemoveAt<T>(s: seq<T>, k: nat): (r: seq<T>)
    requires k < |s|
    ensures |r| == |s| - 1
    ensures forall i | 0 <= i < k :: r[i] == s[i]
    ensures forall i | k <= i < |r| :: r[i] == s[i + 1]
    ensures multiset(s) == multiset(r) + multiset{s[k]}
  {
    assert s == s[..k] + [s[k]] + s[k + 1..];
    s[..k] + s[k + 1..]
  }

  /** Reading a sequence through a permutation keeps its elements. */
  lemma {:induction false} ReindexKeeps<T>(a: seq<T>, p: seq<nat>)
    requires IsPermutation(p, |a|)
    ensures multiset(Reindex(a, p)) == multiset(a)
  {
    hide Distinct;
    if a != [] {
      var n := |a| - 1;
      assert n in p;
      var k :| 0 <= k < |p| && p[k] == n;
      WithoutLast(p, n, k);
      ReindexKeeps(a[..n], RemoveAt(p, k));
      assert RemoveAt(Reindex(a, p), k) == Reindex(a[..n], RemoveAt(p, k));
      assert a == a[..n] + [a[n]];
    }
  }

  lemma WithoutLast(p: seq<nat>, n: nat, k: nat)
    requires IsPermutation(p, n + 1) && k < |p| && p[k] == n
    ensures IsPermutation(RemoveAt(p, k), n)
  {
    var p' := RemoveAt(p, k);
    forall x: nat | x < n
      ensures x in p'
    {
      assert x in p;
      var i :| 0 <= i < |p| && p[i] == x;
      assert p'[if i < k then i else i - 1] == x;
    }
  }

  /** Positions of a sequence without its `k`-th element, in the whole sequence; then `k`. */
  ghost function Widen(q: seq<nat>, k: nat): (p: seq<nat>)
    ensures |p| == |q| + 1
  {
    seq(|q|, i requires 0 <= i < |q| => if q[i] < k then q[i] else q[i] + 1) + [k]
  }

  lemma WidenIsPermutation(q: seq<nat>, n: nat, k: nat)
    requires IsPermutation(q, n) && k <= n
    ensures IsPermutation(Widen(q, k), n + 1)
  {
    var p := Widen(q, k);
    forall x: nat | x < n + 1
      ensures x in p
    {
      if x == k {
        assert p[|q|] == x;
      } else {
        var y: nat := if x < k then x else x - 1;
        assert y in q;
        var i :| 0 <= i < |q| && q[i] == y;
        assert p[i] == x;
      }
    }
  }

  /** Sequences with the same elements differ by a permutation of positions. */
  lemma {:induction false} FindPermutation<T>(a: seq<T>, b: seq<T>) returns (p: seq<nat>)
    requires multiset(a) == multiset(b)
    ensures IsPermutation(p, |a|) && b == Reindex(a, p)
    decreases |b|
  {
    hide Distinct, Widen;
    SameSize(a, b);
    if b == [] {
      p := [];
      assert IsPermutation([], 0) by { NoPositions(); }
    } else {
      var n := |b| - 1;
      var k := FindIn(a, b, n);
      SameRest(a, k, b, n);
      var q := FindPermutation(RemoveAt(a, k), RemoveAt(b, n));
      p := Widen(q, k);
      WidenIsPermutation(q, n, k);
      ReindexWiden(a, k, q, b);
    }
  }

  lemma SameSize<T>(a: seq<T>, b: seq<T>)
    requires multiset(a) == multiset(b)
    ensures |a| == |b|
  {
    assert |a| == |multiset(a)| && |b| == |multiset(b)|;
  }

  lemma NoPositions()
    ensures IsPermutation([], 0)
  {
  }

  lemma FindIn<T>(a: seq<T>, b: seq<T>, n: nat) returns (k: nat)
    requires multiset(a) == multiset(b) && n < |b|
    ensures k < |a| && a[k] == b[n]
  {
    assert b[n] in multiset(a);
    k :| 0 <= k < |a| && a[k] == b[n];
  }

  lemma SameRest<T>(a: seq<T>, k: nat, b: seq<T>, n: nat)
    requires multiset(a) == multiset(b) && k < |a| && n < |b| && a[k] == b[n]
    ensures multiset(RemoveAt(a, k)) == multiset(RemoveAt(b, n))
  {
    assert multiset(RemoveAt(a, k)) == multiset(a) - multiset{a[k]};
    assert multiset(RemoveAt(b, n)) == multiset(b) - multiset{b[n]};
  }

  lemma ReindexWiden<T>(a: seq<T>, k: nat, q: seq<nat>, b: seq<T>)
    requires k < |a| == |b| && b[|b| - 1] == a[k]
    requires (forall i | 0 <= i < |q| :: q[i] < |a| - 1) && RemoveAt(b, |b| - 1) == Reindex(RemoveAt(a, k), q)
    ensures forall i | 0 <= i < |Widen(q, k)| :: Widen(q, k)[i] < |a|
    ensures b == Reindex(a, Widen(q, k))
  {
    forall i | 0 <= i < |q|
      ensures b[i] == a[Widen(q, k)[i]]
    {
      assert RemoveAt(b, |b| - 1)[i] == RemoveAt(a, k)[q[i]];
    }
  }

  /** The numbers from `lo` on and before `hi`. */
  ghost function Interval(lo: nat, hi: nat): (s: set<nat>)
    requires lo <= hi
    ensures |s| == hi - lo && forall p: nat :: p in s <==> lo <= p < hi
    decreases hi - lo
  {
    if lo == hi then {} else Interval(lo, hi - 1) + {hi - 1}
  }

  lemma SubsetSize(a: set<nat>, b: set<nat>)
    requires a <= b
    ensures |a| <= |b|
  {
    assert b == a + (b - a);
  }
}
