/** The leader's commit rule and the size of a majority. */
module RaftQuorum {
  import opened Sequences
  import opened Sorting

  /** The peers whose log is known to reach `index`. */
  ghost function ReachedBy(matchIndex: seq<int>, index: int): set<nat> {
    set i | 0 <= i < |matchIndex| && matchIndex[i] >= index
  }

  /** `int(float32(n)/2 + 0.5)`. */
  function Majority(n: nat): nat {
    (n + 1) / 2
  }

  /** The middle of the sorted match indices. */
  method ToBeCommitIndex(matchIndex: seq<int>) returns (index: int)
    requires matchIndex != []
    ensures forall v :: v <= index <==> |ReachedBy(matchIndex, v)| >= Majority(|matchIndex|)
  {
    var tmpMatchList := Sort(AtMost, matchIndex);
    index := tmpMatchList[|matchIndex| / 2];
    SortIsSorted(AtMost, matchIndex);
    forall v
      ensures v <= index <==> |ReachedBy(matchIndex, v)| >= Majority(|matchIndex|)
    {
      CountSorted(matchIndex, v);
      MiddleOfSorted(tmpMatchList, v, |matchIndex| / 2);
      ReachedByCount(matchIndex, v, |matchIndex|);
      assert matchIndex[..|matchIndex|] == matchIndex;
    }
  }

  /** In a cluster of odd size, the rule picks the largest index that a strict
      majority has reached. */
  lemma OddClusterCommit(matchIndex: seq<int>, index: int)
    requires |matchIndex| % 2 == 1
    requires forall v :: v <= index <==> |ReachedBy(matchIndex, v)| >= Majority(|matchIndex|)
    ensures 2 * |ReachedBy(matchIndex, index)| > |matchIndex|
    ensures forall v :: 2 * |ReachedBy(matchIndex, v)| > |matchIndex| ==> v <= index
  {
  }

  // ----- counting

  ghost function Count(s: seq<int>, v: int): nat {
    if s == [] then 0 else (if s[0] >= v then 1 else 0) + Count(s[1..], v)
  }

  lemma {:induction false} CountInsert(x: int, s: seq<int>, v: int)
    ensures Count(Insert(AtMost, x, s), v) == Count(s, v) + if x >= v then 1 else 0
  {
    if s != [] && !AtMost(x, s[0]) {
      CountInsert(x, s[1..], v);
      assert ([s[0]] + Insert(AtMost, x, s[1..]))[1..] == Insert(AtMost, x, s[1..]);
    } else {
      assert ([x] + s)[1..] == s;
    }
  }

  lemma {:induction false} CountSorted(s: seq<int>, v: int)
    ensures Count(Sort(AtMost, s), v) == Count(s, v)
  {
    if s != [] {
      CountSorted(s[1..], v);
      CountInsert(s[0], Sort(AtMost, s[1..]), v);
    }
  }

  lemma {:induction false} MiddleOfSorted(t: seq<int>, v: int, k: nat)
    requires SortedBy(AtMost, t) && k < |t|
    ensures v <= t[k] <==> Count(t, v) >= |t| - k
  {
    if k == 0 {
      if v <= t[0] {
        CountAll(t, v);
      } else {
        CountAtMost(t[1..], v);
      }
    } else {
      MiddleOfSorted(t[1..], v, k - 1);
      if t[0] >= v {
        CountAll(t, v);
        assert AtMost(t[0], t[k]);
      }
    }
  }

  lemma {:induction false} CountAll(t: seq<int>, v: int)
    requires SortedBy(AtMost, t) && (t != [] ==> v <= t[0])
    ensures Count(t, v) == |t|
  {
    if |t| > 1 {
      assert AtMost(t[0], t[1]);
      CountAll(t[1..], v);
    }
  }

  lemma {:induction false} CountAtMost(t: seq<int>, v: int)
    ensures Count(t, v) <= |t|
  {
    if t != [] {
      CountAtMost(t[1..], v);
    }
  }

  lemma {:induction false} CountLast(s: seq<int>, x: int, v: int)
    ensures Count(s + [x], v) == Count(s, v) + if x >= v then 1 else 0
  {
    if s == [] {
      assert s + [x] == [x];
    } else {
      assert (s + [x])[1..] == s[1..] + [x];
      CountLast(s[1..], x, v);
    }
  }

  lemma {:induction false} ReachedByCount(matchIndex: seq<int>, v: int, n: nat)
    requires n <= |matchIndex|
    ensures |ReachedBy(matchIndex[..n], v)| == Count(matchIndex[..n], v)
  {
    if n > 0 {
      hide Count, ReachedBy;
      ReachedByCount(matchIndex, v, n - 1);
      assert matchIndex[..n] == matchIndex[..n - 1] + [matchIndex[n - 1]];
      CountLast(matchIndex[..n - 1], matchIndex[n - 1], v);
      ReachedByLast(matchIndex[..n - 1], matchIndex[n - 1], v);
    }
  }

  lemma ReachedByLast(s: seq<int>, x: int, v: int)
    ensures |ReachedBy(s + [x], v)| == |ReachedBy(s, v)| + if x >= v then 1 else 0
  {
    var before, after := ReachedBy(s, v), ReachedBy(s + [x], v);
    if x >= v {
      assert after == before + {|s|};
    } else {
      assert after == before;
    }
  }

  // ----- quorums

  ghost predicate IsQuorum(q: set<nat>, n: nat) {
    (forall i | i in q :: i < n) && |q| >= Majority(n)
  }

  /** The peers that let the leader commit are a quorum. */
  lemma CommitHasQuorum(matchIndex: seq<int>, index: int)
    requires forall v :: v <= index <==> |ReachedBy(matchIndex, v)| >= Majority(|matchIndex|)
    ensures IsQuorum(ReachedBy(matchIndex, index), |matchIndex|)
  {
  }

  lemma OddQuorumsMeet(a: set<nat>, b: set<nat>, n: nat)
    requires n % 2 == 1 && IsQuorum(a, n) && IsQuorum(b, n)
    ensures a * b != {}
  {
    SubsetSize(a + b, Interval(0, n));
    assert |a + b| + |a * b| == |a| + |b|;
  }

  /** Votes and commits always share a peer if and only if the cluster is odd. */
  lemma QuorumsMeetIffOdd(n: nat)
    requires n > 0
    ensures n % 2 == 1 <==> forall a, b | IsQuorum(a, n) && IsQuorum(b, n) :: a * b != {}
  {
    if n % 2 == 1 {
      forall a, b | IsQuorum(a, n) && IsQuorum(b, n)
        ensures a * b != {}
      {
        OddQuorumsMeet(a, b, n);
      }
    } else {
      var a, b := Interval(0, n / 2), Interval(n / 2, n);
      assert IsQuorum(a, n) && IsQuorum(b, n) && a * b == {};
    }
  }
}
