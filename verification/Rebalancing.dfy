/** Handing the shards out to the groups of a configuration. */
module Rebalancing {
  import opened Sequences
  import Sorting

  const NSHARDS: nat := 10

  /** Go's `int` on a 64-bit machine. */
  type Gid = g: int | -0x8000_0000_0000_0000 <= g < 0x8000_0000_0000_0000

  // ----- the group ids, sorted

  predicate ByGid(a: Gid, b: Gid) {
    Sorting.AtMost(a, b)
  }

  ghost predicate Ascending(ids: seq<Gid>) {
    forall i, j | 0 <= i < j < |ids| :: ids[i] < ids[j]
  }

  lemma {:induction false} AscendingUnique(a: seq<Gid>, b: seq<Gid>)
    requires Ascending(a) && Ascending(b) && forall x :: x in a <==> x in b
    ensures a == b
    decreases |a|
  {
    assert a != [] ==> a[0] in b;
    assert b != [] ==> b[0] in a;
    if a != [] {
      assert a[0] == b[0];
      AscendingRest(a);
      AscendingRest(b);
      AscendingUnique(a[1..], b[1..]);
      assert a == [a[0]] + a[1..] && b == [b[0]] + b[1..];
    }
  }

  lemma AscendingRest(a: seq<Gid>)
    requires Ascending(a) && a != []
    ensures forall x :: x in a[1..] <==> x in a && x != a[0]
  {
    forall x | x in a && x != a[0]
      ensures x in a[1..]
    {
      var i :| 0 <= i < |a| && a[i] == x;
      assert a[1..][i - 1] == x;
    }
  }

  /** The members of a set in ascending order. */
  ghost function SortedIds(s: set<Gid>): (ids: seq<Gid>)
    ensures Ascending(ids) && |ids| == |s| && forall x :: x in ids <==> x in s
  {
    if s == {} then [] else
      var m := Least(s);
      [m] + SortedIds(s - {m})
  }

  ghost function Least(s: set<Gid>): (m: Gid)
    requires s != {}
    ensures m in s && forall x | x in s :: m <= x
  {
    LeastExists(s);
    var m :| m in s && forall x | x in s :: m <= x;
    m
  }

  lemma LeastExists(s: set<Gid>)
    requires s != {}
    ensures exists m :: m in s && forall x | x in s :: m <= x
  {
    var m := LeastOf(s);
  }

  lemma {:induction false} LeastOf(s: set<Gid>) returns (m: Gid)
    requires s != {}
    ensures m in s && forall x | x in s :: m <= x
  {
    m :| m in s;
    if s != {m} {
      assert s == {m} + (s - {m});
      var n := LeastOf(s - {m});
      m := if n < m then n else m;
    }
  }

  /** Whatever order the map is walked in, the ids come out the same. */
  method GroupIDs(groups: map<Gid, seq<string>>) returns (ids: seq<Gid>)
    ensures ids == SortedIds(groups.Keys)
  {
    var keys: seq<Gid> := [];
    var rest := groups.Keys;
    while rest != {}
      invariant rest <= groups.Keys && Distinct(keys)
      invariant forall x :: x in keys <==> x in groups.Keys && x !in rest
    {
      var key :| key in rest;
      keys := keys + [key];
      rest := rest - {key};
    }
    ids := Sorting.Sort(ByGid, keys);
    SortedIsAscending(keys);
    AscendingUnique(ids, SortedIds(groups.Keys));
  }

  lemma SortedIsAscending(keys: seq<Gid>)
    requires Distinct(keys)
    ensures var ids := Sorting.Sort(ByGid, keys); Ascending(ids) && forall x :: x in ids <==> x in keys
  {
    var ids := Sorting.Sort(ByGid, keys);
    Sorting.SortIsSorted(ByGid, keys);
    forall x
      ensures x in ids <==> x in keys
    {
      assert x in ids <==> x in multiset(ids);
      assert x in keys <==> x in multiset(keys);
    }
    DistinctCount(keys);
    DistinctCount(ids);
    forall i, j | 0 <= i < j < |ids|
      ensures ids[i] < ids[j]
    {
      assert ByGid(ids[i], ids[j]);
    }
  }

  // ----- rebalancing

  /** The first shards go to the groups in stretches of NSHARDS / g, as far as
      those reach; the others stay where they are. With more groups than shards
      only the first shard is given, to the group at NSHARDS - 1. */
  ghost function Owner(shards: seq<Gid>, ids: seq<Gid>, p: nat): Gid
    requires |shards| == NSHARDS && ids != [] && p < NSHARDS
  {
    var each := NSHARDS / |ids|;
    if each == 0 then (if p == 0 && NSHARDS <= |ids| then ids[NSHARDS - 1] else shards[p])
    else if p / each < |ids| then ids[p / each] else shards[p]
  }

  ghost function Balanced(shards: seq<Gid>, ids: seq<Gid>): (r: seq<Gid>)
    requires |shards| == NSHARDS && ids != []
    ensures |r| == NSHARDS
  {
    seq(NSHARDS, p requires 0 <= p < NSHARDS => Owner(shards, ids, p))
  }

  ghost function Rebalanced(shards: seq<Gid>, groups: map<Gid, seq<string>>): seq<Gid>
    requires |shards| == NSHARDS
  {
    if groups == map[] then shards else Balanced(shards, SortedIds(groups.Keys))
  }

  lemma StretchBound(p: nat, i: nat, each: nat)
    requires each > 0
    ensures p < i * each <==> p / each < i
  {
    var q, r := p / each, p % each;
    assert p == q * each + r;
    if q < i {
      assert (q + 1) * each <= i * each;
    } else {
      assert i * each <= q * each;
    }
  }

  lemma Stretch(i: nat, j: nat, each: nat)
    requires j < each
    ensures (i * each + j) / each == i
  {
    StretchBound(i * each + j, i, each);
    assert (i + 1) * each == i * each + each;
    StretchBound(i * each + j, i + 1, each);
  }

  lemma Fits(i: nat, g: nat, each: nat)
    requires 0 < g && each == NSHARDS / g && i < g
    ensures (i + 1) * each == i * each + each <= g * each <= NSHARDS
    ensures i < NSHARDS - each * g ==> (i + 1) * each < NSHARDS
  {
    assert (i + 1) * each <= g * each;
    assert NSHARDS == each * g + NSHARDS % g;
  }

  /** Where the stretch of group `i` starts. */
  ghost function Offset(i: nat, each: nat): nat {
    i * each
  }

  ghost function Remaining(groups: nat): int
    requires 0 < groups
  {
    NSHARDS - NSHARDS / groups * groups
  }

  lemma FirstOffset(groups: nat)
    requires 0 < groups
    ensures Offset(0, NSHARDS / groups) == 0 && Remaining(groups) == NSHARDS - NSHARDS / groups * groups
  {
  }

  /** What stands at `p` after the first `i` groups and `j` shards of the next. */
  ghost function SoFar(shards: seq<Gid>, ids: seq<Gid>, i: nat, j: nat, p: nat): Gid
    requires |shards| == NSHARDS && ids != [] && i <= |ids| && p < NSHARDS
  {
    var each := NSHARDS / |ids|;
    var remain := NSHARDS - each * |ids|;
    if each == 0 then
      (if p == 0 && 0 < i then ids[(if i < NSHARDS then i else NSHARDS) - 1] else shards[p])
    else if p < i * each + j && p / each < |ids| then ids[p / each]
    else if p == i * each && j == 0 && 0 < i <= remain then ids[i - 1]
    else shards[p]
  }

  ghost predicate FilledTo(now: seq<Gid>, shards: seq<Gid>, ids: seq<Gid>, i: nat, j: nat)
    requires |shards| == NSHARDS && ids != [] && i <= |ids|
  {
    |now| == NSHARDS && forall p: nat | p < NSHARDS :: now[p] == SoFar(shards, ids, i, j, p)
  }

  lemma FillStart(shards: seq<Gid>, ids: seq<Gid>)
    requires |shards| == NSHARDS && ids != []
    ensures FilledTo(shards, shards, ids, 0, 0)
  {
  }

  /** One more shard of the stretch of group `i`. */
  lemma FillOne(now: seq<Gid>, shards: seq<Gid>, ids: seq<Gid>, i: nat, j: nat)
    requires |shards| == NSHARDS && ids != [] && i < |ids| && FilledTo(now, shards, ids, i, j)
    requires var each := NSHARDS / |ids|; j < each && i * each + j < NSHARDS
    ensures var each := NSHARDS / |ids|; FilledTo(now[i * each + j := ids[i]], shards, ids, i, j + 1)
  {
    var each := NSHARDS / |ids|;
    var at := i * each + j;
    Stretch(i, j, each);
  }

  /** The stretch of group `i` is done; a remaining shard is noted behind it. */
  lemma FillGroup(now: seq<Gid>, shards: seq<Gid>, ids: seq<Gid>, i: nat)
    requires |shards| == NSHARDS && ids != [] && i < |ids|
    requires FilledTo(now, shards, ids, i, NSHARDS / |ids|)
    ensures var at := Offset(i + 1, NSHARDS / |ids|);
            if i < Remaining(|ids|)
            then at < NSHARDS && FilledTo(now[at := ids[i]], shards, ids, i + 1, 0)
            else FilledTo(now, shards, ids, i + 1, 0)
  {
    var each := NSHARDS / |ids|;
    Fits(i, |ids|, each);
    var at := (i + 1) * each;
    if each > 0 && at < NSHARDS {
      Stretch(i + 1, 0, each);
    }
  }

  lemma FillEnd(now: seq<Gid>, shards: seq<Gid>, ids: seq<Gid>)
    requires |shards| == NSHARDS && ids != [] && FilledTo(now, shards, ids, |ids|, 0)
    ensures now == Balanced(shards, ids)
  {
    var each := NSHARDS / |ids|;
    assert NSHARDS == each * |ids| + NSHARDS % |ids|;
    forall p: nat | p < NSHARDS
      ensures now[p] == Owner(shards, ids, p)
    {
      if each > 0 {
        StretchBound(p, |ids|, each);
      } else {
        assert |ids| > NSHARDS;
      }
    }
  }

  /** The inner loop: `shardPerGroup` shards for group `i`. */
  method GiveStretch(shards: array<Gid>, ids: seq<Gid>, i: nat, shardPerGroup: nat, start: nat, ghost before: seq<Gid>)
    returns (shardInd: nat)
    requires shards.Length == NSHARDS == |before| && i < |ids| && shardPerGroup == NSHARDS / |ids|
    requires start == Offset(i, shardPerGroup) && FilledTo(shards[..], before, ids, i, 0)
    modifies shards
    ensures shardInd == Offset(i + 1, shardPerGroup) <= NSHARDS
    ensures FilledTo(shards[..], before, ids, i, shardPerGroup)
  {
    hide FilledTo, SoFar;
    Fits(i, |ids|, shardPerGroup);
    shardInd := start;
    for j := 0 to shardPerGroup
      invariant shardInd == start + j
      invariant FilledTo(shards[..], before, ids, i, j)
    {
      ghost var now := shards[..];
      FillOne(now, before, ids, i, j);
      shards[shardInd] := ids[i];
      assert shards[..] == now[shardInd := ids[i]];
      shardInd := shardInd + 1;
    }
  }

  method Rebalance(shards: array<Gid>, groups: map<Gid, seq<string>>)
    requires shards.Length == NSHARDS
    modifies shards
    ensures shards[..] == Rebalanced(old(shards[..]), groups)
  {
    var groupCount := |groups|;
    if groupCount <= 0 {
      return;
    }
    var ids := GroupIDs(groups);
    assert |groups.Keys| == |groups|;
    Distribute(shards, ids, groupCount);
  }

  /** The outer loop, group by group. */
  method Distribute(shards: array<Gid>, ids: seq<Gid>, groupCount: nat)
    requires shards.Length == NSHARDS && 0 < groupCount == |ids|
    modifies shards
    ensures shards[..] == Balanced(old(shards[..]), ids)
  {
    hide *;
    ghost var before := shards[..];
    var shardPerGroup := NSHARDS / groupCount;
    var remainShards := NSHARDS - shardPerGroup * groupCount;
    ghost var remain := remainShards;
    var shardInd := 0;
    FirstOffset(groupCount);
    FillStart(before, ids);
    for i := 0 to groupCount
      invariant shardInd == Offset(i, shardPerGroup)
      invariant remainShards == if i < remain then remain - i else 0
      invariant FilledTo(shards[..], before, ids, i, 0)
    {
      shardInd := GiveStretch(shards, ids, i, shardPerGroup, shardInd, before);
      ghost var now := shards[..];
      FillGroup(now, before, ids, i);
      if remainShards > 0 {
        shards[shardInd] := ids[i];
        remainShards := remainShards - 1;
        assert shards[..] == now[shardInd := ids[i]];
      }
    }
    FillEnd(shards[..], before, ids);
  }

  // ----- how many shards each group has

  ghost function ShardsOf(shards: seq<Gid>, gid: Gid): set<nat> {
    set p | 0 <= p < |shards| && shards[p] == gid
  }

  /** Every group has its stretch, and nothing else when the groups divide the shards. */
  lemma EveryGroupServed(shards: seq<Gid>, ids: seq<Gid>, i: nat)
    requires |shards| == NSHARDS && i < |ids| && Ascending(ids)
    ensures var n := |ShardsOf(Balanced(shards, ids), ids[i])|;
            && NSHARDS / |ids| <= n
            && (NSHARDS % |ids| == 0 ==> n == NSHARDS / |ids|)
  {
    var each := NSHARDS / |ids|;
    if each > 0 {
      Fits(i, |ids|, each);
      ServedStretch(shards, ids, i, i * each, each);
    } else {
      MoreGroups(|ids|);
    }
  }

  lemma ServedStretch(shards: seq<Gid>, ids: seq<Gid>, i: nat, lo: nat, each: nat)
    requires |shards| == NSHARDS && i < |ids| && Ascending(ids) && 0 < each == NSHARDS / |ids|
    requires lo == i * each && lo + each <= NSHARDS
    ensures var n := |ShardsOf(Balanced(shards, ids), ids[i])|;
            each <= n && (NSHARDS % |ids| == 0 ==> n == each)
  {
    hide Owner, Ascending;
    var mine := ShardsOf(Balanced(shards, ids), ids[i]);
    var stretch := Interval(lo, lo + each);
    forall p: nat | p in stretch
      ensures p in mine
    {
      OwnerInStretch(shards, ids, i, p, each);
    }
    SubsetSize(stretch, mine);
    if NSHARDS % |ids| == 0 {
      forall p: nat | p in mine
        ensures p in stretch
      {
        OwnerOutsideStretch(shards, ids, i, p, each);
      }
      assert mine == stretch;
    }
  }

  lemma MoreGroups(g: nat)
    requires 0 < g && NSHARDS / g == 0
    ensures NSHARDS % g != 0
  {
  }

  lemma OwnerInStretch(shards: seq<Gid>, ids: seq<Gid>, i: nat, p: nat, each: nat)
    requires |shards| == NSHARDS && i < |ids| && p < NSHARDS && 0 < each == NSHARDS / |ids|
    requires i * each <= p < i * each + each
    ensures Owner(shards, ids, p) == ids[i]
  {
    Stretch(i, p - i * each, each);
  }

  lemma OwnerOutsideStretch(shards: seq<Gid>, ids: seq<Gid>, i: nat, p: nat, each: nat)
    requires |shards| == NSHARDS && i < |ids| && p < NSHARDS && 0 < each == NSHARDS / |ids|
    requires NSHARDS % |ids| == 0 && Ascending(ids) && Owner(shards, ids, p) == ids[i]
    ensures i * each <= p < i * each + each
  {
    InStretch(p, |ids|, each);
    StretchBound(p, i, each);
    assert (i + 1) * each == i * each + each;
    StretchBound(p, i + 1, each);
  }

  lemma InStretch(p: nat, g: nat, each: nat)
    requires p < NSHARDS && 0 < g && each == NSHARDS / g && each > 0 && NSHARDS % g == 0
    ensures p / each < g
  {
    assert NSHARDS == each * g;
    StretchBound(p, g, each);
  }

  // ----- shards that nobody serves

  /** A shard beyond the stretches; with more groups than shards, all but the first. */
  predicate LeftOver(groups: nat, p: nat)
    requires 0 < groups
  {
    var each := NSHARDS / groups;
    if each == 0 then p > 0 else groups * each <= p
  }

  /** Every shard has one of the groups as its owner exactly when the shards
      beyond the stretches already had. */
  lemma AllServed(shards: seq<Gid>, ids: seq<Gid>)
    requires |shards| == NSHARDS && ids != []
    ensures (forall p | 0 <= p < NSHARDS :: Balanced(shards, ids)[p] in ids) <==>
            (forall p | 0 <= p < NSHARDS && LeftOver(|ids|, p) :: shards[p] in ids)
  {
    forall p: nat | p < NSHARDS
      ensures Balanced(shards, ids)[p] in ids <==> (LeftOver(|ids|, p) ==> shards[p] in ids)
    {
      OwnerServes(shards, ids, p);
    }
  }

  lemma OwnerServes(shards: seq<Gid>, ids: seq<Gid>, p: nat)
    requires |shards| == NSHARDS && ids != [] && p < NSHARDS
    ensures LeftOver(|ids|, p) ==> Owner(shards, ids, p) == shards[p]
    ensures !LeftOver(|ids|, p) ==> Owner(shards, ids, p) in ids
  {
    var each := NSHARDS / |ids|;
    if each > 0 {
      StretchBound(p, |ids|, each);
    } else {
      assert |ids| > NSHARDS;
    }
  }
}
