/** Operations that return exactly when another one is called: what the answer
    means when the sort may put either entry first. */
module Ties {
  import opened Histories
  import opened Operations
  import opened KvModel
  import opened Sequences
  import opened SearchTheory
  import Sorting

  /** `a` had returned before `b` was called; a tie counts as before if `strict`. */
  ghost predicate Before<I, O>(a: Operation<I, O>, b: Operation<I, O>, strict: bool) {
    a.ret < b.call || (strict && a.ret == b.call)
  }

  /** Real time with ties counted: no operation stands behind one that was called
      when or after it returned. */
  ghost predicate InStrictTime<I, O>(order: seq<Operation<I, O>>) {
    forall i, j | 0 <= i <= j < |order| :: !(order[j].ret <= order[i].call)
  }

  ghost predicate LinearizesStrictly<S, I, O>(
    m: Model<S, I, O>, history: seq<Operation<I, O>>, order: seq<Operation<I, O>>)
  {
    multiset(order) == multiset(history) && InStrictTime(order) && Accepts(m, m.init, ToOps(order))
  }

  ghost predicate LinearizableStrictly<S, I(!new), O(!new)>(m: Model<S, I, O>, history: seq<Operation<I, O>>) {
    exists order :: LinearizesStrictly(m, history, order)
  }

  // ----- an order of operations in one arrangement of their entries

  /** In `h`, the return comes first exactly when it counts as before. */
  ghost predicate Breaks<I(!new), O(!new)>(h: seq<Entry<I, O>>, history: seq<Operation<I, O>>, strict: bool)
    requires WellFormed(h) && Count(h) == |history|
  {
    forall a: nat, b: nat | a < |history| && b < |history| ::
      Precedes(h, a, b) <==> Before(history[a], history[b], strict)
  }

  lemma BrokenOrder<S, I(!new), O(!new)>(
    m: Model<S, I, O>, h: seq<Entry<I, O>>, history: seq<Operation<I, O>>, ids: seq<nat>, strict: bool)
    requires Arranges(h, history) && WellFormed(h) && Count(h) == |history| && Breaks(h, history, strict)
    requires IsPermutation(ids, |history|)
    ensures var order := Reindex(history, ids);
            Completes(m, h, {}, m.init, ids) <==>
            if strict then LinearizesStrictly(m, history, order) else Linearizes(m, history, order)
  {
    hide EntriesOf, Precedes, OpOf, WellFormed, Accepts, SortedByTime, Arranges;
    var order := Reindex(history, ids);
    ReindexKeeps(history, ids);
    SameOps(h, history, ids);
    forall i, j | 0 <= i <= j < |ids|
      ensures Precedes(h, ids[j], ids[i]) <==> Before(order[j], order[i], strict)
    {
    }
    assert RespectsRealTime(h, ids) <==> if strict then InStrictTime(order) else InRealTime(order);
    assert forall id: nat :: id in ids <==> id < Count(h);
  }

  lemma SameOps<I(!new), O(!new)>(h: seq<Entry<I, O>>, history: seq<Operation<I, O>>, ids: seq<nat>)
    requires Arranges(h, history) && WellFormed(h) && Count(h) == |history| && IsPermutation(ids, |history|)
    ensures Ops(h, ids) == ToOps(Reindex(history, ids))
  {
    hide EntriesOf, OpOf, WellFormed, Precedes, Arranges;
    forall k | 0 <= k < |ids|
      ensures OpOf(h, ids[k]) == Op(history[ids[k]].input, history[ids[k]].output)
    {
      SamePrecedence(h, history, ids[k], ids[k]);
    }
  }

  /** An order that holds with ties counted holds in every arrangement. */
  lemma StrictOrder<S, I(!new), O(!new)>(
    m: Model<S, I, O>, h: seq<Entry<I, O>>, history: seq<Operation<I, O>>, ids: seq<nat>)
    requires Arranges(h, history) && WellFormed(h) && Count(h) == |history|
    requires IsPermutation(ids, |history|) && LinearizesStrictly(m, history, Reindex(history, ids))
    ensures Completes(m, h, {}, m.init, ids)
  {
    hide EntriesOf, Precedes, OpOf, WellFormed, Accepts, SortedByTime, Arranges;
    var order := Reindex(history, ids);
    SameOps(h, history, ids);
    forall i, j | 0 <= i <= j < |ids|
      ensures !Precedes(h, ids[j], ids[i])
    {
      SamePrecedence(h, history, ids[j], ids[i]);
      assert !(order[j].ret <= order[i].call);
    }
    assert forall id: nat :: id in ids <==> id < Count(h);
  }

  lemma StrictAnswer<S, I(!new), O(!new)>(m: Model<S, I, O>, h: seq<Entry<I, O>>, history: seq<Operation<I, O>>)
    requires Arranges(h, history) && LinearizableStrictly(m, history)
    ensures WellFormed(h) && Linearizable(m, h)
  {
    hide EntriesOf, WellFormed, SortedByTime, Distinct, InStrictTime, Accepts, Arranges;
    ArrangedIsWellFormed(h, history);
    var order :| LinearizesStrictly(m, history, order);
    assert multiset(order) == multiset(history);
    var ids := FindPermutation(history, order);
    StrictOrder(m, h, history, ids);
  }

  // ----- the two ways to break every tie

  function Rank<I, O>(e: Entry<I, O>, returnsFirst: bool): int {
    if e.Return? == returnsFirst then 0 else 1
  }

  function ByTimeAndKind<I(!new), O(!new)>(returnsFirst: bool): (Entry<I, O>, Entry<I, O>) -> bool {
    (a: Entry<I, O>, b: Entry<I, O>) =>
      a.time < b.time || (a.time == b.time && Rank(a, returnsFirst) <= Rank(b, returnsFirst))
  }

  /** The entries sorted by time, ties broken one way. */
  ghost function Arrangement<I(!new), O(!new)>(history: seq<Operation<I, O>>, returnsFirst: bool): seq<Entry<I, O>> {
    Sorting.Sort(ByTimeAndKind(returnsFirst), EntriesOf(history))
  }

  lemma ArrangementSorted<I(!new), O(!new)>(history: seq<Operation<I, O>>, returnsFirst: bool)
    ensures var h := Arrangement(history, returnsFirst);
            Arranges(h, history) && Sorting.SortedBy(ByTimeAndKind(returnsFirst), h)
  {
    hide EntriesOf;
    var le := ByTimeAndKind<I, O>(returnsFirst);
    var h := Arrangement(history, returnsFirst);
    Sorting.SortIsSorted(le, EntriesOf(history));
    forall i, j | 0 <= i < j < |h|
      ensures h[i].time <= h[j].time
    {
      assert le(h[i], h[j]);
    }
  }

  lemma ArrangementBreaks<I(!new), O(!new)>(history: seq<Operation<I, O>>, returnsFirst: bool)
    ensures var h := Arrangement(history, returnsFirst);
            Arranges(h, history) && WellFormed(h) && Count(h) == |history| && Breaks(h, history, returnsFirst)
  {
    hide EntriesOf, Arrangement, WellFormed;
    var h := Arrangement(history, returnsFirst);
    ArrangementSorted(history, returnsFirst);
    ArrangedIsWellFormed(h, history);
    forall a: nat, b: nat | a < |history| && b < |history|
      ensures Precedes(h, a, b) <==> Before(history[a], history[b], returnsFirst)
    {
      BrokenTie(h, history, a, b, returnsFirst);
    }
  }

  lemma BrokenTie<I(!new), O(!new)>(
    h: seq<Entry<I, O>>, history: seq<Operation<I, O>>, a: nat, b: nat, returnsFirst: bool)
    requires Arranges(h, history) && Sorting.SortedBy(ByTimeAndKind(returnsFirst), h)
    requires WellFormed(h) && Count(h) == |history| && a < |history| && b < |history|
    ensures Precedes(h, a, b) <==> Before(history[a], history[b], returnsFirst)
  {
    hide EntriesOf, WellFormed;
    var p, q := ReturnPos(h, a), CallPos(h, b);
    assert IsReturn(h, a, p) && IsCall(h, b, q);
    EntryIs(h, history, p);
    EntryIs(h, history, q);
    var le := ByTimeAndKind<I, O>(returnsFirst);
    if p < q {
      assert le(h[p], h[q]);
    } else {
      assert le(h[q], h[p]);
    }
  }

  /** Every way to sort the entries makes them linearizable if and only if the
      operations are with ties counted as before. */
  lemma EveryArrangement<S, I(!new), O(!new)>(m: Model<S, I, O>, history: seq<Operation<I, O>>)
    ensures (forall h | Arranges(h, history) :: WellFormed(h) && Linearizable(m, h)) <==>
            LinearizableStrictly(m, history)
  {
    hide WellFormed, Arranges, Breaks, Arrangement, EntriesOf, Completes, LinearizesStrictly;
    if LinearizableStrictly(m, history) {
      forall h | Arranges(h, history)
        ensures WellFormed(h) && Linearizable(m, h)
      {
        StrictAnswer(m, h, history);
      }
    }
    var h := Arrangement(history, true);
    ArrangementBreaks(history, true);
    if Linearizable(m, h) {
      var ids :| Completes(m, h, {}, m.init, ids);
      CompletionIsPermutation(m, h, ids);
      BrokenOrder(m, h, history, ids, true);
    }
  }

  /** Some way to sort the entries makes them linearizable if and only if the
      operations are. */
  lemma SomeArrangement<S, I(!new), O(!new)>(m: Model<S, I, O>, history: seq<Operation<I, O>>)
    ensures (exists h | Arranges(h, history) :: WellFormed(h) && Linearizable(m, h)) <==>
            LinearizableOps(m, history)
  {
    hide WellFormed, Arranges, Breaks, Arrangement, EntriesOf, Completes, Linearizes, Linearizable;
    forall h | Arranges(h, history)
      ensures WellFormed(h) && (Linearizable(m, h) ==> LinearizableOps(m, history))
    {
      SameAnswer(m, h, history);
    }
    if LinearizableOps(m, history) {
      LenientArrangement(m, history);
    }
  }

  lemma LenientArrangement<S, I(!new), O(!new)>(m: Model<S, I, O>, history: seq<Operation<I, O>>)
    requires LinearizableOps(m, history)
    ensures var h := Arrangement(history, false); Arranges(h, history) && WellFormed(h) && Linearizable(m, h)
  {
    hide WellFormed, Arranges, Breaks, Arrangement, EntriesOf, Completes, InRealTime, Accepts;
    var h := Arrangement(history, false);
    ArrangementBreaks(history, false);
    var order :| Linearizes(m, history, order);
    assert multiset(order) == multiset(history);
    var ids := FindPermutation(history, order);
    BrokenOrder(m, h, history, ids, false);
  }

  /** Without ties there is no difference. */
  lemma NoTiesNoDifference<S, I(!new), O(!new)>(m: Model<S, I, O>, history: seq<Operation<I, O>>)
    requires NoTies(history)
    ensures LinearizableStrictly(m, history) <==> LinearizableOps(m, history)
  {
    hide Accepts;
    forall order: seq<Operation<I, O>> | multiset(order) == multiset(history)
      ensures InStrictTime(order) <==> InRealTime(order)
    {
      forall i, j | 0 <= i <= j < |order|
        ensures order[j].ret != order[i].call
      {
        assert order[i] in multiset(order) && order[j] in multiset(order);
        assert order[i] in history && order[j] in history;
      }
    }
    if LinearizableStrictly(m, history) {
      var order :| LinearizesStrictly(m, history, order);
      assert Linearizes(m, history, order);
    }
    if LinearizableOps(m, history) {
      var order :| Linearizes(m, history, order);
      assert LinearizesStrictly(m, history, order);
    }
  }

  // ----- key by key

  lemma {:induction false} ProjectInStrictTime(order: seq<KvOp>, key: string)
    requires InStrictTime(order)
    ensures InStrictTime(Project(order, key))
  {
    if order != [] {
      ProjectInStrictTime(order[1..], key);
      var p := Project(order[1..], key);
      forall y | y in p
        ensures !(y.ret <= order[0].call)
      {
        ProjectMember(order[1..], key, y);
      }
    }
  }

  lemma EachKeyStrictly(history: seq<KvOp>, key: string)
    requires LinearizableStrictly(StoreModel(), history)
    ensures LinearizableStrictly(KeyModel(), Project(history, key))
  {
    var order :| LinearizesStrictly(StoreModel(), history, order);
    SameForEachKey(order, history, key);
    ProjectInStrictTime(order, key);
    StoreRunByKey(map[], order);
    assert Lookup(map[], key) == "";
    assert LinearizesStrictly(KeyModel(), Project(history, key), Project(order, key));
  }
}
