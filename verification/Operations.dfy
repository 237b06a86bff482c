/** Histories of timed operations: the permutation they ask for, and how the
    checker turns one into a list of entries. */
module Operations {
  import opened Histories
  import opened Sequences
  import opened SearchTheory
  import Sorting

  datatype Operation<I, O> = Operation(input: I, call: int, output: O, ret: int)

  /** No operation stands behind one that was called after it returned; none
      returned before its own call either. */
  ghost predicate InRealTime<I, O>(order: seq<Operation<I, O>>) {
    forall i, j | 0 <= i <= j < |order| :: !(order[j].ret < order[i].call)
  }

  ghost function ToOps<I, O>(order: seq<Operation<I, O>>): (ops: seq<Op<I, O>>)
    ensures |ops| == |order|
  {
    seq(|order|, i requires 0 <= i < |order| => Op(order[i].input, order[i].output))
  }

  ghost predicate Linearizes<S, I, O>(m: Model<S, I, O>, history: seq<Operation<I, O>>, order: seq<Operation<I, O>>) {
    multiset(order) == multiset(history) && InRealTime(order) && Accepts(m, m.init, ToOps(order))
  }

  /** Some permutation of the operations respects real-time order and is accepted. */
  ghost predicate LinearizableOps<S, I(!new), O(!new)>(m: Model<S, I, O>, history: seq<Operation<I, O>>) {
    exists order :: Linearizes(m, history, order)
  }

  /** No operation returns exactly when it or another one is called. */
  ghost predicate NoTies<I, O>(history: seq<Operation<I, O>>) {
    forall a, b | a in history && b in history :: a.ret != b.call
  }

  // ----- entries in order of time

  function ByTime<I(!new), O(!new)>(): (Entry<I, O>, Entry<I, O>) -> bool {
    (a: Entry<I, O>, b: Entry<I, O>) => a.time <= b.time
  }

  ghost predicate SortedByTime<I(!new), O(!new)>(entries: seq<Entry<I, O>>) {
    forall i, j | 0 <= i < j < |entries| :: entries[i].time <= entries[j].time
  }

  /** Sorting by time; nothing is promised about entries of equal time. */
  method SortByTime<I(!new), O(!new)>(entries: seq<Entry<I, O>>) returns (sorted: seq<Entry<I, O>>)
    ensures SortedByTime(sorted) && multiset(sorted) == multiset(entries)
  {
    sorted := Sorting.Sort(ByTime(), entries);
    Sorting.SortIsSorted(ByTime(), entries);
  }

  /** The call and return of each operation, numbered by position in the history. */
  ghost function EntriesOf<I(!new), O(!new)>(history: seq<Operation<I, O>>): (e: seq<Entry<I, O>>)
    ensures |e| == 2 * |history|
    ensures forall id | 0 <= id < |history| ::
              && e[2 * id] == Call(history[id].input, id, history[id].call)
              && e[2 * id + 1] == Return(history[id].output, id, history[id].ret)
  {
    if history == [] then [] else
    var n := |history| - 1;
    EntriesOf(history[..n]) + [Call(history[n].input, n, history[n].call), Return(history[n].output, n, history[n].ret)]
  }

  method MakeEntries<I(!new), O(!new)>(history: seq<Operation<I, O>>) returns (entries: seq<Entry<I, O>>)
    ensures SortedByTime(entries) && multiset(entries) == multiset(EntriesOf(history))
  {
    entries := [];
    for id := 0 to |history|
      invariant entries == EntriesOf(history[..id])
    {
      var elem := history[id];
      entries := entries + [Call(elem.input, id, elem.call)];
      entries := entries + [Return(elem.output, id, elem.ret)];
      assert history[..id + 1][..id] == history[..id];
    }
    assert history[..|history|] == history;
    entries := SortByTime(entries);
  }

  // ----- the entries say the same as the operations

  lemma EntryAt<I(!new), O(!new)>(history: seq<Operation<I, O>>, j: nat)
    requires j < 2 * |history|
    ensures var a := history[j / 2];
            EntriesOf(history)[j] == if j % 2 == 0 then Call(a.input, j / 2, a.call) else Return(a.output, j / 2, a.ret)
  {
    var id := j / 2;
    assert j == 2 * id || j == 2 * id + 1;
  }

  lemma EntriesDistinct<I(!new), O(!new)>(history: seq<Operation<I, O>>)
    ensures Distinct(EntriesOf(history))
  {
    hide EntriesOf;
    var e := EntriesOf(history);
    forall i, j | 0 <= i < j < |e|
      ensures e[i] != e[j]
    {
      EntryAt(history, i);
      EntryAt(history, j);
    }
  }

  /** `h` is some ordering by time of the entries of `history`. */
  ghost predicate Arranges<I(!new), O(!new)>(h: seq<Entry<I, O>>, history: seq<Operation<I, O>>) {
    SortedByTime(h) && multiset(h) == multiset(EntriesOf(history))
  }

  lemma EntryIs<I(!new), O(!new)>(h: seq<Entry<I, O>>, history: seq<Operation<I, O>>, i: nat)
    requires multiset(h) == multiset(EntriesOf(history)) && i < |h|
    ensures h[i].id < |history|
    ensures h[i].Call? ==> h[i] == Call(history[h[i].id].input, h[i].id, history[h[i].id].call)
    ensures h[i].Return? ==> h[i] == Return(history[h[i].id].output, h[i].id, history[h[i].id].ret)
  {
    hide EntriesOf;
    var e := EntriesOf(history);
    assert h[i] in multiset(e);
    var j :| 0 <= j < |e| && e[j] == h[i];
    EntryAt(history, j);
  }

  lemma EntriesFound<I(!new), O(!new)>(h: seq<Entry<I, O>>, history: seq<Operation<I, O>>, id: nat)
    requires multiset(h) == multiset(EntriesOf(history)) && id < |history|
    ensures HasBoth(h, id)
  {
    var e := EntriesOf(history);
    assert e[2 * id] in multiset(h) && e[2 * id + 1] in multiset(h);
    var i :| 0 <= i < |h| && h[i] == e[2 * id];
    var j :| 0 <= j < |h| && h[j] == e[2 * id + 1];
    assert IsCall(h, id, i) && IsReturn(h, id, j);
  }

  lemma ArrangedIsWellFormed<I(!new), O(!new)>(h: seq<Entry<I, O>>, history: seq<Operation<I, O>>)
    requires Arranges(h, history)
    ensures WellFormed(h) && Count(h) == |history|
  {
    var e := EntriesOf(history);
    assert |h| == |multiset(h)| == |multiset(e)| == |e|;
    EntriesDistinct(history);
    DistinctCount(e);
    DistinctCount(h);
    forall x | x in h
      ensures multiset(h)[x] == 1
    {
      assert x in multiset(e) && x in e;
    }
    forall i | 0 <= i < |h|
      ensures h[i].id < |history|
    {
      EntryIs(h, history, i);
    }
    forall id: nat | id < |history|
      ensures HasBoth(h, id)
    {
      EntriesFound(h, history, id);
    }
    forall id: nat, i: nat, j: nat | (IsCall(h, id, i) && IsCall(h, id, j)) || (IsReturn(h, id, i) && IsReturn(h, id, j))
      ensures i == j
    {
      EntryIs(h, history, i);
      EntryIs(h, history, j);
    }
  }

  /** Positions in the list tell real-time precedence of the operations; where a
      return and a call have the same time, either may come first. */
  lemma SamePrecedence<I(!new), O(!new)>(h: seq<Entry<I, O>>, history: seq<Operation<I, O>>, a: nat, b: nat)
    requires Arranges(h, history) && WellFormed(h) && Count(h) == |history|
    requires a < |history| && b < |history|
    ensures history[a].ret < history[b].call ==> Precedes(h, a, b)
    ensures Precedes(h, a, b) ==> history[a].ret <= history[b].call
    ensures OpOf(h, a) == Op(history[a].input, history[a].output)
  {
    hide EntriesOf;
    EntryIs(h, history, ReturnPos(h, a));
    EntryIs(h, history, CallPos(h, a));
    EntryIs(h, history, CallPos(h, b));
  }

  lemma SameOrder<S, I(!new), O(!new)>(
    m: Model<S, I, O>, h: seq<Entry<I, O>>, history: seq<Operation<I, O>>, ids: seq<nat>)
    requires Arranges(h, history) && WellFormed(h) && Count(h) == |history|
    requires IsPermutation(ids, |history|)
    ensures Completes(m, h, {}, m.init, ids) ==> Linearizes(m, history, Reindex(history, ids))
    ensures NoTies(history) && Linearizes(m, history, Reindex(history, ids)) ==> Completes(m, h, {}, m.init, ids)
  {
    hide EntriesOf, Precedes, OpOf, WellFormed, Accepts, SortedByTime, NoTies;
    var order := Reindex(history, ids);
    ReindexKeeps(history, ids);
    forall a: nat, b: nat | a < |history| && b < |history|
      ensures history[a].ret < history[b].call ==> Precedes(h, a, b)
      ensures NoTies(history) && Precedes(h, a, b) ==> history[a].ret < history[b].call
      ensures OpOf(h, a) == Op(history[a].input, history[a].output)
    {
      SamePrecedence(h, history, a, b);
      TiesApart(history, a, b);
    }
    assert Ops(h, ids) == ToOps(order);
    forall i, j | 0 <= i <= j < |ids|
      ensures order[j].ret < order[i].call ==> Precedes(h, ids[j], ids[i])
      ensures NoTies(history) && Precedes(h, ids[j], ids[i]) ==> order[j].ret < order[i].call
    {
    }
    assert RespectsRealTime(h, ids) ==> InRealTime(order);
    assert NoTies(history) && InRealTime(order) ==> RespectsRealTime(h, ids);
    assert forall id: nat :: id in ids <==> id < Count(h);
  }

  lemma TiesApart<I, O>(history: seq<Operation<I, O>>, a: nat, b: nat)
    requires a < |history| && b < |history|
    ensures NoTies(history) ==> history[a].ret != history[b].call
  {
    assert history[a] in history && history[b] in history;
  }

  /** When the entries of a history are linearizable, so are its operations, and
      conversely when no return has the time of a call. */
  lemma SameAnswer<S, I(!new), O(!new)>(m: Model<S, I, O>, h: seq<Entry<I, O>>, history: seq<Operation<I, O>>)
    requires Arranges(h, history)
    ensures WellFormed(h) && (Linearizable(m, h) ==> LinearizableOps(m, history))
    ensures NoTies(history) && LinearizableOps(m, history) ==> Linearizable(m, h)
  {
    hide EntriesOf, WellFormed, SortedByTime, Distinct, InRealTime, Accepts, NoTies;
    ArrangedIsWellFormed(h, history);
    if Linearizable(m, h) {
      var ids :| Completes(m, h, {}, m.init, ids);
      CompletionIsPermutation(m, h, ids);
      SameOrder(m, h, history, ids);
    }
    if NoTies(history) && LinearizableOps(m, history) {
      var order :| Linearizes(m, history, order);
      assert multiset(order) == multiset(history);
      var ids := FindPermutation(history, order);
      SameOrder(m, h, history, ids);
    }
  }

  lemma CompletionIsPermutation<S, I, O>(m: Model<S, I, O>, h: seq<Entry<I, O>>, ids: seq<nat>)
    requires WellFormed(h) && Completes(m, h, {}, m.init, ids)
    ensures IsPermutation(ids, Count(h))
  {
    ElementsSize(ids);
    assert Elements(ids) == Interval(0, Count(h));
  }
}
