/** The checker's other front end: histories of events, in the order in which
    they happened, with ids of the caller's choice. */
module CheckEvents {
  import opened Histories
  import opened KvModel
  import opened Sequences
  import opened SearchTheory
  import LinkedEntries
  import Checker

  datatype Event<I, O> =
    | CallEvent(input: I, id: nat)
    | ReturnEvent(output: O, id: nat)
  {
    function WithId(newId: nat): Event<I, O> {
      if CallEvent? then CallEvent(input, newId) else ReturnEvent(output, newId)
    }
  }

  ghost predicate Occurs<I, O>(events: seq<Event<I, O>>, id: nat) {
    exists i :: 0 <= i < |events| && events[i].id == id
  }

  ghost predicate CallAt<I, O>(events: seq<Event<I, O>>, id: nat, i: nat) {
    i < |events| && events[i].CallEvent? && events[i].id == id
  }

  ghost predicate ReturnAt<I, O>(events: seq<Event<I, O>>, id: nat, i: nat) {
    i < |events| && events[i].ReturnEvent? && events[i].id == id
  }

  ghost predicate Paired<I, O>(events: seq<Event<I, O>>, id: nat) {
    (exists i :: CallAt(events, id, i)) && (exists i :: ReturnAt(events, id, i))
  }

  /** Each id that occurs has one call and one return. */
  ghost predicate Complete<I, O>(events: seq<Event<I, O>>) {
    && (forall id: nat | Occurs(events, id) :: Paired(events, id))
    && (forall id, i, j | CallAt(events, id, i) && CallAt(events, id, j) :: i == j)
    && (forall id, i, j | ReturnAt(events, id, i) && ReturnAt(events, id, j) :: i == j)
  }

  ghost function CallOf<I, O>(events: seq<Event<I, O>>, id: nat): (i: nat)
    requires Complete(events) && Occurs(events, id)
    ensures CallAt(events, id, i)
  {
    assert Paired(events, id);
    var i :| CallAt(events, id, i);
    i
  }

  ghost function ReturnOf<I, O>(events: seq<Event<I, O>>, id: nat): (i: nat)
    requires Complete(events) && Occurs(events, id)
    ensures ReturnAt(events, id, i)
  {
    assert Paired(events, id);
    var i :| ReturnAt(events, id, i);
    i
  }

  ghost predicate AllOccur<I, O>(events: seq<Event<I, O>>, order: seq<nat>) {
    forall k | 0 <= k < |order| :: Occurs(events, order[k])
  }

  ghost function OpsOf<I, O>(events: seq<Event<I, O>>, order: seq<nat>): (ops: seq<Op<I, O>>)
    requires Complete(events) && AllOccur(events, order)
    ensures |ops| == |order|
  {
    seq(|order|, k requires 0 <= k < |order| =>
      Op(events[CallOf(events, order[k])].input, events[ReturnOf(events, order[k])].output))
  }

  /** Some order of the ids that occur respects the order of the events and is
      accepted step by step. */
  ghost predicate LinearizesEvents<S, I, O>(m: Model<S, I, O>, events: seq<Event<I, O>>, order: seq<nat>)
    requires Complete(events)
  {
    && Distinct(order)
    && (forall id: nat :: id in order <==> Occurs(events, id))
    && AllOccur(events, order)
    && (forall i, j | 0 <= i <= j < |order| :: !(ReturnOf(events, order[j]) < CallOf(events, order[i])))
    && Accepts(m, m.init, OpsOf(events, order))
  }

  ghost predicate LinearizableEvents<S, I, O>(m: Model<S, I, O>, events: seq<Event<I, O>>)
    requires Complete(events)
  {
    exists order :: LinearizesEvents(m, events, order)
  }

  // ----- renumbering

  ghost predicate Taken(m: map<nat, nat>, n: nat) {
    exists id :: id in m && m[id] == n
  }

  /** `m` numbers the ids that occur from 0 on, without a gap and each differently. */
  ghost predicate Numbers<I, O>(m: map<nat, nat>, events: seq<Event<I, O>>) {
    && (forall id: nat :: id in m <==> Occurs(events, id))
    && (forall id | id in m :: m[id] < |m|)
    && (forall id, id' | id in m && id' in m && m[id] == m[id'] :: id == id')
    && (forall n: nat | n < |m| :: Taken(m, n))
  }

  ghost predicate Renumbered<I, O>(events: seq<Event<I, O>>, m: map<nat, nat>, e: seq<Event<I, O>>) {
    && |e| == |events|
    && forall i | 0 <= i < |e| :: events[i].id in m && e[i] == events[i].WithId(m[events[i].id])
  }

  method Renumber<I, O>(events: seq<Event<I, O>>) returns (e: seq<Event<I, O>>, ghost m: map<nat, nat>)
    ensures Numbers(m, events) && Renumbered(events, m, e)
    ensures |e| == |events| && forall i | 0 <= i < |e| :: events[i] == e[i].WithId(events[i].id)
    ensures forall i, j | 0 <= i < |e| && 0 <= j < |e| :: e[i].id == e[j].id <==> events[i].id == events[j].id
  {
    hide Numbers;
    e := [];
    var renumbering: map<nat, nat> := map[];
    var id := 0;
    NothingNumbered<I, O>();
    for i := 0 to |events|
      invariant Numbers(renumbering, events[..i]) && id == |renumbering|
      invariant Renumbered(events[..i], renumbering, e)
    {
      var v := events[i];
      NumberOne(renumbering, events[..i], v);
      assert events[..i + 1] == events[..i] + [v];
      if v.id in renumbering {
        e := e + [v.WithId(renumbering[v.id])];
      } else {
        e := e + [v.WithId(id)];
        renumbering := renumbering[v.id := id];
        id := id + 1;
      }
    }
    assert events[..|events|] == events;
    m := renumbering;
    SameIds(events, m, e);
  }

  lemma SameIds<I, O>(events: seq<Event<I, O>>, m: map<nat, nat>, e: seq<Event<I, O>>)
    requires Numbers(m, events) && Renumbered(events, m, e)
    ensures forall i | 0 <= i < |e| :: events[i] == e[i].WithId(events[i].id)
    ensures forall i, j | 0 <= i < |e| && 0 <= j < |e| :: e[i].id == e[j].id <==> events[i].id == events[j].id
  {
    forall i, j | 0 <= i < |e| && 0 <= j < |e|
      ensures e[i].id == e[j].id <==> events[i].id == events[j].id
    {
      assert e[i].id == m[events[i].id] && e[j].id == m[events[j].id];
    }
  }

  lemma NothingNumbered<I, O>()
    ensures Numbers<I, O>(map[], [])
  {
  }

  lemma NumberOne<I, O>(m: map<nat, nat>, events: seq<Event<I, O>>, v: Event<I, O>)
    requires Numbers(m, events)
    ensures Numbers(if v.id in m then m else m[v.id := |m|], events + [v])
    ensures v.id !in m ==> |m[v.id := |m|]| == |m| + 1
  {
    var events' := events + [v];
    forall id: nat
      ensures Occurs(events', id) <==> Occurs(events, id) || id == v.id
    {
      OccursMore(events, v, id);
    }
    if v.id !in m {
      NewNumber(m, events, v);
    }
  }

  lemma NewNumber<I, O>(m: map<nat, nat>, events: seq<Event<I, O>>, v: Event<I, O>)
    requires Numbers(m, events) && v.id !in m
    requires forall id: nat :: Occurs(events + [v], id) <==> Occurs(events, id) || id == v.id
    ensures |m[v.id := |m|]| == |m| + 1
    ensures Numbers(m[v.id := |m|], events + [v])
  {
    hide Occurs;
    var m' := m[v.id := |m|];
    assert m'.Keys == m.Keys + {v.id};
    assert |m'| == |m'.Keys| && |m| == |m.Keys|;
    forall n: nat | n < |m'|
      ensures Taken(m', n)
    {
      if n < |m| {
        assert Taken(m, n);
        var id :| id in m && m[id] == n;
        assert id in m' && m'[id] == n;
      } else {
        assert v.id in m' && m'[v.id] == n;
      }
    }
  }

  lemma OccursMore<I, O>(events: seq<Event<I, O>>, v: Event<I, O>, id: nat)
    ensures Occurs(events + [v], id) <==> Occurs(events, id) || id == v.id
  {
    var events' := events + [v];
    if Occurs(events, id) {
      var i :| 0 <= i < |events| && events[i].id == id;
      assert events'[i].id == id;
    }
    assert events'[|events|] == v;
  }

  /** The events as entries; time plays no part. */
  function EntryOf<I, O>(e: Event<I, O>): Entry<I, O> {
    if e.CallEvent? then Call(e.input, e.id, -1) else Return(e.output, e.id, -1)
  }

  method ConvertEntries<I, O>(events: seq<Event<I, O>>) returns (entries: seq<Entry<I, O>>)
    ensures |entries| == |events| && forall i | 0 <= i < |events| :: entries[i] == EntryOf(events[i])
  {
    entries := [];
    for i := 0 to |events|
      invariant |entries| == i && forall j | 0 <= j < i :: entries[j] == EntryOf(events[j])
    {
      entries := entries + [EntryOf(events[i])];
    }
  }

  // ----- the entries are a well-formed history

  /** `h` are the entries of `events` under the numbers of `m`. */
  ghost predicate Converts<I, O>(events: seq<Event<I, O>>, m: map<nat, nat>, h: seq<Entry<I, O>>) {
    && |h| == |events|
    && forall i | 0 <= i < |h| ::
         events[i].id in m && h[i] == EntryOf(events[i].WithId(m[events[i].id]))
  }

  lemma SamePlaces<I, O>(events: seq<Event<I, O>>, m: map<nat, nat>, h: seq<Entry<I, O>>, id: nat, i: nat)
    requires Numbers(m, events) && Converts(events, m, h) && id in m
    ensures IsCall(h, m[id], i) <==> CallAt(events, id, i)
    ensures IsReturn(h, m[id], i) <==> ReturnAt(events, id, i)
  {
  }

  ghost function OldId<I, O>(events: seq<Event<I, O>>, m: map<nat, nat>, n: nat): (id: nat)
    requires Numbers(m, events) && n < |m|
    ensures id in m && m[id] == n
  {
    assert Taken(m, n);
    var id :| id in m && m[id] == n;
    id
  }

  lemma EachOnce<I, O>(events: seq<Event<I, O>>, m: map<nat, nat>, h: seq<Entry<I, O>>, n: nat)
    requires Complete(events) && Numbers(m, events) && Converts(events, m, h) && n < |m|
    ensures HasBoth(h, n)
    ensures forall i, j | IsCall(h, n, i) && IsCall(h, n, j) :: i == j
    ensures forall i, j | IsReturn(h, n, i) && IsReturn(h, n, j) :: i == j
  {
    hide Numbers, Converts;
    var id := OldId(events, m, n);
    NumberedOccurs(events, m, id);
    forall i: nat
      ensures IsCall(h, n, i) <==> CallAt(events, id, i)
      ensures IsReturn(h, n, i) <==> ReturnAt(events, id, i)
    {
      SamePlaces(events, m, h, id, i);
    }
    assert IsCall(h, n, CallOf(events, id)) && IsReturn(h, n, ReturnOf(events, id));
  }

  lemma NumberedOccurs<I, O>(events: seq<Event<I, O>>, m: map<nat, nat>, id: nat)
    requires Numbers(m, events)
    ensures id in m <==> Occurs(events, id)
    ensures id in m ==> m[id] < |m|
  {
  }

  ghost function CallsBelow<I, O>(h: seq<Entry<I, O>>, n: nat): set<nat> {
    set i: nat | i < |h| && h[i].Call? && h[i].id < n
  }

  ghost function ReturnsBelow<I, O>(h: seq<Entry<I, O>>, n: nat): set<nat> {
    set i: nat | i < |h| && h[i].Return? && h[i].id < n
  }

  ghost predicate Once<I, O>(h: seq<Entry<I, O>>, n: nat) {
    && HasBoth(h, n)
    && (forall i, j | IsCall(h, n, i) && IsCall(h, n, j) :: i == j)
    && (forall i, j | IsReturn(h, n, i) && IsReturn(h, n, j) :: i == j)
  }

  lemma {:induction false} CountBelow<I, O>(h: seq<Entry<I, O>>, n: nat)
    requires forall k: nat | k < n :: Once(h, k)
    ensures |CallsBelow(h, n)| == |ReturnsBelow(h, n)| == n
  {
    if n == 0 {
      assert CallsBelow(h, n) == {} && ReturnsBelow(h, n) == {};
    } else {
      hide Once, CallsBelow, ReturnsBelow;
      CountBelow(h, n - 1);
      OneMoreCall(h, n - 1);
      OneMoreReturn(h, n - 1);
    }
  }

  lemma OneMoreCall<I, O>(h: seq<Entry<I, O>>, n: nat)
    requires Once(h, n)
    ensures |CallsBelow(h, n + 1)| == |CallsBelow(h, n)| + 1
  {
    var c :| IsCall(h, n, c);
    var before, after := CallsBelow(h, n), CallsBelow(h, n + 1);
    forall i: nat | i in after && i !in before
      ensures i == c
    {
      assert IsCall(h, n, i);
    }
    assert after == before + {c} && c !in before;
  }

  lemma OneMoreReturn<I, O>(h: seq<Entry<I, O>>, n: nat)
    requires Once(h, n)
    ensures |ReturnsBelow(h, n + 1)| == |ReturnsBelow(h, n)| + 1
  {
    var c :| IsReturn(h, n, c);
    var before, after := ReturnsBelow(h, n), ReturnsBelow(h, n + 1);
    forall i: nat | i in after && i !in before
      ensures i == c
    {
      assert IsReturn(h, n, i);
    }
    assert after == before + {c} && c !in before;
  }

  /** As many entries as two for each id. */
  lemma TwoEach<I, O>(h: seq<Entry<I, O>>, n: nat)
    requires (forall k: nat | k < n :: Once(h, k)) && forall i | 0 <= i < |h| :: h[i].id < n
    ensures |h| == 2 * n
  {
    CountBelow(h, n);
    hide Once, CallsBelow, ReturnsBelow;
    CallsAndReturns(h, n);
    var c, r := CallsBelow(h, n), ReturnsBelow(h, n);
    assert |c + r| == |c| + |r|;
  }

  lemma CallsAndReturns<I, O>(h: seq<Entry<I, O>>, n: nat)
    requires forall i | 0 <= i < |h| :: h[i].id < n
    ensures CallsBelow(h, n) + ReturnsBelow(h, n) == Interval(0, |h|) && CallsBelow(h, n) !! ReturnsBelow(h, n)
  {
  }

  lemma ConvertedIsWellFormed<I, O>(events: seq<Event<I, O>>, m: map<nat, nat>, h: seq<Entry<I, O>>)
    requires Complete(events) && Numbers(m, events) && Converts(events, m, h)
    ensures WellFormed(h) && Count(h) == |m|
  {
    hide Complete, Numbers, Converts;
    forall n: nat | n < |m|
      ensures Once(h, n)
    {
      EachOnce(events, m, h, n);
    }
    NumbersInRange(events, m, h);
    TwoEach(h, |m|);
    OnceIsWellFormed(h, |m|);
  }

  lemma NumbersInRange<I, O>(events: seq<Event<I, O>>, m: map<nat, nat>, h: seq<Entry<I, O>>)
    requires Numbers(m, events) && Converts(events, m, h)
    ensures forall i | 0 <= i < |h| :: h[i].id < |m|
  {
  }

  lemma OnceIsWellFormed<I, O>(h: seq<Entry<I, O>>, n: nat)
    requires |h| == 2 * n && (forall k: nat | k < n :: Once(h, k)) && forall i | 0 <= i < |h| :: h[i].id < n
    ensures WellFormed(h) && Count(h) == n
  {
    forall id: nat | id < n
      ensures HasBoth(h, id)
    {
      assert Once(h, id);
    }
    forall id: nat, i: nat, j: nat | (IsCall(h, id, i) && IsCall(h, id, j)) || (IsReturn(h, id, i) && IsReturn(h, id, j))
      ensures i == j
    {
      assert Once(h, id);
    }
  }

  // ----- the answer

  lemma SameOperation<I, O>(events: seq<Event<I, O>>, m: map<nat, nat>, h: seq<Entry<I, O>>, id: nat)
    requires Complete(events) && Numbers(m, events) && Converts(events, m, h) && WellFormed(h) && Count(h) == |m|
    requires id in m
    ensures Occurs(events, id) && m[id] < Count(h)
    ensures CallPos(h, m[id]) == CallOf(events, id) && ReturnPos(h, m[id]) == ReturnOf(events, id)
    ensures OpOf(h, m[id]) == Op(events[CallOf(events, id)].input, events[ReturnOf(events, id)].output)
  {
    NumberedOccurs(events, m, id);
    var c, r := CallOf(events, id), ReturnOf(events, id);
    SamePlaces(events, m, h, id, c);
    SamePlaces(events, m, h, id, r);
    assert IsCall(h, m[id], CallPos(h, m[id])) && IsReturn(h, m[id], ReturnPos(h, m[id]));
  }

  /** The new numbers of an order of old ids. */
  ghost function Map(m: map<nat, nat>, order: seq<nat>): (r: seq<nat>)
    requires forall k | 0 <= k < |order| :: order[k] in m
    ensures |r| == |order|
  {
    seq(|order|, k requires 0 <= k < |order| => m[order[k]])
  }

  lemma SameOrder<S, I, O>(
    model: Model<S, I, O>, events: seq<Event<I, O>>, m: map<nat, nat>, h: seq<Entry<I, O>>, order: seq<nat>)
    requires Complete(events) && Numbers(m, events) && Converts(events, m, h) && WellFormed(h) && Count(h) == |m|
    requires forall k | 0 <= k < |order| :: order[k] in m
    ensures LinearizesEvents(model, events, order) <==> Completes(model, h, {}, model.init, Map(m, order))
  {
    hide Accepts, Numbers, Converts, Complete, WellFormed, OpOf, Occurs, Distinct;
    var ids := Map(m, order);
    SameMembers(events, m, order);
    forall k | 0 <= k < |order|
      ensures Occurs(events, order[k]) && ids[k] < Count(h)
      ensures CallPos(h, ids[k]) == CallOf(events, order[k]) && ReturnPos(h, ids[k]) == ReturnOf(events, order[k])
      ensures OpOf(h, ids[k]) == Op(events[CallOf(events, order[k])].input, events[ReturnOf(events, order[k])].output)
    {
      SameOperation(events, m, h, order[k]);
    }
    assert Ops(h, ids) == OpsOf(events, order);
    SameTime(events, h, order, ids);
  }

  lemma SameTime<I, O>(events: seq<Event<I, O>>, h: seq<Entry<I, O>>, order: seq<nat>, ids: seq<nat>)
    requires Complete(events) && WellFormed(h) && AllOccur(events, order) && Ids(h, ids) && |ids| == |order|
    requires forall k | 0 <= k < |order| :: CallPos(h, ids[k]) == CallOf(events, order[k])
    requires forall k | 0 <= k < |order| :: ReturnPos(h, ids[k]) == ReturnOf(events, order[k])
    ensures RespectsRealTime(h, ids) <==>
            forall i, j | 0 <= i <= j < |order| :: !(ReturnOf(events, order[j]) < CallOf(events, order[i]))
  {
    hide Complete, WellFormed, Occurs;
    forall i, j | 0 <= i <= j < |order|
      ensures Precedes(h, ids[j], ids[i]) <==> ReturnOf(events, order[j]) < CallOf(events, order[i])
    {
    }
  }

  lemma SameMembers<I, O>(events: seq<Event<I, O>>, m: map<nat, nat>, order: seq<nat>)
    requires Numbers(m, events) && forall k | 0 <= k < |order| :: order[k] in m
    ensures Distinct(order) <==> Distinct(Map(m, order))
    ensures (forall id: nat :: id in order <==> Occurs(events, id)) <==>
            (forall n: nat :: n in Map(m, order) <==> n < |m|)
  {
    hide Numbers, Occurs;
    SameDistinct(events, m, order);
    var ids := Map(m, order);
    forall id: nat
      ensures id in m <==> Occurs(events, id)
    {
      NumberedOccurs(events, m, id);
    }
    if forall id: nat :: id in order <==> Occurs(events, id) {
      forall n: nat
        ensures n in ids <==> n < |m|
      {
        NumberUsed(events, m, order, n);
      }
    }
    if forall n: nat :: n in ids <==> n < |m| {
      forall id: nat
        ensures id in order <==> Occurs(events, id)
      {
        IdUsed(events, m, order, id);
      }
    }
  }

  lemma SameDistinct<I, O>(events: seq<Event<I, O>>, m: map<nat, nat>, order: seq<nat>)
    requires Numbers(m, events) && forall k | 0 <= k < |order| :: order[k] in m
    ensures Distinct(order) <==> Distinct(Map(m, order))
  {
    hide Occurs;
    forall i, j | 0 <= i < j < |order|
      ensures order[i] == order[j] <==> Map(m, order)[i] == Map(m, order)[j]
    {
    }
  }

  lemma NumberUsed<I, O>(events: seq<Event<I, O>>, m: map<nat, nat>, order: seq<nat>, n: nat)
    requires Numbers(m, events) && (forall k | 0 <= k < |order| :: order[k] in m) && forall id: nat | id in m :: id in order
    ensures n in Map(m, order) <==> n < |m|
  {
    hide Occurs;
    if n < |m| {
      var id := OldId(events, m, n);
      var k :| 0 <= k < |order| && order[k] == id;
      assert Map(m, order)[k] == n;
    }
  }

  lemma IdUsed<I, O>(events: seq<Event<I, O>>, m: map<nat, nat>, order: seq<nat>, id: nat)
    requires Numbers(m, events) && forall k | 0 <= k < |order| :: order[k] in m
    requires forall n: nat | n < |m| :: n in Map(m, order)
    ensures id in order <==> id in m
  {
    hide Occurs;
    if id in m {
      assert m[id] in Map(m, order);
      var k :| 0 <= k < |order| && Map(m, order)[k] == m[id];
      assert order[k] == id;
    }
  }

  lemma SameAnswer<S, I, O>(model: Model<S, I, O>, events: seq<Event<I, O>>, m: map<nat, nat>, h: seq<Entry<I, O>>)
    requires Complete(events) && Numbers(m, events) && Converts(events, m, h) && WellFormed(h) && Count(h) == |m|
    ensures LinearizableEvents(model, events) <==> Linearizable(model, h)
  {
    hide Complete, Numbers, Converts, WellFormed, LinearizesEvents, Completes;
    if LinearizableEvents(model, events) {
      var order :| LinearizesEvents(model, events, order);
      OrderIsNumbered(model, events, m, order);
      SameOrder(model, events, m, h, order);
    }
    if Linearizable(model, h) {
      var ids :| Completes(model, h, {}, model.init, ids);
      var order := OldOrder(model, events, m, h, ids);
      SameOrder(model, events, m, h, order);
    }
  }

  lemma OrderIsNumbered<S, I, O>(model: Model<S, I, O>, events: seq<Event<I, O>>, m: map<nat, nat>, order: seq<nat>)
    requires Complete(events) && Numbers(m, events) && LinearizesEvents(model, events, order)
    ensures forall k | 0 <= k < |order| :: order[k] in m
  {
    hide Complete, Accepts, Numbers;
    forall k | 0 <= k < |order|
      ensures order[k] in m
    {
      NumberedOccurs(events, m, order[k]);
    }
  }

  lemma OldOrder<S, I, O>(
    model: Model<S, I, O>, events: seq<Event<I, O>>, m: map<nat, nat>, h: seq<Entry<I, O>>, ids: seq<nat>)
    returns (order: seq<nat>)
    requires Numbers(m, events) && WellFormed(h) && Count(h) == |m| && Completes(model, h, {}, model.init, ids)
    ensures (forall k | 0 <= k < |order| :: order[k] in m) && Map(m, order) == ids
  {
    hide Accepts, Numbers, WellFormed, RespectsRealTime, Distinct;
    order := seq(|ids|, k requires 0 <= k < |ids| => OldId(events, m, ids[k]));
  }

  /** With no partition of events given, the history is one part: the answer is
      exact for every history whose calls have returned, the empty one included. */
  method CheckEvents<S(!new), I(!new), O(!new)>(model: Model<S, I, O>, events: seq<Event<I, O>>) returns (ok: bool)
    requires EqualIsSound(model) && Complete(events)
    ensures ok <==> LinearizableEvents(model, events)
  {
    hide EqualIsSound, WellFormed, Linearizable, LinearizableEvents, Complete, Numbers, LinkedEntries.Represents,
         LinkedEntries.Linked;
    var e, m := Renumber(events);
    var h := ConvertEntries(e);
    assert Converts(events, m, h);
    ConvertedIsWellFormed(events, m, h);
    SameAnswer(model, events, m, h);
    var root, nodes := LinkedEntries.MakeLinkedEntries(h);
    ok := Checker.CheckSingle(model, root, nodes, h);
  }

  // ----- events of a key/value store

  type KvEvent = Event<KvInput, KvOutput>

  ghost predicate OfKey(events: seq<KvEvent>, key: string) {
    forall i | 0 <= i < |events| && events[i].CallEvent? :: events[i].input.key == key
  }

  lemma {:induction false} OneKeyRun(s: Store, v: string, key: string, ops: seq<Op<KvInput, KvOutput>>)
    requires Lookup(s, key) == v && forall k | 0 <= k < |ops| :: ops[k].input.key == key
    ensures Accepts(StoreModel(), s, ops) <==> Accepts(KeyModel(), v, ops)
    decreases |ops|
  {
    if ops != [] {
      var (ok, s') := StoreStep(s, ops[0].input, ops[0].output);
      var (_, v') := Step(v, ops[0].input, ops[0].output);
      OneKeyRun(s', v', key, ops[1..]);
    }
  }

  /** For events of one key, checking against a single value is checking against
      the store. */
  lemma OneKeyIsExact(events: seq<KvEvent>, key: string)
    requires Complete(events) && OfKey(events, key)
    ensures LinearizableEvents(KeyModel(), events) <==> LinearizableEvents(StoreModel(), events)
  {
    hide Complete, Accepts;
    forall order: seq<nat> | AllOccur(events, order)
      ensures Accepts(StoreModel(), map[], OpsOf(events, order)) <==> Accepts(KeyModel(), "", OpsOf(events, order))
    {
      OneKeyRun(map[], "", key, OpsOf(events, order));
    }
    if LinearizableEvents(KeyModel(), events) {
      var order :| LinearizesEvents(KeyModel(), events, order);
      assert LinearizesEvents(StoreModel(), events, order);
    }
    if LinearizableEvents(StoreModel(), events) {
      var order :| LinearizesEvents(StoreModel(), events, order);
      assert LinearizesEvents(KeyModel(), events, order);
    }
  }

  /** A put of one key, then a get of another. */
  const TWO_KEYS: seq<KvEvent> := [
    CallEvent(KvInput(1, "a", "x"), 0), ReturnEvent(KvOutput(""), 0),
    CallEvent(KvInput(0, "b", ""), 1), ReturnEvent(KvOutput(""), 1)]

  /** The model comes without a partition of events: of several keys they are
      checked against a single value, and a correct history is rejected. */
  lemma KeysAreMixed()
    ensures Complete(TWO_KEYS)
    ensures LinearizableEvents(StoreModel(), TWO_KEYS) && !LinearizableEvents(KeyModel(), TWO_KEYS)
  {
    TwoKeysComplete();
    hide Complete, Accepts, Occurs;
    PutThenGet([0, 1]);
    var ops := [Op(KvInput(1, "a", "x"), KvOutput("")), Op(KvInput(0, "b", ""), KvOutput(""))];
    RunsDiffer(ops);
    assert LinearizesEvents(StoreModel(), TWO_KEYS, [0, 1]);
    forall order
      ensures !LinearizesEvents(KeyModel(), TWO_KEYS, order)
    {
      if LinearizesEvents(KeyModel(), TWO_KEYS, order) {
        PutThenGet(order);
      }
    }
  }

  lemma TwoKeysComplete()
    ensures Complete(TWO_KEYS) && forall id: nat :: Occurs(TWO_KEYS, id) <==> id < 2
  {
    assert TWO_KEYS[0].id == 0 && TWO_KEYS[2].id == 1;
    assert CallAt(TWO_KEYS, 0, 0) && ReturnAt(TWO_KEYS, 0, 1) && CallAt(TWO_KEYS, 1, 2) && ReturnAt(TWO_KEYS, 1, 3);
  }

  lemma RunsDiffer(ops: seq<Op<KvInput, KvOutput>>)
    requires ops == [Op(KvInput(1, "a", "x"), KvOutput("")), Op(KvInput(0, "b", ""), KvOutput(""))]
    ensures Accepts(StoreModel(), map[], ops) && !Accepts(KeyModel(), "", ops)
  {
    assert ops[1..] == [Op(KvInput(0, "b", ""), KvOutput(""))] && ops[1..][1..] == [];
  }

  /** The only order of the two. */
  lemma PutThenGet(order: seq<nat>)
    requires Complete(TWO_KEYS) && forall id: nat :: Occurs(TWO_KEYS, id) <==> id < 2
    requires Distinct(order) && (forall id: nat :: id in order <==> id < 2) && AllOccur(TWO_KEYS, order)
    requires forall i, j | 0 <= i <= j < |order| :: !(ReturnOf(TWO_KEYS, order[j]) < CallOf(TWO_KEYS, order[i]))
    ensures order == [0, 1]
    ensures OpsOf(TWO_KEYS, order) == [Op(KvInput(1, "a", "x"), KvOutput("")), Op(KvInput(0, "b", ""), KvOutput(""))]
  {
    assert CallAt(TWO_KEYS, 0, 0) && ReturnAt(TWO_KEYS, 0, 1) && CallAt(TWO_KEYS, 1, 2) && ReturnAt(TWO_KEYS, 1, 3);
    assert CallOf(TWO_KEYS, 0) == 0 && ReturnOf(TWO_KEYS, 0) == 1;
    assert CallOf(TWO_KEYS, 1) == 2 && ReturnOf(TWO_KEYS, 1) == 3;
    assert 0 in order && 1 in order;
    ElementsSize(order);
    assert Elements(order) == {0, 1};
  }
}
