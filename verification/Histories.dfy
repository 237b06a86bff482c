/** Concurrent histories and what it means for one to be linearizable. */
module Histories {
  import opened Sequences

  /** A sequential specification: `step` says whether the system could answer
      `output` to `input`, and in which state it is afterwards. */
  datatype Model<!S, !I, !O> = Model(
    init: S,
    step: (S, I, O) -> (bool, S),
    equal: (S, S) -> bool
  )

  datatype Op<I, O> = Op(input: I, output: O)

  /** One end of an operation; `id` says which operation. */
  datatype Entry<I, O> =
    | Call(input: I, id: nat, time: int)
    | Return(output: O, id: nat, time: int)

  // ----- sequential runs

  ghost predicate Accepts<S, I, O>(m: Model<S, I, O>, s: S, ops: seq<Op<I, O>>) {
    ops == [] ||
    var (ok, s') := m.step(s, ops[0].input, ops[0].output);
    ok && Accepts(m, s', ops[1..])
  }

  ghost function Final<S, I, O>(m: Model<S, I, O>, s: S, ops: seq<Op<I, O>>): S {
    if ops == [] then s else Final(m, m.step(s, ops[0].input, ops[0].output).1, ops[1..])
  }

  lemma {:induction false} RunOfConcat<S, I, O>(m: Model<S, I, O>, s: S, a: seq<Op<I, O>>, b: seq<Op<I, O>>)
    ensures Accepts(m, s, a + b) <==> Accepts(m, s, a) && Accepts(m, Final(m, s, a), b)
    ensures Final(m, s, a + b) == Final(m, Final(m, s, a), b)
  {
    if a == [] {
      assert a + b == b;
    } else {
      assert (a + b)[1..] == a[1..] + b;
      RunOfConcat(m, m.step(s, a[0].input, a[0].output).1, a[1..], b);
    }
  }

  /** `equal` may only identify states that no sequence of operations can tell
      apart. Equality of states is the case in use. */
  ghost predicate EqualIsSound<S(!new), I(!new), O(!new)>(m: Model<S, I, O>) {
    && (forall s :: m.equal(s, s))
    && (forall s, t, ops {:trigger m.equal(s, t), Accepts(m, s, ops)} ::
          m.equal(s, t) ==> (Accepts(m, s, ops) <==> Accepts(m, t, ops)))
  }

  // ----- histories

  /** How many operations a history has. */
  function Count<I, O>(h: seq<Entry<I, O>>): nat {
    |h| / 2
  }

  ghost predicate IsCall<I, O>(h: seq<Entry<I, O>>, id: nat, i: nat) {
    i < |h| && h[i].Call? && h[i].id == id
  }

  ghost predicate IsReturn<I, O>(h: seq<Entry<I, O>>, id: nat, i: nat) {
    i < |h| && h[i].Return? && h[i].id == id
  }

  ghost predicate HasBoth<I, O>(h: seq<Entry<I, O>>, id: nat) {
    (exists i :: IsCall(h, id, i)) && (exists i :: IsReturn(h, id, i))
  }

  /** Each id below the number of operations has one call and one return. An
      unstable sort may leave the return first when both have the same time. */
  ghost predicate WellFormed<I, O>(h: seq<Entry<I, O>>) {
    && (forall i | 0 <= i < |h| :: h[i].id < Count(h))
    && (forall id: nat | id < Count(h) :: HasBoth(h, id))
    && (forall id, i, j | IsCall(h, id, i) && IsCall(h, id, j) :: i == j)
    && (forall id, i, j | IsReturn(h, id, i) && IsReturn(h, id, j) :: i == j)
  }

  ghost function CallPos<I, O>(h: seq<Entry<I, O>>, id: nat): (i: nat)
    requires WellFormed(h) && id < Count(h)
    ensures IsCall(h, id, i)
  {
    assert HasBoth(h, id);
    var i :| IsCall(h, id, i);
    i
  }

  ghost function ReturnPos<I, O>(h: seq<Entry<I, O>>, id: nat): (i: nat)
    requires WellFormed(h) && id < Count(h)
    ensures IsReturn(h, id, i)
  {
    assert HasBoth(h, id);
    var i :| IsReturn(h, id, i);
    i
  }

  /** Real-time order: `a` had returned before `b` was called. */
  ghost predicate Precedes<I, O>(h: seq<Entry<I, O>>, a: nat, b: nat)
    requires WellFormed(h) && a < Count(h) && b < Count(h)
  {
    ReturnPos(h, a) < CallPos(h, b)
  }

  ghost predicate Ids<I, O>(h: seq<Entry<I, O>>, order: seq<nat>) {
    forall i | 0 <= i < |order| :: order[i] < Count(h)
  }

  ghost function OpOf<I, O>(h: seq<Entry<I, O>>, id: nat): Op<I, O>
    requires WellFormed(h) && id < Count(h)
  {
    Op(h[CallPos(h, id)].input, h[ReturnPos(h, id)].output)
  }

  ghost function Ops<I, O>(h: seq<Entry<I, O>>, order: seq<nat>): (ops: seq<Op<I, O>>)
    requires WellFormed(h) && Ids(h, order)
    ensures |ops| == |order|
  {
    seq(|order|, i requires 0 <= i < |order| => OpOf(h, order[i]))
  }

  /** No operation stands behind one that was called after it returned; none
      returned before its own call either. */
  ghost predicate RespectsRealTime<I, O>(h: seq<Entry<I, O>>, order: seq<nat>)
    requires WellFormed(h) && Ids(h, order)
  {
    forall i, j | 0 <= i <= j < |order| :: !Precedes(h, order[j], order[i])
  }

  /** `rest` schedules the operations outside `done`, from state `s`. */
  ghost predicate Completes<S, I, O>(
    m: Model<S, I, O>, h: seq<Entry<I, O>>, done: set<nat>, s: S, rest: seq<nat>)
    requires WellFormed(h)
  {
    && Distinct(rest)
    && Ids(h, rest)
    && (forall id: nat :: id in rest <==> id < Count(h) && id !in done)
    && RespectsRealTime(h, rest)
    && Accepts(m, s, Ops(h, rest))
  }

  /** Some permutation of the operations respects real-time order and is
      accepted step by step from the initial state. */
  ghost predicate Linearizable<S, I, O>(m: Model<S, I, O>, h: seq<Entry<I, O>>)
    requires WellFormed(h)
  {
    exists order :: Completes(m, h, {}, m.init, order)
  }
}
