/** The checker's model of one key, the specification of a whole key/value
    store, and why checking key by key is checking the whole history. */
module KvModel {
  import opened Histories
  import opened Operations
  import opened Sequences

  /** `op` is 0 for a get, 1 for a put, anything else for an append. */
  datatype KvInput = KvInput(op: nat, key: string, value: string)
  datatype KvOutput = KvOutput(value: string)

  type KvOp = Operation<KvInput, KvOutput>

  function Step(state: string, input: KvInput, output: KvOutput): (bool, string) {
    if input.op == 0 then (output.value == state, state)
    else if input.op == 1 then (true, input.value)
    else (true, state + input.value)
  }

  /** One key's value; the history is partitioned by key. */
  function KeyModel(): Model<string, KvInput, KvOutput> {
    Model("", Step, (a: string, b: string) => a == b)
  }

  lemma KeyModelEqual()
    ensures EqualIsSound(KeyModel())
  {
  }

  // ----- the store as a whole

  type Store = map<string, string>

  function Lookup(s: Store, key: string): string {
    if key in s then s[key] else ""
  }

  function StoreStep(s: Store, input: KvInput, output: KvOutput): (bool, Store) {
    var v := Lookup(s, input.key);
    if input.op == 0 then (output.value == v, s)
    else if input.op == 1 then (true, s[input.key := input.value])
    else (true, s[input.key := v + input.value])
  }

  function StoreModel(): Model<Store, KvInput, KvOutput> {
    Model(map[], StoreStep, (a: Store, b: Store) => a == b)
  }

  // ----- the operations of one key

  function Project(history: seq<KvOp>, key: string): seq<KvOp> {
    if history == [] then []
    else if history[0].input.key == key then [history[0]] + Project(history[1..], key)
    else Project(history[1..], key)
  }

  lemma {:induction false} ProjectConcat(a: seq<KvOp>, b: seq<KvOp>, key: string)
    ensures Project(a + b, key) == Project(a, key) + Project(b, key)
  {
    if a == [] {
      assert a + b == b;
    } else {
      assert (a + b)[1..] == a[1..] + b;
      ProjectConcat(a[1..], b, key);
    }
  }

  lemma {:induction false} ProjectCount(history: seq<KvOp>, key: string, x: KvOp)
    ensures multiset(Project(history, key))[x] == if x.input.key == key then multiset(history)[x] else 0
  {
    if history != [] {
      ProjectCount(history[1..], key, x);
      assert history == [history[0]] + history[1..];
    }
  }

  lemma ProjectMember(history: seq<KvOp>, key: string, x: KvOp)
    ensures x in Project(history, key) <==> x in history && x.input.key == key
  {
    ProjectCount(history, key, x);
    assert x in Project(history, key) <==> x in multiset(Project(history, key));
    assert x in history <==> x in multiset(history);
  }

  /** Same elements over all means the same elements for each key, and conversely. */
  lemma SameForEachKey(a: seq<KvOp>, b: seq<KvOp>, key: string)
    requires multiset(a) == multiset(b)
    ensures multiset(Project(a, key)) == multiset(Project(b, key))
  {
    forall x
      ensures multiset(Project(a, key))[x] == multiset(Project(b, key))[x]
    {
      ProjectCount(a, key, x);
      ProjectCount(b, key, x);
    }
  }

  lemma SameOverAll(a: seq<KvOp>, b: seq<KvOp>)
    requires forall key :: multiset(Project(a, key)) == multiset(Project(b, key))
    ensures multiset(a) == multiset(b)
  {
    forall x
      ensures multiset(a)[x] == multiset(b)[x]
    {
      ProjectCount(a, x.input.key, x);
      ProjectCount(b, x.input.key, x);
      assert multiset(Project(a, x.input.key)) == multiset(Project(b, x.input.key));
    }
  }

  // ----- a run of the store is a run of each key

  lemma ToOpsTail<I, O>(order: seq<Operation<I, O>>)
    requires order != []
    ensures ToOps(order)[0] == Op(order[0].input, order[0].output) && ToOps(order)[1..] == ToOps(order[1..])
  {
  }

  lemma {:induction false} StoreRunByKey(s: Store, order: seq<KvOp>)
    ensures Accepts(StoreModel(), s, ToOps(order)) <==>
            forall key :: Accepts(KeyModel(), Lookup(s, key), ToOps(Project(order, key)))
    decreases |order|
  {
    hide Lookup;
    if order == [] {
      assert ToOps(order) == [];
      assert forall key :: ToOps(Project(order, key)) == [];
    } else {
      var a, rest := order[0], order[1..];
      var k := a.input.key;
      var (ok, s') := StoreStep(s, a.input, a.output);
      StoreRunByKey(s', rest);
      ToOpsTail(order);
      forall key
        ensures Accepts(KeyModel(), Lookup(s, key), ToOps(Project(order, key))) <==>
                (key == k ==> ok) && Accepts(KeyModel(), Lookup(s', key), ToOps(Project(rest, key)))
      {
        LookupAfter(s, a, key);
        if key == k {
          ToOpsTail(Project(order, key));
          assert Project(order, key)[1..] == Project(rest, key);
        }
      }
      assert Accepts(StoreModel(), s, ToOps(order)) <==> ok && Accepts(StoreModel(), s', ToOps(rest));
    }
  }

  lemma LookupAfter(s: Store, a: KvOp, key: string)
    ensures var (ok, s') := StoreStep(s, a.input, a.output);
            if key == a.input.key
            then (ok, Lookup(s', key)) == Step(Lookup(s, key), a.input, a.output)
            else Lookup(s', key) == Lookup(s, key)
  {
  }

  // ----- merging the orders of the keys

  /** For each key, what it still has to do, in order. */
  type Queues = map<string, seq<KvOp>>

  ghost function Queue(q: Queues, key: string): seq<KvOp> {
    if key in q then q[key] else []
  }

  ghost predicate Mergeable(rest: seq<KvOp>, q: Queues) {
    && (forall key :: multiset(Queue(q, key)) == multiset(Project(rest, key)))
    && (forall key :: InRealTime(Queue(q, key)))
  }

  lemma {:induction false} FirstToReturn(rest: seq<KvOp>) returns (x: KvOp)
    requires rest != []
    ensures x in rest && forall y | y in rest :: x.ret <= y.ret
  {
    if |rest| == 1 {
      x := rest[0];
    } else {
      x := FirstToReturn(rest[1..]);
      if rest[0].ret < x.ret {
        x := rest[0];
      }
    }
  }

  /** The head of the queue that holds the operation which returned first: no
      operation that waits had returned before it was called. */
  lemma NextToRun(rest: seq<KvOp>, q: Queues) returns (a: KvOp)
    requires rest != [] && Mergeable(rest, q)
    ensures a in rest
    ensures var queue := Queue(q, a.input.key); queue != [] && queue[0] == a
    ensures forall y | y in rest :: !(y.ret < a.call)
  {
    var x := FirstToReturn(rest);
    var key := x.input.key;
    var queue := Queue(q, key);
    ProjectMember(rest, key, x);
    assert x in multiset(Project(rest, key));
    assert x in multiset(queue);
    var i :| 0 <= i < |queue| && queue[i] == x;
    a := queue[0];
    assert a in multiset(queue);
    assert a in multiset(Project(rest, key));
    ProjectMember(rest, key, a);
    assert !(x.ret < a.call);
  }

  /** Orders of the single keys, each consistent with real time, can be merged
      into one order of everything that is. */
  lemma {:induction false} Merge(rest: seq<KvOp>, q: Queues) returns (order: seq<KvOp>)
    requires Mergeable(rest, q)
    ensures InRealTime(order)
    ensures forall key :: Project(order, key) == Queue(q, key)
    decreases |rest|
  {
    hide InRealTime, Project, RemoveOne;
    if rest == [] {
      order := [];
      NothingLeft(q);
    } else {
      var a := NextToRun(rest, q);
      var key := a.input.key;
      var rest', q' := RemoveOne(rest, a), q[key := Queue(q, key)[1..]];
      StillMergeable(rest, q, a);
      var tail := Merge(rest', q');
      order := [a] + tail;
      MergedElements(tail, q', rest');
      FirstInRealTime(a, tail, rest', rest);
      forall k
        ensures Project(order, k) == Queue(q, k)
      {
        FirstProjected(a, tail, k);
        assert Project(tail, k) == Queue(q', k);
      }
    }
  }

  lemma NothingLeft(q: Queues)
    requires Mergeable([], q)
    ensures InRealTime<KvInput, KvOutput>([]) && forall key :: Project([], key) == Queue(q, key)
  {
    forall key
      ensures Queue(q, key) == []
    {
      assert multiset(Queue(q, key)) == multiset(Project([], key));
    }
  }

  lemma FirstInRealTime(a: KvOp, tail: seq<KvOp>, rest': seq<KvOp>, rest: seq<KvOp>)
    requires InRealTime(tail) && multiset(tail) == multiset(rest') && multiset(rest') <= multiset(rest)
    requires a in rest && forall y | y in rest :: !(y.ret < a.call)
    ensures InRealTime([a] + tail)
  {
    forall y | y in tail
      ensures y in rest
    {
      assert y in multiset(tail) && y in multiset(rest);
    }
  }

  lemma FirstProjected(a: KvOp, tail: seq<KvOp>, key: string)
    ensures Project([a] + tail, key) == (if key == a.input.key then [a] else []) + Project(tail, key)
  {
    assert ([a] + tail)[1..] == tail;
  }

  ghost function RemoveOne(rest: seq<KvOp>, a: KvOp): (r: seq<KvOp>)
    requires a in rest
    ensures multiset(rest) == multiset(r) + multiset{a} && |r| == |rest| - 1
  {
    var k :| 0 <= k < |rest| && rest[k] == a;
    RemoveAt(rest, k)
  }

  lemma StillMergeable(rest: seq<KvOp>, q: Queues, a: KvOp)
    requires Mergeable(rest, q) && a in rest
    requires var queue := Queue(q, a.input.key); queue != [] && queue[0] == a
    ensures Mergeable(RemoveOne(rest, a), q[a.input.key := Queue(q, a.input.key)[1..]])
  {
    hide RemoveOne, InRealTime, Project;
    var key := a.input.key;
    var rest', q' := RemoveOne(rest, a), q[key := Queue(q, key)[1..]];
    forall k
      ensures multiset(Queue(q', k)) == multiset(Project(rest', k)) && InRealTime(Queue(q', k))
    {
      assert InRealTime(Queue(q, k)) && multiset(Queue(q, k)) == multiset(Project(rest, k));
      TailInRealTime(Queue(q, k));
      OneLess(rest, rest', Queue(q, k), Queue(q', k), a, k);
    }
    forall x | x in rest'
      ensures x in rest
    {
      assert x in multiset(rest') && x in multiset(rest);
    }
  }

  lemma TailInRealTime(queue: seq<KvOp>)
    requires InRealTime(queue)
    ensures queue != [] ==> InRealTime(queue[1..])
  {
  }

  lemma OneLess(rest: seq<KvOp>, rest': seq<KvOp>, queue: seq<KvOp>, queue': seq<KvOp>, a: KvOp, key: string)
    requires multiset(rest) == multiset(rest') + multiset{a}
    requires multiset(queue) == multiset(Project(rest, key))
    requires queue == if key == a.input.key then [a] + queue' else queue'
    ensures multiset(queue') == multiset(Project(rest', key))
  {
    hide Project;
    forall x
      ensures multiset(queue')[x] == multiset(Project(rest', key))[x]
    {
      ProjectCount(rest, key, x);
      ProjectCount(rest', key, x);
    }
  }

  lemma MergedElements(order: seq<KvOp>, q: Queues, rest: seq<KvOp>)
    requires forall key :: Project(order, key) == Queue(q, key)
    requires forall key :: multiset(Queue(q, key)) == multiset(Project(rest, key))
    ensures multiset(order) == multiset(rest)
    ensures forall x :: x in order <==> x in rest
  {
    forall key
      ensures multiset(Project(order, key)) == multiset(Project(rest, key))
    {
      assert Project(order, key) == Queue(q, key);
    }
    SameOverAll(order, rest);
    forall x
      ensures x in order <==> x in rest
    {
      assert x in order <==> x in multiset(order);
      assert x in rest <==> x in multiset(rest);
    }
  }

  // ----- locality

  lemma {:induction false} ProjectInRealTime(order: seq<KvOp>, key: string)
    requires InRealTime(order)
    ensures InRealTime(Project(order, key))
  {
    if order != [] {
      ProjectInRealTime(order[1..], key);
      var p := Project(order[1..], key);
      forall y | y in p
        ensures !(y.ret < order[0].call)
      {
        ProjectMember(order[1..], key, y);
      }
    }
  }

  lemma EachKey(history: seq<KvOp>, order: seq<KvOp>, key: string)
    requires Linearizes(StoreModel(), history, order)
    ensures Linearizes(KeyModel(), Project(history, key), Project(order, key))
  {
    SameForEachKey(order, history, key);
    ProjectInRealTime(order, key);
    StoreRunByKey(map[], order);
    assert Lookup(map[], key) == "";
  }

  ghost function Keys(history: seq<KvOp>): set<string> {
    set a | a in history :: a.input.key
  }

  lemma NoSuchKey(history: seq<KvOp>, key: string)
    requires key !in Keys(history)
    ensures Project(history, key) == []
  {
    if Project(history, key) != [] {
      var x := Project(history, key)[0];
      ProjectMember(history, key, x);
    }
  }

  lemma AllKeys(history: seq<KvOp>)
    requires forall key | key in Keys(history) :: LinearizableOps(KeyModel(), Project(history, key))
    ensures LinearizableOps(StoreModel(), history)
  {
    hide Project, Linearizes;
    var q: Queues := map key | key in Keys(history) ::
      var order :| Linearizes(KeyModel(), Project(history, key), order); order;
    forall key
      ensures Linearizes(KeyModel(), Project(history, key), Queue(q, key))
    {
      if key !in q {
        NoSuchKey(history, key);
        EmptyIsFine();
      }
    }
    QueuesAreMergeable(history, q);
    var order := Merge(history, q);
    AcceptedByKeys(history, q, order);
  }

  lemma EmptyIsFine()
    ensures Linearizes(KeyModel(), [], [])
  {
    var none: seq<KvOp> := [];
    assert ToOps(none) == [];
  }

  lemma QueuesAreMergeable(history: seq<KvOp>, q: Queues)
    requires forall key :: Linearizes(KeyModel(), Project(history, key), Queue(q, key))
    ensures Mergeable(history, q)
  {
    hide Project, InRealTime, Accepts;
    forall key
      ensures multiset(Queue(q, key)) == multiset(Project(history, key)) && InRealTime(Queue(q, key))
    {
      assert Linearizes(KeyModel(), Project(history, key), Queue(q, key));
    }
  }

  lemma AcceptedByKeys(history: seq<KvOp>, q: Queues, order: seq<KvOp>)
    requires forall key :: Linearizes(KeyModel(), Project(history, key), Queue(q, key))
    requires Mergeable(history, q) && InRealTime(order) && forall key :: Project(order, key) == Queue(q, key)
    ensures Linearizes(StoreModel(), history, order)
  {
    hide Project, InRealTime, Accepts;
    MergedElements(order, q, history);
    forall key
      ensures Accepts(KeyModel(), Lookup(map[], key), ToOps(Project(order, key)))
    {
      assert Linearizes(KeyModel(), Project(history, key), Queue(q, key));
      assert Project(order, key) == Queue(q, key);
      assert Lookup(map[], key) == "";
    }
    StoreRunByKey(map[], order);
  }

  /** A history is linearizable for the whole store exactly when, for each key in
      it, the operations of that key are linearizable for a single value. */
  lemma Locality(history: seq<KvOp>)
    ensures LinearizableOps(StoreModel(), history) <==>
            forall key | key in Keys(history) :: LinearizableOps(KeyModel(), Project(history, key))
  {
    hide Project, Linearizes;
    if LinearizableOps(StoreModel(), history) {
      var order :| Linearizes(StoreModel(), history, order);
      forall key
        ensures LinearizableOps(KeyModel(), Project(history, key))
      {
        EachKey(history, order, key);
      }
    }
    if forall key | key in Keys(history) :: LinearizableOps(KeyModel(), Project(history, key)) {
      AllKeys(history);
    }
  }
}
