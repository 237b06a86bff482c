/** The checker from end to end, on histories of a key/value store. */
module CheckOperations {
  import opened Histories
  import opened Operations
  import opened KvModel
  import opened Sequences
  import opened Ties
  import LinkedEntries
  import Checker

  ghost predicate Grouped(m: map<string, seq<KvOp>>, history: seq<KvOp>) {
    m.Keys == Keys(history) && forall key | key in m :: m[key] == Project(history, key)
  }

  method Group(history: seq<KvOp>) returns (m: map<string, seq<KvOp>>)
    ensures Grouped(m, history)
  {
    m := map[];
    for i := 0 to |history|
      invariant Grouped(m, history[..i])
    {
      var v := history[i];
      var key := v.input.key;
      GroupedMore(m, history[..i], v);
      m := m[key := (if key in m then m[key] else []) + [v]];
      assert history[..i + 1] == history[..i] + [v];
    }
    assert history[..|history|] == history;
  }

  lemma GroupedMore(m: map<string, seq<KvOp>>, history: seq<KvOp>, v: KvOp)
    requires Grouped(m, history)
    ensures var key := v.input.key;
            Grouped(m[key := (if key in m then m[key] else []) + [v]], history + [v])
  {
    KeysGrow(history, v);
    var m' := m[v.input.key := (if v.input.key in m then m[v.input.key] else []) + [v]];
    forall k | k in m'
      ensures m'[k] == Project(history + [v], k)
    {
      ProjectConcat(history, [v], k);
      if k !in Keys(history) {
        NoSuchKey(history, k);
      }
    }
  }

  /** The operations of each key, keys in no particular order. */
  method Partition(history: seq<KvOp>) returns (parts: seq<seq<KvOp>>, ghost keys: seq<string>)
    ensures Distinct(keys) && |parts| == |keys|
    ensures forall key :: key in keys <==> key in Keys(history)
    ensures forall i | 0 <= i < |parts| :: parts[i] == Project(history, keys[i])
    ensures |parts| == |Keys(history)| && forall key | key in Keys(history) :: Project(history, key) in parts
  {
    hide Keys, Project, Listed;
    var m := Group(history);
    parts, keys := [], [];
    var rest := m;
    NothingListed(m);
    while rest != map[]
      invariant Listed(m, rest, keys, parts)
      decreases rest.Keys
    {
      var key :| key in rest;
      ListOne(m, rest, keys, parts, key);
      parts, keys := parts + [rest[key]], keys + [key];
      rest := rest - {key};
    }
    AllListed(m, keys, parts);
  }

  /** `keys` are the keys of `m` outside `rest`, and `parts` what it has for them. */
  ghost predicate Listed<T>(m: map<string, T>, rest: map<string, T>, keys: seq<string>, parts: seq<T>) {
    && Distinct(keys) && |parts| == |keys|
    && (forall key :: key in m <==> key in keys || key in rest)
    && (forall key | key in rest :: key !in keys && rest[key] == m[key])
    && (forall i | 0 <= i < |parts| :: keys[i] in m && parts[i] == m[keys[i]])
    && |parts| + |rest.Keys| == |m.Keys|
  }

  lemma NothingListed<T>(m: map<string, T>)
    ensures Listed(m, m, [], [])
  {
  }

  lemma ListOne<T>(m: map<string, T>, rest: map<string, T>, keys: seq<string>, parts: seq<T>, key: string)
    requires Listed(m, rest, keys, parts) && key in rest
    ensures Listed(m, rest - {key}, keys + [key], parts + [rest[key]])
  {
    assert (rest - {key}).Keys == rest.Keys - {key};
    assert forall x :: x in keys + [key] <==> x in keys || x == key;
  }

  lemma AllListed<T>(m: map<string, T>, keys: seq<string>, parts: seq<T>)
    requires Listed(m, map[], keys, parts)
    ensures Distinct(keys) && |parts| == |keys| == |m.Keys| && forall key :: key in keys <==> key in m
    ensures forall i | 0 <= i < |parts| :: keys[i] in m && parts[i] == m[keys[i]]
    ensures forall key | key in m :: m[key] in parts
  {
    forall key | key in m
      ensures m[key] in parts
    {
      var i :| 0 <= i < |keys| && keys[i] == key;
      assert parts[i] == m[key];
    }
  }

  lemma KeysGrow(history: seq<KvOp>, a: KvOp)
    ensures Keys(history + [a]) == Keys(history) + {a.input.key}
  {
    assert a in history + [a];
    forall x
      ensures x in history + [a] <==> x in history || x == a
    {
    }
  }

  /** Each part on its own; the answer is the conjunction. */
  method CheckParts<S(!new), I(!new), O(!new)>(m: Model<S, I, O>, parts: seq<seq<Operation<I, O>>>) returns (ok: bool)
    requires EqualIsSound(m)
    ensures ok ==> forall i | 0 <= i < |parts| :: LinearizableOps(m, parts[i])
    ensures !ok ==> exists i :: 0 <= i < |parts| && !LinearizableStrictly(m, parts[i])
    ensures !ok ==> exists i :: 0 <= i < |parts| && !(NoTies(parts[i]) && LinearizableOps(m, parts[i]))
  {
    hide EqualIsSound, LinearizableOps, LinearizableStrictly, EntriesOf, NoTies, WellFormed, Linearizable, LinkedEntries.Represents,
         LinkedEntries.Linked, SortedByTime;
    ok := true;
    for i := 0 to |parts|
      invariant ok
      invariant forall j | 0 <= j < i :: LinearizableOps(m, parts[j])
    {
      var entries := MakeEntries(parts[i]);
      SameAnswer(m, entries, parts[i]);
      if LinearizableStrictly(m, parts[i]) {
        StrictAnswer(m, entries, parts[i]);
      }
      var root, nodes := LinkedEntries.MakeLinkedEntries(entries);
      ok := Checker.CheckSingle(m, root, nodes, entries);
      if !ok {
        return;
      }
    }
  }

  /** What the caller gets: an answer, or nothing ever. */
  datatype Outcome = Answer(ok: bool) | Waits

  /** A positive answer means that the whole history is linearizable for the
      whole store; a negative one that it is not when ties count as before, and
      that it is not at all unless for some key an operation returned exactly
      when one was called. Without operations there are no parts to wait for,
      and the loop that counts answers never ends. */
  method CheckKv(history: seq<KvOp>) returns (outcome: Outcome)
    ensures outcome.Waits? <==> history == []
    ensures outcome == Answer(true) ==> LinearizableOps(StoreModel(), history)
    ensures outcome == Answer(false) ==> !LinearizableStrictly(StoreModel(), history)
    ensures history != [] && (forall key | key in Keys(history) :: NoTies(Project(history, key))) ==>
              (outcome == Answer(true) <==> LinearizableOps(StoreModel(), history))
  {
    hide LinearizableOps, LinearizableStrictly, Project, NoTies;
    var parts, keys := Partition(history);
    NoKeys(history);
    if |parts| == 0 {
      return Waits;
    }
    KeyModelEqual();
    var ok := CheckParts(KeyModel(), parts);
    Locality(history);
    if LinearizableStrictly(StoreModel(), history) {
      forall i | 0 <= i < |parts|
        ensures LinearizableStrictly(KeyModel(), parts[i])
      {
        EachKeyStrictly(history, keys[i]);
      }
    }
    assert forall key | key in Keys(history) :: key in keys;
    assert forall i | 0 <= i < |keys| :: keys[i] in keys;
    assert (forall i | 0 <= i < |parts| :: LinearizableOps(KeyModel(), parts[i])) <==>
           forall key | key in Keys(history) :: LinearizableOps(KeyModel(), Project(history, key));
    return Answer(ok);
  }

  lemma NoKeys(history: seq<KvOp>)
    ensures |Keys(history)| == 0 <==> history == []
  {
    if history != [] {
      assert history[0].input.key in Keys(history);
    }
  }

  // ----- a return and a call at the same time

  const PUT: KvOp := Operation(KvInput(1, "k", "x"), 0, KvOutput(""), 5)
  const GET: KvOp := Operation(KvInput(0, "k", ""), 5, KvOutput(""), 6)

  /** Entries of `[PUT, GET]`, sorted by time, the return of the put first. */
  function ReturnFirst(): seq<Entry<KvInput, KvOutput>> {
    [Call(PUT.input, 0, 0), Return(PUT.output, 0, 5), Call(GET.input, 1, 5), Return(GET.output, 1, 6)]
  }

  /** A get that starts when the put returns may come first, but not when the
      sort puts its call behind that return. */
  lemma TieMayFail()
    ensures Arranges(ReturnFirst(), [PUT, GET]) && LinearizableOps(KeyModel(), [PUT, GET])
    ensures WellFormed(ReturnFirst()) && !Linearizable(KeyModel(), ReturnFirst())
  {
    hide WellFormed, Completes, Linearizes, SortedByTime;
    Arranged();
    ArrangedIsWellFormed(ReturnFirst(), [PUT, GET]);
    GetFirst();
    forall ids
      ensures !Completes(KeyModel(), ReturnFirst(), {}, KeyModel().init, ids)
    {
      PutFirst(ids);
    }
  }

  lemma Arranged()
    ensures Arranges(ReturnFirst(), [PUT, GET])
  {
    hide EntriesOf;
    var history, h := [PUT, GET], ReturnFirst();
    var e := EntriesOf(history);
    assert e[2 * 0] == h[0] && e[2 * 0 + 1] == h[1];
    assert e[2 * 1] == h[2] && e[2 * 1 + 1] == h[3];
    assert e == h;
  }

  lemma GetFirst()
    ensures LinearizableOps(KeyModel(), [PUT, GET])
  {
    var order := [GET, PUT];
    var ops := ToOps(order);
    assert ops[1..] == [Op(PUT.input, PUT.output)] && ops[1..][1..] == [];
    assert Linearizes(KeyModel(), [PUT, GET], order);
  }

  lemma PutFirst(ids: seq<nat>)
    requires WellFormed(ReturnFirst())
    ensures !Completes(KeyModel(), ReturnFirst(), {}, "", ids)
  {
    hide WellFormed, Accepts;
    var h := ReturnFirst();
    if Completes(KeyModel(), h, {}, "", ids) {
      CompletionIsPermutation(KeyModel(), h, ids);
      OnlyOrder(ids);
      ReadsOldValue();
    }
  }

  lemma OnlyOrder(ids: seq<nat>)
    requires WellFormed(ReturnFirst()) && IsPermutation(ids, 2) && Ids(ReturnFirst(), ids)
    requires RespectsRealTime(ReturnFirst(), ids)
    ensures Ops(ReturnFirst(), ids) == [Op(PUT.input, PUT.output), Op(GET.input, GET.output)]
  {
    var h := ReturnFirst();
    assert IsReturn(h, 0, 1) && IsCall(h, 1, 2) && IsCall(h, 0, 0) && IsReturn(h, 1, 3);
    assert CallPos(h, 0) == 0 && ReturnPos(h, 0) == 1 && CallPos(h, 1) == 2 && ReturnPos(h, 1) == 3;
    assert Precedes(h, 0, 1) && 0 in ids && 1 in ids;
  }

  lemma ReadsOldValue()
    ensures !Accepts(KeyModel(), "", [Op(PUT.input, PUT.output), Op(GET.input, GET.output)])
  {
    var ops := [Op(PUT.input, PUT.output), Op(GET.input, GET.output)];
    assert ops[1..] == [Op(GET.input, GET.output)];
  }
}
