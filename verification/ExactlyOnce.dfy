/** What the server makes of a log with duplicates and retries: each write takes
    effect once, the run is one of the checker's model, and results are kept. */
module ExactlyOnce {
  import opened Histories
  import opened KvModel
  import opened Operations
  import opened CommandIds
  import opened KvServer

  // ----- each write takes effect once

  /** The write at `i` has a higher number than every earlier write of its client. */
  ghost predicate Fresh(log: seq<Command>, i: nat)
    requires i < |log|
  {
    && log[i].IsWrite() && 0 < log[i].number
    && forall j | 0 <= j < i && log[j].IsWrite() && log[j].client == log[i].client :: log[j].number < log[i].number
  }

  /** No earlier write has the client and number of the write at `i`. */
  ghost predicate First(log: seq<Command>, i: nat)
    requires i < |log|
  {
    && log[i].IsWrite()
    && forall j | 0 <= j < i && log[j].IsWrite() && log[j].client == log[i].client :: log[j].number != log[i].number
  }

  ghost function FreshWrites(log: seq<Command>, n: nat): (r: seq<Command>)
    requires n <= |log|
    ensures forall i | 0 <= i < |r| :: r[i].IsWrite()
  {
    if n == 0 then [] else FreshWrites(log, n - 1) + if Fresh(log, n - 1) then [log[n - 1]] else []
  }

  ghost function FirstWrites(log: seq<Command>, n: nat): (r: seq<Command>)
    requires n <= |log|
    ensures forall i | 0 <= i < |r| :: r[i].IsWrite()
  {
    if n == 0 then [] else FirstWrites(log, n - 1) + if First(log, n - 1) then [log[n - 1]] else []
  }

  /** Plain writes, no filter. */
  ghost function WriteAll(rsm: map<string, string>, writes: seq<Command>): map<string, string>
    requires forall i | 0 <= i < |writes| :: writes[i].IsWrite()
  {
    if writes == [] then rsm else Write(WriteAll(rsm, writes[..|writes| - 1]), writes[|writes| - 1])
  }

  /** The table holds the highest number of each client's writes so far. */
  ghost predicate IsMax(log: seq<Command>, n: nat, client: int32, max: int)
    requires n <= |log|
  {
    && 0 <= max
    && (forall j | 0 <= j < n && log[j].IsWrite() && log[j].client == client :: log[j].number <= max)
    && (max == 0 || exists j :: 0 <= j < n && log[j].IsWrite() && log[j].client == client && log[j].number == max)
  }

  lemma {:induction false} TableIsMax(log: seq<Command>, n: nat, client: int32)
    requires n <= |log|
    ensures IsMax(log, n, client, MaxSeq(ApplyLog(INITIAL, log[..n]).clientMaxRequestSeq, client))
  {
    if n > 0 {
      TableIsMax(log, n - 1, client);
      assert log[..n][..n - 1] == log[..n - 1];
      var s := ApplyLog(INITIAL, log[..n - 1]);
      assert ApplyLog(INITIAL, log[..n]) == ApplyOp(s, log[n - 1]);
    }
  }

  /** Applying any log, with duplicates and retries anywhere, leaves the store
      that plain writing leaves of the writes whose number is the highest so far. */
  lemma {:induction false} OnlyFreshWrites(log: seq<Command>, n: nat)
    requires n <= |log|
    ensures ApplyLog(INITIAL, log[..n]).rsm == WriteAll(map[], FreshWrites(log, n))
  {
    hide Fresh, IsMax, Write, CommID, MaxSeq;
    if n > 0 {
      OnlyFreshWrites(log, n - 1);
      assert log[..n][..n - 1] == log[..n - 1];
      var s := ApplyLog(INITIAL, log[..n - 1]);
      PassesFilter(log, n - 1);
      if Fresh(log, n - 1) {
        var w := FreshWrites(log, n - 1);
        assert FreshWrites(log, n)[..|w|] == w;
      } else {
        assert FreshWrites(log, n) == FreshWrites(log, n - 1);
      }
    }
  }

  /** What gets past the filter are the fresh writes. */
  lemma PassesFilter(log: seq<Command>, i: nat)
    requires i < |log|
    ensures var max := MaxSeq(ApplyLog(INITIAL, log[..i]).clientMaxRequestSeq, log[i].client);
            Fresh(log, i) <==> log[i].IsWrite() && max < log[i].number
  {
    TableIsMax(log, i, log[i].client);
  }

  /** Each client's writes appear for the first time in the order of their numbers. */
  ghost predicate InIssueOrder(log: seq<Command>) {
    && (forall i: nat | i < |log| && First(log, i) :: 0 < log[i].number)
    && (forall i: nat, j: nat | i < j < |log| && First(log, i) && First(log, j) && log[i].client == log[j].client ::
          log[i].number < log[j].number)
  }

  /** The first write with this client and number. */
  lemma {:induction false} FirstOf(log: seq<Command>, i: nat) returns (f: nat)
    requires i < |log| && log[i].IsWrite()
    ensures f <= i && First(log, f) && log[f].client == log[i].client && log[f].number == log[i].number
  {
    f := i;
    if !First(log, i) {
      var j: nat :| j < i && log[j].IsWrite() && log[j].client == log[i].client && log[j].number == log[i].number;
      f := FirstOf(log, j);
    }
  }

  /** Every write takes effect exactly once, at its first appearance, if and only
      if first appearances come in issue order. */
  lemma ExactlyOnce(log: seq<Command>)
    ensures InIssueOrder(log) <==> forall i: nat | i < |log| :: Fresh(log, i) <==> First(log, i)
  {
    if InIssueOrder(log) {
      forall i: nat | i < |log|
        ensures Fresh(log, i) <==> First(log, i)
      {
        if First(log, i) {
          forall j: nat | j < i && log[j].IsWrite() && log[j].client == log[i].client
            ensures log[j].number < log[i].number
          {
            var f := FirstOf(log, j);
          }
        }
      }
    }
  }

  /** A write that reaches the log after a later one of its client is lost. */
  lemma LateWriteIsLost()
    ensures var log := [Command(1, 2, Put, "a", "x"), Command(1, 1, Put, "b", "y")];
            First(log, 1) && !Fresh(log, 1) && ApplyLog(INITIAL, log).rsm == map["a" := "x"]
  {
    var log := [Command(1, 2, Put, "a", "x"), Command(1, 1, Put, "b", "y")];
    assert log[..1] == [log[0]] && [log[0]][..0] == [];
    assert ApplyLog(INITIAL, [log[0]]) == ApplyOp(INITIAL, log[0]);
  }

  lemma {:induction false} InOrderWrites(log: seq<Command>, n: nat)
    requires n <= |log| && InIssueOrder(log)
    ensures FreshWrites(log, n) == FirstWrites(log, n)
  {
    hide InIssueOrder, Fresh, First;
    ExactlyOnce(log);
    if n > 0 {
      InOrderWrites(log, n - 1);
    }
  }

  /** In issue order, the store is what plain writing leaves of the first
      appearance of each write. */
  lemma ExactlyOnceStore(log: seq<Command>)
    requires InIssueOrder(log)
    ensures ApplyLog(INITIAL, log).rsm == WriteAll(map[], FirstWrites(log, |log|))
  {
    assert log[..|log|] == log;
    OnlyFreshWrites(log, |log|);
    InOrderWrites(log, |log|);
  }

  // ----- the apply loop refines the checker's model

  /** The command at `i` as the checker sees it, run at time `2 * i`: a get
      with the value it recorded, or a write. */
  ghost function AsOperation(log: seq<Command>, i: nat): KvOp
    requires i < |log|
  {
    var op := log[i];
    var input := KvInput(match op.optype case Get => 0 case Put => 1 case Append => 2, op.key, op.value);
    var output := KvOutput(if op.IsWrite() then "" else Lookup(ApplyLog(INITIAL, log[..i]).rsm, op.key));
    Operation(input, 2 * i, output, 2 * i + 1)
  }

  /** The gets and the writes that took effect. */
  ghost function Effective(log: seq<Command>, n: nat): seq<KvOp>
    requires n <= |log|
  {
    if n == 0 then [] else
    Effective(log, n - 1) + if !log[n - 1].IsWrite() || Fresh(log, n - 1) then [AsOperation(log, n - 1)] else []
  }

  /** Every step is accepted by the model of the whole store. */
  lemma {:induction false} RunIsAccepted(log: seq<Command>, n: nat)
    requires n <= |log|
    ensures Accepts(StoreModel(), map[], ToOps(Effective(log, n)))
    ensures Final(StoreModel(), map[], ToOps(Effective(log, n))) == ApplyLog(INITIAL, log[..n]).rsm
  {
    hide Fresh, MaxSeq, ApplyOp, Write, StoreStep, Accepts;
    if n == 0 {
      NothingDone(log);
    } else {
      RunIsAccepted(log, n - 1);
      assert log[..n][..n - 1] == log[..n - 1];
      PassesFilter(log, n - 1);
      var before := Effective(log, n - 1);
      if !log[n - 1].IsWrite() || Fresh(log, n - 1) {
        var a := AsOperation(log, n - 1);
        assert ToOps(before + [a]) == ToOps(before) + [Op(a.input, a.output)];
        RunOfConcat(StoreModel(), map[], ToOps(before), [Op(a.input, a.output)]);
        OneStep(ApplyLog(INITIAL, log[..n - 1]), log[n - 1], a);
      } else {
        assert Effective(log, n) == before;
        RepeatIsIdle(ApplyLog(INITIAL, log[..n - 1]), log[n - 1]);
      }
    }
  }

  lemma RepeatIsIdle(s: State, op: Command)
    requires op.IsWrite() && op.number <= MaxSeq(s.clientMaxRequestSeq, op.client)
    ensures ApplyOp(s, op) == s
  {
  }

  lemma NothingDone(log: seq<Command>)
    ensures ToOps(Effective(log, 0)) == [] && Accepts(StoreModel(), map[], [])
  {
  }

  lemma OneStep(s: State, op: Command, a: KvOp)
    requires a.input.op == (match op.optype case Get => 0 case Put => 1 case Append => 2)
    requires a.input.key == op.key && a.input.value == op.value
    requires !op.IsWrite() ==> a.output.value == Lookup(s.rsm, op.key)
    requires op.IsWrite() ==> MaxSeq(s.clientMaxRequestSeq, op.client) < op.number
    ensures Accepts(StoreModel(), s.rsm, [Op(a.input, a.output)])
    ensures Final(StoreModel(), s.rsm, [Op(a.input, a.output)]) == ApplyOp(s, op).rsm
  {
    var ops := [Op(a.input, a.output)];
    assert ops[1..] == [] && "" + op.value == op.value;
    assert StoreStep(s.rsm, a.input, a.output) == (true, ApplyOp(s, op).rsm);
  }

  /** For every log and key, the gets and effective writes of that key are a run
      that the checker's model of a key accepts step by step. */
  lemma RunOfKeyIsAccepted(log: seq<Command>, key: string)
    ensures Accepts(KeyModel(), "", ToOps(Project(Effective(log, |log|), key)))
  {
    RunIsAccepted(log, |log|);
    StoreRunByKey(map[], Effective(log, |log|));
    assert Lookup(map[], key) == "";
  }

  // ----- numbering on the client's side

  /** A clerk draws one number for each request, gets included. */
  class Clerk {
    const id: int32
    var commSeq: int
    ghost var issued: seq<int>

    ghost predicate Valid()
      reads this
    {
      commSeq == |issued| + 1 && forall i | 0 <= i < |issued| :: issued[i] == i + 1
    }

    constructor (id: int32)
      ensures Valid() && issued == []
    {
      this.id, commSeq, issued := id, 1, [];
    }

    /** Positive, and above every number drawn before. */
    method NextSeq() returns (number: int)
      requires Valid()
      modifies this
      ensures Valid() && issued == old(issued) + [number]
      ensures 0 < number && forall i | 0 <= i < |old(issued)| :: old(issued)[i] < number
    {
      number := commSeq;
      commSeq := commSeq + 1;
      issued := issued + [number];
    }
  }

  // ----- recorded results are kept apart

  /** The last get of a client and number is what the result map answers. */
  lemma {:induction false} ResultIsKept(log: seq<Command>, n: nat, i: nat)
    requires i < n <= |log| && log[i].optype == Get
    requires forall j | 0 <= j < n && log[j].optype == Get :: InRange(log[j].number)
    requires forall j | i < j < n && log[j].optype == Get :: (log[j].client, log[j].number) != (log[i].client, log[i].number)
    ensures var results, id := ApplyLog(INITIAL, log[..n]).resultMap, CommID(log[i].client, log[i].number);
            id in results && results[id] == AsOperation(log, i).output.value
  {
    assert log[..n][..n - 1] == log[..n - 1];
    if i < n - 1 {
      ResultIsKept(log, n - 1, i);
      if log[n - 1].optype == Get && CommID(log[n - 1].client, log[n - 1].number) == CommID(log[i].client, log[i].number) {
        CommIDInjective(log[n - 1].client, log[n - 1].number, log[i].client, log[i].number);
      }
    }
  }
}
