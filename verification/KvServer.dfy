/** The replicated key/value server: the state it builds from the committed
    log, with snapshots installed under a label that lags behind them. */
module KvServer {
  import opened KvModel
  import opened CommandIds

  datatype OpType = Get | Put | Append

  datatype Command = Command(client: int32, number: int, optype: OpType, key: string, value: string) {
    predicate IsWrite() {
      optype != Get
    }
  }

  /** What comes out of the log: a command at its index, or a snapshot to install. */
  datatype ApplyMsg =
    | Committed(index: int, op: Command)
    | Snapshot(clientMaxRequestSeq: map<int32, int>, rsm: map<string, string>)

  datatype State = State(
    rsm: map<string, string>,
    clientMaxRequestSeq: map<int32, int>,
    resultMap: map<int64, string>,
    curCommitIndex: int)

  const INITIAL := State(map[], map[], map[], 0)

  /** The highest write number seen from a client; a missing row reads as 0. */
  function MaxSeq(seqs: map<int32, int>, client: int32): int {
    if client in seqs then seqs[client] else 0
  }

  // ----- what applying one command does

  function Write(rsm: map<string, string>, op: Command): map<string, string>
    requires op.IsWrite()
  {
    if op.optype == Put then rsm[op.key := op.value]
    else if op.key in rsm then rsm[op.key := rsm[op.key] + op.value]
    else rsm[op.key := op.value]
  }

  function ApplyOp(s: State, op: Command): State {
    if op.optype == Get then
      s.(resultMap := s.resultMap[CommID(op.client, op.number) := Lookup(s.rsm, op.key)])
    else if op.number <= MaxSeq(s.clientMaxRequestSeq, op.client) then s
    else
      s.(clientMaxRequestSeq := s.clientMaxRequestSeq[op.client := op.number], rsm := Write(s.rsm, op))
  }

  function ApplyOne(s: State, msg: ApplyMsg): State {
    match msg
    case Snapshot(seqs, rsm) => s.(clientMaxRequestSeq := seqs, rsm := rsm)
    case Committed(index, op) =>
      var s' := ApplyOp(s, op);
      if s'.curCommitIndex < index then s'.(curCommitIndex := index) else s'
  }

  function ApplyAll(s: State, msgs: seq<ApplyMsg>): State {
    if msgs == [] then s else ApplyOne(ApplyAll(s, msgs[..|msgs| - 1]), msgs[|msgs| - 1])
  }

  /** The index that waiting handlers compare with: the highest of what it was and
      of the commands read. */
  ghost predicate CommitIndexAfter(before: int, msgs: seq<ApplyMsg>, after: int) {
    && before <= after
    && (forall i | 0 <= i < |msgs| && msgs[i].Committed? :: msgs[i].index <= after)
    && (after == before || exists i :: 0 <= i < |msgs| && msgs[i].Committed? && msgs[i].index == after)
  }

  lemma NothingRead(index: int)
    ensures CommitIndexAfter(index, [], index)
  {
  }

  lemma OneMoreRead(before: int, msgs: seq<ApplyMsg>, mid: int, msg: ApplyMsg, after: int)
    requires CommitIndexAfter(before, msgs, mid)
    requires after == if msg.Committed? && mid < msg.index then msg.index else mid
    ensures CommitIndexAfter(before, msgs + [msg], after)
  {
    var all := msgs + [msg];
    assert all[|msgs|] == msg;
    if after == mid && mid != before {
      var i :| 0 <= i < |msgs| && msgs[i].Committed? && msgs[i].index == mid;
      assert all[i] == msgs[i];
    }
  }

  class KVServer {
    var rsm: map<string, string>
    var clientMaxRequestSeq: map<int32, int>
    var resultMap: map<int64, string>
    var curCommitIndex: int

    function Now(): State
      reads this
    {
      State(rsm, clientMaxRequestSeq, resultMap, curCommitIndex)
    }

    constructor ()
      ensures Now() == INITIAL
    {
      rsm, clientMaxRequestSeq, resultMap, curCommitIndex := map[], map[], map[], 0;
    }

    /** The part of the write handler that touches the table of clients. */
    method AddClient(client: int32)
      modifies this`clientMaxRequestSeq
      ensures clientMaxRequestSeq.Keys == old(clientMaxRequestSeq).Keys + {client}
      ensures forall c :: MaxSeq(clientMaxRequestSeq, c) == MaxSeq(old(clientMaxRequestSeq), c)
    {
      if client !in clientMaxRequestSeq {
        clientMaxRequestSeq := clientMaxRequestSeq[client := 0];
      }
    }

    /** One turn of the apply loop. */
    method Apply(msg: ApplyMsg)
      modifies this
      ensures Now() == ApplyOne(old(Now()), msg)
      ensures msg.Snapshot? ==>
                clientMaxRequestSeq == msg.clientMaxRequestSeq && rsm == msg.rsm && resultMap == old(resultMap)
      ensures curCommitIndex == if msg.Committed? && old(curCommitIndex) < msg.index then msg.index else old(curCommitIndex)
    {
      hide CommID;
      match msg {
        case Snapshot(seqs, snapshotRsm) =>
          clientMaxRequestSeq := seqs;
          rsm := snapshotRsm;
        case Committed(index, op) =>
          match op.optype {
            case Get =>
              var commID := CommID(op.client, op.number);
              resultMap := resultMap[commID := if op.key in rsm then rsm[op.key] else ""];
            case Put =>
              if !(op.number <= MaxSeq(clientMaxRequestSeq, op.client)) {
                clientMaxRequestSeq := clientMaxRequestSeq[op.client := op.number];
                rsm := rsm[op.key := op.value];
              }
            case Append =>
              if !(op.number <= MaxSeq(clientMaxRequestSeq, op.client)) {
                clientMaxRequestSeq := clientMaxRequestSeq[op.client := op.number];
                if op.key in rsm {
                  rsm := rsm[op.key := rsm[op.key] + op.value];
                } else {
                  rsm := rsm[op.key := op.value];
                }
              }
          }
          if curCommitIndex < index {
            curCommitIndex := index;
          }
      }
    }

    /** The apply loop, over the messages that arrive. */
    method MainProcess(applyCh: seq<ApplyMsg>)
      modifies this
      ensures Now() == ApplyAll(old(Now()), applyCh)
      ensures CommitIndexAfter(old(curCommitIndex), applyCh, curCommitIndex)
    {
      hide CommitIndexAfter;
      NothingRead(curCommitIndex);
      for i := 0 to |applyCh|
        invariant Now() == ApplyAll(old(Now()), applyCh[..i])
        invariant CommitIndexAfter(old(curCommitIndex), applyCh[..i], curCommitIndex)
      {
        ghost var index := curCommitIndex;
        Apply(applyCh[i]);
        assert applyCh[..i + 1] == applyCh[..i] + [applyCh[i]];
        OneMoreRead(old(curCommitIndex), applyCh[..i], index, applyCh[i], curCommitIndex);
        assert applyCh[..i + 1][..i] == applyCh[..i];
      }
      assert applyCh[..|applyCh|] == applyCh;
    }
  }

  // ----- a log of commands

  function ApplyLog(s: State, log: seq<Command>): State {
    if log == [] then s else ApplyOp(ApplyLog(s, log[..|log| - 1]), log[|log| - 1])
  }

  /** The commands of `log` delivered at the indices from `start` on. */
  function Deliver(log: seq<Command>, start: int): (msgs: seq<ApplyMsg>)
    ensures |msgs| == |log|
  {
    seq(|log|, i requires 0 <= i < |log| => Committed(start + i, log[i]))
  }

  /** Same store, same duplicate filter. */
  ghost predicate Agree(s: State, t: State) {
    s.rsm == t.rsm && forall c :: MaxSeq(s.clientMaxRequestSeq, c) == MaxSeq(t.clientMaxRequestSeq, c)
  }

  lemma {:induction false} DeliverIsApplyLog(s: State, log: seq<Command>, start: int)
    ensures var t := ApplyAll(s, Deliver(log, start));
            && t == ApplyLog(s, log).(curCommitIndex := t.curCommitIndex)
            && t.curCommitIndex ==
                 if log != [] && s.curCommitIndex < start + |log| - 1 then start + |log| - 1 else s.curCommitIndex
  {
    hide CommID, Write;
    if log != [] {
      var n := |log| - 1;
      DeliverIsApplyLog(s, log[..n], start);
      assert Deliver(log, start)[..n] == Deliver(log[..n], start);
      assert |Deliver(log, start)| == n + 1 && Deliver(log, start)[n] == Committed(start + n, log[n]);
    }
  }

  lemma {:induction false} ApplyConcat(s: State, a: seq<Command>, b: seq<Command>)
    ensures ApplyLog(s, a + b) == ApplyLog(ApplyLog(s, a), b)
  {
    hide ApplyOp;
    if b == [] {
      assert a + b == a;
    } else {
      var n := |b| - 1;
      ApplyConcat(s, a, b[..n]);
      assert (a + b)[..|a| + n] == a + b[..n];
    }
  }

  lemma {:induction false} ApplyAgree(s: State, t: State, log: seq<Command>)
    requires Agree(s, t)
    ensures Agree(ApplyLog(s, log), ApplyLog(t, log))
  {
    if log != [] {
      hide ApplyOp;
      var n := |log| - 1;
      ApplyAgree(s, t, log[..n]);
      ApplyOpAgree(ApplyLog(s, log[..n]), ApplyLog(t, log[..n]), log[n]);
    }
  }

  lemma ApplyOpAgree(s: State, t: State, op: Command)
    requires Agree(s, t)
    ensures Agree(ApplyOp(s, op), ApplyOp(t, op))
  {
    var s', t' := ApplyOp(s, op), ApplyOp(t, op);
    forall c
      ensures MaxSeq(s'.clientMaxRequestSeq, c) == MaxSeq(t'.clientMaxRequestSeq, c)
    {
      assert MaxSeq(s.clientMaxRequestSeq, c) == MaxSeq(t.clientMaxRequestSeq, c);
      assert MaxSeq(s.clientMaxRequestSeq, op.client) == MaxSeq(t.clientMaxRequestSeq, op.client);
    }
  }

  // ----- the overlap of a snapshot is absorbed

  /** Every write of `log` is recorded in the table of `s`. */
  ghost predicate Recorded(s: State, log: seq<Command>) {
    forall i | 0 <= i < |log| && log[i].IsWrite() :: log[i].number <= MaxSeq(s.clientMaxRequestSeq, log[i].client)
  }

  lemma {:induction false} ApplyRecords(s: State, log: seq<Command>)
    ensures Recorded(ApplyLog(s, log), log)
    ensures forall c :: MaxSeq(s.clientMaxRequestSeq, c) <= MaxSeq(ApplyLog(s, log).clientMaxRequestSeq, c)
  {
    if log != [] {
      ApplyRecords(s, log[..|log| - 1]);
    }
  }

  /** Replaying what is recorded changes neither store nor table. */
  lemma {:induction false} ReplayIsIdle(s: State, log: seq<Command>)
    requires Recorded(s, log)
    ensures Agree(ApplyLog(s, log), s)
  {
    if log != [] {
      ReplayIsIdle(s, log[..|log| - 1]);
    }
  }

  /** A snapshot of the state after `k` commands, labelled `j` no later than
      that: a server that installs it and replays from its label on ends like
      one that applied the whole log. Rows of 0 may have been added to the table. */
  lemma SnapshotOverlap(log: seq<Command>, j: nat, k: nat, server: State, seqs: map<int32, int>)
    requires j <= k <= |log|
    requires forall c :: MaxSeq(seqs, c) == MaxSeq(ApplyLog(INITIAL, log[..k]).clientMaxRequestSeq, c)
    ensures var installed := ApplyOne(server, Snapshot(seqs, ApplyLog(INITIAL, log[..k]).rsm));
            Agree(ApplyLog(installed, log[j..]), ApplyLog(INITIAL, log))
  {
    hide ApplyOp, ApplyLog;
    var taken := ApplyLog(INITIAL, log[..k]);
    var installed := ApplyOne(server, Snapshot(seqs, taken.rsm));
    var overlap := log[j..k];
    ApplyRecords(INITIAL, log[..k]);
    assert forall i | 0 <= i < |overlap| :: overlap[i] == log[..k][j + i];
    ReplayIsIdle(installed, overlap);
    ApplyConcat(installed, overlap, log[k..]);
    ApplyConcat(INITIAL, log[..k], log[k..]);
    assert log[j..] == overlap + log[k..] && log == log[..k] + log[k..];
    ApplyAgree(ApplyLog(installed, overlap), taken, log[k..]);
  }
}
