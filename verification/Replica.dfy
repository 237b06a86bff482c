/** A whole replica: a Raft node feeding its key/value server, with snapshots,
    installs and crashes in any order. */
module Replica {
  import opened RaftNode
  import opened CommandIds
  import Histories
  import KvModel
  import Operations
  import K = KvServer
  import ExactlyOnce

  /** What the server puts into a snapshot. */
  datatype Data = Data(clientMaxRequestSeq: map<int32, int>, rsm: map<string, string>)

  type Message = ApplyMsg<K.Command, Data>
  type Replica = Node<K.Command, Data>

  // ----- the server behind the node

  /** A message as the server's loop sees it. */
  function Received(msg: Message): K.ApplyMsg
    requires msg.Committed? ==> msg.command.Some?
  {
    match msg
    case Committed(index, command) => K.Committed(index, command.value)
    case Installed(snapshot) => K.Snapshot(snapshot.data.clientMaxRequestSeq, snapshot.data.rsm)
  }

  ghost predicate Readable(msgs: seq<Message>) {
    forall i | 0 <= i < |msgs| && msgs[i].Committed? :: msgs[i].command.Some?
  }

  /** The server once it has read `msgs`. */
  ghost function Server(msgs: seq<Message>): K.State
    requires Readable(msgs)
  {
    K.ApplyAll(K.INITIAL, seq(|msgs|, i requires 0 <= i < |msgs| => Received(msgs[i])))
  }

  lemma ReadOne(msgs: seq<Message>, n: nat)
    requires Readable(msgs) && n < |msgs|
    ensures Server(msgs[..n + 1]) == K.ApplyOne(Server(msgs[..n]), Received(msgs[n]))
  {
    var all := seq(n + 1, i requires 0 <= i < n + 1 => Received(msgs[..n + 1][i]));
    assert all[..n] == seq(n, i requires 0 <= i < n => Received(msgs[..n][i]));
  }

  function Save(server: K.State): Data {
    Data(server.clientMaxRequestSeq, server.rsm)
  }

  // ----- what the cluster committed

  /** Store and duplicate filter are those of the first `k` committed commands. */
  ghost predicate AtPrefix(data: Data, committed: seq<K.Command>, k: int) {
    && 0 <= k <= |committed|
    && K.Agree(K.INITIAL.(rsm := data.rsm, clientMaxRequestSeq := data.clientMaxRequestSeq),
               K.ApplyLog(K.INITIAL, committed[..k]))
  }

  /** A snapshot may hold more than its label says. */
  ghost predicate Covers(snapshot: Snapshot<Data>, committed: seq<K.Command>) {
    exists k :: snapshot.lastIndex <= k && AtPrefix(snapshot.data, committed, k)
  }

  ghost predicate Honest(msg: Message, committed: seq<K.Command>) {
    match msg
    case Committed(index, command) => 1 <= index <= |committed| && command == Some(committed[index - 1])
    case Installed(snapshot) => Covers(snapshot, committed)
  }

  ghost predicate AllHonest(msgs: seq<Message>, committed: seq<K.Command>) {
    forall i | 0 <= i < |msgs| :: Honest(msgs[i], committed)
  }

  // ----- the server's position

  /** The log position after `n` messages that start at `from`. */
  ghost function At(from: int, msgs: seq<Message>, n: nat): int
    requires n <= |msgs|
  {
    if n == 0 then from else Position(msgs[n - 1])
  }

  lemma {:induction false} PositionsGrow(from: int, msgs: seq<Message>, to: int, n: nat)
    requires Consecutive(msgs, from, to) && n <= |msgs|
    ensures from <= At(from, msgs, n) <= to && At(from, msgs, |msgs|) == to
    ensures n < |msgs| ==> Follows(At(from, msgs, n), msgs[n])
    decreases |msgs|
  {
    if msgs != [] {
      PositionsGrow(Position(msgs[0]), msgs[1..], to, if n == 0 then 0 else n - 1);
    }
  }

  /** One message takes the server from one committed prefix to another, never
      behind the position of the message. */
  lemma ReadFollows(server: K.State, msg: Message, committed: seq<K.Command>, at: int, k: int) returns (k': int)
    requires AtPrefix(Save(server), committed, k) && at <= k
    requires Honest(msg, committed) && Follows(at, msg)
    ensures Position(msg) <= k' && AtPrefix(Save(K.ApplyOne(server, Received(msg))), committed, k')
    ensures match msg
            case Committed(index, _) => k' == if index < k then k else index
            case Installed(snapshot) => AtPrefix(snapshot.data, committed, k')
  {
    match msg
    case Installed(snapshot) =>
      k' :| snapshot.lastIndex <= k' && AtPrefix(snapshot.data, committed, k');
    case Committed(index, command) =>
      CommandFollows(server, command.value, committed, at, k);
      k' := if at < k then k else k + 1;
  }

  lemma CommandFollows(server: K.State, op: K.Command, committed: seq<K.Command>, at: int, k: int)
    requires AtPrefix(Save(server), committed, k) && 0 <= at <= k && at < |committed| && op == committed[at]
    ensures AtPrefix(Save(K.ApplyOp(server, op)), committed, if at < k then k else k + 1)
  {
    hide K.ApplyOp;
    var prefix := K.ApplyLog(K.INITIAL, committed[..k]);
    if at < k {
      K.ApplyRecords(K.INITIAL, committed[..k]);
      assert committed[..k][at] == op;
      assert K.MaxSeq(server.clientMaxRequestSeq, op.client) == K.MaxSeq(prefix.clientMaxRequestSeq, op.client);
      Recorded(server, op);
    } else {
      assert committed[..k + 1][..k] == committed[..k];
      K.ApplyOpAgree(server, prefix, op);
    }
  }

  lemma Recorded(server: K.State, op: K.Command)
    requires op.IsWrite() ==> op.number <= K.MaxSeq(server.clientMaxRequestSeq, op.client)
    ensures Save(K.ApplyOp(server, op)) == Save(server)
  {
  }

  /** The prefix ends at the server's position, or where a snapshot it installed ends. */
  ghost predicate Reached(msgs: seq<Message>, committed: seq<K.Command>, n: nat, k: int)
    requires n <= |msgs|
  {
    || k == At(0, msgs, n)
    || (At(0, msgs, n) < k && exists i ::
          0 <= i < n && msgs[i].Installed? && AtPrefix(msgs[i].snapshot.data, committed, k))
  }

  /** After any number of messages the server holds the committed prefix that
      ends at its position, or a longer one that came with a snapshot. */
  lemma {:induction false} ServerFollows(msgs: seq<Message>, committed: seq<K.Command>, to: int, n: nat)
    returns (k: int)
    requires Consecutive(msgs, 0, to) && AllHonest(msgs, committed) && Readable(msgs) && n <= |msgs|
    ensures Reached(msgs, committed, n, k) && AtPrefix(Save(Server(msgs[..n])), committed, k)
  {
    hide K.ApplyOp, Consecutive, AtPrefix, Honest, K.ApplyLog;
    PositionsGrow(0, msgs, to, n);
    if n == 0 {
      k := 0;
      Nothing(committed);
    } else {
      k := ServerFollows(msgs, committed, to, n - 1);
      PositionsGrow(0, msgs, to, n - 1);
      ReadOne(msgs, n - 1);
      var k0 := k;
      k := ReadFollows(Server(msgs[..n - 1]), msgs[n - 1], committed, At(0, msgs, n - 1), k0);
      if k != At(0, msgs, n) && msgs[n - 1].Committed? {
        var i :| 0 <= i < n - 1 && msgs[i].Installed? && AtPrefix(msgs[i].snapshot.data, committed, k0);
      }
    }
  }

  lemma Nothing(committed: seq<K.Command>)
    ensures AtPrefix(Save(Server([])), committed, 0)
  {
    assert committed[..0] == [];
  }

  // ----- every run of a replica, crashes included

  datatype Incident =
    | Handles(event: Event<K.Command, Data>)
    | Snapshots(trigger: nat, read: nat, clientMaxRequestSeq: map<int32, int>)
    | Crash

  /** A snapshot is triggered by one command and encoded later, when more may
      have been read and clients may have been added to the table; a crash
      happens while the disk holds the node's log. */
  ghost predicate Possible(s: Replica, incident: Incident, committed: seq<K.Command>)
    requires s.Inv() && Readable(s.applyCh)
  {
    match incident
    case Handles(event) =>
      && !event.TakeSnapshots? && Allowed(s, event)
      && (event.InstallSnapshot? ==> Covers(event.snapshot, committed))
    case Snapshots(trigger, read, seqs) =>
      && trigger < read <= |s.applyCh| && s.applyCh[trigger].Committed?
      && forall c :: K.MaxSeq(seqs, c) == K.MaxSeq(Server(s.applyCh[..read]).clientMaxRequestSeq, c)
    case Crash => Saved(s)
  }

  /** Nothing the node sends contradicts what the cluster committed. */
  ghost predicate Safe(s: Replica, committed: seq<K.Command>) {
    forall i | 0 <= i < |s.applyCh| && s.applyCh[i].Committed? :: Honest(s.applyCh[i], committed)
  }

  ghost predicate Inv(s: Replica, committed: seq<K.Command>) {
    && s.Inv()
    && Consecutive(s.applyCh, 0, s.commitIndex)
    && AllHonest(s.applyCh, committed) && Readable(s.applyCh)
    && (s.disk.snapshot.Some? ==> Covers(s.disk.snapshot.value, committed))
  }

  ghost function Next(s: Replica, incident: Incident, committed: seq<K.Command>): Replica
    requires Inv(s, committed) && Possible(s, incident, committed)
  {
    match incident
    case Handles(event) => Step(s, event)
    case Snapshots(trigger, read, seqs) =>
      PositionsGrow(0, s.applyCh, s.commitIndex, trigger + 1);
      TakeSnapshotStep(s, Data(seqs, Server(s.applyCh[..read]).rsm), s.applyCh[trigger].index)
    case Crash => Restart(s.me, s.disk)
  }

  lemma NextKeepsInv(s: Replica, incident: Incident, committed: seq<K.Command>)
    requires Inv(s, committed) && Possible(s, incident, committed)
    requires Safe(Next(s, incident, committed), committed)
    ensures Inv(Next(s, incident, committed), committed)
  {
    hide Step, Proceeds, TakeSnapshotStep, Restart, Consecutive, Honest, Covers, Saved;
    match incident
    case Handles(event) => HandlesKeepsInv(s, event, committed);
    case Snapshots(trigger, read, seqs) => SnapshotsKeepsInv(s, trigger, read, seqs, committed);
    case Crash => CrashKeepsInv(s, committed);
  }

  lemma HandlesKeepsInv(s: Replica, event: Event<K.Command, Data>, committed: seq<K.Command>)
    requires Inv(s, committed) && Possible(s, Handles(event), committed) && Safe(Step(s, event), committed)
    ensures Inv(Step(s, event), committed)
  {
    hide AtPrefix, Consecutive, Covers;
    var s' := Step(s, event);
    if !event.InstallSnapshot? {
      StepSends(s, event);
    }
    StepProceeds(s, event);
    ConsecutiveConcat(s.applyCh, s'.applyCh[|s.applyCh|..], 0, s.commitIndex, s'.commitIndex);
    assert s'.applyCh == s.applyCh + s'.applyCh[|s.applyCh|..];
  }

  /** From `s` to `s'` only commands are sent, and the snapshot on the disk stays. */
  ghost predicate SendsCommands(s: Replica, s': Replica) {
    && s'.disk.snapshot == s.disk.snapshot
    && |s.applyCh| <= |s'.applyCh|
    && forall i | |s.applyCh| <= i < |s'.applyCh| :: s'.applyCh[i].Committed?
  }

  lemma CommitSends(s: Replica, to: int)
    requires s.Inv() && s.commitIndex <= to <= s.LastLogIndex()
    ensures SendsCommands(s, CommitTo(s, to))
  {
    hide Messages;
    MessagesLogged(s, s.commitIndex + 1, to + 1);
  }

  lemma AppendSends(s: Replica, args: AppendArgs<K.Command>)
    requires s.Inv()
    ensures SendsCommands(s, AppendStep(s, args))
  {
    hide Messages, CommitTo, Cut, Overwrite, SendsCommands;
    SendsNothing(s, AppendStep(s, args));
    if s.currentTerm <= args.term {
      var s1 := AdoptTerm(s, args.term, args.leaderID);
      if Matches(s1, args.prevLogIndex, args.prevLogTerm) && s1.commitIndex <= args.prevLogIndex {
        CommitSends(s1, NewCommit(s1, args));
        SendsSame(s1, CommitTo(s1, NewCommit(s1, args)), s, AppendStep(s, args));
      }
    }
  }

  lemma SendsNothing(s: Replica, s': Replica)
    ensures s'.disk.snapshot == s.disk.snapshot && s'.applyCh == s.applyCh ==> SendsCommands(s, s')
  {
  }

  lemma SendsSame(s1: Replica, s2: Replica, s: Replica, s': Replica)
    requires SendsCommands(s1, s2)
    ensures && s.disk.snapshot == s1.disk.snapshot && s.applyCh == s1.applyCh
            && s'.disk.snapshot == s2.disk.snapshot && s'.applyCh == s2.applyCh
            ==> SendsCommands(s, s')
  {
  }

  /** Only an installed snapshot is sent as one or put on the disk. */
  lemma StepSends(s: Replica, event: Event<K.Command, Data>)
    requires s.Inv() && Allowed(s, event) && !event.TakeSnapshots? && !event.InstallSnapshot?
    ensures SendsCommands(s, Step(s, event))
  {
    hide CommitTo, AppendStep;
    match event
    case AppendEntry(args) => AppendSends(s, args);
    case LeaderCommit(to) =>
      if s.commitIndex < to {
        CommitSends(s, if to <= s.LastLogIndex() then to else s.LastLogIndex());
      }
    case _ =>
  }

  lemma SnapshotsKeepsInv(s: Replica, trigger: nat, read: nat, seqs: map<int32, int>, committed: seq<K.Command>)
    requires Inv(s, committed) && Possible(s, Snapshots(trigger, read, seqs), committed)
    ensures Inv(Next(s, Snapshots(trigger, read, seqs), committed), committed)
  {
    hide AtPrefix, Consecutive, Honest, Server, Covers, TakeSnapshotStep;
    var k := ServerFollows(s.applyCh, committed, s.commitIndex, read);
    PositionsOrdered(s.applyCh, s.commitIndex, trigger + 1, read);
    PositionsGrow(0, s.applyCh, s.commitIndex, trigger + 1);
    var data := Data(seqs, Server(s.applyCh[..read]).rsm);
    SameData(Save(Server(s.applyCh[..read])), data, committed, k);
    SavingKeepsInv(s, data, s.applyCh[trigger].index, committed, k);
  }

  lemma SavingKeepsInv(s: Replica, data: Data, index: int, committed: seq<K.Command>, k: int)
    requires Inv(s, committed) && index <= s.commitIndex && index <= k && AtPrefix(data, committed, k)
    ensures Inv(TakeSnapshotStep(s, data, index), committed)
  {
    hide AtPrefix, Consecutive, Honest;
    StepProceeds(s, TakeSnapshots(data, index));
  }

  lemma SameData(a: Data, b: Data, committed: seq<K.Command>, k: int)
    requires a.rsm == b.rsm && forall c :: K.MaxSeq(a.clientMaxRequestSeq, c) == K.MaxSeq(b.clientMaxRequestSeq, c)
    requires AtPrefix(a, committed, k)
    ensures AtPrefix(b, committed, k)
  {
    hide K.ApplyLog, K.MaxSeq;
  }

  lemma {:induction false} PositionsOrdered(msgs: seq<Message>, to: int, m: nat, n: nat)
    requires Consecutive(msgs, 0, to) && 0 < m <= n <= |msgs|
    ensures Position(msgs[m - 1]) <= Position(msgs[n - 1])
    decreases n
  {
    if m < n {
      PositionsOrdered(msgs, to, m, n - 1);
      PositionsGrow(0, msgs, to, n - 1);
    }
  }

  lemma CrashKeepsInv(s: Replica, committed: seq<K.Command>)
    requires Inv(s, committed) && Saved(s)
    ensures Inv(Restart(s.me, s.disk), committed)
  {
    hide AtPrefix, Covers;
    RestartOfSaved(s);
    var r := Restart(s.me, s.disk);
    if s.disk.snapshot.Some? {
      assert r.applyCh == [Installed(s.disk.snapshot.value)] && r.applyCh[1..] == [];
      assert Consecutive(r.applyCh, 0, r.commitIndex);
      assert Honest(r.applyCh[0], committed);
    } else {
      assert r.applyCh == [];
    }
  }

  /** Unless a snapshot is installed, a crash stays possible at any moment. */
  lemma NextIsSaved(s: Replica, incident: Incident, committed: seq<K.Command>)
    requires Inv(s, committed) && Possible(s, incident, committed) && Saved(s)
    requires incident.Handles? ==> !incident.event.InstallSnapshot?
    ensures Saved(Next(s, incident, committed))
  {
    hide AppendStep, AtPrefix, Server, Consecutive, AllHonest, Covers;
    match incident
    case Handles(event) => StepIsSaved(s, event);
    case Snapshots(trigger, read, seqs) =>
      PositionsGrow(0, s.applyCh, s.commitIndex, trigger + 1);
      StepIsSaved(s, TakeSnapshots(Data(seqs, Server(s.applyCh[..read]).rsm), s.applyCh[trigger].index));
    case Crash =>
  }

  ghost predicate IsRunOf(s: Replica, incidents: seq<Incident>, committed: seq<K.Command>)
    requires Inv(s, committed)
    decreases |incidents|
  {
    incidents == [] ||
    (Possible(s, incidents[0], committed) &&
     var s' := Next(s, incidents[0], committed);
     Safe(s', committed) &&
     (NextKeepsInv(s, incidents[0], committed);
      IsRunOf(s', incidents[1..], committed)))
  }

  ghost function AfterAll(s: Replica, incidents: seq<Incident>, committed: seq<K.Command>): (s': Replica)
    requires Inv(s, committed) && IsRunOf(s, incidents, committed)
    ensures Inv(s', committed)
    decreases |incidents|
  {
    if incidents == [] then s else
      NextKeepsInv(s, incidents[0], committed);
      AfterAll(Next(s, incidents[0], committed), incidents[1..], committed)
  }

  /** Whatever happens to a replica, at every moment its server, having read any
      part of what the node sent in this life, holds the store and the duplicate
      filter of a prefix of the committed commands: the one it read, or a longer
      one that came with a snapshot. */
  lemma ReplicaFollowsLog(me: int, incidents: seq<Incident>, committed: seq<K.Command>, read: nat)
    requires IsRunOf(Fresh(me), incidents, committed)
    requires read <= |AfterAll(Fresh(me), incidents, committed).applyCh|
    ensures var s := AfterAll(Fresh(me), incidents, committed);
            var msgs := s.applyCh;
            && Readable(msgs) && At(0, msgs, |msgs|) == s.commitIndex
            && exists k :: Reached(msgs, committed, read, k) && AtPrefix(Save(Server(msgs[..read])), committed, k)
  {
    var s := AfterAll(Fresh(me), incidents, committed);
    hide *;
    InvMeans(s, committed);
    PositionsGrow(0, s.applyCh, s.commitIndex, read);
    var k := ServerFollows(s.applyCh, committed, s.commitIndex, read);
  }

  lemma InvMeans(s: Replica, committed: seq<K.Command>)
    requires Inv(s, committed)
    ensures Consecutive(s.applyCh, 0, s.commitIndex) && AllHonest(s.applyCh, committed) && Readable(s.applyCh)
  {
  }

  /** So its store is what the checker's model of the store reaches on the gets
      and effective writes of such a prefix, run one after the other. */
  lemma StoreIsSequential(server: K.State, committed: seq<K.Command>, k: nat)
    requires AtPrefix(Save(server), committed, k)
    ensures var ops := Operations.ToOps(ExactlyOnce.Effective(committed, k));
            && Histories.Accepts(KvModel.StoreModel(), map[], ops)
            && server.rsm == Histories.Final(KvModel.StoreModel(), map[], ops)
  {
    hide K.ApplyLog, Histories.Accepts, Histories.Final, ExactlyOnce.Effective;
    ExactlyOnce.RunIsAccepted(committed, k);
  }

  // ----- a node that installs nothing and does not crash

  ghost function Commands(msgs: seq<Message>): (commands: seq<K.Command>)
    requires Readable(msgs) && forall i | 0 <= i < |msgs| :: msgs[i].Committed?
    ensures |commands| == |msgs|
  {
    seq(|msgs|, i requires 0 <= i < |msgs| => msgs[i].command.value)
  }

  /** Every entry behind the boundary and every message holds a command. */
  ghost predicate Plain(s: Replica) {
    && (forall i | 1 <= i < |s.log| :: s.log[i].command.Some?)
    && forall i | 0 <= i < |s.applyCh| :: s.applyCh[i].Committed? && s.applyCh[i].command.Some?
  }

  ghost predicate Ordinary(event: Event<K.Command, Data>) {
    && !event.InstallSnapshot?
    && (event.AppendEntry? ==> forall i | 0 <= i < |event.args.entries| :: event.args.entries[i].command.Some?)
  }

  lemma CommitIsPlain(s: Replica, to: int)
    requires s.Inv() && s.commitIndex <= to <= s.LastLogIndex() && Plain(s)
    ensures Plain(CommitTo(s, to))
  {
    hide Messages;
    MessagesLogged(s, s.commitIndex + 1, to + 1);
    var s' := CommitTo(s, to);
    forall i | |s.applyCh| <= i < |s'.applyCh|
      ensures s'.applyCh[i].Committed? && s'.applyCh[i].command.Some?
    {
      var k := i - |s.applyCh|;
      assert s'.applyCh[i] == Messages(s, s.commitIndex + 1, to + 1)[k];
    }
  }

  lemma WriteIsPlain(s: Replica, args: AppendArgs<K.Command>)
    requires s.lastIndexInSnapshot <= args.prevLogIndex <= s.LastLogIndex() && Plain(s)
    requires Ordinary(AppendEntry(args))
    ensures Plain(WriteEntries(s, args))
  {
  }

  lemma StepIsPlain(s: Replica, event: Event<K.Command, Data>)
    requires s.Inv() && Allowed(s, event) && Plain(s) && Ordinary(event)
    ensures Plain(Step(s, event))
  {
    hide CommitTo, WriteEntries;
    match event
    case AppendEntry(args) =>
      if s.currentTerm <= args.term {
        var s1 := AdoptTerm(s, args.term, args.leaderID);
        if Matches(s1, args.prevLogIndex, args.prevLogTerm) && s1.commitIndex <= args.prevLogIndex {
          AcceptIsPlain(s1, args);
        }
      }
    case LeaderCommit(to) =>
      if s.commitIndex < to {
        CommitIsPlain(s, if to <= s.LastLogIndex() then to else s.LastLogIndex());
      }
    case _ =>
  }

  lemma AcceptIsPlain(s: Replica, args: AppendArgs<K.Command>)
    requires s.Inv() && s.commitIndex <= args.prevLogIndex <= s.LastLogIndex() && Plain(s)
    requires Ordinary(AppendEntry(args))
    ensures Plain(AcceptStep(s, args))
  {
    CommitIsPlain(s, NewCommit(s, args));
    WriteIsPlain(CommitTo(s, NewCommit(s, args)).Persisted(), args);
  }

  lemma {:induction false} RunIsPlain(s: Replica, events: seq<Event<K.Command, Data>>)
    requires s.Inv() && IsRun(s, events) && Plain(s)
    requires forall i | 0 <= i < |events| :: Ordinary(events[i])
    ensures Plain(After(s, events))
    decreases |events|
  {
    if events != [] {
      hide Step, Proceeds, Plain, Ordinary;
      StepProceeds(s, events[0]);
      ProceedsKeepsInv(s, Step(s, events[0]));
      StepIsPlain(s, events[0]);
      RunIsPlain(Step(s, events[0]), events[1..]);
    }
  }

  /** Without snapshots in between, the n-th message is the n-th command. */
  lemma {:induction false} PositionIsCount(msgs: seq<Message>, to: int, n: nat)
    requires Consecutive(msgs, 0, to) && n <= |msgs| && forall i | 0 <= i < |msgs| :: msgs[i].Committed?
    ensures At(0, msgs, n) == n && At(0, msgs, |msgs|) == to
  {
    PositionsGrow(0, msgs, to, n);
    if n > 0 {
      PositionIsCount(msgs, to, n - 1);
      PositionsGrow(0, msgs, to, n - 1);
    }
  }

  lemma DeliveredAs(msgs: seq<Message>, to: int, n: nat)
    requires Consecutive(msgs, 0, to) && Readable(msgs) && n <= |msgs|
    requires forall i | 0 <= i < |msgs| :: msgs[i].Committed?
    ensures var server := Server(msgs[..n]);
            server == K.ApplyLog(K.INITIAL, Commands(msgs)[..n]).(curCommitIndex := n)
  {
    hide K.ApplyAll, K.ApplyLog, Consecutive;
    var received := seq(n, i requires 0 <= i < n => Received(msgs[..n][i]));
    forall i | 0 <= i < n
      ensures received[i] == K.Deliver(Commands(msgs)[..n], 1)[i]
    {
      PositionIsCount(msgs, to, i + 1);
    }
    assert received == K.Deliver(Commands(msgs)[..n], 1);
    K.DeliverIsApplyLog(K.INITIAL, Commands(msgs)[..n], 1);
  }

  /** Whatever a node is sent, as long as no snapshot is installed, its server is
      at every moment exactly where the commands it read take it; the commands
      sent are as many as are committed, and those the log still has; the
      server's commit index is the number of commands it read. */
  lemma NodeFeedsServer(me: int, events: seq<Event<K.Command, Data>>, read: nat)
    requires IsRun(Fresh(me), events) && forall i | 0 <= i < |events| :: Ordinary(events[i])
    requires read <= |After(Fresh(me), events).applyCh|
    ensures var s := After(Fresh(me), events);
            && s.Inv() && Plain(s) && Readable(s.applyCh) && |Commands(s.applyCh)| == s.commitIndex
            && (var server := Server(s.applyCh[..read]);
                server == K.ApplyLog(K.INITIAL, Commands(s.applyCh)[..read]).(curCommitIndex := read))
            && forall i | s.lastIndexInSnapshot < i <= s.commitIndex ::
                 s.EntryAt(i).command == Some(Commands(s.applyCh)[i - 1])
  {
    hide Step, Server, Consecutive, After, IsRun;
    var s: Replica := After(Fresh(me), events);
    LifeOfANode<K.Command, Data>(me, events);
    RunIsPlain(Fresh(me), events);
    PositionIsCount(s.applyCh, s.commitIndex, read);
    PositionIsCount(s.applyCh, s.commitIndex, |s.applyCh|);
    DeliveredAs(s.applyCh, s.commitIndex, read);
    forall i | s.lastIndexInSnapshot < i <= s.commitIndex
      ensures s.EntryAt(i).command == Some(Commands(s.applyCh)[i - 1])
    {
      PositionIsCount(s.applyCh, s.commitIndex, i);
      assert s.applyCh[i - 1].index == i;
    }
  }
}
