/** The Raft node as an object: handlers that rewrite the log in place, each
    proved to take the step of the model. */
module RaftServer {
  import opened RaftNode

  /** The nearest term below `term`, going down from position `i` to the first
      entry; `otherwise` when there is none. */
  ghost function TermBelow<C>(log: seq<CommandTerm<C>>, i: nat, term: int, otherwise: int): int
    requires i < |log|
  {
    if i == 0 then otherwise
    else if log[i].term < term then log[i].term
    else TermBelow(log, i - 1, term, otherwise)
  }

  /** `t` is the term of the nearest entry from `i` down that has a term below
      `term`; when no entry behind the first has one, it is `otherwise`. */
  ghost predicate IsTermBelow<C>(log: seq<CommandTerm<C>>, i: nat, term: int, otherwise: int, t: int)
    requires i < |log|
  {
    || (t == otherwise && forall k | 0 < k <= i :: term <= log[k].term)
    || exists j :: 0 < j <= i && log[j].term == t < term && forall k | j < k <= i :: term <= log[k].term
  }

  lemma {:induction false} TermBelowIs<C>(log: seq<CommandTerm<C>>, i: nat, term: int, otherwise: int)
    requires i < |log|
    ensures IsTermBelow(log, i, term, otherwise, TermBelow(log, i, term, otherwise))
  {
    if i > 0 && term <= log[i].term {
      TermBelowIs(log, i - 1, term, otherwise);
    }
  }

  ghost function ReplyTo<C, D>(s: Node<C, D>, args: AppendArgs<C>): AppendReply
    requires s.Inv()
  {
    var reply := AppendReply(s.me, s.currentTerm, false, 0, 0, 0);
    if args.term < s.currentTerm then reply
    else if args.prevLogIndex > s.LastLogIndex() then
      reply.(lastLogIndex := s.LastLogIndex(), termOfArgsPreLogIndex := s.LastTerm())
    else if !Matches(s, args.prevLogIndex, args.prevLogTerm) then
      var i := s.TrueIndex(args.prevLogIndex);
      var mine := s.log[i].term;
      reply.(termOfArgsPreLogIndex :=
        if mine > args.prevLogTerm then TermBelow(s.log, i, args.prevLogTerm, mine) else mine)
    else
      reply.(success := true, commitIndex := if args.prevLogIndex < s.commitIndex then s.commitIndex else 0)
  }

  /** The entry before the new ones is in the log, or below its boundary, with
      the leader's term. */
  ghost predicate Fits<C, D>(s: Node<C, D>, args: AppendArgs<C>)
    requires s.Inv()
  {
    && args.prevLogIndex < s.lastIndexInSnapshot + |s.log|
    && s.log[if args.prevLogIndex < s.lastIndexInSnapshot then 0 else args.prevLogIndex - s.lastIndexInSnapshot].term
       == args.prevLogTerm
  }

  /** The log `log'` has `entries` from `start` on. What stood before them stays,
      and so does what stood behind them, unless that is more than one entry and
      the last of them has a lower term than the last new one. */
  ghost predicate Stored<C>(
    log: seq<CommandTerm<C>>, start: nat, entries: seq<CommandTerm<C>>, log': seq<CommandTerm<C>>)
  {
    var end := start + |entries|;
    && start <= |log| && end <= |log'|
    && (forall i | 0 <= i < start :: log'[i] == log[i])
    && (forall k | 0 <= k < |entries| :: log'[start + k] == entries[k])
    && (if end + 1 < |log| && entries != [] && log[|log| - 1].term < entries[|entries| - 1].term
        then |log'| == end
        else |log'| == (if end < |log| then |log| else end) && forall i | end <= i < |log'| :: log'[i] == log[i])
  }

  /** The messages `after` are those of `before` and then one for each entry
      behind `from` up to `to`, in order. The log starts at index `boundary`. */
  ghost predicate Sent<C, D>(
    before: seq<ApplyMsg<C, D>>, after: seq<ApplyMsg<C, D>>, log: seq<CommandTerm<C>>, boundary: int, from: int, to: int)
    requires boundary <= from <= to < boundary + |log|
  {
    && |after| == |before| + to - from && before <= after
    && forall k | |before| <= k < |after| ::
         var i := from + 1 + k - |before|;
         after[k] == Committed(i, log[i - boundary].command)
  }

  lemma MessagesSent<C, D>(s: Node<C, D>, to: int)
    requires s.Inv() && s.commitIndex <= to <= s.LastLogIndex()
    ensures Sent(s.applyCh, CommitTo(s, to).applyCh, s.log, s.lastIndexInSnapshot, s.commitIndex, to)
  {
    hide Messages;
    MessagesLogged(s, s.commitIndex + 1, to + 1);
    var sent := Messages(s, s.commitIndex + 1, to + 1);
    forall k | |s.applyCh| <= k < |s.applyCh + sent|
      ensures (s.applyCh + sent)[k] == sent[k - |s.applyCh|]
    {
    }
  }

  lemma NothingSent<C, D>(s: Node<C, D>)
    requires s.Inv()
    ensures Sent(s.applyCh, s.applyCh, s.log, s.lastIndexInSnapshot, s.commitIndex, s.commitIndex)
  {
  }

  /** The term reported with a rejection: that of the last entry when the log is
      too short, otherwise that of the entry which does not match or, when that
      is higher than the leader's, of the nearest entry below the leader's. */
  ghost predicate ReportsTerm<C, D>(s: Node<C, D>, args: AppendArgs<C>, t: int)
    requires s.Inv()
  {
    var prev := args.prevLogIndex;
    if args.term < s.currentTerm || Fits(s, args) then t == 0
    else if s.lastIndexInSnapshot + |s.log| <= prev then t == s.log[|s.log| - 1].term
    else
      var i := if prev < s.lastIndexInSnapshot then 0 else prev - s.lastIndexInSnapshot;
      var mine := s.log[i].term;
      if mine < args.prevLogTerm then t == mine else IsTermBelow(s.log, i, args.prevLogTerm, mine, t)
  }

  /** What a request for entries may change, field by field, and its answer. */
  ghost predicate AppendDoes<C, D>(s: Node<C, D>, args: AppendArgs<C>, s': Node<C, D>, reply: AppendReply)
    requires s.Inv()
  {
    var last, prev := s.lastIndexInSnapshot + |s.log| - 1, args.prevLogIndex;
    var stores := s.currentTerm <= args.term && Fits(s, args) && s.commitIndex <= prev;
    && reply.me == s.me && reply.term == s.currentTerm
    && (reply.success <==> s.currentTerm <= args.term && Fits(s, args))
    && reply.commitIndex == (if reply.success && prev < s.commitIndex then s.commitIndex else 0)
    && reply.lastLogIndex == (if s.currentTerm <= args.term && last < prev then last else 0)
    && ReportsTerm(s, args, reply.termOfArgsPreLogIndex)
    && (args.term < s.currentTerm ==> s' == s)
    && (s.currentTerm <= args.term ==>
          && s'.currentTerm == args.term
          && s'.leaderNum == if s.leaderNum == s.me && s.currentTerm < args.term then args.leaderID else s.leaderNum)
    && s'.me == s.me && s'.votedFor == s.votedFor
    && s'.lastIndexInSnapshot == s.lastIndexInSnapshot && s'.lastTermInSnapshot == s.lastTermInSnapshot
    && (if stores
        then
          && Stored(s.log, prev + 1 - s.lastIndexInSnapshot, args.entries, s'.log)
          && s'.commitIndex == Max(s.commitIndex, Min(args.leaderCommit, prev))
          && Sent(s.applyCh, s'.applyCh, s.log, s.lastIndexInSnapshot, s.commitIndex, s'.commitIndex)
        else s'.log == s.log && s'.commitIndex == s.commitIndex && s'.applyCh == s.applyCh)
    && s'.disk.snapshot == s.disk.snapshot
    && s'.disk.raftState ==
         if stores || s.currentTerm < args.term then Some(RaftState(args.term, s'.log)) else s.disk.raftState
  }

  datatype InstallReply = InstallReply(term: int, errCode: int, value: int)

  /** What becomes of a call: it never arrives, its answer gets lost, or it is answered. */
  datatype Fate = Lost | AnswerLost | Answered

  /** Some call arrived. */
  ghost predicate Arrived(fates: seq<Fate>) {
    exists i :: 0 <= i < |fates| && fates[i] != Lost
  }

  /** The node has committed `index`, or its log has an entry of that term there. */
  ghost predicate Known<C, D>(s: Node<C, D>, index: int, term: int) {
    || index <= s.commitIndex
    || (s.lastIndexInSnapshot < index <= s.LastLogIndex() && s.EntryAt(index).term == term)
  }

  class Raft<C, D> {
    const me: int
    var leaderNum: int
    var currentTerm: int
    var votedFor: int
    var log: seq<CommandTerm<C>>
    var commitIndex: int
    var lastIndexInSnapshot: int
    var lastTermInSnapshot: int
    var disk: Disk<C, D>
    var applyCh: seq<ApplyMsg<C, D>>
    var matchIndex: seq<int>
    var nextIndex: seq<int>

    ghost function Now(): Node<C, D>
      reads this
    {
      Node(me, leaderNum, currentTerm, votedFor, log, commitIndex, lastIndexInSnapshot, lastTermInSnapshot, disk, applyCh)
    }

    function LastLogIndex(): (i: int)
      reads this
      ensures i == Now().LastLogIndex()
    {
      lastIndexInSnapshot + |log| - 1
    }

    function TrueIndex(index: int): (i: nat)
      reads this
      ensures i == Now().TrueIndex(index)
    {
      if index - lastIndexInSnapshot < 0 then 0 else index - lastIndexInSnapshot
    }

    function NameIndex(i: int): int
      reads this
    {
      i + lastIndexInSnapshot
    }

    method Persist()
      modifies this`disk
      ensures Now() == old(Now()).Persisted()
    {
      disk := disk.(raftState := Some(RaftState(currentTerm, log)));
    }

    method AppendEntry(args: AppendArgs<C>) returns (reply: AppendReply)
      requires Now().Inv()
      requires forall i | 0 <= i < |args.entries| :: args.entries[i].command.Some?
      modifies this`leaderNum, this`currentTerm, this`log, this`commitIndex, this`disk, this`applyCh
      ensures Now() == AppendStep(old(Now()), args)
      ensures reply == ReplyTo(old(Now()), args)
      ensures AppendDoes(old(Now()), args, Now(), reply)
    {
      hide AcceptStep, TermBelow, IsTermBelow, AppendDoes;
      AppendIs(Now(), args);
      var curTerm := currentTerm;
      reply := AppendReply(me, curTerm, false, 0, 0, 0);
      if args.term < curTerm {
        return;
      } else if args.term > curTerm {
        if leaderNum == me {
          leaderNum := args.leaderID;
        }
        currentTerm := args.term;
        Persist();
      }
      if args.prevLogIndex >= LastLogIndex() + 1 {
        return reply.(lastLogIndex := LastLogIndex(), termOfArgsPreLogIndex := log[|log| - 1].term);
      } else if log[TrueIndex(args.prevLogIndex)].term != args.prevLogTerm {
        var retTerm := ConflictTerm(args.prevLogIndex, args.prevLogTerm);
        return reply.(termOfArgsPreLogIndex := retTerm);
      }
      if args.prevLogIndex < commitIndex {
        return reply.(commitIndex := commitIndex, success := true);
      }
      Accept(args);
      return reply.(success := true);
    }

    method Accept(args: AppendArgs<C>)
      requires Now().Inv() && commitIndex <= args.prevLogIndex <= LastLogIndex()
      requires forall i | 0 <= i < |args.entries| :: args.entries[i].command.Some?
      modifies this`log, this`commitIndex, this`disk, this`applyCh
      ensures Now() == AcceptStep(old(Now()), args)
    {
      hide Messages, Overwrite, Cut, CommitTo, NewCommit, WriteEntries;
      CommitUpTo(args);
      Persist();
      if args.entries == [] {
        return;
      }
      StoreEntries(args);
      Persist();
    }

    /** The term sent back for an entry that does not match. */
    method ConflictTerm(prevLogIndex: int, prevLogTerm: int) returns (retTerm: int)
      requires Now().Inv() && prevLogIndex <= LastLogIndex()
      ensures var i := TrueIndex(prevLogIndex); var mine := log[i].term;
              && retTerm == (if mine > prevLogTerm then TermBelow(log, i, prevLogTerm, mine) else mine)
              && (mine > prevLogTerm ==> IsTermBelow(log, i, prevLogTerm, mine, retTerm))
    {
      hide IsTermBelow;
      var start := TrueIndex(prevLogIndex);
      retTerm := log[start].term;
      if retTerm > prevLogTerm {
        ghost var mine := retTerm;
        TermBelowIs(log, start, prevLogTerm, mine);
        var i := start;
        while i > 0
          invariant 0 <= i <= start
          invariant retTerm == mine
          invariant TermBelow(log, start, prevLogTerm, mine) == TermBelow(log, i, prevLogTerm, mine)
        {
          if log[i].term < prevLogTerm {
            retTerm := log[i].term;
            break;
          }
          i := i - 1;
        }
      }
    }

    /** Sends what the leader says is committed, up to the matching entry. */
    method CommitUpTo(args: AppendArgs<C>)
      requires Now().Inv() && commitIndex <= args.prevLogIndex <= LastLogIndex()
      modifies this`commitIndex, this`applyCh
      ensures Now() == CommitTo(old(Now()), NewCommit(old(Now()), args))
      ensures lastIndexInSnapshot <= commitIndex <= args.prevLogIndex
    {
      ghost var s := Now();
      var preCommitIndex, aftCommitIndex := 0, 0;
      if args.leaderCommit > commitIndex {
        preCommitIndex := commitIndex;
        aftCommitIndex := if args.leaderCommit > args.prevLogIndex then args.prevLogIndex else args.leaderCommit;
      }
      preCommitIndex := TrueIndex(preCommitIndex);
      aftCommitIndex := TrueIndex(aftCommitIndex);
      if aftCommitIndex >= |log| {
        aftCommitIndex := preCommitIndex;
      }
      var applyMsgList: seq<ApplyMsg<C, D>> := [];
      for ind := 0 to aftCommitIndex - preCommitIndex
        invariant commitIndex == s.commitIndex + ind && applyCh == s.applyCh
        invariant applyMsgList == Messages(s, s.commitIndex + 1, commitIndex + 1)
      {
        var commandIndex := NameIndex(ind + preCommitIndex + 1);
        var command := log[TrueIndex(commandIndex)].command;
        if commandIndex > commitIndex {
          commitIndex := commandIndex;
          applyMsgList := applyMsgList + [Committed(commandIndex, command)];
        }
      }
      applyCh := applyCh + applyMsgList;
      assert commitIndex == NewCommit(s, args);
    }

    /** Overwrites or appends the entries behind the matching one. */
    method StoreEntries(args: AppendArgs<C>)
      requires Now().Inv() && commitIndex <= args.prevLogIndex <= LastLogIndex() && args.entries != []
      requires forall i | 0 <= i < |args.entries| :: args.entries[i].command.Some?
      modifies this`log
      ensures Now().Persisted() == WriteEntries(old(Now()), args)
    {
      hide Overwrite;
      ghost var before := log;
      var startInd := TrueIndex(args.prevLogIndex + 1);
      ghost var start := startInd;
      if startInd >= 1 && startInd <= |log| {
        OverwriteNone(before, start);
        for k := 0 to |args.entries|
          invariant startInd == start + k && startInd <= |log|
          invariant log == Overwrite(before, start, args.entries[..k])
        {
          var oneLog := args.entries[k];
          if NameIndex(startInd) <= commitIndex {
            break;
          }
          OverwriteMore(before, start, args.entries, k);
          if startInd >= |log| {
            log := log + [oneLog];
          } else {
            log := log[startInd := oneLog];
          }
          assert oneLog.command.Some?;
          startInd := startInd + 1;
        }
        assert args.entries[..|args.entries|] == args.entries;
        if startInd < |log| - 1 && log[startInd - 1].term > log[|log| - 1].term {
          log := log[..startInd];
        }
      }
    }

    method Start(command: C) returns (index: int, term: int, isLeader: bool)
      requires Now().Inv() && (leaderNum == me ==> 0 <= me < |matchIndex|)
      modifies this`log, this`disk, this`matchIndex
      ensures Now() == StartStep(old(Now()), command)
      ensures isLeader == (leaderNum == me) && term == currentTerm
      ensures if isLeader
              then index == LastLogIndex() == old(LastLogIndex()) + 1 && log[|log| - 1] == CommandTerm(Some(command), term)
              else index == -1
      ensures matchIndex == if isLeader then old(matchIndex)[me := index] else old(matchIndex)
    {
      var curTerm := currentTerm;
      if leaderNum != me {
        return -1, curTerm, false;
      }
      log := log + [CommandTerm(Some(command), curTerm)];
      index := NameIndex(|log| - 1);
      matchIndex := matchIndex[me := index];
      Persist();
      return index, curTerm, true;
    }

    /** The leader's commit loop: it stops where its log ends. */
    method CommitAsLeader(toBeCommitIndex: int)
      requires Now().Inv()
      modifies this`commitIndex, this`applyCh
      ensures Now() == LeaderCommitStep(old(Now()), toBeCommitIndex)
      ensures commitIndex == Max(old(commitIndex), Min(toBeCommitIndex, LastLogIndex()))
      ensures Sent(old(applyCh), applyCh, log, lastIndexInSnapshot, old(commitIndex), commitIndex)
    {
      hide Sent;
      ghost var s := Now();
      NothingSent(s);
      MessagesSent(s, Max(commitIndex, Min(toBeCommitIndex, LastLogIndex())));
      if toBeCommitIndex <= commitIndex {
        return;
      }
      var i := commitIndex + 1;
      while i <= toBeCommitIndex
        invariant s.commitIndex < i <= toBeCommitIndex + 1 && i <= s.LastLogIndex() + 1
        invariant Now() == s.(commitIndex := i - 1, applyCh := s.applyCh + Messages(s, s.commitIndex + 1, i))
      {
        if TrueIndex(i) >= |log| || TrueIndex(i) < 1 {
          break;
        }
        var msg: ApplyMsg<C, D> := Committed(i, log[TrueIndex(i)].command);
        if i > commitIndex {
          commitIndex := i;
          applyCh := applyCh + [msg];
        }
        i := i + 1;
      }
    }

    method Truncate(endIndex: int, preIndex: int, lastTerm: int) returns (newLog: seq<CommandTerm<C>>)
      requires preIndex < endIndex
      ensures newLog == if endIndex - preIndex < |log| then log[endIndex - preIndex..] else [CommandTerm(None, lastTerm)]
    {
      newLog := [];
      var i := endIndex - preIndex;
      while i < |log|
        invariant endIndex - preIndex <= i
        invariant |log| <= endIndex - preIndex ==> newLog == []
        invariant endIndex - preIndex < |log| ==> i <= |log| && newLog == log[endIndex - preIndex..i]
      {
        newLog := newLog + [log[i]];
        i := i + 1;
      }
      assert endIndex - preIndex < |log| ==> newLog == log[endIndex - preIndex..];
      if |newLog| == 0 {
        newLog := newLog + [CommandTerm(None, lastTerm)];
      }
    }

    method TakeSnapshots(data: D, index: int)
      requires Now().Inv() && index <= commitIndex
      modifies this`log, this`lastIndexInSnapshot, this`lastTermInSnapshot, this`disk
      ensures Now() == TakeSnapshotStep(old(Now()), data, index)
      ensures if 1 < index && old(lastIndexInSnapshot) + 1 < index
              then
                && lastIndexInSnapshot == index - 1 && log == old(log)[index - 1 - old(lastIndexInSnapshot)..]
                && lastTermInSnapshot == log[0].term
                && disk == Disk(Some(RaftState(currentTerm, log)), Some(Snapshot(data, index - 1, log[0].term)))
              else Now() == old(Now())
    {
      var endIndex := index - 1;
      if endIndex < 1 || endIndex <= lastIndexInSnapshot {
        return;
      }
      var endIndexTerm := log[TrueIndex(endIndex)].term;
      var preIndex := lastIndexInSnapshot;
      lastTermInSnapshot := endIndexTerm;
      lastIndexInSnapshot := endIndex;
      log := Truncate(lastIndexInSnapshot, preIndex, endIndexTerm);
      disk := Disk(Some(RaftState(currentTerm, log)), Some(Snapshot(data, endIndex, endIndexTerm)));
    }

    /** 0 installed, 1 stale term, 2 not newer, 3 the log already has its last
        entry. A request that names a later index than its snapshot panics. */
    method InstallSnapshot(term: int, lastIncludedIndex: int, lastIncludedTerm: int, data: Option<Snapshot<D>>)
      returns (reply: InstallReply, panics: bool)
      requires Now().Inv()
      modifies this`log, this`lastIndexInSnapshot, this`lastTermInSnapshot, this`commitIndex, this`disk, this`applyCh
      ensures reply.term == currentTerm && 0 <= reply.errCode <= 3
      ensures reply.errCode == 1 <==> term < old(currentTerm)
      ensures reply.errCode == 2 <==> old(currentTerm) <= term && lastIncludedIndex <= old(lastIndexInSnapshot)
      ensures reply.errCode == 3 <==>
                && old(currentTerm) <= term && old(lastIndexInSnapshot) < lastIncludedIndex <= old(LastLogIndex())
                && old(Now()).EntryAt(lastIncludedIndex).term == lastIncludedTerm
      ensures reply.value == if reply.errCode == 2 then old(lastIndexInSnapshot) else 0
      ensures Now() == if reply.errCode != 0 || data.None? then old(Now()) else ReadSnapshot(old(Now()), data.value)
      ensures panics <==> reply.errCode == 0 && (data.None? || data.value.lastIndex < lastIncludedIndex)
      ensures data.Some? && data.value.lastIndex == lastIncludedIndex && data.value.lastTerm == lastIncludedTerm ==>
                Now() == InstallStep(old(Now()), term, data.value) && !panics
    {
      if term < currentTerm {
        return InstallReply(currentTerm, 1, 0), false;
      }
      if lastIncludedIndex <= lastIndexInSnapshot {
        return InstallReply(currentTerm, 2, lastIndexInSnapshot), false;
      }
      if LastLogIndex() >= lastIncludedIndex {
        if log[TrueIndex(lastIncludedIndex)].term == lastIncludedTerm {
          return InstallReply(currentTerm, 3, 0), false;
        }
      }
      ReadSnapshotPersist(data);
      return InstallReply(currentTerm, 0, 0), lastIncludedIndex > lastIndexInSnapshot;
    }

    /** The leader sends its snapshot to a follower, five times at most; what
        becomes of each call is `fates`. When no answer arrives it goes on as
        if the snapshot had been installed. */
    method SendSnapshot(ind: nat, follower: Raft<C, D>, fates: seq<Fate>)
      requires follower != this && follower.Now().Inv() && |fates| == 5
      requires ind < |matchIndex| && ind < |nextIndex|
      requires disk.snapshot.Some?
      requires disk.snapshot.value.lastIndex == lastIndexInSnapshot && disk.snapshot.value.lastTerm == lastTermInSnapshot
      modifies this`currentTerm, this`leaderNum, this`matchIndex, this`nextIndex, follower
      ensures follower.Now() ==
                if Arrived(fates) then InstallStep(old(follower.Now()), old(currentTerm), disk.snapshot.value)
                else old(follower.Now())
      ensures if Answered in fates && old(currentTerm) < old(follower.currentTerm)
              then
                && Now() == RefusedStep(old(Now()), old(follower.currentTerm))
                && currentTerm == old(follower.currentTerm) && leaderNum == 0 && disk == old(disk)
                && matchIndex == old(matchIndex) && nextIndex == old(nextIndex)
              else
                && Now() == old(Now()) && |matchIndex| == |old(matchIndex)|
                && matchIndex == old(matchIndex)[ind := matchIndex[ind]]
                && nextIndex == old(nextIndex)[ind := matchIndex[ind] + 1]
                && (Answered in fates ==> Known(follower.Now(), matchIndex[ind], lastTermInSnapshot))
                && (Answered !in fates ==> matchIndex[ind] == lastIndexInSnapshot)
    {
      hide Known, InstallStep, Arrived;
      var reply := CallInstall(follower, fates);
      match reply.errCode
      case 1 =>
        currentTerm := reply.term;
        leaderNum := reply.value;
      case 2 =>
        nextIndex := nextIndex[ind := reply.value + 1];
        matchIndex := matchIndex[ind := reply.value];
      case _ =>
        nextIndex := nextIndex[ind := lastIndexInSnapshot + 1];
        matchIndex := matchIndex[ind := lastIndexInSnapshot];
    }

    /** Five tries; without an answer the reply is empty. */
    method CallInstall(follower: Raft<C, D>, fates: seq<Fate>) returns (reply: InstallReply)
      requires follower != this && follower.Now().Inv() && |fates| == 5
      requires disk.snapshot.Some?
      requires disk.snapshot.value.lastIndex == lastIndexInSnapshot && disk.snapshot.value.lastTerm == lastTermInSnapshot
      modifies follower
      ensures follower.Now() ==
                if Arrived(fates) then InstallStep(old(follower.Now()), currentTerm, disk.snapshot.value)
                else old(follower.Now())
      ensures Answered !in fates ==> reply == InstallReply(0, 0, 0)
      ensures Answered in fates ==>
                && (reply.errCode == 1 <==> currentTerm < old(follower.currentTerm))
                && (reply.errCode == 1 ==> reply == InstallReply(old(follower.currentTerm), 1, 0))
                && (reply.errCode != 1 ==>
                      Known(follower.Now(), if reply.errCode == 2 then reply.value else lastIndexInSnapshot, lastTermInSnapshot))
    {
      hide Known, Refuses, ReadSnapshot, InstallStep, Arrived;
      var snapshot := disk.snapshot.value;
      reply := InstallReply(0, 0, 0);
      ghost var before := follower.Now();
      NoneArrived(fates);
      for i := 0 to 5
        invariant follower.Now().Inv() && follower.currentTerm == before.currentTerm
        invariant follower.Now() == if Arrived(fates[..i]) then InstallStep(before, currentTerm, snapshot) else before
        invariant Answered !in fates[..i]
      {
        ArrivedMore(fates, i);
        InstallTwice(before, currentTerm, snapshot);
        if fates[i] != Lost {
          ghost var s := follower.Now();
          var installed, panics := follower.InstallSnapshot(currentTerm, lastIndexInSnapshot, lastTermInSnapshot, disk.snapshot);
          if fates[i] == Answered {
            AnswerIsKnown(s, currentTerm, snapshot, installed);
            AnsweredArrived(fates, i);
            return installed;
          }
        }
        assert fates[..i + 1] == fates[..i] + [fates[i]];
      }
      assert fates[..5] == fates;
    }

    method ReadSnapshotPersist(data: Option<Snapshot<D>>)
      modifies this`log, this`lastIndexInSnapshot, this`lastTermInSnapshot, this`commitIndex, this`disk, this`applyCh
      ensures Now() == if data.None? then old(Now()) else ReadSnapshot(old(Now()), data.value)
      ensures if data.Some? && old(lastIndexInSnapshot) < data.value.lastIndex
              then
                && log == [CommandTerm(None, data.value.lastTerm)]
                && lastIndexInSnapshot == commitIndex == data.value.lastIndex
                && lastTermInSnapshot == data.value.lastTerm
                && applyCh == old(applyCh) + [Installed(data.value)]
                && disk == old(disk).(snapshot := data)
              else Now() == old(Now())
    {
      if data.None? {
        return;
      }
      var snapshot := data.value;
      if snapshot.lastIndex <= lastIndexInSnapshot {
        return;
      }
      lastTermInSnapshot := snapshot.lastTerm;
      log := [CommandTerm(None, snapshot.lastTerm)];
      lastIndexInSnapshot := snapshot.lastIndex;
      commitIndex := snapshot.lastIndex;
      applyCh := applyCh + [Installed(snapshot)];
      disk := disk.(snapshot := Some(snapshot));
    }

    /** In a later term the vote goes to every candidate whose log is at least as
        up to date and to no other; in the node's own term only to one whose
        last term is higher, while the node has voted for itself. */
    method RequestVote(args: VoteArgs) returns (term: int, voteGranted: bool)
      requires Now().Inv()
      modifies this`leaderNum, this`currentTerm, this`disk
      ensures Now() == VoteStep(old(Now()), args)
      ensures term == old(currentTerm) && voteGranted == Grants(old(Now()), args)
      ensures var lastTerm := log[|log| - 1].term;
              if old(currentTerm) < args.term
              then
                && (voteGranted <==>
                      || lastTerm < args.lastLogTerm
                      || (lastTerm == args.lastLogTerm && lastIndexInSnapshot + |log| - 1 <= args.lastLogIndex))
                && currentTerm == args.term
                && leaderNum == (if voteGranted then args.candidateID else old(leaderNum))
                && disk == old(disk).(raftState := Some(RaftState(args.term, log)))
              else
                && (voteGranted <==> args.term == currentTerm && votedFor == me && lastTerm < args.lastLogTerm)
                && Now() == old(Now())
    {
      term := currentTerm;
      var localLastTerm := log[|log| - 1].term;
      if currentTerm > args.term || (currentTerm == args.term && votedFor != me) {
        return term, false;
      }
      if currentTerm == args.term && args.lastLogTerm <= localLastTerm {
        return term, false;
      }
      if currentTerm < args.term {
        currentTerm := args.term;
        Persist();
        if args.lastLogTerm < log[|log| - 1].term {
          return term, false;
        }
        if args.lastLogTerm == log[|log| - 1].term && args.lastLogIndex < LastLogIndex() {
          return term, false;
        }
        leaderNum := args.candidateID;
      }
      return term, true;
    }

    /** A candidate reads what arrives until its timer runs out or a notice ends
        the candidacy: the vote that completes a majority, another answer of a
        later term, or a request of a leader. */
    method CandidateProcess(majority: nat, notices: seq<Notice>) returns (isTimeOut: bool)
      modifies this`leaderNum, this`currentTerm, this`votedFor, this`disk
      ensures votedFor == me
      ensures if forall j | 0 <= j < |notices| :: !Ends(notices, j, majority, old(currentTerm))
              then
                && isTimeOut && currentTerm == old(currentTerm) + 1 && leaderNum == -1
                && disk == old(disk).(raftState := Some(RaftState(currentTerm, log)))
              else
                && !isTimeOut
                && exists j: nat | IsFirst(notices, j, majority, old(currentTerm)) :: match notices[j]
                   case Interruption => currentTerm == old(currentTerm) && leaderNum == -1 && disk == old(disk)
                   case Vote(term, _) =>
                     if Elects(notices, j, majority)
                     then currentTerm == old(currentTerm) && leaderNum == me && disk == old(disk)
                     else
                       && currentTerm == term && leaderNum == -1
                       && disk == old(disk).(raftState := Some(RaftState(term, log)))
      ensures var s := CampaignStep(old(Now()));
              Now() in {s, WinStep(s), TimeoutStep(s, false), OutdatedStep(s, currentTerm)}
    {
      hide Votes;
      ghost var term0 := currentTerm;
      var granted := 1;
      votedFor := me;
      leaderNum := -1;
      NoVotes(notices);
      for i := 0 to |notices|
        invariant Now() == CampaignStep(old(Now()))
        invariant granted == 1 + Votes(notices[..i])
        invariant forall j | 0 <= j < i :: !Ends(notices, j, majority, term0)
      {
        VotesMore(notices, i);
        match notices[i]
        case Interruption =>
          assert IsFirst(notices, i, majority, term0);
          return false;
        case Vote(term, voteGranted) =>
          if voteGranted {
            granted := granted + 1;
            if granted >= majority {
              leaderNum := me;
              assert IsFirst(notices, i, majority, term0) && Elects(notices, i, majority);
              return false;
            }
          }
          if term > currentTerm {
            currentTerm := term;
            Persist();
            assert IsFirst(notices, i, majority, term0) && !Elects(notices, i, majority);
            return false;
          }
      }
      currentTerm := currentTerm + 1;
      Persist();
      return true;
    }

    /** A leader whose term runs out starts a new one and is leader still. */
    method LeaderTimeout()
      modifies this`currentTerm, this`disk
      ensures Now() == TimeoutStep(old(Now()), false)
      ensures currentTerm == old(currentTerm) + 1
      ensures disk == old(disk).(raftState := Some(RaftState(currentTerm, log)))
    {
      currentTerm := currentTerm + 1;
      Persist();
    }

    /** A follower whose timer runs out starts a new term and forgets its leader. */
    method FollowerTimeout()
      modifies this`leaderNum, this`currentTerm, this`disk
      ensures Now() == TimeoutStep(old(Now()), true)
      ensures currentTerm == old(currentTerm) + 1 && leaderNum == -1
      ensures disk == old(disk).(raftState := Some(RaftState(currentTerm, log)))
    {
      currentTerm := currentTerm + 1;
      leaderNum := -1;
      Persist();
    }
  }

  /** What a candidate hears: the answer to a request for a vote, or that a
      leader has sent entries. */
  datatype Notice = Vote(term: int, granted: bool) | Interruption

  /** The vote at `j` completes a majority, the candidate's own vote included. */
  ghost predicate Elects(notices: seq<Notice>, j: nat, majority: nat)
    requires j < |notices|
  {
    notices[j].Vote? && notices[j].granted && 1 + Votes(notices[..j + 1]) >= majority
  }

  /** The notice at `j` ends the candidacy of a candidate of term `term`. */
  ghost predicate Ends(notices: seq<Notice>, j: nat, majority: nat, term: int)
    requires j < |notices|
  {
    notices[j].Interruption? || Elects(notices, j, majority) || term < notices[j].term
  }

  ghost predicate IsFirst(notices: seq<Notice>, j: nat, majority: nat, term: int) {
    && j < |notices| && Ends(notices, j, majority, term)
    && forall k: nat | k < j :: !Ends(notices, k, majority, term)
  }

  function Votes(notices: seq<Notice>): nat {
    if notices == [] then 0 else
    var n := notices[|notices| - 1];
    Votes(notices[..|notices| - 1]) + if n.Vote? && n.granted then 1 else 0
  }

  lemma NoVotes(notices: seq<Notice>)
    ensures Votes(notices[..0]) == 0
  {
  }

  lemma VotesMore(notices: seq<Notice>, i: nat)
    requires i < |notices|
    ensures Votes(notices[..i + 1]) == Votes(notices[..i]) + if notices[i].Vote? && notices[i].granted then 1 else 0
  {
    assert notices[..i + 1][..i] == notices[..i];
  }

  lemma OverwriteNone<C>(log: seq<CommandTerm<C>>, start: nat)
    requires start <= |log|
    ensures Overwrite(log, start, []) == log
  {
  }

  lemma OverwriteMore<C>(log: seq<CommandTerm<C>>, start: nat, entries: seq<CommandTerm<C>>, k: nat)
    requires start <= |log| && k < |entries|
    ensures var before, next := Overwrite(log, start, entries[..k]), Overwrite(log, start, entries[..k + 1]);
            && start + k <= |before| && start + k + 1 <= |next|
            && next == if start + k >= |before| then before + [entries[k]] else before[start + k := entries[k]]
  {
    assert entries[..k + 1] == entries[..k] + [entries[k]];
  }

  // ----- what the reply means

  function Max(a: int, b: int): int {
    if a < b then b else a
  }

  function Min(a: int, b: int): int {
    if a < b then a else b
  }

  /** Told that the request was stored, the leader may rely on every entry being
      in the follower's log under its index, on nothing before it having changed,
      and on what is committed; told anything else, on log and commit index
      being as they were. */
  lemma ReplyIsTrue<C, D>(s: Node<C, D>, args: AppendArgs<C>)
    requires s.Inv() && 0 <= args.prevLogIndex
    ensures var s' := AppendStep(s, args); var reply := ReplyTo(s, args); var prev := args.prevLogIndex;
            && s'.lastIndexInSnapshot == s.lastIndexInSnapshot
            && if reply.success && reply.commitIndex == 0
            then
              && s.lastIndexInSnapshot <= prev && prev + |args.entries| <= s'.LastLogIndex()
              && s.EntryAt(prev).term == args.prevLogTerm
              && (forall k | 0 <= k < |args.entries| :: s'.EntryAt(prev + 1 + k) == args.entries[k])
              && (forall i | s.lastIndexInSnapshot <= i <= prev :: s'.EntryAt(i) == s.EntryAt(i))
              && s'.commitIndex == Max(s.commitIndex, Min(args.leaderCommit, prev))
            else s'.log == s.log && s'.commitIndex == s.commitIndex && s'.applyCh == s.applyCh
  {
    hide AppendStep, ReplyTo, Sent, ReportsTerm;
    AppendIs(s, args);
    var s' := AppendStep(s, args);
    forall k | 0 <= k < |args.entries| && ReplyTo(s, args).success && ReplyTo(s, args).commitIndex == 0
      ensures s'.log[args.prevLogIndex + 1 + k - s.lastIndexInSnapshot] == args.entries[k]
    {
      assert s'.log[args.prevLogIndex + 1 - s.lastIndexInSnapshot + k] == args.entries[k];
    }
  }

  // ----- sending a snapshot

  lemma NoneArrived(fates: seq<Fate>)
    ensures !Arrived(fates[..0])
  {
  }

  lemma AnsweredArrived(fates: seq<Fate>, i: nat)
    requires i < |fates| && fates[i] == Answered
    ensures Arrived(fates) && Answered in fates
  {
  }

  lemma ArrivedMore(fates: seq<Fate>, n: nat)
    requires n < |fates|
    ensures Arrived(fates[..n + 1]) <==> Arrived(fates[..n]) || fates[n] != Lost
  {
    if fates[n] != Lost {
      assert fates[..n + 1][n] != Lost;
    } else if Arrived(fates[..n]) {
      var i :| 0 <= i < n && fates[..n][i] != Lost;
      assert fates[..n + 1][i] != Lost;
    }
  }

  lemma InstallTwice<C, D>(s: Node<C, D>, term: int, snapshot: Snapshot<D>)
    requires s.Inv()
    ensures var s' := InstallStep(s, term, snapshot);
            s'.Inv() && s'.currentTerm == s.currentTerm && InstallStep(s', term, snapshot) == s'
  {
  }

  /** What an answer other than that of a later term tells about the follower. */
  lemma AnswerIsKnown<C, D>(s: Node<C, D>, term: int, snapshot: Snapshot<D>, reply: InstallReply)
    requires s.Inv()
    requires reply.errCode == 2 <==> s.currentTerm <= term && snapshot.lastIndex <= s.lastIndexInSnapshot
    requires reply.errCode == 2 ==> reply.value == s.lastIndexInSnapshot
    ensures s.currentTerm <= term ==>
              Known(InstallStep(s, term, snapshot), if reply.errCode == 2 then reply.value else snapshot.lastIndex,
                    snapshot.lastTerm)
  {
  }

  /** The follower knows the end of a snapshot sent to it exactly if it knew it
      before or the call found it in no later term: so a match index recorded
      without an answer is right exactly if some call arrived at such a follower
      or the follower knew it before. */
  lemma KnownAfterSending<C, D>(s: Node<C, D>, term: int, snapshot: Snapshot<D>, fates: seq<Fate>)
    requires s.Inv()
    ensures var s' := if Arrived(fates) then InstallStep(s, term, snapshot) else s;
            Known(s', snapshot.lastIndex, snapshot.lastTerm) <==>
            Known(s, snapshot.lastIndex, snapshot.lastTerm) || (Arrived(fates) && s.currentTerm <= term)
  {
  }

  /** Five lost calls to a follower with an empty log. */
  lemma LostSnapshot(snapshot: Snapshot<int>)
    requires 0 < snapshot.lastIndex
    ensures var fates := [Lost, Lost, Lost, Lost, Lost]; var s: Node<int, int> := Fresh(1);
            !Arrived(fates) && Answered !in fates && !Known(s, snapshot.lastIndex, snapshot.lastTerm)
  {
  }

  // ----- what the steps do, field by field

  lemma AppendIs<C, D>(s: Node<C, D>, args: AppendArgs<C>)
    requires s.Inv()
    ensures AppendDoes(s, args, AppendStep(s, args), ReplyTo(s, args))
  {
    hide AcceptStep, TermBelow, Stored, Sent, ReportsTerm;
    ReportIs(s, args);
    if s.currentTerm <= args.term && Fits(s, args) && s.commitIndex <= args.prevLogIndex {
      AcceptIs(AdoptTerm(s, args.term, args.leaderID), args);
    }
  }

  lemma ReportIs<C, D>(s: Node<C, D>, args: AppendArgs<C>)
    requires s.Inv()
    ensures ReportsTerm(s, args, ReplyTo(s, args).termOfArgsPreLogIndex)
  {
    hide TermBelow, IsTermBelow;
    var i := s.TrueIndex(args.prevLogIndex);
    if i < |s.log| {
      TermBelowIs(s.log, i, args.prevLogTerm, s.log[i].term);
    }
  }

  lemma AcceptIs<C, D>(s: Node<C, D>, args: AppendArgs<C>)
    requires s.Inv() && s.commitIndex <= args.prevLogIndex <= s.LastLogIndex()
    ensures var s' := AcceptStep(s, args); var prev := args.prevLogIndex;
            && Stored(s.log, prev + 1 - s.lastIndexInSnapshot, args.entries, s'.log)
            && s'.commitIndex == Max(s.commitIndex, Min(args.leaderCommit, prev))
            && Sent(s.applyCh, s'.applyCh, s.log, s.lastIndexInSnapshot, s.commitIndex, s'.commitIndex)
            && s' == s.(log := s'.log, commitIndex := s'.commitIndex, applyCh := s'.applyCh, disk := s'.disk)
            && s'.disk == s.disk.(raftState := Some(RaftState(s.currentTerm, s'.log)))
  {
    hide Messages, Overwrite, Cut, Stored, Sent;
    WriteIs(s.log, args.prevLogIndex + 1 - s.lastIndexInSnapshot, args.entries);
    MessagesSent(s, NewCommit(s, args));
  }

  lemma WriteIs<C>(log: seq<CommandTerm<C>>, start: nat, entries: seq<CommandTerm<C>>)
    requires 1 <= start <= |log|
    ensures Stored(log, start, [], log)
    ensures |Overwrite(log, start, entries)| >= start + |entries|
    ensures entries != [] ==> Stored(log, start, entries, Cut(Overwrite(log, start, entries), start + |entries|))
  {
    hide Overwrite;
    OverwriteAt(log, start, entries);
  }

  lemma OverwriteAt<C>(log: seq<CommandTerm<C>>, start: nat, entries: seq<CommandTerm<C>>)
    requires start <= |log|
    ensures var log', end := Overwrite(log, start, entries), start + |entries|;
            && |log'| == (if end < |log| then |log| else end)
            && (forall i | 0 <= i < start :: log'[i] == log[i])
            && (forall i | start <= i < end :: log'[i] == entries[i - start])
            && (forall i | end <= i < |log'| :: log'[i] == log[i])
  {
  }

  // ----- up to date is a total preorder

  /** How a node asks for votes. */
  function Candidacy<C, D>(s: Node<C, D>): VoteArgs
    requires s.log != []
  {
    VoteArgs(s.currentTerm, s.me, s.LastLogIndex(), s.LastTerm())
  }

  /** Of two nodes, one at least is up to date for the other, and being so passes on. */
  lemma UpToDateOrder<C, D>(a: Node<C, D>, b: Node<C, D>, c: Node<C, D>)
    requires a.log != [] && b.log != [] && c.log != []
    ensures UpToDate(a, Candidacy(b)) || UpToDate(b, Candidacy(a))
    ensures UpToDate(a, Candidacy(b)) && UpToDate(b, Candidacy(c)) ==> UpToDate(a, Candidacy(c))
    ensures UpToDate(a, Candidacy(b)) && UpToDate(b, Candidacy(a)) <==>
            a.LastTerm() == b.LastTerm() && a.LastLogIndex() == b.LastLogIndex()
  {
  }

  /** A longer log that starts with the node's own is up to date for it exactly
      if its last term is no lower. */
  lemma ExtensionIsUpToDate<C, D>(s: Node<C, D>, longer: Node<C, D>)
    requires s.log != [] && s.log <= longer.log && s.lastIndexInSnapshot == longer.lastIndexInSnapshot
    ensures UpToDate(s, Candidacy(longer)) <==> s.LastTerm() <= longer.LastTerm()
  {
  }

  /** Nothing keeps a leader from sending an entry of a lower term behind a
      higher one; the node that stores it no longer gets the vote of one that has not. */
  lemma LongerLogRefused()
    ensures var s: Node<int, int> := AppendStep(Fresh(0), AppendArgs(3, 1, 0, 0, [CommandTerm(Some(7), 3)], 0));
            && s.Inv()
            && var longer := AppendStep(s, AppendArgs(4, 2, 1, 3, [CommandTerm(Some(8), 2)], 0));
               && s.log != [] && longer.log != [] && s.log < longer.log
               && !UpToDate(s, Candidacy(longer)) && !Grants(s, Candidacy(longer))
  {
    hide AppendStep;
    OneStored();
    OneMoreStored(AppendStep(Fresh(0), AppendArgs(3, 1, 0, 0, [CommandTerm(Some(7), 3)], 0)));
  }

  lemma OneStored()
    ensures var s: Node<int, int> := AppendStep(Fresh(0), AppendArgs(3, 1, 0, 0, [CommandTerm(Some(7), 3)], 0));
            && s.log == [CommandTerm(None, 0), CommandTerm(Some(7), 3)] && s.currentTerm == 3
            && s.commitIndex == s.lastIndexInSnapshot == s.lastTermInSnapshot == 0
  {
  }

  lemma OneMoreStored(s: Node<int, int>)
    requires s.log == [CommandTerm(None, 0), CommandTerm(Some(7), 3)] && s.currentTerm == 3
    requires s.commitIndex == s.lastIndexInSnapshot == s.lastTermInSnapshot == 0
    ensures var longer := AppendStep(s, AppendArgs(4, 2, 1, 3, [CommandTerm(Some(8), 2)], 0));
            longer.log == s.log + [CommandTerm(Some(8), 2)] && longer.lastIndexInSnapshot == 0
  {
  }
}
