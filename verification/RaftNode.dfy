/** One Raft node: its log seen through the snapshot offset, and its handlers
    as atomic steps. */
module RaftNode {

  datatype Option<T> = None | Some(value: T)

  datatype CommandTerm<C> = CommandTerm(command: Option<C>, term: int)

  /** What the service saved, and up to which log entry. */
  datatype Snapshot<D> = Snapshot(data: D, lastIndex: int, lastTerm: int)

  /** What the node sends to its service. */
  datatype ApplyMsg<C, D> =
    | Committed(index: int, command: Option<C>)
    | Installed(snapshot: Snapshot<D>)

  datatype RaftState<C> = RaftState(currentTerm: int, log: seq<CommandTerm<C>>)

  /** What survives a crash. */
  datatype Disk<C, D> = Disk(raftState: Option<RaftState<C>>, snapshot: Option<Snapshot<D>>)

  datatype Node<C, D> = Node(
    me: int,
    leaderNum: int,
    currentTerm: int,
    votedFor: int,
    log: seq<CommandTerm<C>>,
    commitIndex: int,
    lastIndexInSnapshot: int,
    lastTermInSnapshot: int,
    disk: Disk<C, D>,
    applyCh: seq<ApplyMsg<C, D>>) {

    function LastLogIndex(): int {
      lastIndexInSnapshot + |log| - 1
    }

    function TrueIndex(index: int): (i: nat)
      ensures lastIndexInSnapshot <= index ==> i == index - lastIndexInSnapshot
    {
      if index - lastIndexInSnapshot < 0 then 0 else index - lastIndexInSnapshot
    }

    /** The log as the protocol names it. */
    function EntryAt(index: int): CommandTerm<C>
      requires lastIndexInSnapshot <= index <= LastLogIndex()
    {
      log[index - lastIndexInSnapshot]
    }

    function LastTerm(): int
      requires log != []
    {
      log[|log| - 1].term
    }

    function Persisted(): Node<C, D> {
      this.(disk := disk.(raftState := Some(RaftState(currentTerm, log))))
    }

    /** What every handler keeps. */
    ghost predicate Inv() {
      && 0 <= lastIndexInSnapshot <= commitIndex <= LastLogIndex()
      && log[0].term == lastTermInSnapshot
    }
  }

  /** A node that starts for the first time. */
  function Fresh<C, D>(me: int): Node<C, D> {
    Node(me, -1, 0, -1, [CommandTerm(None, 0)], 0, 0, 0, Disk(None, None), [])
  }

  // ----- sending committed commands to the service

  /** The messages for the entries from `lo` on and before `hi`. */
  function Messages<C, D>(s: Node<C, D>, lo: int, hi: int): (r: seq<ApplyMsg<C, D>>)
    requires s.lastIndexInSnapshot <= lo <= hi <= s.LastLogIndex() + 1
    decreases hi - lo
  {
    if lo == hi then [] else Messages(s, lo, hi - 1) + [Committed(hi - 1, s.EntryAt(hi - 1).command)]
  }

  function CommitTo<C, D>(s: Node<C, D>, to: int): Node<C, D>
    requires s.lastIndexInSnapshot <= s.commitIndex <= to <= s.LastLogIndex()
  {
    s.(commitIndex := to, applyCh := s.applyCh + Messages(s, s.commitIndex + 1, to + 1))
  }

  // ----- AppendEntry

  datatype AppendArgs<C> = AppendArgs(
    term: int, leaderID: int, prevLogIndex: int, prevLogTerm: int, entries: seq<CommandTerm<C>>, leaderCommit: int)

  datatype AppendReply = AppendReply(
    me: int, term: int, success: bool, lastLogIndex: int, commitIndex: int, termOfArgsPreLogIndex: int)

  /** A later term is adopted and written to disk. */
  function AdoptTerm<C, D>(s: Node<C, D>, term: int, leaderID: int): Node<C, D> {
    if term <= s.currentTerm then s else
    s.(currentTerm := term, leaderNum := if s.leaderNum == s.me then leaderID else s.leaderNum).Persisted()
  }

  /** The log has an entry at `index` and its term is `term`; below the snapshot
      the boundary entry answers. */
  predicate Matches<C, D>(s: Node<C, D>, index: int, term: int)
    requires s.log != []
  {
    index <= s.LastLogIndex() && s.log[s.TrueIndex(index)].term == term
  }

  function NewCommit<C, D>(s: Node<C, D>, args: AppendArgs<C>): int {
    if args.leaderCommit <= s.commitIndex then s.commitIndex
    else if args.leaderCommit > args.prevLogIndex then args.prevLogIndex
    else args.leaderCommit
  }

  /** `entries` written over the log from `start` on. */
  function Overwrite<C>(log: seq<CommandTerm<C>>, start: nat, entries: seq<CommandTerm<C>>): seq<CommandTerm<C>>
    requires start <= |log|
  {
    log[..start] + entries + if start + |entries| < |log| then log[start + |entries|..] else []
  }

  /** What follows position `end` goes when the last term is lower than the one before `end`. */
  function Cut<C>(log: seq<CommandTerm<C>>, end: nat): seq<CommandTerm<C>>
    requires 1 <= end <= |log|
  {
    if end < |log| - 1 && log[end - 1].term > log[|log| - 1].term then log[..end] else log
  }

  function WriteEntries<C, D>(s: Node<C, D>, args: AppendArgs<C>): Node<C, D>
    requires s.lastIndexInSnapshot <= args.prevLogIndex <= s.LastLogIndex()
  {
    var start := args.prevLogIndex + 1 - s.lastIndexInSnapshot;
    s.(log := Cut(Overwrite(s.log, start, args.entries), start + |args.entries|)).Persisted()
  }

  function AppendStep<C, D>(s: Node<C, D>, args: AppendArgs<C>): Node<C, D>
    requires s.Inv()
  {
    if args.term < s.currentTerm then s else
    var s1 := AdoptTerm(s, args.term, args.leaderID);
    if !Matches(s1, args.prevLogIndex, args.prevLogTerm) || args.prevLogIndex < s1.commitIndex then s1
    else AcceptStep(s1, args)
  }

  /** The entry before the new ones matches: commit, then write. */
  function AcceptStep<C, D>(s: Node<C, D>, args: AppendArgs<C>): Node<C, D>
    requires s.Inv() && s.commitIndex <= args.prevLogIndex <= s.LastLogIndex()
  {
    var s' := CommitTo(s, NewCommit(s, args)).Persisted();
    if args.entries == [] then s' else WriteEntries(s', args)
  }

  // ----- the other handlers

  function StartStep<C, D>(s: Node<C, D>, command: C): Node<C, D> {
    if s.leaderNum != s.me then s
    else s.(log := s.log + [CommandTerm(Some(command), s.currentTerm)]).Persisted()
  }

  /** The leader commits up to `to`, as far as its log goes. */
  function LeaderCommitStep<C, D>(s: Node<C, D>, to: int): Node<C, D>
    requires s.Inv()
  {
    if to <= s.commitIndex then s
    else CommitTo(s, if to <= s.LastLogIndex() then to else s.LastLogIndex())
  }

  function TakeSnapshotStep<C, D>(s: Node<C, D>, data: D, index: int): Node<C, D>
    requires s.Inv() && index <= s.commitIndex
  {
    var end := index - 1;
    if end < 1 || end <= s.lastIndexInSnapshot then s else
    var term := s.EntryAt(end).term;
    var log := s.log[end - s.lastIndexInSnapshot..];
    s.(lastIndexInSnapshot := end, lastTermInSnapshot := term, log := log,
       disk := Disk(Some(RaftState(s.currentTerm, log)), Some(Snapshot(data, end, term))))
  }

  /** A snapshot that is not newer, or whose last entry the log has, changes nothing. */
  predicate Refuses<C, D>(s: Node<C, D>, term: int, snapshot: Snapshot<D>)
    requires s.Inv()
  {
    || term < s.currentTerm
    || snapshot.lastIndex <= s.lastIndexInSnapshot
    || (snapshot.lastIndex <= s.LastLogIndex() && s.EntryAt(snapshot.lastIndex).term == snapshot.lastTerm)
  }

  /** What a snapshot newer than the node's own makes of it, received or read at
      the start; the saved log is left as it was. */
  function ReadSnapshot<C, D>(s: Node<C, D>, snapshot: Snapshot<D>): Node<C, D> {
    if snapshot.lastIndex <= s.lastIndexInSnapshot then s else
    s.(log := [CommandTerm(None, snapshot.lastTerm)],
       lastIndexInSnapshot := snapshot.lastIndex, lastTermInSnapshot := snapshot.lastTerm,
       commitIndex := snapshot.lastIndex,
       applyCh := s.applyCh + [Installed(snapshot)],
       disk := s.disk.(snapshot := Some(snapshot)))
  }

  function InstallStep<C, D>(s: Node<C, D>, term: int, snapshot: Snapshot<D>): Node<C, D>
    requires s.Inv()
  {
    if Refuses(s, term, snapshot) then s else ReadSnapshot(s, snapshot)
  }

  datatype VoteArgs = VoteArgs(term: int, candidateID: int, lastLogIndex: int, lastLogTerm: int)

  /** The candidate's log is at least as up to date as the node's. */
  predicate UpToDate<C, D>(s: Node<C, D>, args: VoteArgs)
    requires s.log != []
  {
    args.lastLogTerm > s.LastTerm() || (args.lastLogTerm == s.LastTerm() && args.lastLogIndex >= s.LastLogIndex())
  }

  predicate Grants<C, D>(s: Node<C, D>, args: VoteArgs)
    requires s.log != []
  {
    if args.term > s.currentTerm then UpToDate(s, args)
    else args.term == s.currentTerm && s.votedFor == s.me && args.lastLogTerm > s.LastTerm()
  }

  function VoteStep<C, D>(s: Node<C, D>, args: VoteArgs): Node<C, D>
    requires s.log != []
  {
    if args.term <= s.currentTerm then s else
    var s1 := s.(currentTerm := args.term).Persisted();
    if Grants(s, args) then s1.(leaderNum := args.candidateID) else s1
  }

  // ----- elections

  /** The node votes for itself and knows no leader. */
  function CampaignStep<C, D>(s: Node<C, D>): Node<C, D> {
    s.(votedFor := s.me, leaderNum := -1)
  }

  function WinStep<C, D>(s: Node<C, D>): Node<C, D> {
    s.(leaderNum := s.me)
  }

  /** A vote was refused in a later term. */
  function OutdatedStep<C, D>(s: Node<C, D>, term: int): Node<C, D> {
    if term <= s.currentTerm then s else s.(currentTerm := term).Persisted()
  }

  /** The timer of a candidate or a leader; a follower also forgets its leader. */
  function TimeoutStep<C, D>(s: Node<C, D>, follower: bool): Node<C, D> {
    s.(currentTerm := s.currentTerm + 1, leaderNum := if follower then -1 else s.leaderNum).Persisted()
  }

  /** A leader that hears of a later term, or a node that is shut down. */
  function StepDownStep<C, D>(s: Node<C, D>): Node<C, D> {
    s.(leaderNum := -1)
  }

  /** A follower refuses the node's snapshot for its term: the node takes over
      that term, whatever its own is by now, without saving it, and with it the
      leader number of the reply, which is never set. */
  function RefusedStep<C, D>(s: Node<C, D>, term: int): Node<C, D> {
    s.(currentTerm := term, leaderNum := 0)
  }

  // ----- every run of one node

  datatype Event<C, D> =
    | AppendEntry(args: AppendArgs<C>)
    | Start(command: C)
    | LeaderCommit(to: int)
    | TakeSnapshots(data: D, index: int)
    | InstallSnapshot(term: int, snapshot: Snapshot<D>)
    | RequestVote(vote: VoteArgs)
    | Campaign
    | Win
    | Outdated(laterTerm: int)
    | Timeout(follower: bool)
    | StepDown
    | Refused(followersTerm: int)

  /** The service takes snapshots at indices it was sent; an installed snapshot
      agrees with what the node has committed at its boundary. */
  ghost predicate Allowed<C, D>(s: Node<C, D>, e: Event<C, D>)
    requires s.Inv()
  {
    match e
    case TakeSnapshots(_, index) => index <= s.commitIndex
    case InstallSnapshot(_, snapshot) =>
      s.lastIndexInSnapshot < snapshot.lastIndex <= s.commitIndex ==>
        s.EntryAt(snapshot.lastIndex).term == snapshot.lastTerm
    case _ => true
  }

  function Step<C, D>(s: Node<C, D>, e: Event<C, D>): Node<C, D>
    requires s.Inv() && Allowed(s, e)
  {
    match e
    case AppendEntry(args) => AppendStep(s, args)
    case Start(command) => StartStep(s, command)
    case LeaderCommit(to) => LeaderCommitStep(s, to)
    case TakeSnapshots(data, index) => TakeSnapshotStep(s, data, index)
    case InstallSnapshot(term, snapshot) => InstallStep(s, term, snapshot)
    case RequestVote(vote) => VoteStep(s, vote)
    case Campaign => CampaignStep(s)
    case Win => WinStep(s)
    case Outdated(laterTerm) => OutdatedStep(s, laterTerm)
    case Timeout(follower) => TimeoutStep(s, follower)
    case StepDown => StepDownStep(s)
    case Refused(followersTerm) => RefusedStep(s, followersTerm)
  }

  /** How the service's position moves with one message: a command is the next
      one, a snapshot jumps ahead. */
  ghost predicate Follows<C, D>(position: int, msg: ApplyMsg<C, D>) {
    match msg
    case Committed(index, _) => index == position + 1
    case Installed(snapshot) => position < snapshot.lastIndex
  }

  ghost function Position<C, D>(msg: ApplyMsg<C, D>): int {
    match msg
    case Committed(index, _) => index
    case Installed(snapshot) => snapshot.lastIndex
  }

  /** Read in order, the messages take the service from position 0 to `to`
      without a gap and without going back. */
  ghost predicate Consecutive<C, D>(msgs: seq<ApplyMsg<C, D>>, from: int, to: int) {
    if msgs == [] then from == to
    else Follows(from, msgs[0]) && Consecutive(msgs[1..], Position(msgs[0]), to)
  }

  lemma {:induction false} ConsecutiveConcat<C, D>(
    a: seq<ApplyMsg<C, D>>, b: seq<ApplyMsg<C, D>>, from: int, mid: int, to: int)
    requires Consecutive(a, from, mid) && Consecutive(b, mid, to)
    ensures Consecutive(a + b, from, to)
  {
    if a == [] {
      assert a + b == b;
    } else {
      assert (a + b)[1..] == a[1..] + b;
      ConsecutiveConcat(a[1..], b, Position(a[0]), mid, to);
    }
  }

  lemma {:induction false} MessagesConsecutive<C, D>(s: Node<C, D>, lo: int, hi: int)
    requires s.lastIndexInSnapshot <= lo <= hi <= s.LastLogIndex() + 1
    ensures Consecutive(Messages(s, lo, hi), lo - 1, hi - 1)
    decreases hi - lo
  {
    if lo < hi {
      MessagesConsecutive(s, lo, hi - 1);
      var last: ApplyMsg<C, D> := Committed(hi - 1, s.EntryAt(hi - 1).command);
      assert Consecutive([last], hi - 2, hi - 1);
      ConsecutiveConcat(Messages(s, lo, hi - 1), [last], lo - 1, hi - 2, hi - 1);
    }
  }

  lemma {:induction false} MessagesLogged<C, D>(s: Node<C, D>, lo: int, hi: int)
    requires s.lastIndexInSnapshot <= lo <= hi <= s.LastLogIndex() + 1
    ensures |Messages(s, lo, hi)| == hi - lo
    ensures forall k | 0 <= k < hi - lo :: Messages(s, lo, hi)[k] == Committed(lo + k, s.EntryAt(lo + k).command)
    decreases hi - lo
  {
    if lo < hi {
      MessagesLogged(s, lo, hi - 1);
    }
  }

  /** What one handler may do: the boundary and the commit index only move up,
      committed entries that are still in the log stay, and the messages go on
      where they left off. */
  ghost predicate Proceeds<C, D>(s: Node<C, D>, s': Node<C, D>)
    requires s.Inv()
  {
    && s'.Inv()
    && s.lastIndexInSnapshot <= s'.lastIndexInSnapshot
    && s.commitIndex <= s'.commitIndex
    && (forall i | s'.lastIndexInSnapshot < i <= s.commitIndex :: s'.EntryAt(i) == s.EntryAt(i))
    && s.applyCh <= s'.applyCh
    && Consecutive(s'.applyCh[|s.applyCh|..], s.commitIndex, s'.commitIndex)
    && SentIsLogged(s', |s.applyCh|)
  }

  /** And the term does not fall. */
  ghost predicate Advances<C, D>(s: Node<C, D>, s': Node<C, D>)
    requires s.Inv()
  {
    Proceeds(s, s') && s.currentTerm <= s'.currentTerm
  }

  /** The commands sent from the `n`-th message on are committed, and the log
      still says the same where it still goes back that far. */
  ghost predicate SentIsLogged<C, D>(s: Node<C, D>, n: nat)
    requires s.Inv()
  {
    forall k | n <= k < |s.applyCh| && s.applyCh[k].Committed? ::
      var index := s.applyCh[k].index;
      && index <= s.commitIndex
      && (s.lastIndexInSnapshot < index ==> s.EntryAt(index).command == s.applyCh[k].command)
  }

  lemma CommitAdvances<C, D>(s: Node<C, D>, to: int)
    requires s.Inv() && s.commitIndex <= to <= s.LastLogIndex()
    ensures Advances(s, CommitTo(s, to))
  {
    hide Messages, Consecutive;
    MessagesConsecutive(s, s.commitIndex + 1, to + 1);
    MessagesLogged(s, s.commitIndex + 1, to + 1);
    assert CommitTo(s, to).applyCh[|s.applyCh|..] == Messages(s, s.commitIndex + 1, to + 1);
  }

  lemma AdvancesTransitive<C, D>(s: Node<C, D>, t: Node<C, D>, u: Node<C, D>)
    requires s.Inv() && Advances(s, t) && Advances(t, u)
    ensures Advances(s, u)
  {
    ProceedsTransitive(s, t, u);
  }

  lemma ProceedsTransitive<C, D>(s: Node<C, D>, t: Node<C, D>, u: Node<C, D>)
    requires s.Inv() && Proceeds(s, t) && Proceeds(t, u)
    ensures Proceeds(s, u)
  {
    forall i | u.lastIndexInSnapshot < i <= s.commitIndex
      ensures u.EntryAt(i) == s.EntryAt(i)
    {
      assert u.EntryAt(i) == t.EntryAt(i);
    }
    forall k | |s.applyCh| <= k < |u.applyCh| && u.applyCh[k].Committed?
      ensures u.applyCh[k].index <= u.commitIndex
      ensures u.lastIndexInSnapshot < u.applyCh[k].index ==>
                u.EntryAt(u.applyCh[k].index).command == u.applyCh[k].command
    {
      if k < |t.applyCh| {
        assert u.applyCh[k] == t.applyCh[k];
      }
    }
    var a, b := t.applyCh[|s.applyCh|..], u.applyCh[|t.applyCh|..];
    ConsecutiveConcat(a, b, s.commitIndex, t.commitIndex, u.commitIndex);
    assert u.applyCh[|s.applyCh|..] == a + b;
  }

  /** Every event proceeds. */
  lemma StepProceeds<C, D>(s: Node<C, D>, e: Event<C, D>)
    requires s.Inv() && Allowed(s, e)
    ensures Proceeds(s, Step(s, e))
  {
    hide Step, Proceeds;
    if e.Refused? {
      RefusedProceeds(s, e.followersTerm);
    } else {
      StepAdvances(s, e);
    }
  }

  lemma RefusedProceeds<C, D>(s: Node<C, D>, term: int)
    requires s.Inv()
    ensures Step(s, Refused(term)) == RefusedStep(s, term) && Proceeds(s, RefusedStep(s, term))
  {
    hide Proceeds;
    QuietProceeds(s, RefusedStep(s, term));
  }

  /** And no event but a refusal of a lower term takes the term back. */
  lemma StepAdvances<C, D>(s: Node<C, D>, e: Event<C, D>)
    requires s.Inv() && Allowed(s, e)
    ensures Advances(s, Step(s, e)) <==> (e.Refused? ==> s.currentTerm <= e.followersTerm)
  {
    if e.Refused? {
      hide Proceeds;
      RefusedProceeds(s, e.followersTerm);
    } else {
      OtherAdvances(s, e);
    }
  }

  lemma OtherAdvances<C, D>(s: Node<C, D>, e: Event<C, D>)
    requires s.Inv() && Allowed(s, e) && !e.Refused?
    ensures Advances(s, Step(s, e))
  {
    hide Advances, AppendStep, InstallStep, LeaderCommitStep, TakeSnapshotStep;
    match e
    case AppendEntry(args) => AppendAdvances(s, args);
    case LeaderCommit(to) => LeaderCommitAdvances(s, to);
    case InstallSnapshot(term, snapshot) => InstallAdvances(s, term, snapshot);
    case TakeSnapshots(data, index) => SnapshotAdvances(s, data, index);
    case _ => LocalAdvances(s, e);
  }

  lemma LeaderCommitAdvances<C, D>(s: Node<C, D>, to: int)
    requires s.Inv()
    ensures Advances(s, LeaderCommitStep(s, to))
  {
    hide Advances, CommitTo;
    Quiet(s, s);
    if to > s.commitIndex {
      CommitAdvances(s, if to <= s.LastLogIndex() then to else s.LastLogIndex());
    }
  }

  lemma SnapshotAdvances<C, D>(s: Node<C, D>, data: D, index: int)
    requires s.Inv() && index <= s.commitIndex
    ensures Advances(s, TakeSnapshotStep(s, data, index))
  {
    hide Advances;
    Quiet(s, TakeSnapshotStep(s, data, index));
  }

  /** Votes and changes of leader or term. */
  lemma LocalAdvances<C, D>(s: Node<C, D>, e: Event<C, D>)
    requires s.Inv() && Allowed(s, e)
    requires !e.AppendEntry? && !e.LeaderCommit? && !e.InstallSnapshot? && !e.TakeSnapshots? && !e.Refused?
    ensures Advances(s, Step(s, e))
  {
    hide Advances;
    Quiet(s, Step(s, e));
  }

  /** A step that sends nothing. */
  lemma Quiet<C, D>(s: Node<C, D>, s': Node<C, D>)
    requires s.Inv() && s'.Inv() && s'.commitIndex == s.commitIndex && s'.applyCh == s.applyCh
    requires s.lastIndexInSnapshot <= s'.lastIndexInSnapshot && s.currentTerm <= s'.currentTerm
    requires forall i | s'.lastIndexInSnapshot < i <= s.commitIndex :: s'.EntryAt(i) == s.EntryAt(i)
    ensures Advances(s, s')
  {
    QuietProceeds(s, s');
  }

  lemma QuietProceeds<C, D>(s: Node<C, D>, s': Node<C, D>)
    requires s.Inv() && s'.Inv() && s'.commitIndex == s.commitIndex && s'.applyCh == s.applyCh
    requires s.lastIndexInSnapshot <= s'.lastIndexInSnapshot
    requires forall i | s'.lastIndexInSnapshot < i <= s.commitIndex :: s'.EntryAt(i) == s.EntryAt(i)
    ensures Proceeds(s, s')
  {
    assert s'.applyCh[|s.applyCh|..] == [];
  }

  lemma InstallAdvances<C, D>(s: Node<C, D>, term: int, snapshot: Snapshot<D>)
    requires s.Inv() && Allowed(s, InstallSnapshot(term, snapshot))
    ensures Advances(s, InstallStep(s, term, snapshot))
  {
    var s' := InstallStep(s, term, snapshot);
    if Refuses(s, term, snapshot) {
      Quiet(s, s');
    } else {
      var msgs := s'.applyCh[|s.applyCh|..];
      assert msgs == [Installed(snapshot)] && msgs[1..] == [];
    }
  }

  lemma AppendAdvances<C, D>(s: Node<C, D>, args: AppendArgs<C>)
    requires s.Inv()
    ensures Advances(s, AppendStep(s, args))
  {
    if args.term < s.currentTerm {
      Quiet(s, s);
    } else {
      var s1 := AdoptTerm(s, args.term, args.leaderID);
      Quiet(s, s1);
      if Matches(s1, args.prevLogIndex, args.prevLogTerm) && s1.commitIndex <= args.prevLogIndex {
        var committed := CommitTo(s1, NewCommit(s1, args));
        CommitAdvances(s1, NewCommit(s1, args));
        var s2 := committed.Persisted();
        Quiet(committed, s2);
        AdvancesTransitive(s1, committed, s2);
        AdvancesTransitive(s, s1, s2);
        if args.entries != [] {
          WriteKeepsCommitted(s2, args);
          AdvancesTransitive(s, s2, WriteEntries(s2, args));
        }
      }
    }
  }

  lemma WriteKeepsCommitted<C, D>(s: Node<C, D>, args: AppendArgs<C>)
    requires s.Inv() && s.commitIndex <= args.prevLogIndex <= s.LastLogIndex()
    ensures Advances(s, WriteEntries(s, args))
  {
    var s' := WriteEntries(s, args);
    var start := args.prevLogIndex + 1 - s.lastIndexInSnapshot;
    assert forall i | 0 <= i < start :: s'.log[i] == s.log[i];
    Quiet(s, s');
  }

  /** The events can happen one after the other from `s`. */
  ghost predicate IsRun<C, D>(s: Node<C, D>, events: seq<Event<C, D>>)
    requires s.Inv()
    decreases |events|
  {
    events == [] ||
    (Allowed(s, events[0]) &&
     (StepProceeds(s, events[0]);
      IsRun(Step(s, events[0]), events[1..])))
  }

  ghost function After<C, D>(s: Node<C, D>, events: seq<Event<C, D>>): Node<C, D>
    requires s.Inv() && IsRun(s, events)
    decreases |events|
  {
    if events == [] then s else
      StepProceeds(s, events[0]);
      After(Step(s, events[0]), events[1..])
  }

  lemma {:induction false} RunThen<C, D>(s: Node<C, D>, events: seq<Event<C, D>>, e: Event<C, D>)
    requires s.Inv() && IsRun(s, events) && After(s, events).Inv() && Allowed(After(s, events), e)
    ensures IsRun(s, events + [e]) && After(s, events + [e]) == Step(After(s, events), e)
    decreases |events|
  {
    hide Step, Proceeds;
    if events == [] {
      assert events + [e] == [e] && [e][1..] == [];
      StepProceeds(s, e);
      ProceedsKeepsInv(s, Step(s, e));
    } else {
      StepProceeds(s, events[0]);
      ProceedsKeepsInv(s, Step(s, events[0]));
      assert (events + [e])[1..] == events[1..] + [e];
      RunThen(Step(s, events[0]), events[1..], e);
    }
  }

  /** No refusal in the run is of a term below the node's own. */
  ghost predicate TermsRise<C, D>(s: Node<C, D>, events: seq<Event<C, D>>)
    requires s.Inv() && IsRun(s, events)
    decreases |events|
  {
    events == [] ||
    ((events[0].Refused? ==> s.currentTerm <= events[0].followersTerm) &&
     (StepProceeds(s, events[0]);
      TermsRise(Step(s, events[0]), events[1..])))
  }

  /** From any point of any run to any later point. */
  lemma {:induction false} RunAdvances<C, D>(s: Node<C, D>, events: seq<Event<C, D>>)
    requires s.Inv() && IsRun(s, events)
    ensures Proceeds(s, After(s, events))
    ensures TermsRise(s, events) ==> Advances(s, After(s, events))
    decreases |events|
  {
    if events == [] {
      Quiet(s, s);
    } else {
      hide Step, Proceeds;
      StepProceeds(s, events[0]);
      StepAdvances(s, events[0]);
      var s1 := Step(s, events[0]);
      ProceedsKeepsInv(s, s1);
      RunAdvances(s1, events[1..]);
      ProceedsTransitive(s, s1, After(s1, events[1..]));
    }
  }

  /** A node's whole life up to a crash: what its service received is exactly
      the committed prefix, in order, each command as the log has it. */
  lemma LifeOfANode<C, D>(me: int, events: seq<Event<C, D>>)
    requires IsRun(Fresh(me), events)
    ensures var s := After(Fresh(me), events);
            && s.Inv()
            && Consecutive(s.applyCh, 0, s.commitIndex)
            && SentIsLogged(s, 0)
  {
    var s := After(Fresh(me), events);
    RunAdvances(Fresh(me), events);
    assert s.applyCh[0..] == s.applyCh;
  }

  // ----- compaction and restart

  /** Taking a snapshot changes where the log starts, not what it says. */
  lemma SnapshotKeepsLog<C, D>(s: Node<C, D>, data: D, index: int)
    requires s.Inv() && index <= s.commitIndex
    ensures var s' := TakeSnapshotStep(s, data, index);
            && s'.LastLogIndex() == s.LastLogIndex()
            && s.lastIndexInSnapshot <= s'.lastIndexInSnapshot
            && (forall i | s'.lastIndexInSnapshot <= i <= s.LastLogIndex() :: s'.EntryAt(i) == s.EntryAt(i))
            && s'.log[0].term == s'.lastTermInSnapshot
  {
  }

  function ReadPersist<C, D>(s: Node<C, D>): Node<C, D> {
    if s.disk.raftState.None? then s
    else s.(currentTerm := s.disk.raftState.value.currentTerm, log := s.disk.raftState.value.log)
  }

  /** A node that starts with what an earlier life left on disk. */
  function Restart<C, D>(me: int, disk: Disk<C, D>): Node<C, D> {
    var s := Node(me, -1, 0, -1, [], 0, 0, 0, disk, []);
    var s := if disk.snapshot.None? then s else ReadSnapshot(s, disk.snapshot.value);
    var s := ReadPersist(s);
    var s := if |s.log| < 1 then s.(log := s.log + [CommandTerm(None, 0)]) else s;
    s.(commitIndex := s.lastIndexInSnapshot)
  }

  /** The disk holds the log and the boundary of the node. */
  ghost predicate Saved<C, D>(s: Node<C, D>) {
    && (match s.disk.raftState
        case None => s.log == [CommandTerm(None, 0)]
        case Some(state) => state.log == s.log)
    && (match s.disk.snapshot
        case None => s.lastIndexInSnapshot == 0 && s.lastTermInSnapshot == 0
        case Some(snapshot) =>
          0 < snapshot.lastIndex == s.lastIndexInSnapshot && snapshot.lastTerm == s.lastTermInSnapshot)
  }

  /** And its term. */
  ghost predicate TermSaved<C, D>(s: Node<C, D>) {
    s.currentTerm == if s.disk.raftState.None? then 0 else s.disk.raftState.value.currentTerm
  }

  lemma {:induction false} RunIsSaved<C, D>(s: Node<C, D>, events: seq<Event<C, D>>)
    requires s.Inv() && Saved(s) && IsRun(s, events)
    requires forall i | 0 <= i < |events| :: !events[i].InstallSnapshot?
    ensures After(s, events).Inv() && Saved(After(s, events))
    ensures TermSaved(s) && (forall i | 0 <= i < |events| :: !events[i].Refused?) ==> TermSaved(After(s, events))
    decreases |events|
  {
    if events != [] {
      hide Saved, TermSaved, Step, Proceeds;
      StepProceeds(s, events[0]);
      ProceedsKeepsInv(s, Step(s, events[0]));
      StepIsSaved(s, events[0]);
      if TermSaved(s) {
        StepSavesTerm(s, events[0]);
      }
      RunIsSaved(Step(s, events[0]), events[1..]);
    }
  }

  lemma ProceedsKeepsInv<C, D>(s: Node<C, D>, s': Node<C, D>)
    requires s.Inv() && Proceeds(s, s')
    ensures s'.Inv()
  {
  }

  lemma StepIsSaved<C, D>(s: Node<C, D>, e: Event<C, D>)
    requires s.Inv() && Saved(s) && Allowed(s, e) && !e.InstallSnapshot?
    ensures Saved(Step(s, e))
  {
    hide AppendStep, Messages;
    if e.AppendEntry? {
      AppendIsSaved(s, e.args);
    }
  }

  lemma AppendIsSaved<C, D>(s: Node<C, D>, args: AppendArgs<C>)
    requires s.Inv() && Saved(s)
    ensures Saved(AppendStep(s, args))
  {
    hide Messages, Overwrite, Cut;
  }

  /** Only a refusal leaves a term unsaved, exactly when it changes it. */
  lemma StepSavesTerm<C, D>(s: Node<C, D>, e: Event<C, D>)
    requires s.Inv() && TermSaved(s) && Allowed(s, e)
    ensures TermSaved(Step(s, e)) <==> (e.Refused? ==> e.followersTerm == s.currentTerm)
  {
    hide Messages, Overwrite, Cut;
  }

  /** Two nodes whose logs say the same under the same indices. */
  ghost predicate SameLog<C, D>(s: Node<C, D>, r: Node<C, D>)
    requires s.Inv() && r.Inv()
  {
    && r.lastIndexInSnapshot == s.lastIndexInSnapshot && r.LastLogIndex() == s.LastLogIndex()
    && forall i | s.lastIndexInSnapshot <= i <= s.LastLogIndex() :: r.EntryAt(i) == s.EntryAt(i)
  }

  lemma RestartOfSaved<C, D>(s: Node<C, D>)
    requires s.Inv() && Saved(s)
    ensures var r := Restart(s.me, s.disk);
            && r.Inv() && SameLog(s, r) && r.commitIndex == s.lastIndexInSnapshot
            && r.me == s.me && r.leaderNum == -1 && r.votedFor == -1 && r.disk == s.disk
            && r.applyCh == (if s.disk.snapshot.None? then [] else [Installed(s.disk.snapshot.value)])
            && (r.currentTerm == s.currentTerm <==> TermSaved(s))
  {
    var r := Restart(s.me, s.disk);
    assert r.log == s.log;
  }

  lemma FreshIsSaved<C, D>(me: int)
    ensures var s: Node<C, D> := Fresh(me); s.Inv() && Saved(s) && TermSaved(s) && s.me == me
  {
  }

  lemma {:induction false} RunKeepsMe<C, D>(s: Node<C, D>, events: seq<Event<C, D>>)
    requires s.Inv() && IsRun(s, events)
    ensures After(s, events).me == s.me
    decreases |events|
  {
    if events != [] {
      StepProceeds(s, events[0]);
      RunKeepsMe(Step(s, events[0]), events[1..]);
    }
  }

  /** Over every run without an installed snapshot, a crash loses nothing of the
      log: the restarted node has the same entries under the same indices, and
      the same term unless a refusal left it unsaved. It knows no leader, has not
      voted, and its service gets the saved snapshot first. */
  lemma RestartRebuildsLog<C, D>(me: int, events: seq<Event<C, D>>)
    requires IsRun(Fresh(me), events)
    requires forall i | 0 <= i < |events| :: !events[i].InstallSnapshot?
    ensures var s := After(Fresh(me), events); var r := Restart(me, s.disk);
            && s.Inv() && r.Inv() && SameLog(s, r)
            && r.commitIndex == s.lastIndexInSnapshot
            && r.me == me && r.leaderNum == -1 && r.votedFor == -1 && r.disk == s.disk
            && r.applyCh == (if s.disk.snapshot.None? then [] else [Installed(s.disk.snapshot.value)])
            && (r.currentTerm == s.currentTerm <==> TermSaved(s))
            && ((forall i | 0 <= i < |events| :: !events[i].Refused?) ==> r.currentTerm == s.currentTerm)
  {
    hide Restart, Saved, TermSaved, Step, SameLog, Fresh;
    FreshIsSaved<C, D>(me);
    var s: Node<C, D> := After(Fresh(me), events);
    RunIsSaved(Fresh(me), events);
    RunKeepsMe(Fresh(me), events);
    RestartOfSaved(s);
  }

  /** A crash right after an installed snapshot finds the new snapshot beside
      the old log: the log is rebuilt only if nothing was on disk or the old log
      was the new boundary entry alone. */
  lemma RestartAfterInstall<C, D>(s: Node<C, D>, term: int, snapshot: Snapshot<D>)
    requires s.Inv() && Saved(s) && !Refuses(s, term, snapshot)
    ensures var s' := InstallStep(s, term, snapshot);
            Restart(s.me, s'.disk).log == s'.log <==>
            s.disk.raftState.None? || s.log == [CommandTerm(None, snapshot.lastTerm)]
  {
  }

  /** A leader with one entry that crashes after installing a snapshot up to 7
      comes back with its old entry 1 under index 8. */
  lemma RestartMixesLogs()
    ensures var s: Node<int, int> := StartStep(WinStep(CampaignStep(TimeoutStep(Fresh(3), false))), 5);
            var s' := InstallStep(s, 2, Snapshot(0, 7, 2));
            var r := Restart(3, s'.disk);
            && s.Inv() && Saved(s)
            && s'.LastLogIndex() == 7 && r.LastLogIndex() == 8 && r.EntryAt(8) == s.EntryAt(1)
  {
  }

  // ----- installing a snapshot can take back what was committed

  /** The commit index falls exactly when a snapshot is installed that ends
      below it. */
  lemma InstallLowersCommit<C, D>(s: Node<C, D>, term: int, snapshot: Snapshot<D>)
    requires s.Inv()
    ensures InstallStep(s, term, snapshot).commitIndex < s.commitIndex <==>
            && s.currentTerm <= term
            && s.lastIndexInSnapshot < snapshot.lastIndex < s.commitIndex
            && s.EntryAt(snapshot.lastIndex).term != snapshot.lastTerm
  {
  }

  const TWO: seq<CommandTerm<int>> := [CommandTerm(None, 0), CommandTerm(Some(4), 1), CommandTerm(Some(5), 1)]

  /** A leader of term 1 sends two entries, then that both are committed. */
  const STORE: AppendArgs<int> := AppendArgs(1, 1, 0, 0, TWO[1..], 0)
  const COMMIT: AppendArgs<int> := AppendArgs(1, 1, 2, 1, [], 2)

  /** A node that committed both goes back to 1 for a snapshot of a leader of term 2. */
  lemma CommittedTakenBack()
    ensures var events: seq<Event<int, int>> := [AppendEntry(STORE), AppendEntry(COMMIT)];
            && IsRun(Fresh(0), events)
            && var s := After(Fresh(0), events);
               s.Inv() && s.commitIndex == 2 && InstallStep(s, 2, Snapshot(0, 1, 2)).commitIndex == 1
  {
    hide AppendStep;
    var s: Node<int, int> := Fresh(0);
    TwoStored(s);
    var s1 := AppendStep(s, STORE);
    TwoCommitted(s1);
    var events: seq<Event<int, int>> := [AppendEntry(STORE), AppendEntry(COMMIT)];
    assert events[1..] == [AppendEntry(COMMIT)] && events[1..][1..] == [];
    assert After(s1, events[1..]) == AppendStep(s1, COMMIT);
  }

  lemma TwoStored(s: Node<int, int>)
    requires s == Fresh(0)
    ensures var s1 := AppendStep(s, STORE);
            s1.log == TWO && s1.commitIndex == s1.lastIndexInSnapshot == s1.lastTermInSnapshot == 0 && s1.currentTerm == 1
  {
    assert Overwrite(s.log, 1, STORE.entries) == TWO;
  }

  lemma TwoCommitted(s: Node<int, int>)
    requires s.log == TWO && s.commitIndex == s.lastIndexInSnapshot == s.lastTermInSnapshot == 0 && s.currentTerm == 1
    ensures var s1 := AppendStep(s, COMMIT);
            && s1.log == TWO && s1.lastIndexInSnapshot == s1.lastTermInSnapshot == 0
            && s1.commitIndex == 2 && s1.currentTerm == 1
  {
  }

  // ----- a refused snapshot can take the term back

  /** A node becomes leader of term 1, commits two commands, takes a snapshot of
      the first, and hears of term 5. */
  const LEADS: seq<Event<int, int>> := [Timeout(false), Campaign, Win, Start(4), Start(5)]
  const MOVES: seq<Event<int, int>> := LEADS + [LeaderCommit(2)] + [TakeSnapshots(0, 2)] + [RequestVote(VoteArgs(5, 1, 0, 0))]

  /** A follower of term 2 had refused the snapshot of term 1: when its reply
      arrives, the term falls from 5 to 2, unsaved, and the node goes on as leader. */
  lemma TermTakenBack()
    ensures IsRun(Fresh(0), MOVES)
    ensures var s := After(Fresh(0), MOVES);
            && s.Inv() && s.currentTerm == 5 && Saved(s) && TermSaved(s) && s.lastIndexInSnapshot == 1
            && var s' := Step(s, Refused(2));
               && s'.currentTerm == 2 && s'.leaderNum == s'.me
               && !Advances(s, s') && !TermSaved(s') && Restart(0, s'.disk).currentTerm == 5
  {
    hide Leading, IsRun, After, LeaderCommitStep, TakeSnapshotStep, VoteStep, Restart, Saved, TermSaved, Advances;
    Leads();
    var s5 := After(Fresh(0), LEADS);
    LeadingInv(s5, TWO, 0, 0);
    RunThen(Fresh(0), LEADS, LeaderCommit(2));
    Commits(s5);
    var s6 := LeaderCommitStep(s5, 2);
    LeadingInv(s6, TWO, 2, 0);
    RunThen(Fresh(0), LEADS + [LeaderCommit(2)], TakeSnapshots(0, 2));
    Compacts(s6);
    var s7 := TakeSnapshotStep(s6, 0, 2);
    LeadingInv(s7, TWO[1..], 2, 1);
    RunThen(Fresh(0), LEADS + [LeaderCommit(2)] + [TakeSnapshots(0, 2)], RequestVote(VoteArgs(5, 1, 0, 0)));
    Hears(s7);
  }

  ghost predicate Leading(s: Node<int, int>, log: seq<CommandTerm<int>>, commitIndex: int, boundary: int)
    requires log != []
  {
    && s.me == s.leaderNum == 0 && s.currentTerm == 1 && s.log == log && s.commitIndex == commitIndex
    && s.lastIndexInSnapshot == boundary && s.lastTermInSnapshot == log[0].term
    && s.disk.raftState == Some(RaftState(1, log))
    && (if boundary == 0 then s.disk.snapshot.None? else s.disk.snapshot == Some(Snapshot(0, boundary, log[0].term)))
  }

  lemma Leads()
    ensures IsRun(Fresh(0), LEADS) && Leading(After(Fresh(0), LEADS), TWO, 0, 0)
  {
  }

  lemma Commits(s: Node<int, int>)
    requires Leading(s, TWO, 0, 0)
    ensures Leading(LeaderCommitStep(s, 2), TWO, 2, 0)
  {
  }

  lemma Compacts(s: Node<int, int>)
    requires Leading(s, TWO, 2, 0)
    ensures Leading(TakeSnapshotStep(s, 0, 2), TWO[1..], 2, 1)
  {
  }

  lemma LeadingInv(s: Node<int, int>, log: seq<CommandTerm<int>>, commitIndex: int, boundary: int)
    requires log != [] && Leading(s, log, commitIndex, boundary) && 0 <= boundary <= commitIndex < boundary + |log|
    ensures s.Inv() && s.commitIndex == commitIndex
  {
  }

  lemma Hears(s: Node<int, int>)
    requires Leading(s, TWO[1..], 2, 1)
    ensures var s8 := VoteStep(s, VoteArgs(5, 1, 0, 0));
            && s8.Inv() && s8.currentTerm == 5 && Saved(s8) && TermSaved(s8) && s8.lastIndexInSnapshot == 1
            && var s' := RefusedStep(s8, 2);
               && s'.currentTerm == 2 && s'.leaderNum == s'.me
               && !Advances(s8, s') && !TermSaved(s') && Restart(0, s'.disk).currentTerm == 5
  {
  }
}
