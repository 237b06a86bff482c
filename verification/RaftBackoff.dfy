/** The leader's exchange with one follower: it backs off until an entry
    matches, and it always ends. */
module RaftBackoff {
  import opened RaftNode
  import opened RaftServer

  datatype TermIndex = TermIndex(term: int, lastIndexOfTerm: int)

  /** Position `i` is the last of a stretch of entries of equal term. */
  ghost predicate EndsTerm<C>(log: seq<CommandTerm<C>>, i: int) {
    0 <= i < |log| && (i + 1 < |log| ==> log[i].term != log[i + 1].term)
  }

  ghost predicate Describes<C>(t: TermIndex, log: seq<CommandTerm<C>>) {
    EndsTerm(log, t.lastIndexOfTerm) && log[t.lastIndexOfTerm].term == t.term
  }

  /** The ends of all stretches of equal term, last first. */
  method MakeTermIndex<C>(log: seq<CommandTerm<C>>) returns (termList: seq<TermIndex>)
    requires log != []
    ensures termList != []
    ensures forall k | 0 <= k < |termList| :: Describes(termList[k], log)
    ensures forall k, l | 0 <= k < l < |termList| :: termList[l].lastIndexOfTerm < termList[k].lastIndexOfTerm
    ensures forall i | EndsTerm(log, i) :: exists k :: 0 <= k < |termList| && termList[k].lastIndexOfTerm == i
  {
    var indexIte := |log| - 1;
    termList := [];
    var curLastTerm := log[indexIte].term + 1;
    while indexIte >= 0
      invariant -1 <= indexIte < |log|
      invariant forall k | 0 <= k < |termList| :: indexIte < termList[k].lastIndexOfTerm && Describes(termList[k], log)
      invariant forall k, l | 0 <= k < l < |termList| :: termList[l].lastIndexOfTerm < termList[k].lastIndexOfTerm
      invariant forall i | indexIte < i && EndsTerm(log, i) ::
                  exists k :: 0 <= k < |termList| && termList[k].lastIndexOfTerm == i
      invariant indexIte + 1 < |log| ==> curLastTerm == log[indexIte + 1].term && termList != []
      invariant indexIte + 1 == |log| ==> curLastTerm == log[indexIte].term + 1
    {
      ghost var before := termList;
      if log[indexIte].term != curLastTerm {
        termList := termList + [TermIndex(log[indexIte].term, indexIte)];
        curLastTerm := log[indexIte].term;
        assert termList[|before|].lastIndexOfTerm == indexIte;
      }
      assert forall k | 0 <= k < |before| :: termList[k] == before[k];
      indexIte := indexIte - 1;
    }
  }

  /** Between exchanges: the follower's next index follows its match index, or
      nothing is known to match yet. */
  ghost predicate Settled(matchIndex: int, nextIndex: int) {
    0 <= matchIndex < nextIndex && (matchIndex == 0 || nextIndex == matchIndex + 1)
  }

  /** The first stretch whose term is at most `term`, or the last of all. */
  ghost function Stretch(termList: seq<TermIndex>, term: int): (k: nat)
    requires termList != []
    ensures k < |termList|
    ensures forall l | 0 <= l < k :: termList[l].term > term
    ensures k < |termList| - 1 ==> termList[k].term <= term
  {
    if |termList| == 1 || termList[0].term <= term then 0 else 1 + Stretch(termList[1..], term)
  }

  /** Where to try next after a rejection: one entry back, no further than the
      follower's log goes, and back to the leader's last entry of a term no
      higher than the one the follower reported. */
  method BackOff(prevLogIndex: int, reply: AppendReply, termList: seq<TermIndex>) returns (prevlog: int)
    requires 0 < prevLogIndex && 0 <= reply.lastLogIndex
    requires termList != [] && forall k | 0 <= k < |termList| :: 0 <= termList[k].lastIndexOfTerm
    ensures 0 <= prevlog < prevLogIndex
    ensures var short := if reply.lastLogIndex == 0 then prevLogIndex - 1 else Min(prevLogIndex - 1, reply.lastLogIndex);
            var t := termList[Stretch(termList, reply.termOfArgsPreLogIndex)];
            prevlog == if reply.termOfArgsPreLogIndex != 0 && t.term <= reply.termOfArgsPreLogIndex
                       then Min(t.lastIndexOfTerm, short) else short
  {
    prevlog := prevLogIndex - 1;
    if reply.lastLogIndex != 0 && prevlog > reply.lastLogIndex {
      prevlog := reply.lastLogIndex;
    }
    var lastTerm := reply.termOfArgsPreLogIndex;
    if lastTerm != 0 {
      var index := 0;
      while index < |termList| - 1 && termList[index].term > lastTerm
        invariant 0 <= index < |termList|
        invariant forall l | 0 <= l < index :: termList[l].term > lastTerm
      {
        index := index + 1;
      }
      assert index == Stretch(termList, lastTerm);
      if termList[index].term <= lastTerm && termList[index].lastIndexOfTerm < prevlog {
        prevlog := termList[index].lastIndexOfTerm;
      }
    }
  }

  lemma AppendKeepsInv<C, D>(s: Node<C, D>, args: AppendArgs<C>)
    requires s.Inv()
    ensures AppendStep(s, args).Inv()
  {
    AppendAdvances(s, args);
  }

  lemma ReplyFacts<C, D>(s: Node<C, D>, args: AppendArgs<C>)
    requires s.Inv() && 0 <= args.prevLogIndex
    ensures var reply := ReplyTo(s, args);
            && 0 <= reply.lastLogIndex
            && (reply.commitIndex != 0 ==> args.prevLogIndex < reply.commitIndex)
  {
  }

  /** The follower has an entry of the leader's term at `prev` and the leader's
      entries from there up to `to`. */
  ghost predicate Holds<C, D>(s: Node<C, D>, log: seq<CommandTerm<C>>, prev: int, to: int) {
    && s.lastIndexInSnapshot <= prev < to <= s.LastLogIndex() && 0 <= prev && to < |log|
    && s.EntryAt(prev).term == log[prev].term
    && forall i | prev < i <= to :: s.EntryAt(i) == log[i]
  }

  /** What a match index other than `before` stands for: entries the follower
      holds, or has committed. */
  ghost predicate Founded<C, D>(s: Node<C, D>, log: seq<CommandTerm<C>>, before: int, matchIndex: int) {
    || matchIndex == before
    || matchIndex <= s.commitIndex
    || exists prev :: Holds(s, log, prev, matchIndex)
  }

  /** The request carries a part of the leader's log. */
  ghost predicate FromLog<C>(args: AppendArgs<C>, log: seq<CommandTerm<C>>) {
    && 0 <= args.prevLogIndex && args.prevLogIndex + |args.entries| < |log|
    && args.prevLogTerm == log[args.prevLogIndex].term
    && forall k | 0 <= k < |args.entries| :: args.entries[k] == log[args.prevLogIndex + 1 + k]
  }

  predicate HasCommands<C>(entries: seq<CommandTerm<C>>) {
    forall i | 0 <= i < |entries| :: entries[i].command.Some?
  }

  /** The request for the entries behind `prev` up to `to`. */
  function Request<C, D>(leader: Node<C, D>, prev: int, to: int, leaderCommit: int): (args: AppendArgs<C>)
    requires 0 <= prev <= to < |leader.log| && HasCommands(leader.log[1..])
    ensures FromLog(args, leader.log) && args.prevLogIndex == prev && |args.entries| == to - prev
    ensures args.term == leader.currentTerm
    ensures HasCommands(args.entries)
  {
    assert leader.log[prev + 1..to + 1] == leader.log[1..][prev..to];
    AppendArgs(leader.currentTerm, leader.me, prev, leader.log[prev].term, leader.log[prev + 1..to + 1], leaderCommit)
  }

  /** A request that is stored adds what it carries; no request takes away what
      the follower holds up to the entry before. */
  lemma AppendKeepsFounded<C, D>(s: Node<C, D>, args: AppendArgs<C>, log: seq<CommandTerm<C>>, before: int, m: int)
    requires s.Inv() && FromLog(args, log) && Founded(s, log, before, m) && m <= args.prevLogIndex
    ensures var s' := AppendStep(s, args); var reply := ReplyTo(s, args);
            && Founded(s', log, before, m)
            && (reply.success && reply.commitIndex == 0 && args.entries != [] ==>
                  Founded(s', log, before, args.prevLogIndex + |args.entries|))
            && (reply.success && reply.commitIndex != 0 ==> Founded(s', log, before, reply.commitIndex))
  {
    hide AppendStep;
    var s', reply := AppendStep(s, args), ReplyTo(s, args);
    ReplyIsTrue(s, args);
    AppendAdvances(s, args);
    if reply.success && reply.commitIndex == 0 && args.entries != [] {
      var prev := args.prevLogIndex;
      forall i | prev < i <= prev + |args.entries|
        ensures s'.EntryAt(i) == log[i]
      {
        assert args.entries[i - prev - 1] == log[prev + 1 + (i - prev - 1)];
        assert s'.EntryAt(prev + 1 + (i - prev - 1)) == args.entries[i - prev - 1];
      }
      assert s'.EntryAt(prev) == s.EntryAt(prev);
      assert Holds(s', log, prev, prev + |args.entries|);
    }
    if prev :| Holds(s, log, prev, m) {
      assert Holds(s', log, prev, m);
    }
  }

  lemma Unchanged<C, D>(s: Node<C, D>, log: seq<CommandTerm<C>>, matchIndex: int)
    ensures Founded(s, log, matchIndex, matchIndex)
  {
  }

  // ----- when every request is answered

  /** The follower could follow: it is in no later term, has no snapshot either,
      and its log starts like the leader's. */
  ghost predicate Willing<C, D>(s: Node<C, D>, leader: Node<C, D>)
    requires leader.log != []
  {
    && s.Inv() && s.currentTerm <= leader.currentTerm
    && s.lastIndexInSnapshot == 0 && s.log[0].term == leader.log[0].term
  }

  ghost predicate AllAnswered(fate: nat -> Fate) {
    forall n :: fate(n) == Answered
  }

  lemma IsAnswered(fate: nat -> Fate, n: nat)
    ensures AllAnswered(fate) ==> fate(n) == Answered
  {
  }

  /** Nothing is known to match yet, and the first request, for what follows
      `prev`, carries entries or will be rejected. */
  ghost predicate CanCatchUp<C, D>(s: Node<C, D>, leader: Node<C, D>, matchIndex: int, prev: int)
    requires 0 <= prev < |leader.log|
  {
    && Willing(s, leader) && matchIndex == 0
    && (prev + 1 < |leader.log| || !HasTerm(s, prev, leader.log[prev].term))
  }

  /** The last entry that the follower has committed has the leader's term. */
  ghost predicate AgreeCommitted<C, D>(s: Node<C, D>, log: seq<CommandTerm<C>>)
    requires s.Inv() && s.lastIndexInSnapshot == 0
  {
    s.commitIndex < |log| ==> s.log[s.commitIndex].term == log[s.commitIndex].term
  }

  /** The follower's log has an entry of term `term` at `index`. */
  ghost predicate HasTerm<C, D>(s: Node<C, D>, index: int, term: int) {
    0 <= index < |s.log| && s.log[index].term == term
  }

  /** What one request of the leader does to a willing follower. */
  lemma WillingStep<C, D>(s: Node<C, D>, leader: Node<C, D>, args: AppendArgs<C>)
    requires leader.log != [] && Willing(s, leader) && FromLog(args, leader.log) && args.term == leader.currentTerm
    ensures var s' := AppendStep(s, args); var reply := ReplyTo(s, args); var prev := args.prevLogIndex;
            && Willing(s', leader) && reply.term <= leader.currentTerm
            && (reply.success <==> HasTerm(s, prev, args.prevLogTerm))
            && (prev == 0 ==> reply.success)
            && (reply.success ==> reply.commitIndex == if prev < s.commitIndex then s.commitIndex else 0)
            && (!reply.success ==> s'.log == s.log && s'.commitIndex == s.commitIndex)
            && (reply.success && prev < s.commitIndex ==> s'.log == s.log && s'.commitIndex == s.commitIndex)
            && (reply.success && s.commitIndex <= prev ==>
                  s'.commitIndex <= prev && HasTerm(s', prev + |args.entries|, leader.log[prev + |args.entries|].term))
  {
    hide AppendStep, ReplyTo, Sent, ReportsTerm;
    AppendAdvances(s, args);
    AppendIs(s, args);
    var s', prev := AppendStep(s, args), args.prevLogIndex;
    assert s'.log[0].term == s.log[0].term;
    if ReplyTo(s, args).success && s.commitIndex <= prev && args.entries != [] {
      var k := |args.entries| - 1;
      assert s'.log[prev + 1 + k] == args.entries[k] == leader.log[prev + 1 + k];
    }
  }

  /** What an exchange that starts behind `prev` comes to. When every request is
      answered and the follower could follow, a match is found, and if the
      follower's last committed entry has the leader's term, one no lower than
      `prev`. A follower of a later term, and no other, makes the leader step down. */
  ghost predicate Outcome<C, D>(
    s0: Node<C, D>, leader: Node<C, D>, fate: nat -> Fate, matchIndex0: int, prev: int,
    s: Node<C, D>, matchIndex: int, leaderNum: int)
    requires 0 <= prev < |leader.log| && s0.Inv()
  {
    && (AllAnswered(fate) && CanCatchUp(s0, leader, matchIndex0, prev) ==>
          0 < matchIndex && (AgreeCommitted(s0, leader.log) ==> prev <= matchIndex))
    && (AllAnswered(fate) && leader.currentTerm < s0.currentTerm ==>
          leaderNum == -1 && matchIndex == matchIndex0 && s == s0)
    && (s0.currentTerm <= leader.currentTerm ==> leaderNum == leader.leaderNum)
  }

  /** One exchange with a leader that has no snapshot and whose log does not
      change meanwhile; what becomes of the n-th request is `fate(n)`. All
      indexing is within bounds, the place where the leader would give up on a
      negative index is not reached, and the indices it keeps for the follower
      are settled again. A new match index is one up to which the follower
      holds the leader's entries from a matching one on, or which it has
      committed. */
  method Exchange<C, D>(
    leader: Node<C, D>, follower: Raft<C, D>, matchIndex0: int, nextIndex0: int, termList: seq<TermIndex>,
    fate: nat -> Fate)
    returns (matchIndex: int, nextIndex: int, leaderNum: int)
    requires leader.Inv() && leader.lastIndexInSnapshot == 0
    requires HasCommands(leader.log[1..])
    requires termList != [] && forall k | 0 <= k < |termList| :: 0 <= termList[k].lastIndexOfTerm
    requires Settled(matchIndex0, nextIndex0)
    requires follower.Now().Inv()
    modifies follower
    ensures follower.Now().Inv()
    ensures Settled(matchIndex, nextIndex) && matchIndex0 <= matchIndex
    ensures Founded(follower.Now(), leader.log, matchIndex0, matchIndex)
    ensures nextIndex0 - 1 < |leader.log| ==>
              Outcome(old(follower.Now()), leader, fate, matchIndex0, nextIndex0 - 1,
                      follower.Now(), matchIndex, leaderNum)
  {
    hide AppendStep, ReplyTo, Founded, FromLog, Request, Going, Outcome, HasCommands;
    Unchanged(follower.Now(), leader.log, matchIndex0);
    var log := leader.log;
    matchIndex, nextIndex, leaderNum := matchIndex0, nextIndex0, leader.leaderNum;
    var prevLogIndex := nextIndex - 1;
    if prevLogIndex >= |log| {
      return;
    }
    var appEn := Request(leader, prevLogIndex, |log| - 1, leader.commitIndex);
    var count := 0;
    ghost var s0 := follower.Now();
    ghost var accepted := false;
    FirstGoing(s0, leader, appEn, matchIndex0, fate);
    var n := 0;
    while true
      invariant follower.Now().Inv() && 0 <= n && 0 <= count < 8
      invariant 0 <= appEn.prevLogIndex < |log| && nextIndex == appEn.prevLogIndex + 1
      invariant matchIndex0 <= matchIndex <= appEn.prevLogIndex && (matchIndex == 0 || matchIndex == appEn.prevLogIndex)
      invariant appEn.prevLogIndex + |appEn.entries| < |log| && FromLog(appEn, log)
      invariant appEn.term == leader.currentTerm && HasCommands(appEn.entries)
      invariant Founded(follower.Now(), log, matchIndex0, matchIndex)
      invariant accepted ==> matchIndex == appEn.prevLogIndex < prevLogIndex
      invariant leaderNum == leader.leaderNum
      invariant Going(follower.Now(), leader, appEn, s0, matchIndex0, prevLogIndex, matchIndex, accepted, fate)
      decreases if accepted then 0 else 1, if accepted then prevLogIndex - matchIndex else appEn.prevLogIndex, 8 - count
    {
      ghost var s := follower.Now();
      var becomes := fate(n);
      GoingWithout(s, leader, appEn, s0, matchIndex0, prevLogIndex, matchIndex, accepted, fate, n);
      n := n + 1;
      if becomes == Lost {
        count := count + 1;
        if count >= 8 {
          return;
        }
        continue;
      }
      var reply := Send(follower, appEn, log, matchIndex0, matchIndex);
      if becomes == AnswerLost {
        count := count + 1;
        if count >= 8 {
          return;
        }
        continue;
      }
      ghost var before, wasAccepted := matchIndex, accepted;
      var done, next, stepsDown;
      done, stepsDown, matchIndex, nextIndex, next := HandleReply(leader, appEn, reply, prevLogIndex, matchIndex, termList);
      if stepsDown {
        leaderNum := -1;
      }
      Turn(s, leader, appEn, s0, matchIndex0, prevLogIndex, before, wasAccepted, fate, done, next);
      if done {
        return;
      }
      accepted := accepted || reply.success;
      appEn := next;
    }
  }

  /** Where a reply puts the match index. */
  ghost function NewMatch<C>(args: AppendArgs<C>, reply: AppendReply, matchIndex: int): int {
    if !reply.success || args.entries == [] then matchIndex
    else if reply.commitIndex != 0 then reply.commitIndex
    else args.prevLogIndex + |args.entries|
  }

  ghost predicate Finished<C, D>(
    leader: Node<C, D>, args: AppendArgs<C>, reply: AppendReply, prevLogIndex: int, matchIndex: int)
  {
    if reply.success then args.entries == [] || prevLogIndex <= matchIndex
    else leader.currentTerm < reply.term || args.prevLogIndex <= matchIndex
  }

  /** The request that follows carries entries, from the match index on or from
      further back. */
  ghost predicate IsNext<C, D>(
    leader: Node<C, D>, args: AppendArgs<C>, reply: AppendReply, matchIndex: int, next: AppendArgs<C>)
  {
    && FromLog(next, leader.log) && next.term == leader.currentTerm && next.entries != []
    && 0 <= next.prevLogIndex && next.prevLogIndex + |next.entries| < |leader.log|
    && (if reply.success then next.prevLogIndex == matchIndex else next.prevLogIndex < args.prevLogIndex)
  }

  /** One request that arrives. */
  method Send<C, D>(
    follower: Raft<C, D>, args: AppendArgs<C>, ghost log: seq<CommandTerm<C>>, ghost before: int, ghost matchIndex: int)
    returns (reply: AppendReply)
    requires follower.Now().Inv() && FromLog(args, log) && HasCommands(args.entries)
    requires Founded(follower.Now(), log, before, matchIndex) && 0 <= args.prevLogIndex && matchIndex <= args.prevLogIndex
    modifies follower
    ensures follower.Now() == AppendStep(old(follower.Now()), args) && reply == ReplyTo(old(follower.Now()), args)
    ensures follower.Now().Inv()
    ensures 0 <= reply.lastLogIndex && (reply.commitIndex != 0 ==> args.prevLogIndex < reply.commitIndex)
    ensures Founded(follower.Now(), log, before, matchIndex)
    ensures Founded(follower.Now(), log, before, NewMatch(args, reply, matchIndex))
  {
    hide AppendStep, ReplyTo, Founded, FromLog, AppendDoes;
    ghost var s := follower.Now();
    AppendKeepsInv(s, args);
    ReplyFacts(s, args);
    AppendKeepsFounded(s, args, log, before, matchIndex);
    reply := follower.AppendEntry(args);
  }

  /** What the leader makes of a reply: a success moves the match index to the
      last entry sent, or to what the follower has committed; a rejection leads
      further back. It is done when it has reached the index it started at, when
      nothing was sent, when a later term is reported or nothing is left to try. */
  method HandleReply<C, D>(
    leader: Node<C, D>, appEn: AppendArgs<C>, reply: AppendReply, prevLogIndex: int, matchIndex0: int,
    termList: seq<TermIndex>)
    returns (done: bool, stepsDown: bool, matchIndex: int, nextIndex: int, next: AppendArgs<C>)
    requires leader.Inv() && leader.lastIndexInSnapshot == 0 && prevLogIndex < |leader.log|
    requires HasCommands(leader.log[1..])
    requires termList != [] && forall k | 0 <= k < |termList| :: 0 <= termList[k].lastIndexOfTerm
    requires 0 <= matchIndex0 <= appEn.prevLogIndex && (matchIndex0 == 0 || matchIndex0 == appEn.prevLogIndex)
    requires appEn.prevLogIndex + |appEn.entries| < |leader.log|
    requires 0 <= reply.lastLogIndex && (reply.commitIndex != 0 ==> appEn.prevLogIndex < reply.commitIndex)
    ensures matchIndex == NewMatch(appEn, reply, matchIndex0)
    ensures Settled(matchIndex, nextIndex)
    ensures stepsDown <==> !reply.success && leader.currentTerm < reply.term
    ensures done <==> Finished(leader, appEn, reply, prevLogIndex, matchIndex)
    ensures !done ==>
              && HasCommands(next.entries) && nextIndex == next.prevLogIndex + 1
              && IsNext(leader, appEn, reply, matchIndex, next)
  {
    hide FromLog, Request;
    var log := leader.log;
    next := appEn;
    matchIndex, nextIndex := matchIndex0, appEn.prevLogIndex + 1;
    if reply.success {
      if |appEn.entries| == 0 {
        return true, false, matchIndex, nextIndex, next;
      }
      if reply.commitIndex == 0 {
        if nextIndex < appEn.prevLogIndex + |appEn.entries| + 1 {
          nextIndex := appEn.prevLogIndex + |appEn.entries| + 1;
        }
        if matchIndex != nextIndex - 1 {
          matchIndex := nextIndex - 1;
        } else {
          return true, false, matchIndex, nextIndex, next;
        }
      } else {
        matchIndex := reply.commitIndex;
        nextIndex := matchIndex + 1;
      }
      var currComInd := matchIndex;
      if currComInd >= prevLogIndex {
        return true, false, matchIndex, nextIndex, next;
      }
      if reply.commitIndex != 0 {
        var prev := reply.commitIndex;
        if prev >= leader.LastLogIndex() {
          return true, false, matchIndex, nextIndex, next;
        }
        next := Request(leader, prev, if prev > 0 then prev + 1 else prev, leader.commitIndex);
      } else {
        next := Request(leader, currComInd, |log| - 1, leader.commitIndex);
      }
    } else {
      if reply.term > leader.currentTerm {
        return true, true, matchIndex, nextIndex, next;
      }
      if appEn.prevLogIndex <= matchIndex {
        return true, false, matchIndex, nextIndex, next;
      }
      var prevlog := BackOff(appEn.prevLogIndex, reply, termList);
      nextIndex := prevlog + 1;
      assert prevlog >= 0;
      if prevlog >= |log| {
        return true, false, matchIndex, nextIndex, next;
      }
      next := Request(leader, prevlog, prevlog + 1, 0);
    }
    return false, false, matchIndex, nextIndex, next;
  }

  /** A follower of a later term that answers stays as it is; one of no later
      term does not get ahead. */
  ghost predicate KeepsUp<C, D>(s0: Node<C, D>, s: Node<C, D>, leader: Node<C, D>, fate: nat -> Fate) {
    if leader.currentTerm < s0.currentTerm then AllAnswered(fate) ==> s == s0
    else s.currentTerm <= leader.currentTerm
  }

  lemma LateOrNot<C, D>(s0: Node<C, D>, s: Node<C, D>, leader: Node<C, D>, args: AppendArgs<C>, fate: nat -> Fate)
    requires s.Inv() && args.term == leader.currentTerm && KeepsUp(s0, s, leader, fate)
    ensures var s' := AppendStep(s, args); var reply := ReplyTo(s, args);
            && KeepsUp(s0, s', leader, fate)
            && (s0.currentTerm <= leader.currentTerm ==> reply.term <= leader.currentTerm)
            && (leader.currentTerm < s0.currentTerm && AllAnswered(fate) ==>
                  !reply.success && leader.currentTerm < reply.term && s' == s0)
  {
    hide AppendStep, ReplyTo, Sent, ReportsTerm, Stored, AllAnswered;
    AppendIs(s, args);
  }

  /** Before a request to a willing follower: backing off, the log is as it was
      and the request carries entries or does not match; afterwards, if the
      committed entry agreed, the request carries entries and matches. */
  ghost predicate Waiting<C, D>(
    s: Node<C, D>, leader: Node<C, D>, args: AppendArgs<C>, s0: Node<C, D>, accepted: bool)
    requires leader.log != [] && s0.Inv()
  {
    && Willing(s, leader) && Willing(s0, leader)
    && (!accepted ==>
          && s.log == s0.log && s.commitIndex == s0.commitIndex
          && (args.entries != [] || !HasTerm(s, args.prevLogIndex, args.prevLogTerm)))
    && (accepted ==> args.entries != [])
    && (accepted && AgreeCommitted(s0, leader.log) ==>
          && HasTerm(s, args.prevLogIndex, args.prevLogTerm) && s.commitIndex <= args.prevLogIndex)
  }

  lemma FirstWaiting<C, D>(s: Node<C, D>, leader: Node<C, D>, args: AppendArgs<C>, matchIndex: int)
    requires 0 <= args.prevLogIndex < |leader.log| && FromLog(args, leader.log)
    requires |args.entries| == |leader.log| - 1 - args.prevLogIndex
    requires s.Inv() && CanCatchUp(s, leader, matchIndex, args.prevLogIndex)
    ensures Waiting(s, leader, args, s, false) && matchIndex == 0
  {
  }

  /** And what the reply to it is. */
  lemma StillWaiting<C, D>(s: Node<C, D>, leader: Node<C, D>, args: AppendArgs<C>, s0: Node<C, D>, accepted: bool)
    requires leader.log != [] && s0.Inv() && Waiting(s, leader, args, s0, accepted)
    requires FromLog(args, leader.log) && args.term == leader.currentTerm
    ensures var s' := AppendStep(s, args); var reply := ReplyTo(s, args);
            && reply.term <= leader.currentTerm
            && (reply.success ==> args.entries != [])
            && (accepted && AgreeCommitted(s0, leader.log) ==> reply.success && reply.commitIndex == 0)
            && (args.prevLogIndex == 0 ==> reply.success)
  {
    hide AppendStep, ReplyTo, FromLog;
    WillingStep(s, leader, args);
  }

  lemma NextWaiting<C, D>(
    s: Node<C, D>, leader: Node<C, D>, args: AppendArgs<C>, s0: Node<C, D>, accepted: bool, next: AppendArgs<C>)
    requires leader.log != [] && s0.Inv() && Waiting(s, leader, args, s0, accepted)
    requires FromLog(args, leader.log) && args.term == leader.currentTerm
    requires FromLog(next, leader.log) && next.entries != []
    ensures var s' := AppendStep(s, args); var reply := ReplyTo(s, args);
            && (!reply.success && !accepted ==> Waiting(s', leader, next, s0, false))
            && (reply.success && next.prevLogIndex ==
                  (if reply.commitIndex == 0 then args.prevLogIndex + |args.entries| else reply.commitIndex) ==>
                Waiting(s', leader, next, s0, true))
  {
    hide AppendStep, ReplyTo, Willing;
    WillingStep(s, leader, args);
    StillWaiting(s, leader, args, s0, accepted);
    WillingMeans(s, leader);
    WillingMeans(s0, leader);
  }

  lemma WillingMeans<C, D>(s: Node<C, D>, leader: Node<C, D>)
    requires leader.log != [] && Willing(s, leader)
    ensures s.Inv() && s.lastIndexInSnapshot == 0 && 0 <= s.commitIndex < |s.log|
  {
  }

  /** Where an exchange stands before a request. */
  ghost predicate Going<C, D>(
    s: Node<C, D>, leader: Node<C, D>, args: AppendArgs<C>, s0: Node<C, D>, matchIndex0: int, prev: int,
    matchIndex: int, accepted: bool, fate: nat -> Fate)
    requires 0 <= prev < |leader.log| && s0.Inv()
  {
    && (AllAnswered(fate) && CanCatchUp(s0, leader, matchIndex0, prev) ==> Waiting(s, leader, args, s0, accepted))
    && KeepsUp(s0, s, leader, fate)
    && (AllAnswered(fate) && leader.currentTerm < s0.currentTerm ==> !accepted)
    && (if accepted then 0 < matchIndex else matchIndex == matchIndex0)
  }

  lemma FirstGoing<C, D>(s: Node<C, D>, leader: Node<C, D>, args: AppendArgs<C>, matchIndex: int, fate: nat -> Fate)
    requires s.Inv() && 0 <= args.prevLogIndex < |leader.log| && FromLog(args, leader.log)
    requires |args.entries| == |leader.log| - 1 - args.prevLogIndex
    ensures Going(s, leader, args, s, matchIndex, args.prevLogIndex, matchIndex, false, fate)
  {
    hide CanCatchUp, Waiting, FromLog;
    if CanCatchUp(s, leader, matchIndex, args.prevLogIndex) {
      FirstWaiting(s, leader, args, matchIndex);
    }
  }

  /** A request without an answer leaves the exchange where it stands. */
  lemma GoingWithout<C, D>(
    s: Node<C, D>, leader: Node<C, D>, args: AppendArgs<C>, s0: Node<C, D>, matchIndex0: int, prev: int,
    matchIndex: int, accepted: bool, fate: nat -> Fate, n: nat)
    requires 0 <= prev < |leader.log| && s0.Inv() && s.Inv() && args.term == leader.currentTerm
    requires Going(s, leader, args, s0, matchIndex0, prev, matchIndex, accepted, fate)
    ensures fate(n) != Answered ==>
              && Going(AppendStep(s, args), leader, args, s0, matchIndex0, prev, matchIndex, accepted, fate)
              && Outcome(s0, leader, fate, matchIndex0, prev, s, matchIndex, leader.leaderNum)
              && Outcome(s0, leader, fate, matchIndex0, prev, AppendStep(s, args), matchIndex, leader.leaderNum)
  {
    hide AppendStep, ReplyTo, CanCatchUp, Waiting, KeepsUp;
    IsAnswered(fate, n);
    LateOrNot(s0, s, leader, args, fate);
  }

  /** An answered request ends the exchange as promised or is followed by the next. */
  lemma Turn<C, D>(
    s: Node<C, D>, leader: Node<C, D>, args: AppendArgs<C>, s0: Node<C, D>, matchIndex0: int, prev: int,
    matchIndex: int, accepted: bool, fate: nat -> Fate, done: bool, next: AppendArgs<C>)
    requires 0 <= prev < |leader.log| && s0.Inv() && s.Inv() && args.term == leader.currentTerm
    requires FromLog(args, leader.log) && 0 <= args.prevLogIndex && 0 <= matchIndex <= args.prevLogIndex
    requires accepted ==> matchIndex == args.prevLogIndex
    requires Going(s, leader, args, s0, matchIndex0, prev, matchIndex, accepted, fate)
    requires var reply := ReplyTo(s, args); var m := NewMatch(args, reply, matchIndex);
             && (reply.commitIndex != 0 ==> args.prevLogIndex < reply.commitIndex)
             && (done <==> Finished(leader, args, reply, prev, m))
             && (!done ==> IsNext(leader, args, reply, m, next))
    ensures var s', reply := AppendStep(s, args), ReplyTo(s, args); var m := NewMatch(args, reply, matchIndex);
            && (done ==> Outcome(s0, leader, fate, matchIndex0, prev, s', m,
                                 if !reply.success && leader.currentTerm < reply.term then -1 else leader.leaderNum))
            && (!done ==> Going(s', leader, next, s0, matchIndex0, prev, m, accepted || reply.success, fate))
  {
    hide AppendStep, ReplyTo, CanCatchUp, Waiting, KeepsUp, FromLog, AllAnswered, AgreeCommitted;
    LateOrNot(s0, s, leader, args, fate);
    if AllAnswered(fate) && CanCatchUp(s0, leader, matchIndex0, prev) {
      CatchUpMeans(s0, leader, matchIndex0, prev);
      StillWaiting(s, leader, args, s0, accepted);
      if !done {
        NextWaiting(s, leader, args, s0, accepted, next);
      }
    }
  }

  lemma CatchUpMeans<C, D>(s: Node<C, D>, leader: Node<C, D>, matchIndex: int, prev: int)
    requires 0 <= prev < |leader.log| && CanCatchUp(s, leader, matchIndex, prev)
    ensures matchIndex == 0 && s.currentTerm <= leader.currentTerm
  {
  }
}
