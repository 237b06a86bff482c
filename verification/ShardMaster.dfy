/** The shard master: a history of configurations built from the committed
    log, the same on every replica although its loops range over maps. */
module ShardMaster {
  import opened CommandIds
  import opened Rebalancing

  datatype Config = Config(num: int, shards: seq<Gid>, groups: map<Gid, seq<string>>)

  datatype Op =
    | Join(client: int32, number: int, servers: map<Gid, seq<string>>)
    | Leave(client: int32, number: int, gids: seq<Gid>)
    | Move(client: int32, number: int, shard: int, gid: Gid)
    | Query(client: int32, number: int, num: int)
  {
    /** A shard number outside the table crashes the server. */
    predicate Valid() {
      Move? ==> 0 <= shard < NSHARDS
    }
  }

  datatype Master = Master(configs: seq<Config>, clientMaxRequestSeq: map<int32, int>, resultMap: map<int64, Config>) {
    ghost predicate Inv() {
      configs != [] && forall i | 0 <= i < |configs| :: configs[i].num == i && |configs[i].shards| == NSHARDS
    }

    function Last(): Config
      requires configs != []
    {
      configs[|configs| - 1]
    }
  }

  function FirstConfig(): Config {
    Config(0, seq(NSHARDS, _ => 0), map[])
  }

  function Initial(): Master {
    Master([FirstConfig()], map[], map[])
  }

  // ----- what one command makes of a configuration

  ghost function Joined(groups: map<Gid, seq<string>>, servers: map<Gid, seq<string>>): map<Gid, seq<string>> {
    map gid | gid in groups.Keys + servers.Keys ::
      (if gid in groups then groups[gid] else []) + (if gid in servers then servers[gid] else [])
  }

  /** Shards of a group that leaves belong to nobody. */
  ghost function Orphaned(shards: seq<Gid>, gids: seq<Gid>): (r: seq<Gid>)
    ensures |r| == |shards|
  {
    seq(|shards|, p requires 0 <= p < |shards| => if shards[p] in gids then -1 else shards[p])
  }

  ghost function Without(groups: map<Gid, seq<string>>, gids: seq<Gid>): map<Gid, seq<string>> {
    groups - (set gid | gid in gids)
  }

  ghost function NextConfig(last: Config, op: Op): Config
    requires |last.shards| == NSHARDS && op.Valid() && !op.Query?
  {
    var groups := match op
      case Join(_, _, servers) => Joined(last.groups, servers)
      case Leave(_, _, gids) => Without(last.groups, gids)
      case _ => last.groups;
    var shards := match op
      case Leave(_, _, gids) => Orphaned(last.shards, gids)
      case Move(_, _, shard, gid) => last.shards[shard := gid]
      case _ => last.shards;
    Config(last.num + 1, Rebalanced(shards, groups), groups)
  }

  ghost predicate Repeated(s: Master, op: Op) {
    op.client in s.clientMaxRequestSeq && s.clientMaxRequestSeq[op.client] >= op.number
  }

  ghost function Answer(s: Master, num: int): Config
    requires s.Inv()
  {
    if 0 <= num < |s.configs| then s.configs[num] else s.Last()
  }

  ghost function ApplyOp(s: Master, op: Op): (s': Master)
    requires s.Inv() && op.Valid()
    ensures s'.Inv() && s.configs <= s'.configs
  {
    if op.Query? then s.(resultMap := s.resultMap[CommID(op.client, op.number) := Answer(s, op.num)])
    else if Repeated(s, op) then s
    else
      s.(clientMaxRequestSeq := s.clientMaxRequestSeq[op.client := op.number],
         configs := s.configs + [NextConfig(s.Last(), op)])
  }

  // ----- the server

  class Server {
    var configs: seq<Config>
    var clientMaxRequestSeq: map<int32, int>
    var resultMap: map<int64, Config>
    var curCommitIndex: int

    ghost function Now(): Master
      reads this
    {
      Master(configs, clientMaxRequestSeq, resultMap)
    }

    constructor ()
      ensures Now() == Initial() && curCommitIndex == 0
    {
      configs, clientMaxRequestSeq, resultMap, curCommitIndex := [FirstConfig()], map[], map[], 0;
    }

    /** One turn of the apply loop: whatever order maps are walked in, the new
        state is a function of the old one and the command. */
    method Apply(commitIndex: int, op: Op)
      requires Now().Inv() && op.Valid()
      modifies this
      ensures Now() == ApplyOp(old(Now()), op)
      ensures Now().Inv() && old(configs) <= configs
      ensures curCommitIndex == if commitIndex > old(curCommitIndex) then commitIndex else old(curCommitIndex)
    {
      hide NextConfig;
      if commitIndex > curCommitIndex {
        curCommitIndex := commitIndex;
      }
      var last := configs[|configs| - 1];
      if op.Query? {
        var commID := CommID(op.client, op.number);
        if op.num >= 0 && op.num < |configs| {
          resultMap := resultMap[commID := configs[op.num]];
        } else {
          resultMap := resultMap[commID := last];
        }
        return;
      }
      if op.client in clientMaxRequestSeq {
        if clientMaxRequestSeq[op.client] >= op.number {
          return;
        }
      }
      clientMaxRequestSeq := clientMaxRequestSeq[op.client := op.number];
      var newConfig := MakeConfig(last, op);
      configs := configs + [newConfig];
    }
  }

  /** The configuration that follows `last`. */
  method MakeConfig(last: Config, op: Op) returns (newConfig: Config)
    requires |last.shards| == NSHARDS && op.Valid() && !op.Query?
    ensures newConfig == NextConfig(last, op)
    ensures newConfig.num == last.num + 1 && |newConfig.shards| == NSHARDS
  {
    hide Joined, Orphaned, Without, Rebalanced;
    var groups := CopyGroups(last.groups);
    var shards := new Gid[NSHARDS](i requires 0 <= i < |last.shards| => last.shards[i]);
    assert shards[..] == last.shards;
    match op {
      case Join(_, _, servers) => groups := AddGroups(groups, servers);
      case Leave(_, _, gids) => groups := RemoveGroups(groups, shards, gids);
      case Move(_, _, shard, gid) => shards[shard] := gid;
    }
    assert op.Move? ==> shards[..] == last.shards[op.shard := op.gid];
    Rebalance(shards, groups);
    newConfig := Config(last.num + 1, shards[..], groups);
  }

  method CopyGroups(groups: map<Gid, seq<string>>) returns (copy: map<Gid, seq<string>>)
    ensures copy == groups
  {
    copy := map[];
    var rest := groups.Keys;
    while rest != {}
      invariant rest <= groups.Keys && copy.Keys == groups.Keys - rest
      invariant forall gid | gid in copy :: copy[gid] == groups[gid]
    {
      var key :| key in rest;
      copy := copy[key := groups[key]];
      rest := rest - {key};
    }
  }

  method AddGroups(groups: map<Gid, seq<string>>, servers: map<Gid, seq<string>>) returns (all: map<Gid, seq<string>>)
    ensures all == Joined(groups, servers)
    ensures all.Keys == groups.Keys + servers.Keys
    ensures forall gid | gid in all ::
              all[gid] ==
              if gid !in servers then groups[gid]
              else if gid !in groups then servers[gid]
              else groups[gid] + servers[gid]
  {
    JoinMeans(groups, servers);
    hide Joined;
    all := groups;
    var rest := servers.Keys;
    ghost var done: map<Gid, seq<string>> := map[];
    JoinNone(groups);
    while rest != {}
      invariant rest <= servers.Keys == done.Keys + rest && done.Keys !! rest
      invariant forall gid | gid in done :: done[gid] == servers[gid]
      invariant all == Joined(groups, done)
    {
      var key :| key in rest;
      JoinOne(groups, done, key, servers[key]);
      if key !in all {
        all := all[key := servers[key]];
      } else {
        all := all[key := all[key] + servers[key]];
      }
      done := done[key := servers[key]];
      rest := rest - {key};
    }
    assert done == servers;
  }

  lemma JoinMeans(groups: map<Gid, seq<string>>, servers: map<Gid, seq<string>>)
    ensures var all := Joined(groups, servers);
            && all.Keys == groups.Keys + servers.Keys
            && forall gid | gid in all ::
                 all[gid] ==
                 if gid !in servers then groups[gid]
                 else if gid !in groups then servers[gid]
                 else groups[gid] + servers[gid]
  {
    assert forall gid | gid in groups :: groups[gid] + [] == groups[gid];
    assert forall gid | gid in servers :: [] + servers[gid] == servers[gid];
  }

  lemma JoinNone(groups: map<Gid, seq<string>>)
    ensures Joined(groups, map[]) == groups
  {
    assert forall gid | gid in groups :: groups[gid] + [] == groups[gid];
  }

  lemma JoinOne(groups: map<Gid, seq<string>>, done: map<Gid, seq<string>>, key: Gid, names: seq<string>)
    requires key !in done
    ensures var all := Joined(groups, done);
            Joined(groups, done[key := names]) == all[key := if key in all then all[key] + names else names]
  {
    assert [] + names == names;
    assert key in groups ==> groups[key] + [] == groups[key];
  }

  method RemoveGroups(groups: map<Gid, seq<string>>, shards: array<Gid>, gids: seq<Gid>)
    returns (left: map<Gid, seq<string>>)
    modifies shards
    ensures left == Without(groups, gids)
    ensures shards[..] == Orphaned(old(shards[..]), gids)
    ensures forall gid :: gid in left <==> gid in groups && gid !in gids
    ensures forall gid | gid in left :: left[gid] == groups[gid]
    ensures forall p | 0 <= p < shards.Length ::
              shards[p] == if old(shards[p]) in gids then -1 else old(shards[p])
  {
    left := groups;
    ghost var before := shards[..];
    for k := 0 to |gids|
      invariant left == groups - (set gid | gid in gids[..k])
      invariant forall p | 0 <= p < shards.Length :: shards[p] == if before[p] in gids[..k] then -1 else before[p]
    {
      var key := gids[k];
      left := left - {key};
      for i := 0 to shards.Length
        invariant forall p | 0 <= p < i :: shards[p] == if before[p] in gids[..k + 1] then -1 else before[p]
        invariant forall p | i <= p < shards.Length :: shards[p] == if before[p] in gids[..k] then -1 else before[p]
      {
        assert forall x :: x in gids[..k + 1] <==> x in gids[..k] || x == key;
        if key == shards[i] {
          shards[i] := -1;
        }
      }
    }
    assert gids[..|gids|] == gids;
  }

  // ----- over every log

  ghost predicate ValidLog(log: seq<Op>) {
    forall i | 0 <= i < |log| :: log[i].Valid()
  }

  ghost function ApplyLog(log: seq<Op>): (s: Master)
    requires ValidLog(log)
    ensures s.Inv()
  {
    if log == [] then Initial() else ApplyOp(ApplyLog(log[..|log| - 1]), log[|log| - 1])
  }

  /** Two replicas that apply the same log through the loops above end alike,
      each of its configurations numbered by its place. */
  method Replay(log: seq<Op>) returns (server: Server)
    requires ValidLog(log)
    ensures server.Now() == ApplyLog(log) && server.Now().Inv() && server.curCommitIndex == |log|
  {
    server := new Server();
    for i := 0 to |log|
      invariant fresh(server) && server.Now() == ApplyLog(log[..i]) && server.curCommitIndex == i
    {
      server.Apply(i + 1, log[i]);
      assert log[..i + 1][..i] == log[..i];
    }
    assert log[..|log|] == log;
  }

  /** What is stored once is never changed. */
  lemma {:induction false} ConfigsAreStable(log: seq<Op>, n: nat)
    requires ValidLog(log) && n <= |log|
    ensures ApplyLog(log[..n]).configs <= ApplyLog(log).configs
    decreases |log|
  {
    if n == |log| {
      assert log[..n] == log;
    } else {
      var shorter := log[..|log| - 1];
      ConfigsAreStable(shorter, n);
      assert shorter[..n] == log[..n];
    }
  }

  /** The change at `i` has a higher number than every earlier change of its client. */
  ghost predicate Fresh(log: seq<Op>, i: nat)
    requires i < |log|
  {
    && !log[i].Query?
    && forall j | 0 <= j < i && !log[j].Query? && log[j].client == log[i].client :: log[j].number < log[i].number
  }

  ghost function FreshChanges(log: seq<Op>, n: nat): (r: seq<Op>)
    requires n <= |log| && ValidLog(log)
    ensures forall i | 0 <= i < |r| :: r[i].Valid() && !r[i].Query?
  {
    if n == 0 then [] else FreshChanges(log, n - 1) + if Fresh(log, n - 1) then [log[n - 1]] else []
  }

  /** The configurations that follow each other from the first, one for each change. */
  ghost function History(changes: seq<Op>): (configs: seq<Config>)
    requires forall i | 0 <= i < |changes| :: changes[i].Valid() && !changes[i].Query?
    ensures |configs| == |changes| + 1 && forall i | 0 <= i < |configs| :: |configs[i].shards| == NSHARDS
  {
    if changes == [] then [FirstConfig()] else
    var before := History(changes[..|changes| - 1]);
    before + [NextConfig(before[|before| - 1], changes[|changes| - 1])]
  }

  ghost predicate IsMax(log: seq<Op>, n: nat, client: int32, seqs: map<int32, int>)
    requires n <= |log|
  {
    && (forall j | 0 <= j < n && !log[j].Query? && log[j].client == client ::
          client in seqs && log[j].number <= seqs[client])
    && (client in seqs ==>
          exists j :: 0 <= j < n && !log[j].Query? && log[j].client == client && log[j].number == seqs[client])
  }

  lemma {:induction false} TableIsMax(log: seq<Op>, n: nat, client: int32)
    requires n <= |log| && ValidLog(log)
    ensures IsMax(log, n, client, ApplyLog(log[..n]).clientMaxRequestSeq)
  {
    hide *;
    if n == 0 {
      NothingYet(log, client);
    } else {
      TableIsMax(log, n - 1, client);
      AllValid(log, n - 1);
      LastApplied(log, n);
      StillMax(log, n - 1, client, ApplyLog(log[..n - 1]));
    }
  }

  lemma NothingYet(log: seq<Op>, client: int32)
    requires ValidLog(log)
    ensures ValidLog(log[..0]) && IsMax(log, 0, client, ApplyLog(log[..0]).clientMaxRequestSeq)
  {
    assert log[..0] == [];
  }

  lemma StillMax(log: seq<Op>, n: nat, client: int32, s: Master)
    requires n < |log| && log[n].Valid() && s.Inv() && IsMax(log, n, client, s.clientMaxRequestSeq)
    ensures IsMax(log, n + 1, client, ApplyOp(s, log[n]).clientMaxRequestSeq)
  {
    hide NextConfig, CommID;
  }

  lemma PassesFilter(log: seq<Op>, i: nat)
    requires i < |log| && ValidLog(log)
    ensures Fresh(log, i) <==> !log[i].Query? && !Repeated(ApplyLog(log[..i]), log[i])
  {
    TableIsMax(log, i, log[i].client);
  }

  /** Whatever is repeated or arrives late, the configurations are those of the
      fresh changes, each applied once and in log order. */
  lemma {:induction false} OnlyFreshChanges(log: seq<Op>, n: nat)
    requires n <= |log| && ValidLog(log)
    ensures ApplyLog(log[..n]).configs == History(FreshChanges(log, n))
  {
    hide *;
    if n == 0 {
      NoChanges(log);
    } else {
      OnlyFreshChanges(log, n - 1);
      AllValid(log, n - 1);
      LastApplied(log, n);
      PassesFilter(log, n - 1);
      NextChange(log, n, ApplyLog(log[..n - 1]));
    }
  }

  lemma NoChanges(log: seq<Op>)
    requires ValidLog(log)
    ensures ValidLog(log[..0]) && ApplyLog(log[..0]).configs == History(FreshChanges(log, 0))
  {
    assert log[..0] == [];
  }

  lemma AllValid(log: seq<Op>, n: nat)
    requires ValidLog(log) && n < |log|
    ensures ValidLog(log[..n]) && ValidLog(log[..n + 1]) && log[n].Valid()
  {
  }

  lemma LastApplied(log: seq<Op>, n: nat)
    requires ValidLog(log) && 0 < n <= |log|
    ensures ApplyLog(log[..n]) == ApplyOp(ApplyLog(log[..n - 1]), log[n - 1])
  {
    hide ApplyOp;
    assert log[..n][..n - 1] == log[..n - 1];
  }

  lemma NextChange(log: seq<Op>, n: nat, s: Master)
    requires 0 < n <= |log| && ValidLog(log) && s.Inv() && s.configs == History(FreshChanges(log, n - 1))
    requires Fresh(log, n - 1) <==> !log[n - 1].Query? && !Repeated(s, log[n - 1])
    ensures ApplyOp(s, log[n - 1]).configs == History(FreshChanges(log, n))
  {
    hide Fresh, Repeated, NextConfig;
    var before := FreshChanges(log, n - 1);
    if Fresh(log, n - 1) {
      assert FreshChanges(log, n)[..|before|] == before;
    } else {
      assert FreshChanges(log, n) == before;
    }
  }

  ghost predicate NumbersIncrease(changes: seq<Op>) {
    forall i, j | 0 <= i < j < |changes| && changes[i].client == changes[j].client :: changes[i].number < changes[j].number
  }

  /** Each client's changes are applied in the order of their numbers, so no
      client and number is applied twice. */
  lemma {:induction false} AppliedInOrder(log: seq<Op>, n: nat)
    requires n <= |log| && ValidLog(log)
    ensures NumbersIncrease(FreshChanges(log, n))
    ensures forall op | op in FreshChanges(log, n) :: exists i: nat | i < n :: op == log[i] && !log[i].Query?
  {
    if n > 0 {
      AppliedInOrder(log, n - 1);
      var before := FreshChanges(log, n - 1);
      if Fresh(log, n - 1) {
        forall k | 0 <= k < |before| && before[k].client == log[n - 1].client
          ensures before[k].number < log[n - 1].number
        {
          assert before[k] in before;
          var i: nat :| i < n - 1 && before[k] == log[i] && !log[i].Query?;
        }
      }
    }
  }

  // ----- what a query answers

  /** A query finds the configuration of its number among those made so far, the
      last one when there is none; until the same client asks under the same
      number again, that is what the result map answers. */
  lemma {:induction false} QueryIsKept(log: seq<Op>, n: nat, i: nat)
    requires ValidLog(log) && i < n <= |log| && log[i].Query?
    requires forall j | 0 <= j < n && log[j].Query? :: InRange(log[j].number)
    requires forall j | i < j < n && log[j].Query? :: (log[j].client, log[j].number) != (log[i].client, log[i].number)
    ensures var results, id := ApplyLog(log[..n]).resultMap, CommID(log[i].client, log[i].number);
            var configs := History(FreshChanges(log, i));
            && id in results
            && results[id] ==
               if 0 <= log[i].num < |configs| then configs[log[i].num] else configs[|configs| - 1]
  {
    hide ApplyOp, ApplyLog, NextConfig, History, FreshChanges, CommID, InRange;
    AllValid(log, n - 1);
    LastApplied(log, n);
    var s := ApplyLog(log[..n - 1]);
    ResultStep(s, log[n - 1]);
    if i < n - 1 {
      QueryIsKept(log, n - 1, i);
      if log[n - 1].Query? && CommID(log[n - 1].client, log[n - 1].number) == CommID(log[i].client, log[i].number) {
        CommIDInjective(log[n - 1].client, log[n - 1].number, log[i].client, log[i].number);
      }
    } else {
      OnlyFreshChanges(log, i);
    }
  }

  lemma ResultStep(s: Master, op: Op)
    requires s.Inv() && op.Valid()
    ensures ApplyOp(s, op).resultMap ==
            if op.Query? then s.resultMap[CommID(op.client, op.number) := Answer(s, op.num)] else s.resultMap
  {
    hide NextConfig, CommID;
  }

  // ----- what a join does

  /** New groups get their servers, known ones more of them behind their own, and
      a shard that no group is given stays as it was. */
  lemma JoinConfig(last: Config, op: Op)
    requires |last.shards| == NSHARDS && op.Join?
    ensures var next := NextConfig(last, op);
            && next.groups.Keys == last.groups.Keys + op.servers.Keys
            && (forall gid | gid in next.groups ::
                  next.groups[gid] ==
                  if gid !in op.servers then last.groups[gid]
                  else if gid !in last.groups then op.servers[gid]
                  else last.groups[gid] + op.servers[gid])
            && next.shards == Rebalanced(last.shards, next.groups)
  {
    hide Rebalanced, Joined;
    JoinMeans(last.groups, op.servers);
  }

  // ----- what a leave does

  /** The groups that leave are gone, the others keep their servers. Without
      groups left, the shards of those that left belong to nobody; with some, no
      shard belongs to a group that left. */
  lemma LeaveMeans(last: Config, op: Op)
    requires |last.shards| == NSHARDS && op.Leave?
    ensures var next := NextConfig(last, op);
            && (forall gid :: gid in next.groups <==> gid in last.groups && gid !in op.gids)
            && (forall gid | gid in next.groups :: next.groups[gid] == last.groups[gid])
            && (next.groups == map[] ==>
                  forall p | 0 <= p < NSHARDS ::
                    next.shards[p] == if last.shards[p] in op.gids then -1 else last.shards[p])
            && (next.groups != map[] ==>
                  forall p | 0 <= p < NSHARDS ::
                    || next.shards[p] in next.groups
                    || next.shards[p] == (if last.shards[p] in op.gids then -1 else last.shards[p]))
            && (forall p | 0 <= p < NSHARDS :: next.shards[p] == -1 || next.shards[p] !in op.gids)
  {
    hide Owner, SortedIds;
    var next := NextConfig(last, op);
    var shards := Orphaned(last.shards, op.gids);
    if next.groups != map[] {
      var ids := SortedIds(next.groups.Keys);
      assert |next.groups.Keys| == |next.groups|;
      forall p: nat | p < NSHARDS
        ensures next.shards[p] in next.groups || next.shards[p] == shards[p]
      {
        OwnerServes(shards, ids, p);
      }
    }
  }

  // ----- where the rebalancing that follows every change undoes its purpose

  /** Three groups that join an empty configuration leave the last shard to group 0,
      which does not exist. */
  lemma FirstThreeGroups(servers: map<Gid, seq<string>>)
    requires servers.Keys == {1, 2, 3}
    ensures var next := NextConfig(FirstConfig(), Join(0, 1, servers));
            next.groups.Keys == {1, 2, 3} && next.shards[9] == 0
  {
    hide Joined, SortedIds, Owner;
    var groups := Joined(map[], servers);
    JoinEmpty(servers);
    AscendingUnique(SortedIds({1, 2, 3}), [1, 2, 3]);
    assert |{1, 2, 3}| == 3 && groups != map[];
    OwnerServes(FirstConfig().shards, [1, 2, 3], 9);
  }

  lemma JoinEmpty(servers: map<Gid, seq<string>>)
    ensures Joined(map[], servers).Keys == servers.Keys
  {
  }

  /** Where the stretches put shard `p`: with the group in place `p / each`. */
  ghost predicate InStretchOf(ids: seq<Gid>, p: nat, gid: Gid) {
    if |ids| > NSHARDS then p == 0 && ids[NSHARDS - 1] == gid
    else |ids| > 0 && p / (NSHARDS / |ids|) < |ids| && ids[p / (NSHARDS / |ids|)] == gid
  }

  /** A move lasts exactly when there are no groups, the shard lies beyond the
      stretches, or it lies in the stretch of that group anyway. */
  lemma MoveLasts(last: Config, op: Op)
    requires |last.shards| == NSHARDS && op.Valid() && op.Move?
    ensures var ids := SortedIds(last.groups.Keys);
            NextConfig(last, op).shards[op.shard] == op.gid <==>
            last.groups == map[] || LeftOver(|ids|, op.shard) || InStretchOf(ids, op.shard, op.gid)
    ensures var next := NextConfig(last, op);
            && next.groups == last.groups
            && forall p | 0 <= p < NSHARDS && p != op.shard ::
                 next.shards[p] == Rebalanced(last.shards, last.groups)[p]
  {
    hide SortedIds, Owner, LeftOver, InStretchOf;
    forall p: nat | p < NSHARDS && p != op.shard && last.groups != map[]
      ensures var ids := SortedIds(last.groups.Keys);
              ids != [] ==> Owner(last.shards[op.shard := op.gid], ids, p) == Owner(last.shards, ids, p)
    {
      OwnerElsewhere(last.shards, SortedIds(last.groups.Keys), op.shard, op.gid, p);
    }
    var ids := SortedIds(last.groups.Keys);
    if last.groups != map[] {
      assert |last.groups.Keys| == |last.groups|;
      OwnerMoved(last.shards, ids, op.shard, op.gid);
    }
  }

  lemma OwnerElsewhere(shards: seq<Gid>, ids: seq<Gid>, q: nat, gid: Gid, p: nat)
    requires |shards| == NSHARDS && q < NSHARDS && p < NSHARDS && p != q
    ensures ids != [] ==> Owner(shards[q := gid], ids, p) == Owner(shards, ids, p)
  {
  }

  lemma OwnerMoved(shards: seq<Gid>, ids: seq<Gid>, p: nat, gid: Gid)
    requires |shards| == NSHARDS && ids != [] && p < NSHARDS
    ensures Owner(shards[p := gid], ids, p) == gid <==> LeftOver(|ids|, p) || InStretchOf(ids, p, gid)
  {
    OwnerServes(shards[p := gid], ids, p);
    if |ids| <= NSHARDS {
      StretchBound(p, |ids|, NSHARDS / |ids|);
    }
  }

  /** Two groups join; shard 0 is moved to group 2 and is back with group 1. */
  lemma MoveTakenBack(servers: map<Gid, seq<string>>)
    requires servers.Keys == {1, 2}
    ensures var joined := NextConfig(FirstConfig(), Join(0, 1, servers));
            joined.shards[0] == 1 && NextConfig(joined, Move(0, 2, 0, 2)).shards[0] == 1
  {
    hide Joined, SortedIds, Owner;
    JoinEmpty(servers);
    AscendingUnique(SortedIds({1, 2}), [1, 2]);
    var joined := NextConfig(FirstConfig(), Join(0, 1, servers));
    assert joined.groups.Keys == {1, 2} && joined.groups != map[];
    FirstOfTwo(FirstConfig().shards);
    FirstOfTwo(joined.shards[0 := 2]);
  }

  lemma FirstOfTwo(shards: seq<Gid>)
    requires |shards| == NSHARDS
    ensures Owner(shards, [1, 2], 0) == 1
  {
  }
}
