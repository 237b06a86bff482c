/** Why the depth-first search of the checker is exact: the invariant of its
    loop, over values only, and one lemma for each thing an iteration can do. */
module SearchTheory {
  import opened Histories
  import opened Sequences

  /** Which operations are linearized, and the state they lead to. */
  type Config<S> = (set<nat>, S)

  ghost function Elements(order: seq<nat>): set<nat> {
    set id | id in order
  }

  /** No schedule of what is left is accepted. */
  ghost predicate Dead<S, I, O>(m: Model<S, I, O>, h: seq<Entry<I, O>>, done: set<nat>, s: S)
    requires WellFormed(h)
  {
    forall rest :: !Completes(m, h, done, s, rest)
  }

  ghost predicate Cached<S(!new), I, O>(m: Model<S, I, O>, pairs: set<Config<S>>, done: set<nat>, s: S) {
    exists t :: (done, t) in pairs && m.equal(s, t)
  }

  ghost function StepOf<S, I, O>(m: Model<S, I, O>, h: seq<Entry<I, O>>, s: S, id: nat): (bool, S)
    requires WellFormed(h) && id < Count(h)
  {
    m.step(s, OpOf(h, id).input, OpOf(h, id).output)
  }

  // ----- the shape of a completion

  lemma FirstIsMinimal<I, O>(h: seq<Entry<I, O>>, rest: seq<nat>, id: nat)
    requires WellFormed(h) && Ids(h, rest) && RespectsRealTime(h, rest)
    requires id in rest
    ensures CallPos(h, rest[0]) < ReturnPos(h, id)
  {
    hide WellFormed;
    var j :| 0 <= j < |rest| && rest[j] == id;
    assert !Precedes(h, rest[j], rest[0]);
    assert IsCall(h, rest[0], CallPos(h, rest[0])) && IsReturn(h, id, ReturnPos(h, id));
  }

  lemma RestOfCompletion<S, I, O>(m: Model<S, I, O>, h: seq<Entry<I, O>>, done: set<nat>, s: S, rest: seq<nat>)
    requires WellFormed(h) && Completes(m, h, done, s, rest) && rest != []
    ensures StepOf(m, h, s, rest[0]).0
    ensures Completes(m, h, done + {rest[0]}, StepOf(m, h, s, rest[0]).1, rest[1..])
  {
    hide WellFormed, Precedes, OpOf;
    assert Ops(h, rest)[1..] == Ops(h, rest[1..]);
    assert rest == [rest[0]] + rest[1..];
  }

  /** When the first live return is at `p` and every live call before it is
      hopeless, the configuration is dead. */
  lemma DeadWithoutCandidates<S, I, O>(m: Model<S, I, O>, h: seq<Entry<I, O>>, done: set<nat>, s: S, p: nat)
    requires WellFormed(h)
    requires p < |h| && h[p].Return? && h[p].id !in done
    requires forall q: nat | q < p && h[q].Call? && h[q].id !in done ::
               var (ok, s') := StepOf(m, h, s, h[q].id);
               ok ==> Dead(m, h, done + {h[q].id}, s')
    ensures Dead(m, h, done, s)
  {
    forall rest | Completes(m, h, done, s, rest)
      ensures false
    {
      var id := h[p].id;
      assert id in rest;
      assert IsReturn(h, id, p) && IsReturn(h, id, ReturnPos(h, id));
      FirstIsMinimal(h, rest, id);
      RestOfCompletion(m, h, done, s, rest);
    }
  }

  lemma DeadUpToEqual<S(!new), I(!new), O(!new)>(
    m: Model<S, I, O>, h: seq<Entry<I, O>>, done: set<nat>, s: S, t: S)
    requires WellFormed(h) && EqualIsSound(m) && m.equal(s, t) && Dead(m, h, done, t)
    ensures Dead(m, h, done, s)
  {
    forall rest | Completes(m, h, done, s, rest)
      ensures false
    {
      assert Accepts(m, t, Ops(h, rest));
      assert Completes(m, h, done, t, rest);
    }
  }

  // ----- the loop invariant

  /** The state after the first `k` operations of `order`. */
  ghost function StateAt<S, I, O>(m: Model<S, I, O>, h: seq<Entry<I, O>>, order: seq<nat>, k: nat): S
    requires WellFormed(h) && Ids(h, order) && k <= |order|
  {
    Final(m, m.init, Ops(h, order[..k]))
  }

  ghost function ConfigAt<S, I, O>(m: Model<S, I, O>, h: seq<Entry<I, O>>, order: seq<nat>, k: nat): Config<S>
    requires WellFormed(h) && Ids(h, order) && k <= |order|
  {
    (Elements(order[..k]), StateAt(m, h, order, k))
  }

  /** From configuration `c`, no return is live before position `p` and every
      live call before `p` has been refused or led to a cached configuration. */
  ghost predicate Explored<S(!new), I, O>(
    m: Model<S, I, O>, h: seq<Entry<I, O>>, pairs: set<Config<S>>, c: Config<S>, p: int)
    requires WellFormed(h)
  {
    forall q: nat | q < p && q < |h| && h[q].id !in c.0 ::
      h[q].Call? &&
      var (ok, s') := StepOf(m, h, c.1, h[q].id);
      ok ==> Cached(m, pairs, c.0 + {h[q].id}, s')
  }

  /** The operations of `order` are a partial linearization, and each could be
      chosen where it was: nothing left to do then had returned before it. */
  ghost predicate ValidOrder<S, I, O>(m: Model<S, I, O>, h: seq<Entry<I, O>>, order: seq<nat>)
    requires WellFormed(h)
  {
    && Ids(h, order)
    && Distinct(order)
    && Accepts(m, m.init, Ops(h, order))
    && (forall k, id: nat | 0 <= k < |order| && id < Count(h) && id !in order[..k] ::
          CallPos(h, order[k]) < ReturnPos(h, id))
  }

  /** Every cached configuration is on the current path or a dead end. */
  ghost predicate CacheInv<S, I, O>(
    m: Model<S, I, O>, h: seq<Entry<I, O>>, order: seq<nat>, pairs: set<Config<S>>)
    requires WellFormed(h) && Ids(h, order)
  {
    && (forall c | c in pairs ::
          Dead(m, h, c.0, c.1) || exists k :: 1 <= k <= |order| && c == ConfigAt(m, h, order, k))
    && (forall k | 1 <= k <= |order| :: ConfigAt(m, h, order, k) in pairs)
  }

  /** At each depth of the stack, what stands before the call chosen there is explored. */
  ghost predicate PathExplored<S(!new), I, O>(
    m: Model<S, I, O>, h: seq<Entry<I, O>>, order: seq<nat>, pairs: set<Config<S>>)
    requires WellFormed(h) && Ids(h, order)
  {
    forall k | 0 <= k < |order| :: Explored(m, h, pairs, ConfigAt(m, h, order, k), CallPos(h, order[k]))
  }

  /** `order` are the calls on the stack, `pairs` the cached configurations and
      `p` the position of the entry to look at next. */
  ghost predicate SearchInv<S(!new), I, O>(
    m: Model<S, I, O>, h: seq<Entry<I, O>>, order: seq<nat>, pairs: set<Config<S>>, p: int)
    requires WellFormed(h)
  {
    && ValidOrder(m, h, order)
    && CacheInv(m, h, order, pairs)
    && PathExplored(m, h, order, pairs)
    && Explored(m, h, pairs, ConfigAt(m, h, order, |order|), p)
  }

  /** The search never gets past the return of an operation that is still to do. */
  lemma ReturnIsAhead<S(!new), I, O>(
    m: Model<S, I, O>, h: seq<Entry<I, O>>, order: seq<nat>, pairs: set<Config<S>>, p: nat)
    requires WellFormed(h) && SearchInv(m, h, order, pairs, p)
    requires p < |h| && h[p].Call? && h[p].id !in order && h[p].id < Count(h)
    ensures p < ReturnPos(h, h[p].id)
  {
    hide WellFormed, ValidOrder, CacheInv, PathExplored, StepOf, StateAt;
    assert order[..|order|] == order;
    var r := ReturnPos(h, h[p].id);
    assert IsReturn(h, h[p].id, r);
  }

  /** Nothing is on the stack or in the cache yet. */
  lemma InvStart<S(!new), I, O>(m: Model<S, I, O>, h: seq<Entry<I, O>>, p: int)
    requires WellFormed(h)
    requires p <= 0
    ensures SearchInv(m, h, [], {}, p)
  {
  }

  /** The call at `p` is refused or leads to a cached configuration: look at the
      next live entry, at `p'`. */
  lemma InvAdvance<S(!new), I, O>(
    m: Model<S, I, O>, h: seq<Entry<I, O>>, order: seq<nat>, pairs: set<Config<S>>, p: nat, p': int)
    requires WellFormed(h) && SearchInv(m, h, order, pairs, p)
    requires p < |h| && h[p].Call?
    requires var (done, s) := ConfigAt(m, h, order, |order|);
             var (ok, s') := StepOf(m, h, s, h[p].id);
             ok ==> Cached(m, pairs, done + {h[p].id}, s')
    requires forall q: nat | p < q < p' && q < |h| :: h[q].id in order
    ensures SearchInv(m, h, order, pairs, p')
  {
    hide WellFormed, CacheInv, StepOf, StateAt, Cached;
    assert order[..|order|] == order;
    var c := ConfigAt(m, h, order, |order|);
    forall q: nat | q < p' && q < |h| && h[q].id !in c.0
      ensures q <= p
    {
      assert h[q].id !in order;
    }
  }

  lemma PrefixUnchanged<S, I, O>(m: Model<S, I, O>, h: seq<Entry<I, O>>, order: seq<nat>, id: nat, k: nat)
    requires WellFormed(h) && Ids(h, order) && id < Count(h) && k <= |order|
    ensures Ids(h, order + [id])
    ensures ConfigAt(m, h, order + [id], k) == ConfigAt(m, h, order, k)
  {
    assert (order + [id])[..k] == order[..k];
  }

  lemma ConfigAfter<S, I, O>(m: Model<S, I, O>, h: seq<Entry<I, O>>, order: seq<nat>, id: nat)
    requires WellFormed(h) && Ids(h, order) && id < Count(h)
    ensures Ids(h, order + [id])
    ensures ConfigAt(m, h, order + [id], |order| + 1)
         == (Elements(order) + {id}, StepOf(m, h, StateAt(m, h, order, |order|), id).1)
    ensures Accepts(m, m.init, Ops(h, order + [id])) <==>
            Accepts(m, m.init, Ops(h, order)) && StepOf(m, h, StateAt(m, h, order, |order|), id).0
  {
    hide WellFormed, OpOf;
    assert (order + [id])[..|order| + 1] == order + [id];
    assert order[..|order|] == order;
    assert Ops(h, order + [id]) == Ops(h, order) + [OpOf(h, id)];
    assert Elements(order + [id]) == Elements(order) + {id};
    RunOfConcat(m, m.init, Ops(h, order), [OpOf(h, id)]);
  }

  lemma CachedMono<S(!new), I, O>(m: Model<S, I, O>, h: seq<Entry<I, O>>,
      pairs: set<Config<S>>, pairs': set<Config<S>>, c: Config<S>, p: int)
    requires WellFormed(h) && pairs <= pairs' && Explored(m, h, pairs, c, p)
    ensures Explored(m, h, pairs', c, p)
  {
    hide WellFormed, StepOf;
  }

  lemma PushOrder<S, I, O>(m: Model<S, I, O>, h: seq<Entry<I, O>>, order: seq<nat>, p: nat)
    requires WellFormed(h) && ValidOrder(m, h, order)
    requires p < |h| && h[p].Call? && h[p].id !in order
    requires forall q: nat | q < p && h[q].id !in order :: h[q].Call?
    requires StepOf(m, h, StateAt(m, h, order, |order|), h[p].id).0
    ensures ValidOrder(m, h, order + [h[p].id])
  {
    hide StateAt, StepOf, Accepts, Final, OpOf;
    var id := h[p].id;
    var order' := order + [id];
    ConfigAfter(m, h, order, id);
    forall k, x: nat | 0 <= k < |order'| && x < Count(h) && x !in order'[..k]
      ensures CallPos(h, order'[k]) < ReturnPos(h, x)
    {
      if k < |order| {
        assert order'[..k] == order[..k];
      } else {
        assert order'[..k] == order;
        assert IsCall(h, id, p) && IsCall(h, id, CallPos(h, id));
        var r := ReturnPos(h, x);
        assert h[r].id !in order;
      }
    }
  }

  /** The call at `p` is accepted and leads to a new configuration: push it, and
      start again from the first live entry, at `p'`. */
  lemma InvPush<S(!new), I, O>(
    m: Model<S, I, O>, h: seq<Entry<I, O>>, order: seq<nat>, pairs: set<Config<S>>, p: nat, p': int)
    requires WellFormed(h) && SearchInv(m, h, order, pairs, p)
    requires p < |h| && h[p].Call? && h[p].id !in order
    requires StepOf(m, h, StateAt(m, h, order, |order|), h[p].id).0
    requires forall q: nat | q < p' && q < |h| :: h[q].id in order + [h[p].id]
    ensures var s' := StepOf(m, h, StateAt(m, h, order, |order|), h[p].id).1;
            SearchInv(m, h, order + [h[p].id], pairs + {(Elements(order) + {h[p].id}, s')}, p')
  {
    hide StepOf, StateAt, CacheInv, PathExplored;
    var id := h[p].id;
    assert order[..|order|] == order && (order + [id])[..|order| + 1] == order + [id];
    PushOrder(m, h, order, p);
    ConfigAfter(m, h, order, id);
    PushCache(m, h, order, id, pairs);
    PushPath(m, h, order, id, p, pairs);
  }

  lemma PushCache<S(!new), I, O>(
    m: Model<S, I, O>, h: seq<Entry<I, O>>, order: seq<nat>, id: nat, pairs: set<Config<S>>)
    requires WellFormed(h) && Ids(h, order) && id < Count(h) && CacheInv(m, h, order, pairs)
    ensures Ids(h, order + [id])
    ensures CacheInv(m, h, order + [id], pairs + {ConfigAt(m, h, order + [id], |order| + 1)})
  {
    hide WellFormed, Dead, ConfigAt;
    forall k: nat | k <= |order|
      ensures ConfigAt(m, h, order + [id], k) == ConfigAt(m, h, order, k)
    {
      PrefixUnchanged(m, h, order, id, k);
    }
  }

  lemma PushPath<S(!new), I, O>(
    m: Model<S, I, O>, h: seq<Entry<I, O>>, order: seq<nat>, id: nat, p: nat, pairs: set<Config<S>>)
    requires WellFormed(h) && Ids(h, order) && IsCall(h, id, p)
    requires PathExplored(m, h, order, pairs) && Explored(m, h, pairs, ConfigAt(m, h, order, |order|), p)
    ensures Ids(h, order + [id])
    ensures PathExplored(m, h, order + [id], pairs + {ConfigAt(m, h, order + [id], |order| + 1)})
  {
    hide Explored, ConfigAt;
    var order' := order + [id];
    var pairs' := pairs + {ConfigAt(m, h, order', |order| + 1)};
    forall k: nat | k < |order'|
      ensures Explored(m, h, pairs', ConfigAt(m, h, order', k), CallPos(h, order'[k]))
    {
      PrefixUnchanged(m, h, order, id, k);
      assert IsCall(h, id, CallPos(h, id));
      CachedMono(m, h, pairs, pairs', ConfigAt(m, h, order, k), if k < |order| then CallPos(h, order[k]) else p);
    }
  }

  /** The first live return is at `p`: the current configuration is a dead end. */
  lemma TopIsDead<S(!new), I(!new), O(!new)>(
    m: Model<S, I, O>, h: seq<Entry<I, O>>, order: seq<nat>, pairs: set<Config<S>>, p: nat)
    requires WellFormed(h) && EqualIsSound(m) && SearchInv(m, h, order, pairs, p)
    requires p < |h| && h[p].Return? && h[p].id !in order
    ensures Dead(m, h, Elements(order), StateAt(m, h, order, |order|))
  {
    hide StepOf, StateAt, Dead, EqualIsSound;
    assert order[..|order|] == order;
    var (done, s) := ConfigAt(m, h, order, |order|);
    forall q: nat | q < p && h[q].Call? && h[q].id !in done && StepOf(m, h, s, h[q].id).0
      ensures Dead(m, h, done + {h[q].id}, StepOf(m, h, s, h[q].id).1)
    {
      var id := h[q].id;
      var s' := StepOf(m, h, s, id).1;
      var t :| (done + {id}, t) in pairs && m.equal(s', t);
      forall k | 1 <= k <= |order|
        ensures (done + {id}, t) != ConfigAt(m, h, order, k)
      {
        assert id !in Elements(order[..k]);
      }
      DeadUpToEqual(m, h, done + {id}, s', t);
    }
    DeadWithoutCandidates(m, h, done, s, p);
  }

  /** Pop the last call and go on with the entry after it, at `p'`. */
  lemma InvPop<S(!new), I(!new), O(!new)>(
    m: Model<S, I, O>, h: seq<Entry<I, O>>, order: seq<nat>, pairs: set<Config<S>>, p: nat, p': int)
    requires WellFormed(h) && EqualIsSound(m) && SearchInv(m, h, order, pairs, p)
    requires p < |h| && h[p].Return? && h[p].id !in order
    requires order != []
    requires forall q: nat | CallPos(h, order[|order| - 1]) < q < p' && q < |h| :: h[q].id in order[..|order| - 1]
    ensures SearchInv(m, h, order[..|order| - 1], pairs, p')
  {
    hide StepOf, StateAt, Dead, CacheInv, PathExplored, Explored;
    var id, order' := order[|order| - 1], order[..|order| - 1];
    assert order == order' + [id] && order[..|order|] == order;
    TopIsDead(m, h, order, pairs, p);
    PopOrder(m, h, order', id);
    PopCache(m, h, order', id, pairs);
    PopPath(m, h, order', id, pairs);
    LastIsCached(m, h, order, pairs);
    PopExplored(m, h, order', id, pairs, p');
  }

  lemma LastIsCached<S, I, O>(m: Model<S, I, O>, h: seq<Entry<I, O>>, order: seq<nat>, pairs: set<Config<S>>)
    requires WellFormed(h) && Ids(h, order) && order != [] && CacheInv(m, h, order, pairs)
    ensures ConfigAt(m, h, order, |order|) in pairs
  {
  }

  lemma PopOrder<S, I, O>(m: Model<S, I, O>, h: seq<Entry<I, O>>, order: seq<nat>, id: nat)
    requires WellFormed(h) && ValidOrder(m, h, order + [id])
    ensures ValidOrder(m, h, order) && id < Count(h)
  {
    hide StateAt, StepOf;
    var order' := order + [id];
    assert order'[|order|] == id;
    forall k | 0 <= k < |order|
      ensures order[k] == order'[k] && order[..k] == order'[..k]
    {
    }
    ConfigAfter(m, h, order, id);
  }

  lemma PopCache<S(!new), I, O>(
    m: Model<S, I, O>, h: seq<Entry<I, O>>, order: seq<nat>, id: nat, pairs: set<Config<S>>)
    requires WellFormed(h) && Ids(h, order) && id < Count(h)
    requires Ids(h, order + [id]) && CacheInv(m, h, order + [id], pairs)
    requires Dead(m, h, Elements(order + [id]), StateAt(m, h, order + [id], |order| + 1))
    ensures CacheInv(m, h, order, pairs)
  {
    hide WellFormed, StateAt, Dead;
    var order' := order + [id];
    assert order'[..|order'|] == order';
    forall k: nat | k <= |order|
      ensures ConfigAt(m, h, order', k) == ConfigAt(m, h, order, k)
    {
      PrefixUnchanged(m, h, order, id, k);
    }
  }

  lemma PopPath<S(!new), I, O>(
    m: Model<S, I, O>, h: seq<Entry<I, O>>, order: seq<nat>, id: nat, pairs: set<Config<S>>)
    requires WellFormed(h) && Ids(h, order) && id < Count(h)
    requires Ids(h, order + [id]) && PathExplored(m, h, order + [id], pairs)
    ensures PathExplored(m, h, order, pairs)
    ensures Explored(m, h, pairs, ConfigAt(m, h, order, |order|), CallPos(h, id))
  {
    hide WellFormed, Explored, ConfigAt;
    forall k: nat | k <= |order|
      ensures Explored(m, h, pairs, ConfigAt(m, h, order, k), CallPos(h, (order + [id])[k]))
    {
      PrefixUnchanged(m, h, order, id, k);
    }
  }

  /** The popped call led to a cached configuration. */
  lemma PopExplored<S(!new), I, O>(
    m: Model<S, I, O>, h: seq<Entry<I, O>>, order: seq<nat>, id: nat, pairs: set<Config<S>>, p': int)
    requires WellFormed(h) && Ids(h, order) && id < Count(h) && (forall s :: m.equal(s, s))
    requires Ids(h, order + [id]) && ConfigAt(m, h, order + [id], |order| + 1) in pairs
    requires Explored(m, h, pairs, ConfigAt(m, h, order, |order|), CallPos(h, id))
    requires forall q: nat | CallPos(h, id) < q < p' && q < |h| :: h[q].id in order
    ensures Explored(m, h, pairs, ConfigAt(m, h, order, |order|), p')
  {
    hide StepOf, StateAt;
    assert order[..|order|] == order;
    ConfigAfter(m, h, order, id);
    var c := ConfigAt(m, h, order, |order|);
    forall q: nat | q < p' && q < |h| && h[q].id !in c.0
      ensures q <= CallPos(h, id)
    {
      assert h[q].id !in order;
    }
  }

  // ----- what the two answers mean

  /** Every operation is on the stack: its order is a linearization. */
  lemma AnswerTrue<S, I, O>(m: Model<S, I, O>, h: seq<Entry<I, O>>, order: seq<nat>)
    requires WellFormed(h) && ValidOrder(m, h, order)
    requires forall q: nat | q < |h| :: h[q].id in order
    ensures Linearizable(m, h)
  {
    forall id: nat
      ensures id in order <==> id < Count(h)
    {
      if id < Count(h) {
        assert h[CallPos(h, id)].id == id;
      }
    }
    assert Completes(m, h, {}, m.init, order);
  }

  /** A return is live, no call is on the stack: there is no linearization. */
  lemma AnswerFalse<S(!new), I(!new), O(!new)>(
    m: Model<S, I, O>, h: seq<Entry<I, O>>, pairs: set<Config<S>>, p: nat)
    requires WellFormed(h) && EqualIsSound(m) && SearchInv(m, h, [], pairs, p)
    requires p < |h| && h[p].Return?
    ensures !Linearizable(m, h)
  {
    TopIsDead(m, h, [], pairs, p);
    assert Elements([]) == {};
  }

  // ----- termination: only finitely many configurations can be cached

  ghost function Reach<S, I, O>(m: Model<S, I, O>, h: seq<Entry<I, O>>, k: nat): set<Config<S>>
    requires WellFormed(h)
  {
    if k == 0 then {({}, m.init)} else
    var r := Reach(m, h, k - 1);
    r + set c, id | c in r && 0 <= id < Count(h) :: Next(m, h, c, id)
  }

  ghost function Next<S, I, O>(m: Model<S, I, O>, h: seq<Entry<I, O>>, c: Config<S>, id: nat): Config<S>
    requires WellFormed(h) && id < Count(h)
  {
    (c.0 + {id}, StepOf(m, h, c.1, id).1)
  }

  lemma {:induction false} ReachGrows<S, I, O>(m: Model<S, I, O>, h: seq<Entry<I, O>>, k: nat, n: nat)
    requires WellFormed(h) && k <= n
    ensures Reach(m, h, k) <= Reach(m, h, n)
  {
    if k < n {
      ReachGrows(m, h, k, n - 1);
    }
  }

  lemma {:induction false} PathIsReachable<S, I, O>(m: Model<S, I, O>, h: seq<Entry<I, O>>, order: seq<nat>)
    requires WellFormed(h) && Ids(h, order)
    ensures ConfigAt(m, h, order, |order|) in Reach(m, h, |order|)
  {
    hide StepOf;
    if order == [] {
      assert order[..0] == [] && Ops(h, order[..0]) == [] && Elements(order[..0]) == {};
    } else {
      var id, order' := order[|order| - 1], order[..|order| - 1];
      assert order == order' + [id];
      PathIsReachable(m, h, order');
      ConfigAfter(m, h, order', id);
      assert order'[..|order'|] == order';
      assert ConfigAt(m, h, order, |order|) == Next(m, h, ConfigAt(m, h, order', |order'|), id);
    }
  }

  lemma DistinctBound(order: seq<nat>, n: nat)
    requires Distinct(order) && forall i | 0 <= i < |order| :: order[i] < n
    ensures |order| <= n
  {
    ElementsSize(order);
    SubsetSize(Elements(order), Interval(0, n));
  }

  lemma {:induction false} ElementsSize(order: seq<nat>)
    requires Distinct(order)
    ensures |Elements(order)| == |order|
  {
    if order != [] {
      var order' := order[..|order| - 1];
      ElementsSize(order');
      assert Elements(order) == Elements(order') + {order[|order| - 1]};
    }
  }

  /** A push adds a reachable configuration that was not cached. */
  lemma PushShrinks<S(!new), I(!new), O(!new)>(
    m: Model<S, I, O>, h: seq<Entry<I, O>>, order: seq<nat>, pairs: set<Config<S>>, id: nat)
    requires WellFormed(h) && EqualIsSound(m) && ValidOrder(m, h, order) && ValidOrder(m, h, order + [id])
    requires id < Count(h)
    requires pairs <= Reach(m, h, Count(h))
    requires !Cached(m, pairs, Elements(order) + {id}, StepOf(m, h, StateAt(m, h, order, |order|), id).1)
    ensures var c := (Elements(order) + {id}, StepOf(m, h, StateAt(m, h, order, |order|), id).1);
            && pairs + {c} <= Reach(m, h, Count(h))
            && |Reach(m, h, Count(h)) - (pairs + {c})| < |Reach(m, h, Count(h)) - pairs|
  {
    hide StepOf, StateAt, Reach;
    var c := (Elements(order) + {id}, StepOf(m, h, StateAt(m, h, order, |order|), id).1);
    var order' := order + [id];
    var all := Reach(m, h, Count(h));
    DistinctBound(order', Count(h));
    PathIsReachable(m, h, order');
    ConfigAfter(m, h, order, id);
    ReachGrows(m, h, |order'|, Count(h));
    assert m.equal(c.1, c.1) && c !in pairs;
    assert all - pairs == (all - (pairs + {c})) + {c};
  }
}
