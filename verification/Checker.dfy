/** The search over the linked entries: it decides linearizability. */
module Checker {
  import opened Histories
  import opened Sequences
  import opened LinkedEntries
  import opened SearchTheory
  import Bitset

  // ----- the cache

  datatype CacheEntry<S> = CacheEntry(linearized: seq<bv64>, state: S)

  datatype Key = Key(hash: bv64)

  /** Entries by the hash of their bitset. */
  type Cache<S> = map<Key, seq<CacheEntry<S>>>

  ghost predicate CacheValid<S>(cache: Cache<S>, words: nat) {
    forall key, i | key in cache && 0 <= i < |cache[key]| ::
      |cache[key][i].linearized| == words && KeyOf(cache[key][i]) == key
  }

  /** The configurations a cache holds, buckets forgotten. */
  ghost function Pairs<S>(cache: Cache<S>): set<Config<S>> {
    set key, e | key in cache && e in cache[key] :: PairOf(e)
  }

  ghost function KeyOf<S>(e: CacheEntry<S>): Key {
    Key(Bitset.HashOf(e.linearized))
  }

  ghost function PairOf<S>(e: CacheEntry<S>): Config<S> {
    (Bitset.Members(e.linearized), e.state)
  }

  method CacheContains<S(!new), I, O>(m: Model<S, I, O>, cache: Cache<S>, entry: CacheEntry<S>)
    returns (found: bool)
    requires CacheValid(cache, |entry.linearized|)
    ensures found <==> Cached(m, Pairs(cache), Bitset.Members(entry.linearized), entry.state)
  {
    hide Bitset.Members, Bitset.HashOf;
    var hash := Bitset.Hash(entry.linearized);
    var key := Key(hash);
    var bucket := if key in cache then cache[key] else [];
    for i := 0 to |bucket|
      invariant forall j | 0 <= j < i ::
                  PairOf(bucket[j]).0 == PairOf(entry).0 ==> !m.equal(entry.state, bucket[j].state)
    {
      var elem := bucket[i];
      var same := Bitset.Equals(entry.linearized, elem.linearized);
      if same && m.equal(entry.state, elem.state) {
        assert key in cache && cache[key][i] == elem;
        assert PairOf(elem) in Pairs(cache);
        return true;
      }
    }
    found := false;
    forall t | (PairOf(entry).0, t) in Pairs(cache) && m.equal(entry.state, t)
      ensures false
    {
      var b, e :| b in cache && e in cache[b] && PairOf(e) == (PairOf(entry).0, t);
      Bitset.SameMembers(entry.linearized, e.linearized);
    }
  }

  lemma CacheInsert<S>(cache: Cache<S>, words: nat, key: Key, entry: CacheEntry<S>, cache': Cache<S>)
    requires CacheValid(cache, words) && |entry.linearized| == words && key == KeyOf(entry)
    requires cache' == cache[key := (if key in cache then cache[key] else []) + [entry]]
    ensures CacheValid(cache', words)
    ensures Pairs(cache') == Pairs(cache) + {PairOf(entry)}
  {
    hide KeyOf, PairOf;
    var bucket := if key in cache then cache[key] else [];
    assert cache'[key] == bucket + [entry];
    assert forall e :: e in cache'[key] <==> e in bucket || e == entry by {
      assert cache'[key][|bucket|] == entry;
      assert forall j | 0 <= j < |bucket| :: cache'[key][j] == bucket[j];
    }
    forall c | c in Pairs(cache)
      ensures c in Pairs(cache')
    {
      var b, e :| b in cache && e in cache[b] && PairOf(e) == c;
      assert b in cache' && e in cache'[b];
    }
    forall c | c in Pairs(cache')
      ensures c in Pairs(cache) + {PairOf(entry)}
    {
      var b, e :| b in cache' && e in cache'[b] && PairOf(e) == c;
      assert (b in cache && e in cache[b]) || e == entry;
    }
  }

  // ----- what is in the list when some operations are lifted out

  /** `full` is a sentinel followed by the nodes of `h`. */
  ghost predicate Placed<I(!new), O(!new)>(full: seq<Node<I, O>>, h: seq<Entry<I, O>>) {
    && |full| == |h| + 1
    && full[0].pos == -1
    && Represents(full[1..], 0, h)
  }

  lemma NodeAt<I(!new), O(!new)>(full: seq<Node<I, O>>, h: seq<Entry<I, O>>, i: nat)
    requires WellFormed(h) && Placed(full, h) && i < |h|
    ensures full[i + 1].pos == i && full[i + 1].id == h[i].id && h[i].id < Count(h)
    ensures h[i].Call? ==> full[i + 1].value == Input(h[i].input) && CallPos(h, h[i].id) == i
    ensures full[i + 1].matching != null <==> h[i].Call? && i < ReturnPos(h, h[i].id)
    ensures h[i].Call? && i < ReturnPos(h, h[i].id) ==>
              && full[i + 1].matching == full[ReturnPos(h, h[i].id) + 1]
              && full[i + 1].matching.value == Output(h[ReturnPos(h, h[i].id)].output)
  {
    hide Linked, LinkedAt;
    assert Fits(full[1..], 0, h, i);
    if h[i].Call? {
      var id := h[i].id;
      assert IsCall(h, id, i) && IsCall(h, id, CallPos(h, id));
      var r := ReturnPos(h, id);
      MateIsReturn(h, id, i);
      assert Fits(full[1..], 0, h, r);
    }
  }

  /** From a call on, the return is found unless it stands before. */
  lemma {:induction false} MateIsReturn<I, O>(h: seq<Entry<I, O>>, id: nat, i: nat)
    requires WellFormed(h) && id < Count(h) && i <= |h|
    ensures MateFrom(h, id, i) == if i <= ReturnPos(h, id) then ReturnPos(h, id) else |h|
    decreases |h| - i
  {
    assert IsReturn(h, id, ReturnPos(h, id));
    if i < |h| && !IsReturn(h, id, i) {
      MateIsReturn(h, id, i + 1);
    }
  }

  /** The list `l` holds the sentinel and exactly the entries of operations outside `done`. */
  ghost predicate Layer<I(!new), O(!new)>(
    full: seq<Node<I, O>>, h: seq<Entry<I, O>>, done: set<nat>, l: seq<Node<I, O>>)
    requires |full| == |h| + 1
  {
    && Ordered(l)
    && l != [] && l[0] == full[0]
    && (forall j | 0 <= j < |l| :: -1 <= l[j].pos < |h| && l[j] == full[l[j].pos + 1])
    && (forall i | 0 <= i < |h| :: full[i + 1] in l <==> h[i].id !in done)
  }

  lemma LayerStart<I(!new), O(!new)>(full: seq<Node<I, O>>, h: seq<Entry<I, O>>)
    requires WellFormed(h) && Placed(full, h)
    ensures Layer(full, h, {}, full)
  {
    forall j | 0 <= j < |full|
      ensures full[j].pos == j - 1
    {
      if j > 0 {
        NodeAt(full, h, j - 1);
      }
    }
  }

  lemma LayerEntry<I(!new), O(!new)>(full: seq<Node<I, O>>, h: seq<Entry<I, O>>, done: set<nat>, l: seq<Node<I, O>>, k: nat)
    requires WellFormed(h) && Placed(full, h) && Layer(full, h, done, l) && 0 < k < |l|
    ensures 0 <= l[k].pos < |h| && l[k] == full[l[k].pos + 1] && h[l[k].pos].id !in done
  {
    assert l[0].pos < l[k].pos;
    assert l[k] in l;
  }

  /** Between two neighbours of the list there is nothing left to do. */
  lemma LayerNext<I(!new), O(!new)>(full: seq<Node<I, O>>, h: seq<Entry<I, O>>, done: set<nat>, l: seq<Node<I, O>>, k: nat)
    requires WellFormed(h) && Placed(full, h) && Layer(full, h, done, l) && k < |l|
    ensures forall q: nat | l[k].pos < q < (if k + 1 < |l| then l[k + 1].pos else |h|) && q < |h| :: h[q].id in done
  {
    forall q: nat | l[k].pos < q < (if k + 1 < |l| then l[k + 1].pos else |h|) && q < |h|
      ensures h[q].id in done
    {
      NodeAt(full, h, q);
      assert forall j | 0 <= j < |l| :: (j <= k || k + 1 <= j) && l[j] != full[q + 1];
    }
  }

  lemma LayerPair<I(!new), O(!new)>(full: seq<Node<I, O>>, h: seq<Entry<I, O>>, done: set<nat>, l: seq<Node<I, O>>, k: nat)
    returns (r: nat)
    requires WellFormed(h) && Placed(full, h) && Layer(full, h, done, l) && 0 < k < |l|
    requires 0 <= l[k].pos < |h| && h[l[k].pos].Call?
    requires h[l[k].pos].id < Count(h) && l[k].pos < ReturnPos(h, h[l[k].pos].id)
    ensures k < r < |l| && l[k].matching == l[r] && l[k].id < Count(h)
    ensures l[r] == full[ReturnPos(h, l[k].id) + 1]
  {
    LayerEntry(full, h, done, l, k);
    var i := l[k].pos;
    NodeAt(full, h, i);
    var p := ReturnPos(h, h[i].id);
    NodeAt(full, h, p);
    assert full[p + 1] in l;
    r :| r < |l| && l[r] == full[p + 1];
  }

  lemma LayerWithout<I(!new), O(!new)>(
    full: seq<Node<I, O>>, h: seq<Entry<I, O>>, done: set<nat>, l: seq<Node<I, O>>, c: nat, r: nat)
    requires WellFormed(h) && Placed(full, h) && Layer(full, h, done, l) && 0 < c < r < |l|
    requires l[c].id < Count(h)
    requires l[c] == full[CallPos(h, l[c].id) + 1] && l[r] == full[ReturnPos(h, l[c].id) + 1]
    ensures Layer(full, h, done + {l[c].id}, Without(l, c, r))
  {
    hide Ordered;
    var d, id := Without(l, c, r), l[c].id;
    OrderedWithout(l, c, r);
    forall j | 0 <= j < |d|
      ensures -1 <= d[j].pos < |h| && d[j] == full[d[j].pos + 1]
    {
      assert d[j] in l;
    }
    forall i: nat | i < |h|
      ensures full[i + 1] in d <==> h[i].id !in done + {id}
    {
      NodeAt(full, h, i);
      NodeAt(full, h, CallPos(h, id));
      NodeAt(full, h, ReturnPos(h, id));
      OnlyTwo(h, id, i);
    }
  }

  lemma OnlyTwo<I, O>(h: seq<Entry<I, O>>, id: nat, i: nat)
    requires WellFormed(h) && id < Count(h) && i < |h|
    ensures h[i].id == id <==> i == CallPos(h, id) || i == ReturnPos(h, id)
  {
    if h[i].id == id {
      assert IsCall(h, id, i) || IsReturn(h, id, i);
    }
  }

  // ----- the stack

  /** The list just before a call was lifted, and where the pair stood in it. */
  datatype Frame<I, O> = Frame(list: seq<Node<I, O>>, c: nat, r: nat)

  ghost predicate FrameOk<I(!new), O(!new)>(
    full: seq<Node<I, O>>, h: seq<Entry<I, O>>, done: set<nat>, f: Frame<I, O>, id: nat)
    requires WellFormed(h) && |full| == |h| + 1
  {
    && Layer(full, h, done, f.list)
    && id < Count(h) && id !in done
    && 0 < f.c < f.r < |f.list|
    && f.list[f.c] == full[CallPos(h, id) + 1]
    && f.list[f.r] == full[ReturnPos(h, id) + 1]
  }

  ghost predicate StackOk<I(!new), O(!new)>(
    full: seq<Node<I, O>>, h: seq<Entry<I, O>>, order: seq<nat>, frames: seq<Frame<I, O>>, list: seq<Node<I, O>>)
    requires WellFormed(h) && |full| == |h| + 1
  {
    && |frames| == |order|
    && (forall j | 0 <= j < |order| :: FrameOk(full, h, Elements(order[..j]), frames[j], order[j]))
    && (forall j | 0 <= j < |order| :: Chained(frames, list, j))
  }

  /** Lifting the pair of the `j`-th frame gave the list of the next one. */
  ghost predicate Chained<I(!new), O(!new)>(frames: seq<Frame<I, O>>, list: seq<Node<I, O>>, j: nat)
    requires j < |frames|
  {
    var f := frames[j];
    && f.c < f.r < |f.list|
    && Without(f.list, f.c, f.r) == if j + 1 < |frames| then frames[j + 1].list else list
  }

  lemma ParkedAreOut<I(!new), O(!new)>(
    full: seq<Node<I, O>>, h: seq<Entry<I, O>>, order: seq<nat>, frames: seq<Frame<I, O>>, list: seq<Node<I, O>>)
    requires WellFormed(h) && Placed(full, h)
    requires StackOk(full, h, order, frames, list) && Layer(full, h, Elements(order), list)
    ensures forall j | 0 <= j < |frames| ::
              && frames[j].c < frames[j].r < |frames[j].list|
              && frames[j].list[frames[j].c] !in list && frames[j].list[frames[j].r] !in list
  {
    forall j | 0 <= j < |frames|
      ensures frames[j].c < frames[j].r < |frames[j].list|
      ensures frames[j].list[frames[j].c] !in list && frames[j].list[frames[j].r] !in list
    {
      var id := order[j];
      assert FrameOk(full, h, Elements(order[..j]), frames[j], id) && id in order;
      OnlyTwo(h, id, CallPos(h, id));
    }
  }

  lemma StackPush<I(!new), O(!new)>(
    full: seq<Node<I, O>>, h: seq<Entry<I, O>>, order: seq<nat>, frames: seq<Frame<I, O>>, list: seq<Node<I, O>>,
    f: Frame<I, O>, id: nat)
    requires WellFormed(h) && |full| == |h| + 1
    requires StackOk(full, h, order, frames, list)
    requires FrameOk(full, h, Elements(order), f, id) && f.list == list
    ensures StackOk(full, h, order + [id], frames + [f], Without(list, f.c, f.r))
  {
    hide FrameOk, WellFormed, Without;
    var order', frames' := order + [id], frames + [f];
    FrameBounds(full, h, Elements(order), f, id);
    forall j | 0 <= j < |order'|
      ensures FrameOk(full, h, Elements(order'[..j]), frames'[j], order'[j])
      ensures Chained(frames', Without(list, f.c, f.r), j)
    {
      assert order'[..j] == order[..j] && (j < |order| ==> Chained(frames, list, j));
      assert j == |order| ==> order[..j] == order;
    }
  }

  lemma FrameBounds<I(!new), O(!new)>(
    full: seq<Node<I, O>>, h: seq<Entry<I, O>>, done: set<nat>, f: Frame<I, O>, id: nat)
    requires WellFormed(h) && |full| == |h| + 1 && FrameOk(full, h, done, f, id)
    ensures 0 < f.c < f.r < |f.list|
  {
  }

  lemma StackPop<I(!new), O(!new)>(
    full: seq<Node<I, O>>, h: seq<Entry<I, O>>, order: seq<nat>, frames: seq<Frame<I, O>>, list: seq<Node<I, O>>)
    requires WellFormed(h) && |full| == |h| + 1 && order != []
    requires StackOk(full, h, order, frames, list)
    ensures |frames| == |order|
    ensures var n := |order| - 1;
            && FrameOk(full, h, Elements(order[..n]), frames[n], order[n])
            && Without(frames[n].list, frames[n].c, frames[n].r) == list
            && StackOk(full, h, order[..n], frames[..n], frames[n].list)
  {
    hide FrameOk, WellFormed, Without;
    var n := |order| - 1;
    forall j | 0 <= j < n
      ensures FrameOk(full, h, Elements(order[..n][..j]), frames[..n][j], order[..n][j])
      ensures Chained(frames[..n], frames[n].list, j)
    {
      assert order[..n][..j] == order[..j] && Chained(frames, list, j);
    }
    assert Chained(frames, list, n);
  }

  // ----- the loop invariant

  /** A call on the stack, and the state before it. */
  datatype CallsEntry<S, I, O> = CallsEntry(entry: Node<I, O>, state: S)

  /** The history of one search so far. */
  datatype Trail<S, I, O> = Trail(
    order: seq<nat>, frames: seq<Frame<I, O>>, list: seq<Node<I, O>>, ghost pairs: set<Config<S>>)

  ghost predicate CallsOk<S, I(!new), O(!new)>(
    m: Model<S, I, O>, full: seq<Node<I, O>>, h: seq<Entry<I, O>>, order: seq<nat>, calls: seq<CallsEntry<S, I, O>>)
    requires WellFormed(h) && |full| == |h| + 1 && Ids(h, order)
  {
    && |calls| == |order|
    && forall j | 0 <= j < |order| ::
         calls[j] == CallsEntry(full[CallPos(h, order[j]) + 1], StateAt(m, h, order, j))
  }

  ghost predicate LoopInv<S(!new), I(!new), O(!new)>(
    m: Model<S, I, O>, full: seq<Node<I, O>>, h: seq<Entry<I, O>>, t: Trail<S, I, O>,
    calls: seq<CallsEntry<S, I, O>>, state: S, p: int)
  {
    && WellFormed(h) && Placed(full, h) && EqualIsSound(m)
    && SearchInv(m, h, t.order, t.pairs, p)
    && StackOk(full, h, t.order, t.frames, t.list)
    && Layer(full, h, Elements(t.order), t.list)
    && CallsOk(m, full, h, t.order, calls)
    && state == StateAt(m, h, t.order, |t.order|)
    && t.pairs <= Reach(m, h, Count(h))
  }

  /** The position of the `k`-th node of a list, past the end when there is none. */
  ghost function PosOf<I(!new), O(!new)>(h: seq<Entry<I, O>>, list: seq<Node<I, O>>, k: nat): int {
    if k < |list| then list[k].pos else |h|
  }

  lemma LoopStart<S(!new), I(!new), O(!new)>(m: Model<S, I, O>, full: seq<Node<I, O>>, h: seq<Entry<I, O>>)
    requires WellFormed(h) && Placed(full, h) && EqualIsSound(m)
    ensures LoopInv(m, full, h, Trail([], [], full, {}), [], m.init, PosOf(h, full, 1))
  {
    LayerStart(full, h);
    assert Elements([]) == {};
    if |h| > 0 {
      NodeAt(full, h, 0);
    }
    InvStart(m, h, PosOf(h, full, 1));
    assert Ops(h, []) == [];
  }

  /** What the fields of the current entry say about the history. */
  lemma EntryFacts<S(!new), I(!new), O(!new)>(
    m: Model<S, I, O>, full: seq<Node<I, O>>, h: seq<Entry<I, O>>, t: Trail<S, I, O>,
    calls: seq<CallsEntry<S, I, O>>, state: S, k: nat)
    requires LoopInv(m, full, h, t, calls, state, PosOf(h, t.list, k)) && 0 < k < |t.list|
    ensures var entry := t.list[k]; var p := entry.pos;
            && 0 <= p < |h| && entry.id == h[p].id && entry.id < Count(h) && entry.id !in t.order
            && (entry.matching != null <==> h[p].Call?)
            && (h[p].Call? ==>
                  && entry.value.Input? && entry.matching.value.Output?
                  && StepOf(m, h, state, entry.id) == m.step(state, entry.value.input, entry.matching.value.output)
                  && k + 1 < |t.list|)
  {
    hide SearchInv, StackOk, CallsOk, StateAt, Reach, EqualIsSound;
    LayerEntry(full, h, Elements(t.order), t.list, k);
    var p := t.list[k].pos;
    NodeAt(full, h, p);
    if h[p].Call? {
      ReturnIsAhead(m, h, t.order, t.pairs, p);
      var r := LayerPair(full, h, Elements(t.order), t.list, k);
    }
  }

  lemma LoopAdvance<S(!new), I(!new), O(!new)>(
    m: Model<S, I, O>, full: seq<Node<I, O>>, h: seq<Entry<I, O>>, t: Trail<S, I, O>,
    calls: seq<CallsEntry<S, I, O>>, state: S, k: nat)
    requires LoopInv(m, full, h, t, calls, state, PosOf(h, t.list, k)) && 0 < k < |t.list|
    requires 0 <= t.list[k].pos < |h| && h[t.list[k].pos].Call? && t.list[k].id < Count(h)
    requires t.list[k].id == h[t.list[k].pos].id
    requires var (ok, s') := StepOf(m, h, state, t.list[k].id);
             ok ==> Cached(m, t.pairs, Elements(t.order) + {t.list[k].id}, s')
    ensures LoopInv(m, full, h, t, calls, state, PosOf(h, t.list, k + 1))
  {
    hide SearchInv, StackOk, CallsOk, StateAt, Reach, Cached, StepOf, Layer, EqualIsSound;
    LayerNext(full, h, Elements(t.order), t.list, k);
    assert t.order[..|t.order|] == t.order;
    InvAdvance(m, h, t.order, t.pairs, t.list[k].pos, PosOf(h, t.list, k + 1));
  }

  lemma CallsPush<S, I(!new), O(!new)>(
    m: Model<S, I, O>, full: seq<Node<I, O>>, h: seq<Entry<I, O>>, order: seq<nat>, calls: seq<CallsEntry<S, I, O>>, id: nat)
    requires WellFormed(h) && |full| == |h| + 1 && Ids(h, order) && id < Count(h) && CallsOk(m, full, h, order, calls)
    ensures Ids(h, order + [id])
    ensures CallsOk(m, full, h, order + [id],
              calls + [CallsEntry(full[CallPos(h, id) + 1], StateAt(m, h, order, |order|))])
  {
    hide StateAt, WellFormed;
    forall j | 0 <= j <= |order|
      ensures StateAt(m, h, order + [id], j) == StateAt(m, h, order, j)
    {
      PrefixUnchanged(m, h, order, id, j);
    }
  }

  lemma CallsPop<S, I(!new), O(!new)>(
    m: Model<S, I, O>, full: seq<Node<I, O>>, h: seq<Entry<I, O>>, order: seq<nat>, calls: seq<CallsEntry<S, I, O>>, id: nat)
    requires WellFormed(h) && |full| == |h| + 1 && Ids(h, order) && id < Count(h)
    requires Ids(h, order + [id]) && CallsOk(m, full, h, order + [id], calls)
    ensures CallsOk(m, full, h, order, calls[..|order|])
    ensures calls[|order|] == CallsEntry(full[CallPos(h, id) + 1], StateAt(m, h, order, |order|))
  {
    hide StateAt, WellFormed;
    forall j | 0 <= j <= |order|
      ensures StateAt(m, h, order + [id], j) == StateAt(m, h, order, j)
    {
      PrefixUnchanged(m, h, order, id, j);
    }
    forall j | 0 <= j < |order|
      ensures calls[..|order|][j] == CallsEntry(full[CallPos(h, order[j]) + 1], StateAt(m, h, order, j))
    {
      assert (order + [id])[j] == order[j];
    }
  }

  /** The current call is lifted out. */
  ghost function Pushed<S, I(!new), O(!new)>(t: Trail<S, I, O>, k: nat, r: nat, newState: S): Trail<S, I, O>
    requires k < r < |t.list|
  {
    Trail(t.order + [t.list[k].id], t.frames + [Frame(t.list, k, r)], Without(t.list, k, r),
          t.pairs + {(Elements(t.order) + {t.list[k].id}, newState)})
  }

  lemma LoopPush<S(!new), I(!new), O(!new)>(
    m: Model<S, I, O>, full: seq<Node<I, O>>, h: seq<Entry<I, O>>, t: Trail<S, I, O>,
    calls: seq<CallsEntry<S, I, O>>, state: S, k: nat, r: nat, newState: S)
    requires LoopInv(m, full, h, t, calls, state, PosOf(h, t.list, k)) && 0 < k < r < |t.list|
    requires 0 <= t.list[k].pos < |h| && h[t.list[k].pos].Call? && t.list[k].id < Count(h)
    requires t.list[k].id == h[t.list[k].pos].id && t.list[k].id !in t.order
    requires t.list[r] == full[ReturnPos(h, t.list[k].id) + 1]
    requires StepOf(m, h, state, t.list[k].id) == (true, newState)
    requires !Cached(m, t.pairs, Elements(t.order) + {t.list[k].id}, newState)
    ensures var t' := Pushed(t, k, r, newState);
            && LoopInv(m, full, h, t', calls + [CallsEntry(t.list[k], state)], newState, PosOf(h, t'.list, 1))
            && |Reach(m, h, Count(h)) - t'.pairs| < |Reach(m, h, Count(h)) - t.pairs|
            && Elements(t'.order) == Elements(t.order) + {t.list[k].id}
  {
    hide SearchInv, StackOk, CallsOk, StateAt, Reach, Cached, StepOf, Layer, EqualIsSound, Without, Ordered, Accepts,
         Represents, Elements;
    var id, p := t.list[k].id, t.list[k].pos;
    var t' := Pushed(t, k, r, newState);
    LayerEntry(full, h, Elements(t.order), t.list, k);
    NodeAt(full, h, p);
    OrderOf(m, h, t.order, t.pairs, p);
    LayerWithout(full, h, Elements(t.order), t.list, k, r);
    ElementsMore(t.order, id);
    NewFrame(full, h, t, k, r);
    StackPush(full, h, t.order, t.frames, t.list, Frame(t.list, k, r), id);
    CallsPush(m, full, h, t.order, calls, id);
    LayerFirst(full, h, Elements(t'.order), t'.list);
    ElementsAre(t'.order);
    InvPush(m, h, t.order, t.pairs, p, PosOf(h, t'.list, 1));
    OrderOf(m, h, t'.order, t'.pairs, PosOf(h, t'.list, 1));
    ConfigAfter(m, h, t.order, id);
    PushShrinks(m, h, t.order, t.pairs, id);
  }

  lemma ElementsMore(order: seq<nat>, id: nat)
    ensures Elements(order + [id]) == Elements(order) + {id}
  {
  }

  lemma NewFrame<S, I(!new), O(!new)>(full: seq<Node<I, O>>, h: seq<Entry<I, O>>, t: Trail<S, I, O>, k: nat, r: nat)
    requires WellFormed(h) && Placed(full, h) && Layer(full, h, Elements(t.order), t.list)
    requires 0 < k < r < |t.list| && t.list[k].id < Count(h) && t.list[k].id !in t.order
    requires t.list[k] == full[CallPos(h, t.list[k].id) + 1]
    requires t.list[r] == full[ReturnPos(h, t.list[k].id) + 1]
    ensures FrameOk(full, h, Elements(t.order), Frame(t.list, k, r), t.list[k].id)
  {
  }

  lemma IdsOf<S(!new), I, O>(m: Model<S, I, O>, h: seq<Entry<I, O>>, order: seq<nat>, pairs: set<Config<S>>, p: int)
    requires WellFormed(h) && SearchInv(m, h, order, pairs, p)
    ensures Ids(h, order)
  {
  }

  lemma ElementsAre(order: seq<nat>)
    ensures forall id: nat :: id in Elements(order) <==> id in order
  {
  }

  lemma OrderOf<S(!new), I, O>(m: Model<S, I, O>, h: seq<Entry<I, O>>, order: seq<nat>, pairs: set<Config<S>>, p: int)
    requires WellFormed(h) && SearchInv(m, h, order, pairs, p)
    ensures ValidOrder(m, h, order)
  {
  }

  /** Before the first entry of the list there is nothing left to do. */
  lemma LayerFirst<I(!new), O(!new)>(full: seq<Node<I, O>>, h: seq<Entry<I, O>>, done: set<nat>, l: seq<Node<I, O>>)
    requires WellFormed(h) && Placed(full, h) && Layer(full, h, done, l)
    ensures forall q: nat | q < PosOf(h, l, 1) && q < |h| :: h[q].id in done
  {
    LayerNext(full, h, done, l, 0);
  }

  /** The last call on the stack is put back. */
  ghost function Popped<S, I(!new), O(!new)>(t: Trail<S, I, O>): Trail<S, I, O>
    requires t.order != [] && |t.frames| == |t.order|
  {
    var n := |t.order| - 1;
    Trail(t.order[..n], t.frames[..n], t.frames[n].list, t.pairs)
  }

  lemma LoopPop<S(!new), I(!new), O(!new)>(
    m: Model<S, I, O>, full: seq<Node<I, O>>, h: seq<Entry<I, O>>, t: Trail<S, I, O>,
    calls: seq<CallsEntry<S, I, O>>, state: S, k: nat)
    requires LoopInv(m, full, h, t, calls, state, PosOf(h, t.list, k)) && 0 < k < |t.list|
    requires 0 <= t.list[k].pos < |h| && h[t.list[k].pos].Return? && h[t.list[k].pos].id !in t.order
    requires t.order != [] && |calls| == |t.order| == |t.frames|
    ensures var n := |t.order| - 1; var f := t.frames[n];
            LoopInv(m, full, h, Popped(t), calls[..n], calls[n].state, PosOf(h, f.list, f.c + 1))
  {
    hide SearchInv, StackOk, CallsOk, StateAt, Reach, Cached, StepOf, Layer, EqualIsSound, Without, Ordered, WellFormed,
         ValidOrder, Represents, Elements;
    var n := |t.order| - 1;
    var f, id, order := t.frames[n], t.order[n], t.order[..n];
    assert t.order == order + [id];
    IdsOf(m, h, t.order, t.pairs, t.list[k].pos);
    StackPop(full, h, t.order, t.frames, t.list);
    FrameCall(full, h, Elements(order), f, id);
    CallsPop(m, full, h, order, calls, id);
    LayerNext(full, h, Elements(order), f.list, f.c);
    ElementsAre(order);
    InvPop(m, h, t.order, t.pairs, t.list[k].pos, PosOf(h, f.list, f.c + 1));
  }

  lemma FrameCall<I(!new), O(!new)>(
    full: seq<Node<I, O>>, h: seq<Entry<I, O>>, done: set<nat>, f: Frame<I, O>, id: nat)
    requires WellFormed(h) && Placed(full, h) && FrameOk(full, h, done, f, id)
    ensures f.list[f.c].pos == CallPos(h, id) && f.list[f.c].id == id
    ensures f.list[f.c].matching == f.list[f.r]
  {
    NodeAt(full, h, CallPos(h, id));
    NodeAt(full, h, ReturnPos(h, id));
    assert f.list[f.c].pos < f.list[f.r].pos;
  }

  /** What the top of the stack says about the list it was lifted from. */
  lemma TopFacts<S(!new), I(!new), O(!new)>(
    m: Model<S, I, O>, full: seq<Node<I, O>>, h: seq<Entry<I, O>>, t: Trail<S, I, O>,
    calls: seq<CallsEntry<S, I, O>>, state: S, p: int)
    requires LoopInv(m, full, h, t, calls, state, p)
    requires t.order != [] && |calls| == |t.order| == |t.frames|
    ensures var n := |t.order| - 1; var f := t.frames[n]; var call := calls[n].entry;
            && 0 < f.c < f.r < |f.list|
            && call == f.list[f.c] && call.matching == f.list[f.r] && call.id == t.order[n]
            && t.list == Without(f.list, f.c, f.r)
            && Elements(t.order[..n]) == Elements(t.order) - {call.id}
            && call.id < Count(h)
  {
    hide StackOk, StateAt, Reach, Cached, StepOf, Layer, EqualIsSound, Without, Ordered, WellFormed, SearchInv,
         Elements;
    var n := |t.order| - 1;
    LastId(m, h, t.order, t.pairs, p);
    StackPop(full, h, t.order, t.frames, t.list);
    FrameCall(full, h, Elements(t.order[..n]), t.frames[n], t.order[n]);
  }

  lemma LastId<S(!new), I, O>(m: Model<S, I, O>, h: seq<Entry<I, O>>, order: seq<nat>, pairs: set<Config<S>>, p: int)
    requires WellFormed(h) && SearchInv(m, h, order, pairs, p) && order != []
    ensures var n := |order| - 1; order[n] < Count(h) && Elements(order[..n]) == Elements(order) - {order[n]}
  {
    hide SearchInv, Accepts, WellFormed, Elements;
    OrderOf(m, h, order, pairs, p);
    ElementsLast(order);
  }

  lemma ElementsLast(order: seq<nat>)
    requires Distinct(order) && order != []
    ensures var n := |order| - 1; Elements(order[..n]) == Elements(order) - {order[n]}
  {
    var n := |order| - 1;
    ElementsAre(order);
    ElementsAre(order[..n]);
    assert order == order[..n] + [order[n]];
  }

  lemma ParkedOutOfList<S(!new), I(!new), O(!new)>(
    m: Model<S, I, O>, full: seq<Node<I, O>>, h: seq<Entry<I, O>>, t: Trail<S, I, O>,
    calls: seq<CallsEntry<S, I, O>>, state: S, p: int)
    requires LoopInv(m, full, h, t, calls, state, p)
    ensures forall j | 0 <= j < |t.frames| :: var f := t.frames[j];
              f.c < f.r < |f.list| && f.list[f.c] !in t.list && f.list[f.r] !in t.list
  {
    ParkedAreOut(full, h, t.order, t.frames, t.list);
  }

  // ----- the search

  lemma DropIn<T>(l: seq<T>, k: nat, full: seq<T>)
    requires k < |l| && forall i | 0 <= i < |l| :: l[i] in full
    ensures forall i | 0 <= i < |Drop(l, k)| :: Drop(l, k)[i] in full
  {
    forall i | 0 <= i < |Drop(l, k)|
      ensures Drop(l, k)[i] in full
    {
      assert Drop(l, k)[i] == l[if i < k then i else i + 1];
    }
  }

  lemma WithoutIn<T>(l: seq<T>, c: nat, r: nat, full: seq<T>)
    requires c < r < |l| && forall i | 0 <= i < |l| :: l[i] in full
    ensures forall i | 0 <= i < |Without(l, c, r)| :: Without(l, c, r)[i] in full
  {
    DropIn(l, c, full);
    DropIn(Drop(l, c), r - 1, full);
  }

  /** The links of the nodes are those of the trail's list and frames. */
  ghost predicate Wired<S, I(!new), O(!new)>(full: seq<Node<I, O>>, t: Trail<S, I, O>)
    reads full
  {
    && (forall i | 0 <= i < |t.list| :: t.list[i] in full)
    && (forall j | 0 <= j < |t.frames| :: FrameWired(full, t.frames[j]))
    && Linked(t.list)
  }

  ghost predicate FrameWired<I(!new), O(!new)>(full: seq<Node<I, O>>, f: Frame<I, O>)
    reads full
  {
    f.c < f.r < |f.list| && f.list[f.c] in full && f.list[f.r] in full && Parked(f.list, f.c, f.r)
  }

  /** Lifts the current call out of the list. */
  method LiftCall<S(!new), I(!new), O(!new)>(
    entry: Node<I, O>, ghost m: Model<S, I, O>, ghost full: seq<Node<I, O>>, ghost h: seq<Entry<I, O>>,
    ghost t: Trail<S, I, O>, ghost calls: seq<CallsEntry<S, I, O>>, ghost state: S, ghost k: nat, ghost r: nat,
    ghost newState: S)
    requires LoopInv(m, full, h, t, calls, state, PosOf(h, t.list, k)) && Wired(full, t)
    requires 0 < k < r < |t.list| && entry == t.list[k] && entry.matching == t.list[r]
    modifies full
    ensures Wired(full, Pushed(t, k, r, newState))
  {
    hide LoopInv, Linked, LinkedAt, Ordered, Drop, Parked;
    ListFacts(m, full, h, t, calls, state, k);
    ParkedOutOfList(m, full, h, t, calls, state, PosOf(h, t.list, k));
    DropIn(t.list, k, full);
    DropIn(t.list, k, t.list);
    WithoutIn(t.list, k, r, full);
    Lift(entry, t.list, k, r);
    forall j | 0 <= j < |t.frames|
      ensures FrameWired(full, t.frames[j])
    {
      assert old(FrameWired(full, t.frames[j]));
    }
  }

  /** Puts the last lifted call back into the list. */
  method UnliftCall<S(!new), I(!new), O(!new)>(
    entry: Node<I, O>, ghost m: Model<S, I, O>, ghost full: seq<Node<I, O>>, ghost h: seq<Entry<I, O>>,
    ghost t: Trail<S, I, O>, ghost calls: seq<CallsEntry<S, I, O>>, ghost state: S, ghost p: int)
    requires t.order != [] && |t.frames| == |t.order| && Wired(full, t)
    requires LoopInv(m, full, h, Popped(t), calls, state, p)
    requires var f := t.frames[|t.frames| - 1];
             && 0 < f.c < f.r < |f.list| && entry == f.list[f.c] && entry.matching == f.list[f.r]
             && t.list == Without(f.list, f.c, f.r)
    modifies full
    ensures Wired(full, Popped(t))
  {
    hide LoopInv, Linked, LinkedAt, Ordered;
    var t', f := Popped(t), t.frames[|t.frames| - 1];
    assert FrameWired(full, f);
    ListInFull(m, full, h, t', calls, state, p);
    ParkedOutOfList(m, full, h, t', calls, state, p);
    DropIn(t'.list, f.c, full);
    DropIn(t'.list, f.c, t'.list);
    Unlift(entry, t'.list, f.c, f.r);
    forall j | 0 <= j < |t'.frames|
      ensures FrameWired(full, t'.frames[j])
    {
      assert old(FrameWired(full, t.frames[j]));
    }
  }

  /** The variables of the loop agree with the trail of the search; the current
      entry is the `k`-th of the list. */
  ghost predicate Good<S(!new), I(!new), O(!new)>(
    m: Model<S, I, O>, full: seq<Node<I, O>>, h: seq<Entry<I, O>>, t: Trail<S, I, O>, k: nat,
    linearized: array<bv64>, cache: Cache<S>, calls: seq<CallsEntry<S, I, O>>, state: S, entry: Node?<I, O>)
    reads full, linearized
  {
    && LoopInv(m, full, h, t, calls, state, PosOf(h, t.list, k))
    && Wired(full, t)
    && t.list != [] && t.list[0] == full[0]
    && 1 <= k && (|t.list| > 1 ==> k < |t.list|)
    && entry == (if k < |t.list| then t.list[k] else null)
    && Count(h) <= 64 * linearized.Length
    && Bitset.Members(linearized[..]) == Elements(t.order)
    && Pairs(cache) == t.pairs && CacheValid(cache, linearized.Length)
  }

  /** Records the new configuration, pushes the call and lifts it out. */
  method Linearize<S(!new), I(!new), O(!new)>(
    entry: Node<I, O>, m: Model<S, I, O>, linearized: array<bv64>, cache: Cache<S>, calls: seq<CallsEntry<S, I, O>>,
    state: S, newCacheEntry: CacheEntry<S>,
    ghost full: seq<Node<I, O>>, ghost h: seq<Entry<I, O>>, ghost t: Trail<S, I, O>, ghost k: nat)
    returns (cache': Cache<S>, calls': seq<CallsEntry<S, I, O>>, ghost t': Trail<S, I, O>)
    requires Good(m, full, h, t, k, linearized, cache, calls, state, entry) && k < |t.list|
    requires entry.matching != null && entry.value.Input? && entry.matching.value.Output?
    requires m.step(state, entry.value.input, entry.matching.value.output) == (true, newCacheEntry.state)
    requires |newCacheEntry.linearized| == linearized.Length
    requires Bitset.Members(newCacheEntry.linearized) == Bitset.Members(linearized[..]) + {entry.id}
    requires !Cached(m, Pairs(cache), Bitset.Members(newCacheEntry.linearized), newCacheEntry.state)
    modifies full, linearized
    ensures full != [] && Good(m, full, h, t', 1, linearized, cache', calls', newCacheEntry.state, full[0].next)
    ensures |Reach(m, h, Count(h)) - t'.pairs| < |Reach(m, h, Count(h)) - t.pairs|
  {
    hide LoopInv, Wired, LinkedAt, Ordered, Reach, CacheValid, Pairs, Cached, Elements, Without, StepOf, WellFormed,
         Bitset.Members, Bitset.HashOf;
    ListFactsWired(m, full, h, t, calls, state, k);
    EntryFacts(m, full, h, t, calls, state, k);
    ghost var r := PairOfEntry(m, full, h, t, calls, state, k);
    ghost var newState := newCacheEntry.state;
    LoopPush(m, full, h, t, calls, state, k, r, newState);
    var hash := Bitset.Hash(newCacheEntry.linearized);
    var key := Key(hash);
    cache' := cache[key := (if key in cache then cache[key] else []) + [newCacheEntry]];
    CacheInsert(cache, linearized.Length, key, newCacheEntry, cache');
    calls' := calls + [CallsEntry(entry, state)];
    Bitset.Set(linearized, entry.id);
    LiftCall(entry, m, full, h, t, calls, state, k, r, newState);
    t' := Pushed(t, k, r, newState);
    ListFactsWired(m, full, h, t', calls', newState, 1);
  }

  /** Pops the last call and puts it back: it is the current entry again. */
  method Backtrack<S(!new), I(!new), O(!new)>(
    entry: Node<I, O>, m: Model<S, I, O>, linearized: array<bv64>, cache: Cache<S>, calls: seq<CallsEntry<S, I, O>>,
    state: S,
    ghost full: seq<Node<I, O>>, ghost h: seq<Entry<I, O>>, ghost t: Trail<S, I, O>, ghost k: nat)
    returns (entry': Node?<I, O>, calls': seq<CallsEntry<S, I, O>>, state': S, ghost t': Trail<S, I, O>, ghost k': nat)
    requires Good(m, full, h, t, k, linearized, cache, calls, state, entry) && k < |t.list|
    requires entry.matching == null && calls != []
    modifies full, linearized
    ensures Good(m, full, h, t', k', linearized, cache, calls', state', entry')
    ensures t'.pairs == t.pairs && |t'.order| < |t.order|
  {
    hide LoopInv, Wired, LinkedAt, Ordered, Reach, CacheValid, Pairs, Cached, Elements, Without, StepOf, WellFormed,
         Bitset.Members, Bitset.HashOf;
    ListFactsWired(m, full, h, t, calls, state, k);
    EntryFacts(m, full, h, t, calls, state, k);
    LoopPop(m, full, h, t, calls, state, k);
    TopFacts(m, full, h, t, calls, state, PosOf(h, t.list, k));
    var callsTop := calls[|calls| - 1];
    entry' := callsTop.entry;
    state' := callsTop.state;
    Bitset.Clear(linearized, entry'.id);
    calls' := calls[..|calls| - 1];
    ghost var c := t.frames[|calls| - 1].c;
    t', k' := Popped(t), c + 1;
    UnliftCall(entry', m, full, h, t, calls', state', PosOf(h, t'.list, k'));
    ListFactsWired(m, full, h, t', calls', state', k');
    entry' := entry'.next;
  }

  /** The words of a copy with one more member; the bitset itself stays as it is. */
  method CloneWith(linearized: array<bv64>, id: nat) returns (words: seq<bv64>)
    requires id < 64 * linearized.Length
    ensures |words| == linearized.Length
    ensures Bitset.Members(words) == Bitset.Members(linearized[..]) + {id}
  {
    hide Bitset.Members;
    var copy := Bitset.Clone(linearized);
    Bitset.Set(copy, id);
    words := copy[..];
  }

  /** The loop of the search, from its initial state. */
  method Search<S(!new), I(!new), O(!new)>(
    m: Model<S, I, O>, headEntry: Node<I, O>, subhistory: Node?<I, O>, linearized: array<bv64>,
    ghost full: seq<Node<I, O>>, ghost h: seq<Entry<I, O>>)
    returns (linearizable: bool)
    requires full != [] && headEntry == full[0] && WellFormed(h)
    requires Good(m, full, h, Trail([], [], full, {}), 1, linearized, map[], [], m.init, subhistory)
    modifies full, linearized
    ensures linearizable <==> Linearizable(m, h)
  {
    hide *;
    var cache: Cache<S> := map[];
    var calls: seq<CallsEntry<S, I, O>> := [];
    var state := m.init;
    var entry := subhistory;
    ghost var t: Trail<S, I, O>, k := Trail([], [], full, {}), 1;
    while headEntry.next != null
      invariant Good(m, full, h, t, k, linearized, cache, calls, state, entry)
      decreases |Reach(m, h, Count(h)) - t.pairs|, |t.order|, |h| - PosOf(h, t.list, k)
    {
      GoodEntry(m, full, h, t, k, linearized, cache, calls, state, entry);
      if entry.matching != null {
        var matching := entry.matching;
        var (ok, newState) := m.step(state, entry.value.input, matching.value.output);
        if ok {
          var newLinearized := CloneWith(linearized, entry.id);
          var newCacheEntry := CacheEntry(newLinearized, newState);
          var seen := CacheContains(m, cache, newCacheEntry);
          if !seen {
            cache, calls, t := Linearize(entry, m, linearized, cache, calls, state, newCacheEntry, full, h, t, k);
            state, k, entry := newState, 1, headEntry.next;
          } else {
            GoodSkip(m, full, h, t, k, linearized, cache, calls, state, entry);
            entry, k := entry.next, k + 1;
          }
        } else {
          GoodSkip(m, full, h, t, k, linearized, cache, calls, state, entry);
          entry, k := entry.next, k + 1;
        }
      } else {
        if |calls| == 0 {
          GoodFalse(m, full, h, t, k, linearized, cache, calls, state, entry);
          return false;
        }
        entry, calls, state, t, k := Backtrack(entry, m, linearized, cache, calls, state, full, h, t, k);
      }
    }
    GoodTrue(m, full, h, t, k, linearized, cache, calls, state, entry);
    return true;
  }

  /** The decision procedure: with `kill` never set, the answer is exact. */
  method CheckSingle<S(!new), I(!new), O(!new)>(
    m: Model<S, I, O>, subhistory: Node?<I, O>, ghost nodes: seq<Node<I, O>>, ghost h: seq<Entry<I, O>>)
    returns (linearizable: bool)
    requires WellFormed(h) && EqualIsSound(m)
    requires Represents(nodes, 0, h) && Linked(nodes)
    requires subhistory == if nodes == [] then null else nodes[0]
    modifies nodes
    ensures linearizable <==> Linearizable(m, h)
  {
    hide *;
    var len := Length(subhistory, nodes);
    var n := len / 2;
    var linearized := Bitset.NewBitset(n);
    var headEntry := new Node<I, O>(Nil, null, 0xFFFF_FFFF_FFFF_FFFF, -1);
    RepresentsIsOrdered(nodes, 0, h);
    Prepend(headEntry, subhistory, nodes);
    GoodStart(m, headEntry, nodes, h, linearized);
    linearizable := Search(m, headEntry, subhistory, linearized, [headEntry] + nodes, h);
  }

  lemma GoodStart<S(!new), I(!new), O(!new)>(
    m: Model<S, I, O>, head: Node<I, O>, nodes: seq<Node<I, O>>, h: seq<Entry<I, O>>, linearized: array<bv64>)
    requires WellFormed(h) && EqualIsSound(m) && Represents(nodes, 0, h) && head.pos == -1
    requires Linked([head] + nodes)
    requires |nodes| / 2 <= 64 * linearized.Length && Bitset.Members(linearized[..]) == {}
    ensures var full := [head] + nodes;
            Good(m, full, h, Trail([], [], full, {}), 1, linearized, map[], [], m.init,
                 if nodes == [] then null else nodes[0])
  {
    StartFacts(m, head, nodes, h, linearized.Length);
  }

  lemma GoodEntry<S(!new), I(!new), O(!new)>(
    m: Model<S, I, O>, full: seq<Node<I, O>>, h: seq<Entry<I, O>>, t: Trail<S, I, O>, k: nat,
    linearized: array<bv64>, cache: Cache<S>, calls: seq<CallsEntry<S, I, O>>, state: S, entry: Node?<I, O>)
    requires Good(m, full, h, t, k, linearized, cache, calls, state, entry)
    requires full != [] && full[0].next != null
    ensures 0 < k < |t.list| && entry == t.list[k]
    ensures entry.id < 64 * linearized.Length && CacheValid(cache, linearized.Length)
    ensures entry.matching != null ==> entry.value.Input? && entry.matching.value.Output?
    ensures |calls| == |t.order|
  {
    hide LoopInv, Wired, CacheValid, StepOf;
    ListFactsWired(m, full, h, t, calls, state, k);
    EntryFacts(m, full, h, t, calls, state, k);
  }

  lemma GoodSkip<S(!new), I(!new), O(!new)>(
    m: Model<S, I, O>, full: seq<Node<I, O>>, h: seq<Entry<I, O>>, t: Trail<S, I, O>, k: nat,
    linearized: array<bv64>, cache: Cache<S>, calls: seq<CallsEntry<S, I, O>>, state: S, entry: Node?<I, O>)
    requires Good(m, full, h, t, k, linearized, cache, calls, state, entry) && 0 < k < |t.list|
    requires entry != null && entry.matching != null && entry.value.Input? && entry.matching.value.Output?
    requires var (ok, s') := m.step(state, entry.value.input, entry.matching.value.output);
             ok ==> Cached(m, Pairs(cache), Bitset.Members(linearized[..]) + {entry.id}, s')
    ensures Good(m, full, h, t, k + 1, linearized, cache, calls, state, entry.next)
    ensures PosOf(h, t.list, k) < PosOf(h, t.list, k + 1) <= |h|
  {
    hide LoopInv, Wired, CacheValid, StepOf, WellFormed, Cached, Pairs, Elements, Bitset.Members;
    ListFactsWired(m, full, h, t, calls, state, k);
    EntryFacts(m, full, h, t, calls, state, k);
    LoopAdvance(m, full, h, t, calls, state, k);
  }

  lemma GoodFalse<S(!new), I(!new), O(!new)>(
    m: Model<S, I, O>, full: seq<Node<I, O>>, h: seq<Entry<I, O>>, t: Trail<S, I, O>, k: nat,
    linearized: array<bv64>, cache: Cache<S>, calls: seq<CallsEntry<S, I, O>>, state: S, entry: Node?<I, O>)
    requires Good(m, full, h, t, k, linearized, cache, calls, state, entry) && 0 < k < |t.list|
    requires entry != null && entry.matching == null && |calls| == 0 && WellFormed(h)
    ensures !Linearizable(m, h)
  {
    hide LoopInv, Wired, CacheValid, StepOf, WellFormed;
    EntryFacts(m, full, h, t, calls, state, k);
    NoCandidates(m, full, h, t, calls, state, k);
  }

  lemma GoodTrue<S(!new), I(!new), O(!new)>(
    m: Model<S, I, O>, full: seq<Node<I, O>>, h: seq<Entry<I, O>>, t: Trail<S, I, O>, k: nat,
    linearized: array<bv64>, cache: Cache<S>, calls: seq<CallsEntry<S, I, O>>, state: S, entry: Node?<I, O>)
    requires Good(m, full, h, t, k, linearized, cache, calls, state, entry)
    requires full != [] && full[0].next == null && WellFormed(h)
    ensures Linearizable(m, h)
  {
    hide LoopInv, Wired, CacheValid;
    ListFactsWired(m, full, h, t, calls, state, k);
    Exhausted(m, full, h, t, calls, state, k);
  }

  lemma StartFacts<S(!new), I(!new), O(!new)>(
    m: Model<S, I, O>, head: Node<I, O>, nodes: seq<Node<I, O>>, h: seq<Entry<I, O>>, words: nat)
    requires WellFormed(h) && EqualIsSound(m) && Represents(nodes, 0, h) && head.pos == -1
    ensures var full := [head] + nodes;
            && LoopInv(m, full, h, Trail([], [], full, {}), [], m.init, PosOf(h, full, 1))
            && |nodes| == |h|
    ensures var none: Cache<S> := map[]; Pairs(none) == {} && CacheValid(none, words)
    ensures Elements([]) == {}
  {
    var full := [head] + nodes;
    assert full[1..] == nodes;
    LoopStart(m, full, h);
  }

  lemma ListInFull<S(!new), I(!new), O(!new)>(
    m: Model<S, I, O>, full: seq<Node<I, O>>, h: seq<Entry<I, O>>, t: Trail<S, I, O>,
    calls: seq<CallsEntry<S, I, O>>, state: S, p: int)
    requires LoopInv(m, full, h, t, calls, state, p)
    ensures Ordered(t.list) && t.list != [] && t.list[0] == full[0]
    ensures forall i | 0 <= i < |t.list| :: t.list[i] in full
  {
  }

  lemma ListFactsWired<S(!new), I(!new), O(!new)>(
    m: Model<S, I, O>, full: seq<Node<I, O>>, h: seq<Entry<I, O>>, t: Trail<S, I, O>,
    calls: seq<CallsEntry<S, I, O>>, state: S, k: nat)
    requires LoopInv(m, full, h, t, calls, state, PosOf(h, t.list, k)) && Wired(full, t)
    ensures full != [] && t.list != [] && t.list[0] == full[0]
    ensures t.list[0].next == if |t.list| > 1 then t.list[1] else null
    ensures 0 < k < |t.list| ==> t.list[k - 1].next == t.list[k]
    ensures k < |t.list| ==> t.list[k].next == if k + 1 < |t.list| then t.list[k + 1] else null
    ensures k < |t.list| ==> PosOf(h, t.list, k) < PosOf(h, t.list, k + 1) <= |h|
    ensures |calls| == |t.order| == |t.frames|
  {
    ListFacts(m, full, h, t, calls, state, k);
    if k > 0 && k < |t.list| {
      assert LinkedAt(t.list, k - 1);
    }
  }

  lemma ListFacts<S(!new), I(!new), O(!new)>(
    m: Model<S, I, O>, full: seq<Node<I, O>>, h: seq<Entry<I, O>>, t: Trail<S, I, O>,
    calls: seq<CallsEntry<S, I, O>>, state: S, k: nat)
    requires LoopInv(m, full, h, t, calls, state, PosOf(h, t.list, k)) && Linked(t.list)
    ensures Ordered(t.list) && t.list != [] && t.list[0] == full[0]
    ensures forall i | 0 <= i < |t.list| :: t.list[i] in full
    ensures t.list[0].next == if |t.list| > 1 then t.list[1] else null
    ensures k < |t.list| ==> t.list[k].next == if k + 1 < |t.list| then t.list[k + 1] else null
    ensures |calls| == |t.order| == |t.frames|
  {
    assert LinkedAt(t.list, 0);
    assert k < |t.list| ==> LinkedAt(t.list, k);
  }

  lemma PairOfEntry<S(!new), I(!new), O(!new)>(
    m: Model<S, I, O>, full: seq<Node<I, O>>, h: seq<Entry<I, O>>, t: Trail<S, I, O>,
    calls: seq<CallsEntry<S, I, O>>, state: S, k: nat) returns (r: nat)
    requires LoopInv(m, full, h, t, calls, state, PosOf(h, t.list, k)) && 0 < k < |t.list|
    requires 0 <= t.list[k].pos < |h| && h[t.list[k].pos].Call? && t.list[k].id < Count(h)
    ensures k < r < |t.list| && t.list[k].matching == t.list[r] && t.list[r] == full[ReturnPos(h, t.list[k].id) + 1]
  {
    hide SearchInv, StackOk, CallsOk, StateAt, Reach, EqualIsSound;
    LayerEntry(full, h, Elements(t.order), t.list, k);
    NodeAt(full, h, t.list[k].pos);
    ReturnIsAhead(m, h, t.order, t.pairs, t.list[k].pos);
    r := LayerPair(full, h, Elements(t.order), t.list, k);
  }

  lemma NoCandidates<S(!new), I(!new), O(!new)>(
    m: Model<S, I, O>, full: seq<Node<I, O>>, h: seq<Entry<I, O>>, t: Trail<S, I, O>,
    calls: seq<CallsEntry<S, I, O>>, state: S, k: nat)
    requires LoopInv(m, full, h, t, calls, state, PosOf(h, t.list, k)) && 0 < k < |t.list|
    requires 0 <= t.list[k].pos < |h| && h[t.list[k].pos].Return? && |calls| == 0
    ensures !Linearizable(m, h)
  {
    AnswerFalse(m, h, t.pairs, t.list[k].pos);
  }

  lemma Exhausted<S(!new), I(!new), O(!new)>(
    m: Model<S, I, O>, full: seq<Node<I, O>>, h: seq<Entry<I, O>>, t: Trail<S, I, O>,
    calls: seq<CallsEntry<S, I, O>>, state: S, k: nat)
    requires LoopInv(m, full, h, t, calls, state, PosOf(h, t.list, k)) && |t.list| == 1
    ensures Linearizable(m, h)
  {
    hide StackOk, CallsOk, StateAt, Reach;
    LayerFirst(full, h, Elements(t.order), t.list);
    OrderOf(m, h, t.order, t.pairs, PosOf(h, t.list, k));
    AnswerTrue(m, h, t.order);
  }
}
