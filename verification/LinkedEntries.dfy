/** The checker's doubly linked list of entries, spliced in place. */
module LinkedEntries {
  import opened Histories
  import opened Sequences

  datatype Value<I, O> = Input(input: I) | Output(output: O) | Nil

  /** A call has its return as `matching`; a return has none. Only the links
      ever change. `pos` is the entry's position in the history, -1 for the
      sentinel in front of it. */
  class Node<I, O> {
    const value: Value<I, O>
    const matching: Node?<I, O>
    const id: nat
    ghost const pos: int
    var next: Node?<I, O>
    var prev: Node?<I, O>

    constructor (value: Value<I, O>, matching: Node?<I, O>, id: nat, ghost pos: int)
      ensures this.value == value && this.matching == matching && this.id == id && this.pos == pos
      ensures next == null && prev == null
    {
      this.value, this.matching, this.id, this.pos := value, matching, id, pos;
      next, prev := null, null;
    }
  }

  /** A sequence without its `k`-th element. */
  ghost function Drop<T>(l: seq<T>, k: nat): seq<T>
    requires k < |l|
  {
    l[..k] + l[k + 1..]
  }

  /** The nodes stand in the order of the history, so no node occurs twice. */
  ghost predicate Ordered<I(!new), O(!new)>(l: seq<Node<I, O>>) {
    forall i, j | 0 <= i < j < |l| :: l[i].pos < l[j].pos
  }

  ghost predicate LinkedAt<I(!new), O(!new)>(l: seq<Node<I, O>>, i: nat)
    requires i < |l|
    reads l[i]
  {
    && l[i].next == (if i + 1 < |l| then l[i + 1] else null)
    && l[i].prev == (if i > 0 then l[i - 1] else null)
  }

  /** The links of the nodes make up the list `l`. */
  ghost predicate Linked<I(!new), O(!new)>(l: seq<Node<I, O>>)
    reads l
  {
    forall i | 0 <= i < |l| :: LinkedAt(l, i)
  }

  lemma OrderedDrop<I(!new), O(!new)>(l: seq<Node<I, O>>, k: nat)
    requires Ordered(l) && k < |l|
    ensures Ordered(Drop(l, k))
    ensures forall n :: n in Drop(l, k) <==> n in l && n != l[k]
  {
    var d := Drop(l, k);
    forall n | n in l && n != l[k]
      ensures n in d
    {
      var i :| 0 <= i < |l| && l[i] == n;
      assert n == d[if i < k then i else i - 1];
    }
  }

  /** The list `l` without the call at `c` and its return at `r`. */
  ghost function Without<T>(l: seq<T>, c: nat, r: nat): seq<T>
    requires c < r < |l|
  {
    Drop(Drop(l, c), r - 1)
  }

  lemma OrderedWithout<I(!new), O(!new)>(l: seq<Node<I, O>>, c: nat, r: nat)
    requires Ordered(l) && 0 < c < r < |l|
    ensures Ordered(Without(l, c, r))
    ensures forall n :: n in Without(l, c, r) <==> n in l && n != l[c] && n != l[r]
    ensures Without(l, c, r) != [] && Without(l, c, r)[0] == l[0]
  {
    hide Ordered;
    OrderedDrop(l, c);
    OrderedDrop(Drop(l, c), r - 1);
    assert Drop(l, c)[r - 1] == l[r];
  }

  /** A lifted call and its return, out of the list, still know where they go. */
  ghost predicate Parked<I(!new), O(!new)>(l: seq<Node<I, O>>, c: nat, r: nat)
    requires c < r < |l|
    reads l[c], l[r]
  {
    LinkedAt(l, c) && LinkedAt(Drop(l, c), r - 1)
  }

  /** Takes the node at `k` out of the list; it keeps its own links. */
  method Unlink<I(!new), O(!new)>(n: Node<I, O>, ghost l: seq<Node<I, O>>, ghost k: nat)
    requires Linked(l) && Ordered(l) && 0 < k < |l| && n == l[k]
    modifies Drop(l, k)
    ensures Linked(Drop(l, k)) && LinkedAt(l, k)
  {
    ghost var d := Drop(l, k);
    assert LinkedAt(l, k) && d[k - 1] == l[k - 1] && (k + 1 < |l| ==> d[k] == l[k + 1]);
    n.prev.next := n.next;
    if n.next != null {
      n.next.prev := n.prev;
    }
    forall i | 0 <= i < |d|
      ensures LinkedAt(d, i)
    {
      assert old(LinkedAt(l, if i < k then i else i + 1));
    }
  }

  /** Puts the node at `k` back where it was. */
  method Relink<I(!new), O(!new)>(n: Node<I, O>, ghost l: seq<Node<I, O>>, ghost k: nat)
    requires 0 < k < |l| && n == l[k] && Ordered(l)
    requires Linked(Drop(l, k)) && LinkedAt(l, k)
    modifies Drop(l, k)
    ensures Linked(l)
  {
    ghost var d := Drop(l, k);
    assert d[k - 1] == l[k - 1] && (k + 1 < |l| ==> d[k] == l[k + 1]);
    n.prev.next := n;
    if n.next != null {
      n.next.prev := n;
    }
    forall i | 0 <= i < |l|
      ensures LinkedAt(l, i)
    {
      assert i == k || old(LinkedAt(d, if i < k then i else i - 1));
    }
  }

  /** Takes a call at `c` and its return at `r` out of the list. */
  method Lift<I(!new), O(!new)>(entry: Node<I, O>, ghost l: seq<Node<I, O>>, ghost c: nat, ghost r: nat)
    requires Linked(l) && Ordered(l) && 0 < c < r < |l| && entry == l[c] && entry.matching == l[r]
    modifies Drop(l, c)
    ensures Linked(Without(l, c, r)) && Parked(l, c, r)
  {
    hide Linked, Ordered;
    OrderedDrop(l, c);
    OrderedDrop(Drop(l, c), r - 1);
    Unlink(entry, l, c);
    assert entry !in Drop(Drop(l, c), r - 1);
    Unlink(entry.matching, Drop(l, c), r - 1);
  }

  /** Undoes the last `Lift` that is not undone yet. */
  method Unlift<I(!new), O(!new)>(entry: Node<I, O>, ghost l: seq<Node<I, O>>, ghost c: nat, ghost r: nat)
    requires Ordered(l) && 0 < c < r < |l| && entry == l[c] && entry.matching == l[r]
    requires Linked(Without(l, c, r)) && Parked(l, c, r)
    modifies Drop(l, c)
    ensures Linked(l)
  {
    hide Linked, Ordered;
    OrderedDrop(l, c);
    OrderedDrop(Drop(l, c), r - 1);
    assert entry !in Drop(Drop(l, c), r - 1);
    Relink(entry.matching, Drop(l, c), r - 1);
    Relink(entry, l, c);
  }

  /** A call in the list behind its first node, with its return further on. */
  ghost predicate IsPair<I(!new), O(!new)>(l: seq<Node<I, O>>, n: Node<I, O>) {
    && l != [] && n.matching != null && n.matching.matching == null
    && n in l && n.matching in l && l[0].pos < n.pos < n.matching.pos
  }

  ghost predicate Liftable<I(!new), O(!new)>(l: seq<Node<I, O>>, calls: seq<Node<I, O>>) {
    && (forall i | 0 <= i < |calls| :: IsPair(l, calls[i]))
    && (forall i, j | 0 <= i < j < |calls| :: calls[i] != calls[j] && calls[i].matching != calls[j].matching)
  }

  /** Any calls lifted one after the other and unlifted last in first out: the
      links make up the list they did, so each of them is what it was. */
  method LiftThenUnlift<I(!new), O(!new)>(calls: seq<Node<I, O>>, ghost l: seq<Node<I, O>>)
    requires Linked(l) && Ordered(l) && Liftable(l, calls)
    modifies l
    ensures Linked(l)
    ensures forall n | n in l :: n.next == old(n.next) && n.prev == old(n.prev)
    decreases |calls|
  {
    if calls != [] {
      ghost var c, r := PairAt(l, calls[0]);
      Lift(calls[0], l, c, r);
      RestLiftable(l, calls, c, r);
      LiftThenUnlift(calls[1..], Without(l, c, r));
      Unlift(calls[0], l, c, r);
    }
    forall n | n in l
      ensures n.next == old(n.next) && n.prev == old(n.prev)
    {
      var i :| 0 <= i < |l| && l[i] == n;
      assert LinkedAt(l, i) && old(LinkedAt(l, i));
    }
  }

  lemma PairAt<I(!new), O(!new)>(l: seq<Node<I, O>>, n: Node<I, O>) returns (c: nat, r: nat)
    requires Ordered(l) && IsPair(l, n)
    ensures 0 < c < r < |l| && n == l[c] && n.matching == l[r]
  {
    c :| c < |l| && l[c] == n;
    r :| r < |l| && l[r] == n.matching;
  }

  lemma RestLiftable<I(!new), O(!new)>(l: seq<Node<I, O>>, calls: seq<Node<I, O>>, c: nat, r: nat)
    requires Ordered(l) && Liftable(l, calls) && calls != []
    requires 0 < c < r < |l| && calls[0] == l[c] && calls[0].matching == l[r]
    ensures Ordered(Without(l, c, r)) && Liftable(Without(l, c, r), calls[1..])
    ensures l[c] !in Without(l, c, r) && l[r] !in Without(l, c, r)
    ensures forall n | n in Without(l, c, r) :: n in l
  {
    hide Ordered;
    OrderedWithout(l, c, r);
    var d := Without(l, c, r);
    forall i | 0 <= i < |calls| - 1
      ensures IsPair(d, calls[1..][i])
    {
      assert IsPair(l, calls[i + 1]) && IsPair(l, calls[0]);
    }
  }

  // ----- building the list

  /** The nodes that inserting in front of `mark` writes to. */
  ghost function Around<I(!new), O(!new)>(n: Node<I, O>, mark: Node?<I, O>): set<Node<I, O>>
    reads mark
  {
    if mark == null then {} else if mark.prev == null then {n, mark} else {n, mark, mark.prev}
  }

  method InsertBefore<I(!new), O(!new)>(n: Node<I, O>, mark: Node?<I, O>) returns (r: Node<I, O>)
    requires mark != null ==> n != mark && n != mark.prev && mark != mark.prev
    modifies Around(n, mark)
    ensures r == n
    ensures mark != null ==>
              && mark.prev == n && n.next == mark && mark.next == old(mark.next)
              && n.prev == (if old(mark.prev) != null then old(mark.prev) else old(n.prev))
              && (old(mark.prev) != null ==>
                    old(mark.prev).next == n && old(mark.prev).prev == old(mark.prev.prev))
  {
    if mark != null {
      var beforeMark := mark.prev;
      mark.prev := n;
      n.next := mark;
      if beforeMark != null {
        n.prev := beforeMark;
        beforeMark.next := n;
      }
    }
    return n;
  }

  /** Putting a new node in front of the first one puts it in front of the list. */
  method Prepend<I(!new), O(!new)>(n: Node<I, O>, root: Node?<I, O>, ghost l: seq<Node<I, O>>)
    requires Linked(l) && n !in l && root == (if l == [] then null else l[0])
    requires Distinct(l)
    requires n.next == null && n.prev == null
    modifies n, l
    ensures Linked([n] + l)
  {
    ghost var l' := [n] + l;
    if l != [] {
      assert LinkedAt(l, 0);
    }
    var _ := InsertBefore(n, root);
    forall i | 0 <= i < |l'|
      ensures LinkedAt(l', i)
    {
      assert i > 0 ==> old(LinkedAt(l, i - 1));
    }
  }

  method Length<I(!new), O(!new)>(n: Node?<I, O>, ghost l: seq<Node<I, O>>) returns (len: nat)
    requires Linked(l) && n == (if l == [] then null else l[0])
    ensures len == |l|
  {
    len := 0;
    var n := n;
    while n != null
      invariant len <= |l|
      invariant n == (if len == |l| then null else l[len])
      decreases |l| - len
    {
      assert LinkedAt(l, len);
      n := n.next;
      len := len + 1;
    }
  }

  /** The position of the first return of `id` from `j` on, or the length. */
  ghost function MateFrom<I, O>(h: seq<Entry<I, O>>, id: nat, j: nat): (p: nat)
    requires j <= |h|
    ensures j <= p <= |h|
    ensures p < |h| ==> IsReturn(h, id, p)
    decreases |h| - j
  {
    if j == |h| || IsReturn(h, id, j) then j else MateFrom(h, id, j + 1)
  }

  ghost predicate Fits<I(!new), O(!new)>(nodes: seq<Node<I, O>>, from: nat, h: seq<Entry<I, O>>, i: nat)
    requires from + |nodes| == |h| && from <= i < |h|
  {
    var n := nodes[i - from];
    && n.pos == i
    && n.id == h[i].id
    && (h[i].Return? ==> n.value == Output(h[i].output) && n.matching == null)
    && (h[i].Call? ==>
          && n.value == Input(h[i].input)
          && var r := MateFrom(h, h[i].id, i);
             n.matching == if r < |h| then nodes[r - from] else null)
  }

  /** `nodes` are the entries of `h` from position `from` on: same ids and
      values in the same order, each call matched with the first later return
      of its id, if there is one. */
  ghost predicate Represents<I(!new), O(!new)>(nodes: seq<Node<I, O>>, from: nat, h: seq<Entry<I, O>>) {
    from + |nodes| == |h| && forall i | from <= i < |h| :: Fits(nodes, from, h, i)
  }

  method MakeLinkedEntries<I(!new), O(!new)>(entries: seq<Entry<I, O>>)
    returns (root: Node?<I, O>, ghost nodes: seq<Node<I, O>>)
    ensures fresh(nodes)
    ensures Represents(nodes, 0, entries) && Linked(nodes)
    ensures root == (if nodes == [] then null else nodes[0])
  {
    hide Linked, Ordered, Distinct, Represents, Pending, Fits, MateFrom;
    root, nodes := null, [];
    var matches: map<nat, Node<I, O>> := map[];
    NoNodes(entries);
    for i := |entries| downto 0
      invariant fresh(nodes)
      invariant Represents(nodes, i, entries) && i + |nodes| == |entries|
      invariant Linked(nodes)
      invariant root == (if nodes == [] then null else nodes[0])
      invariant Pending(matches, nodes, i, entries)
    {
      var elem := entries[i];
      RepresentsIsOrdered(nodes, i + 1, entries);
      ghost var before := matches;
      var entry: Node<I, O>;
      if elem.Return? {
        entry := new Node(Output(elem.output), null, elem.id, i);
        matches := matches[elem.id := entry];
      } else {
        entry := new Node(Input(elem.input), if elem.id in matches then matches[elem.id] else null, elem.id, i);
      }
      Prepend(entry, root, nodes);
      root := entry;
      NodeFits(before, nodes, entry, i, entries);
      StillFits(nodes, entry, i, entries);
      nodes := [entry] + nodes;
    }
  }

  /** The returns seen so far: for each id the one that comes first. */
  ghost predicate Pending<I(!new), O(!new)>(
    matches: map<nat, Node<I, O>>, nodes: seq<Node<I, O>>, from: nat, h: seq<Entry<I, O>>)
    requires from + |nodes| == |h|
  {
    && (forall id: nat :: id in matches <==> MateFrom(h, id, from) < |h|)
    && (forall id: nat | id in matches :: matches[id] == nodes[MateFrom(h, id, from) - from])
  }

  /** The new node fits in front, and the pending returns are kept up to date. */
  lemma NodeFits<I(!new), O(!new)>(
    matches: map<nat, Node<I, O>>, nodes: seq<Node<I, O>>, n: Node<I, O>, from: nat, h: seq<Entry<I, O>>)
    requires from + 1 + |nodes| == |h| && Pending(matches, nodes, from + 1, h)
    requires n.pos == from && n.id == h[from].id
    requires h[from].Return? ==> n.value == Output(h[from].output) && n.matching == null
    requires h[from].Call? ==>
               && n.value == Input(h[from].input)
               && n.matching == if n.id in matches then matches[n.id] else null
    ensures Fits([n] + nodes, from, h, from)
    ensures Pending(if h[from].Return? then matches[n.id := n] else matches, [n] + nodes, from, h)
  {
  }

  lemma NoNodes<I(!new), O(!new)>(h: seq<Entry<I, O>>)
    ensures var none: seq<Node<I, O>> := [];
            Represents(none, |h|, h) && Linked(none) && Pending(map[], none, |h|, h)
  {
  }

  lemma RepresentsIsOrdered<I(!new), O(!new)>(nodes: seq<Node<I, O>>, from: nat, h: seq<Entry<I, O>>)
    requires Represents(nodes, from, h)
    ensures Ordered(nodes) && Distinct(nodes)
  {
    forall i | 0 <= i < |nodes|
      ensures nodes[i].pos == from + i
    {
      assert Fits(nodes, from, h, from + i);
    }
  }

  lemma StillFits<I(!new), O(!new)>(nodes: seq<Node<I, O>>, n: Node<I, O>, from: nat, h: seq<Entry<I, O>>)
    requires Represents(nodes, from + 1, h) && from < |h|
    requires Fits([n] + nodes, from, h, from)
    ensures Represents([n] + nodes, from, h)
  {
    forall i | from < i < |h|
      ensures Fits([n] + nodes, from, h, i)
    {
      assert Fits(nodes, from + 1, h, i);
    }
  }
}
