/**
 * The Harris-style sorted list of `uintptr_t` keys, run by one thread.
 *
 * Every node's `next` link is a word whose bit 0 is the logical-deletion
 * mark; here the link is the pair of fields `next` and `marked`. The list
 * keeps two permanent sentinels, `head` (key 0) and `tail` (key
 * UINTPTR_MAX). The ghost field `nodes` is the chain reachable from head
 * and `cells` its abstract view (key and mark of each node); every
 * operation is proved against the functions of module Chain. The ghost
 * field `Repr` holds every node the list has allocated or linked,
 * unlinked ones included. An operation writes only the nodes on the chain
 * when it starts and the node it allocates: a node once unlinked is never
 * written again.
 *
 * The source's `while(true)` retry loops around `search` and `prune` are
 * modelled as one pass: run alone, a second pass sees the same state as the
 * first, so a pass that does not return would repeat forever. Such a pass
 * returns `Hangs` here.
 */
module LazyList {
  import opened TaggedWord
  import opened Chain

  class Node {
    const value: Word
    /** The pointer part of the `next` word. */
    var next: Node?
    /** Bit 0 of the `next` word: this node is logically deleted. */
    var marked: bool

    constructor (v: Word)
      ensures value == v && next == null && !marked
    {
      value := v;
      next := null;
      marked := false;
    }

    /**
     * `__sync_val_compare_and_swap(&next, expected, new)` on the tagged
     * `next` word, run alone: returns the old word and writes the new one
     * only when the old one was the expected one.
     */
    method CompareAndSwapNext(expectedNext: Node?, expectedMark: bool, newNext: Node?, newMark: bool)
      returns (oldNext: Node?, oldMark: bool)
      modifies this
      ensures oldNext == old(next) && oldMark == old(marked)
      ensures if oldNext == expectedNext && oldMark == expectedMark
              then next == newNext && marked == newMark
              else next == old(next) && marked == old(marked)
    {
      oldNext, oldMark := next, marked;
      if next == expectedNext && marked == expectedMark {
        next, marked := newNext, newMark;
      }
    }
  }

  /** What `search` hands back: the `(left, right)` bracket, or that it spins. */
  datatype SearchResult = Found(left: Node, right: Node) | Looping

  /** The boolean an operation returns, or that its retry loop never ends. */
  datatype Completion = Returned(result: bool) | Hangs

  class LazyList {
    const head: Node
    const tail: Node
    /** The chain of nodes linked from head to tail, in order. */
    ghost var nodes: seq<Node>
    /** Key and mark of each node of the chain. */
    ghost var cells: seq<Cell>
    /** Every node the list has allocated or linked. */
    ghost var Repr: set<Node>

    ghost predicate Valid()
      reads this, nodes
    {
      ValidExcept(-1)
    }

    /**
     * The chain invariant with the link leaving the node at index `x` left
     * free: the state between a compare-and-swap on that link and the ghost
     * update of `nodes` and `cells`.
     */
    ghost predicate ValidExcept(x: int)
      reads this, nodes
    {
      |nodes| == |cells| && WellFormed(cells) &&
      nodes[0] == head && nodes[|nodes| - 1] == tail &&
      (forall i :: 0 <= i < |nodes| ==> nodes[i].value == cells[i].key && nodes[i].marked == cells[i].marked) &&
      (forall i :: 0 <= i < |nodes| ==> nodes[i] in Repr) &&
      (forall i :: 0 <= i < |nodes| - 1 && i != x ==> nodes[i].next == nodes[i + 1]) &&
      tail.next == null
    }

    /** The keys along the chain strictly increase, so no node is linked twice. */
    lemma Distinct(i: int, j: int)
      requires Valid() && 0 <= i < |nodes| && 0 <= j < |nodes| && nodes[i] == nodes[j]
      ensures i == j
    {
      assert cells[i].key == cells[j].key;
    }

    /** The node at index `i0` appears nowhere else in the chain. */
    lemma OnlyAt(i0: nat)
      requires Valid() && i0 < |nodes|
      ensures forall i :: 0 <= i < |nodes| && i != i0 ==> nodes[i] != nodes[i0]
    {
      forall i | 0 <= i < |nodes| && nodes[i] == nodes[i0] ensures i == i0 {
        Distinct(i, i0);
      }
    }

    /** Unlinking the run after `l` leaves its first node out of the chain. */
    lemma UnlinkDropsNode(l: nat, k: nat)
      requires Valid() && l + 1 < k < |nodes|
      ensures nodes[l + 1] !in nodes[..l + 1] + nodes[k..]
    {
      var rest := nodes[..l + 1] + nodes[k..];
      forall i | 0 <= i < |rest| ensures rest[i] != nodes[l + 1] {
        var j := if i <= l then i else i + (k - l - 1);
        assert rest[i] == nodes[j];
        if rest[i] == nodes[l + 1] {
          Distinct(j, l + 1);
        }
      }
    }

    /** Installs `ns` and `cells` as the chain once the heap links them as `Valid` requires. */
    ghost method Commit(ns: seq<Node>, cs: seq<Cell>)
      requires |ns| == |cs| && WellFormed(cs) && ns[0] == head && ns[|ns| - 1] == tail && tail.next == null
      requires forall i :: 0 <= i < |ns| ==> ns[i].value == cs[i].key && ns[i].marked == cs[i].marked
      requires forall i :: 0 <= i < |ns| - 1 ==> ns[i].next == ns[i + 1]
      requires forall i :: 0 <= i < |ns| ==> ns[i] in Repr
      modifies this
      ensures Valid() && nodes == ns && cells == cs && Repr == old(Repr)
    {
      nodes, cells := ns, cs;
    }

    /** A new list links head straight to tail, so it holds no key. */
    constructor ()
      ensures Valid() && fresh(head) && fresh(tail) && fresh(Repr)
      ensures nodes == [head, tail] && cells == Empty() && LiveKeys(cells) == {}
    {
      var h := new Node(0);
      var t := new Node(UINTPTR_MAX);
      h.next := t;
      head, tail := h, t;
      nodes := [h, t];
      cells := Empty();
      Repr := {h, t};
    }

    /**
     * The walk of the destructor: from head along `next` until null, visiting
     * every node still linked, marked ones included, once each and in order.
     * These are the nodes it deletes.
     */
    method Destroy() returns (deleted: seq<Node>)
      requires Valid()
      ensures deleted == nodes
    {
      deleted := [];
      var c: Node? := head;
      ghost var i := 0;
      while c != null
        invariant 0 <= i <= |nodes| && deleted == nodes[..i]
        invariant i < |nodes| ==> c == nodes[i]
        invariant i == |nodes| ==> c == null
        decreases |nodes| - i
      {
        var n := c.next;
        deleted := deleted + [c];
        c := n;
        i := i + 1;
      }
    }

    /**
     * The walk of `print`: from head's successor up to tail, one line per
     * node with its key and whether it is marked, returned instead of
     * written out.
     */
    method Print() returns (lines: seq<Cell>)
      requires Valid()
      ensures lines == cells[1..|cells| - 1]
    {
      lines := [];
      var c := head.next;
      ghost var i := 1;
      while c != tail
        invariant 1 <= i < |nodes| && c == nodes[i] && lines == cells[1..i]
        decreases |nodes| - i
      {
        lines := lines + [Cell(c.value, c.marked)];
        c := c.next;
        i := i + 1;
      }
      Distinct(i, |nodes| - 1);
    }

    /**
     * The inner walk that `search` and `prune` share. For `v == 0` the loop
     * is never entered and `left` is never set.
     */
    method Walk(v: Word) returns (left: Node?, leftNext: Node?, right: Node, ghost l: nat, ghost k: nat)
      requires Valid()
      ensures v == 0 ==> left == null && leftNext == null && right == head
      ensures v > 0 ==> (l, k) == Chain.Walk(cells, v) &&
                        left == nodes[l] && leftNext == nodes[l + 1] && right == nodes[k]
    {
      left, leftNext, l := null, null, 0;
      var pred := head;
      var curr := head.next;
      var currMarked := head.marked;
      ghost var p := 0;
      while currMarked || pred.value < v
        invariant 0 <= p < |nodes| - 1 && pred == nodes[p]
        invariant curr == nodes[p + 1] && currMarked == cells[p].marked
        invariant forall j :: 1 <= j < p ==> cells[j].marked || cells[j].key < v
        invariant v == 0 ==> p == 0
        invariant p == 0 ==> left == null && leftNext == null
        invariant p > 0 ==> l < p && left == nodes[l] && leftNext == nodes[l + 1] &&
                            !cells[l].marked && cells[l].key < v &&
                            forall j :: l < j < p ==> cells[j].marked
        decreases |nodes| - p
      {
        if !currMarked {
          left, leftNext, l := pred, curr, p;
        }
        pred := curr;
        p := p + 1;
        if pred == tail {
          Distinct(p, |nodes| - 1);
          break;
        }
        curr := pred.next;
        currMarked := pred.marked;
      }
      right, k := pred, p;
      if v > 0 {
        RightIndexUnique(cells, v, k);
        LastUnmarkedUnique(cells, k, l);
      }
    }

    /**
     * `search(v, &left)`: the bracket of Chain.Search, as nodes. It returns
     * only when `left` links directly to `right`.
     */
    method Search(v: Word) returns (r: SearchResult)
      requires Valid()
      ensures match Chain.Search(cells, v)
                case Spins => r.Looping?
                case Bracket(l, k) => r == Found(nodes[l], nodes[k])
    {
      var left, leftNext, right, l, k := Walk(v);
      if leftNext == right && !right.marked {
        Distinct(l + 1, k);
        r := Found(left, right);
      } else {
        r := Looping;
      }
    }

    /**
     * `contains(v, &node)`: walks from head's successor, skipping marked
     * nodes, and decides at the first unmarked key `>= v`.
     */
    method Contains(v: Word) returns (found: bool, node: Node?)
      requires Valid()
      ensures found <==> v in LiveKeys(cells)
      ensures found ==> node != null && node in nodes && node.value == v && !node.marked
      ensures !found ==> node == null
    {
      var itr := head.next;
      ghost var p := 1;
      while itr != tail
        invariant 1 <= p < |nodes| && itr == nodes[p]
        invariant forall j :: 1 <= j < p ==> cells[j].marked || cells[j].key < v
        decreases |nodes| - p
      {
        if !itr.marked && itr.value >= v {
          RightIndexUnique(cells, v, p);
          RightHoldsKeyIffLive(cells, v);
          if itr.value == v {
            return true, itr;
          } else {
            return false, null;
          }
        }
        itr := itr.next;
        p := p + 1;
      }
      Distinct(p, |nodes| - 1);
      RightIndexUnique(cells, v, p);
      RightHoldsKeyIffLive(cells, v);
      return false, null;
    }

    /**
     * `add(v)`: the new node is allocated first; a node already holding `v`
     * at the bracket makes it return false, otherwise it is linked between
     * `left` and `right` by a compare-and-swap on `left`'s link.
     */
    method Add(v: Word) returns (r: Completion)
      requires Valid() && v < UINTPTR_MAX
      modifies this, nodes
      ensures Valid()
      ensures match Chain.Add(old(cells), v)
                case NeverReturns => r == Hangs && cells == old(cells)
                case Returns(b, cs) => r == Returned(b) && cells == cs
      ensures r == Returned(true) ==>
                var k := Chain.Search(old(cells), v).right;
                fresh(nodes[k]) && nodes == old(nodes)[..k] + [nodes[k]] + old(nodes)[k..]
      ensures r != Returned(true) ==> nodes == old(nodes)
      ensures fresh(Repr - old(Repr))
    {
      var node := new Node(v);
      Repr := Repr + {node};
      r := AddNode(node, v);
    }

    /**
     * The rest of `add(v)` once `node` is allocated: the search, the check
     * for `v` at the stop node, and the swap that links `node` in.
     */
    method AddNode(node: Node, v: Word) returns (r: Completion)
      requires Valid() && v < UINTPTR_MAX
      requires node !in nodes && node in Repr && node.value == v && !node.marked
      modifies this, nodes, node
      ensures Valid()
      ensures match Chain.Add(old(cells), v)
                case NeverReturns => r == Hangs && cells == old(cells)
                case Returns(b, cs) => r == Returned(b) && cells == cs
      ensures r == Returned(true) ==>
                var k := Chain.Search(old(cells), v).right;
                nodes == old(nodes)[..k] + [node] + old(nodes)[k..] && nodes[k] == node
      ensures r != Returned(true) ==> nodes == old(nodes)
      ensures Repr == old(Repr)
    {
      var s := Search(v);
      if s.Looping? {
        return Hangs;
      }
      var left, right := s.left, s.right;
      ghost var k := Chain.Search(cells, v).right;
      assert 0 < k < |nodes| && left == nodes[k - 1] && right == nodes[k] && !left.marked;
      if right == tail {
        Distinct(k, |nodes| - 1);
      }
      if right != tail && right.value == v {
        return Returned(false);
      }
      AddSlot(cells, v);
      var oldNext, oldMark := SwapInNode(left, right, node, k);
      if oldNext == right && !oldMark {
        r := Returned(true);
      } else {
        // Run alone, `left` still links to `right`: the retry is never taken.
        assert false;
      }
    }

    /**
     * One pass of `add` after the search, run alone, on the chain: `node` is
     * linked to `right`, then `left` (the node at `k - 1`) is swung from
     * `right` to `node` by a compare-and-swap, so `node` becomes the chain's
     * `k`-th node.
     */
    method SwapInNode(left: Node, right: Node, node: Node, ghost k: nat) returns (oldNext: Node?, oldMark: bool)
      requires Valid() && 0 < k < |nodes| && left == nodes[k - 1] && right == nodes[k] && !left.marked
      requires node !in nodes && node in Repr && !node.marked
      requires WellFormed(InsertAt(cells, k, Cell(node.value, false)))
      modifies this, left, node
      ensures oldNext == right && !oldMark
      ensures Valid() && Repr == old(Repr)
      ensures nodes == old(nodes)[..k] + [node] + old(nodes)[k..] && nodes[k] == node
      ensures cells == InsertAt(old(cells), k, Cell(node.value, false))
    {
      OnlyAt(k - 1);
      assert left != tail && node != tail;
      node.next := right;
      label Swap:
      oldNext, oldMark := left.CompareAndSwapNext(right, false, node, false);
      forall i | 0 <= i < |nodes| && i != k - 1 ensures nodes[i].marked == old@Swap(nodes[i].marked) {
      }
      forall i | 0 <= i < |nodes| - 1 && i != k - 1 ensures nodes[i].next == old@Swap(nodes[i].next) {
      }
      CommitInsert(k, node);
    }

    /**
     * Once the link of the node at `k - 1` points to `node`, which links to
     * the node at `k`, `node` joins the chain as its `k`-th node.
     */
    ghost method CommitInsert(k: nat, node: Node)
      requires ValidExcept(k - 1) && 0 < k < |nodes| && node !in nodes && node in Repr
      requires nodes[k - 1].next == node && node.next == nodes[k] && !node.marked
      requires WellFormed(InsertAt(cells, k, Cell(node.value, false)))
      modifies this
      ensures Valid() && Repr == old(Repr)
      ensures nodes == old(nodes)[..k] + [node] + old(nodes)[k..] && nodes[k] == node
      ensures cells == InsertAt(old(cells), k, Cell(node.value, false))
    {
      ghost var ns := nodes[..k] + [node] + nodes[k..];
      ghost var cs := InsertAt(cells, k, Cell(node.value, false));
      assert |ns| == |cs| && ns[0] == head && ns[|ns| - 1] == tail;
      forall i | 0 <= i < |ns|
        ensures ns[i].value == cs[i].key && ns[i].marked == cs[i].marked && ns[i] in Repr
      {
        if i < k {
          assert ns[i] == nodes[i] && cs[i] == cells[i];
        } else if k < i {
          assert ns[i] == nodes[i - 1] && cs[i] == cells[i - 1];
        }
      }
      forall i | 0 <= i < |ns| - 1 ensures ns[i].next == ns[i + 1] {
        if i < k - 1 {
          assert ns[i] == nodes[i] && ns[i + 1] == nodes[i + 1];
        } else if k < i {
          assert ns[i] == nodes[i - 1] && ns[i + 1] == nodes[i];
        }
      }
      Commit(ns, cs);
    }

    /**
     * `prune(v, &pruned)`: swings the last unmarked node before the walk's
     * stop past the marked run in between, and hands back the run's first
     * node. Without a marked run the retry loop never ends. `v > 0`: for
     * `v == 0` the walk never sets `left` and the swap would go through null.
     */
    method Prune(v: Word) returns (r: Completion, pruned: Node?)
      requires Valid() && v > 0
      modifies this, nodes
      ensures Valid()
      ensures match PruneRun(old(cells), v)
                case NoRun => r == Hangs && pruned == null && cells == old(cells) && nodes == old(nodes)
                case Run(l, k) =>
                  r == Returned(true) && cells == Unlink(old(cells), l, k) &&
                  nodes == old(nodes)[..l + 1] + old(nodes)[k..] && pruned == old(nodes)[l + 1]
      ensures pruned != null ==> pruned !in nodes && pruned.marked
      ensures Repr == old(Repr)
    {
      var left, leftNext, right, l, k := Walk(v);
      if leftNext != right {
        var oldNext, oldMark := SwapOutRun(left, leftNext, right, l, k);
        if oldNext == leftNext && !oldMark {
          return Returned(true), leftNext;
        } else {
          // Run alone, `left` still links to `leftNext`: the retry is never taken.
          assert false;
        }
      }
      return Hangs, null;
    }

    /**
     * The compare-and-swap of `prune`, run alone, on the chain: `left` (the
     * node at `l`) is swung past the marked run to `right` (the node at `k`),
     * and the run leaves the chain.
     */
    method SwapOutRun(left: Node, leftNext: Node, right: Node, ghost l: nat, ghost k: nat)
      returns (oldNext: Node?, oldMark: bool)
      requires Valid() && l + 1 < k < |nodes|
      requires left == nodes[l] && leftNext == nodes[l + 1] && right == nodes[k] && !left.marked
      requires forall j :: l < j < k ==> cells[j].marked
      modifies this, left
      ensures oldNext == leftNext && !oldMark
      ensures Valid()
      ensures nodes == old(nodes)[..l + 1] + old(nodes)[k..] && cells == Unlink(old(cells), l, k)
      ensures leftNext !in nodes && leftNext.marked && Repr == old(Repr)
    {
      UnlinkDropsNode(l, k);
      OnlyAt(l);
      assert left != tail && left != leftNext;
      label Swap:
      oldNext, oldMark := left.CompareAndSwapNext(leftNext, false, right, false);
      forall i | 0 <= i < |nodes| && i != l ensures nodes[i].marked == old@Swap(nodes[i].marked) {
      }
      forall i | 0 <= i < |nodes| - 1 && i != l ensures nodes[i].next == old@Swap(nodes[i].next) {
      }
      CommitUnlink(l, k);
    }

    /**
     * Once the link of the node at `l` points past the marked run to the node
     * at `k`, the run leaves the chain.
     */
    ghost method CommitUnlink(l: nat, k: nat)
      requires ValidExcept(l) && l + 1 < k < |nodes| && nodes[l].next == nodes[k]
      requires forall j :: l < j < k ==> cells[j].marked
      modifies this
      ensures Valid() && Repr == old(Repr)
      ensures nodes == old(nodes)[..l + 1] + old(nodes)[k..] && cells == Unlink(old(cells), l, k)
    {
      UnlinkMarkedRun(cells, l, k);
      ghost var ns := nodes[..l + 1] + nodes[k..];
      ghost var cs := Unlink(cells, l, k);
      ghost var d := k - l - 1;
      assert |ns| == |cs| && ns[0] == head && ns[|ns| - 1] == tail;
      forall i | 0 <= i < |ns|
        ensures ns[i].value == cs[i].key && ns[i].marked == cs[i].marked && ns[i] in Repr
      {
        var j := if i <= l then i else i + d;
        assert ns[i] == nodes[j] && cs[i] == cells[j];
      }
      forall i | 0 <= i < |ns| - 1 ensures ns[i].next == ns[i + 1] {
        if i < l {
          assert ns[i] == nodes[i] && ns[i + 1] == nodes[i + 1];
        } else if l < i {
          assert ns[i] == nodes[i + d] && ns[i + 1] == nodes[i + d + 1];
        }
      }
      Commit(ns, cs);
    }

    /**
     * The compare-and-swap of `remove`, run alone, on the chain: the link of
     * `right` (the node at `k`) keeps its pointer and gains the mark.
     */
    method MarkLink(right: Node, rightNext: Node?, ghost k: nat) returns (oldNext: Node?, oldMark: bool)
      requires Valid() && 0 < k < |nodes| - 1 && right == nodes[k]
      requires rightNext == right.next && !right.marked
      modifies this, right
      ensures oldNext == rightNext && oldNext != null && !oldMark
      ensures Valid() && nodes == old(nodes) && cells == MarkAt(old(cells), k) && Repr == old(Repr)
    {
      OnlyAt(k);
      assert right.next == nodes[k + 1];
      label Swap:
      oldNext, oldMark := right.CompareAndSwapNext(rightNext, false, rightNext, true);
      ghost var cs := MarkAt(cells, k);
      forall i | 0 <= i < |nodes| ensures nodes[i].value == cs[i].key && nodes[i].marked == cs[i].marked {
        if i != k {
          assert nodes[i].marked == old@Swap(nodes[i].marked);
        }
      }
      forall i | 0 <= i < |nodes| - 1 ensures nodes[i].next == nodes[i + 1] {
        assert nodes[i].next == old@Swap(nodes[i].next);
      }
      Commit(nodes, cs);
    }

    /**
     * `remove(v, removed)`: false when the search lands on the tail or on
     * another key; otherwise the node's link is marked (logical deletion) and,
     * when `prune` is asked for (a non-null `removed`), the node is unlinked
     * and handed back.
     */
    method Remove(v: Word, prune: bool) returns (r: Completion, removed: Node?)
      requires Valid()
      modifies this, nodes
      ensures Valid()
      ensures match Chain.Remove(old(cells), v, prune)
                case NeverReturns => r == Hangs
                case Returns(b, cs) => r == Returned(b) && cells == cs
      ensures removed != null <==> prune && r == Returned(true)
      ensures removed != null ==> removed in old(nodes) && removed !in nodes && removed.value == v && removed.marked
      ensures removed != null ==>
                v > 0 && Chain.Search(old(cells), v).Bracket? &&
                var k := Chain.Search(old(cells), v).right;
                0 < k < |old(cells)| - 1 && removed == old(nodes)[k] &&
                var run := PruneRun(MarkAt(old(cells), k), v);
                run.Run? && run.left + 1 == k && nodes == old(nodes)[..run.left + 1] + old(nodes)[run.right..]
      ensures r == Returned(false) || !prune ==> nodes == old(nodes)
      ensures Repr == old(Repr)
    {
      removed := null;
      var s := Search(v);
      if s.Looping? {
        return Hangs, null;
      }
      var right := s.right;
      ghost var k := Chain.Search(cells, v).right;
      if right == tail {
        Distinct(k, |nodes| - 1);
      }
      if right == tail || right.value != v {
        return Returned(false), null;
      }
      var rightNext := right.next;
      if right.marked {
        // `search` stops only at an unmarked node: the retry is never taken.
        assert false;
      }
      ghost var before := cells;
      var oldNext, oldMark := MarkLink(right, rightNext, k);
      if !(oldNext != null || oldMark) {
        // The old word is `right`'s successor, never null: the retry is never taken.
        assert false;
      }
      if prune {
        PruneAfterMark(before, v);
        var pr;
        pr, removed := Prune(v);
        r := if pr.Hangs? then Hangs else Returned(true);
      } else {
        r := Returned(true);
      }
    }
  }

  /**
   * One list used by one thread: `remove(k)` on a new list returns false,
   * `add(k)` twice returns true and then false, `remove(k, &node)` returns
   * true with the node unlinked, and `contains(k)` is then false.
   */
  method AddRemoveScenario(k: Word) returns (missing: Completion, first: Completion, again: Completion,
                                             removed: Completion, present: bool)
    requires 0 < k < UINTPTR_MAX
    ensures missing == Returned(false) && first == Returned(true) && again == Returned(false)
    ensures removed == Returned(true) && !present
  {
    var ll := new LazyList();
    var node;
    SearchReturnsWithoutMarks(ll.cells, k);
    RemoveCorrect(ll.cells, k, false);
    missing, node := ll.Remove(k, false);
    first := AddKey(ll, k);
    again := AddKey(ll, k);
    removed := RemoveKey(ll, k);
    present, node := ll.Contains(k);
  }

  /**
   * `add(k)` on a list with no marked node, for a key between the
   * sentinels: returns whether `k` was missing, and `k` is then live.
   */
  method AddKey(ll: LazyList, k: Word) returns (r: Completion)
    requires ll.Valid() && NoMarks(ll.cells) && 0 < k < UINTPTR_MAX
    modifies ll, ll.Repr
    ensures ll.Valid() && NoMarks(ll.cells)
    ensures r == Returned(k !in old(LiveKeys(ll.cells))) && LiveKeys(ll.cells) == old(LiveKeys(ll.cells)) + {k}
    ensures fresh(ll.Repr - old(ll.Repr))
  {
    AddCorrect(ll.cells, k);
    AddKeepsNoMarks(ll.cells, k);
    r := ll.Add(k);
  }

  /**
   * `remove(k, &node)` on a list with no marked node: returns whether `k`
   * was live, `k` is then gone, and no marked node is left behind.
   */
  method RemoveKey(ll: LazyList, k: Word) returns (r: Completion)
    requires ll.Valid() && NoMarks(ll.cells) && 0 < k
    modifies ll, ll.Repr
    ensures ll.Valid() && NoMarks(ll.cells)
    ensures r == Returned(k in old(LiveKeys(ll.cells))) && LiveKeys(ll.cells) == old(LiveKeys(ll.cells)) - {k}
    ensures ll.Repr == old(ll.Repr)
  {
    RemoveCorrect(ll.cells, k, true);
    RemovePrunedKeepsNoMarks(ll.cells, k);
    var node;
    r, node := ll.Remove(k, true);
  }

  /** The keys at the first `n` positions of `keys`. */
  ghost function KeysBefore(keys: seq<Word>, n: nat): set<int>
    requires n <= |keys|
  {
    set j | 0 <= j < n :: keys[j]
  }

  /** One more position adds its key. */
  lemma KeysBeforeNext(keys: seq<Word>, n: nat)
    requires n < |keys|
    ensures KeysBefore(keys, n + 1) == KeysBefore(keys, n) + {keys[n]}
  {
  }

  /** The keys a thread's `ops` array holds. */
  ghost function KeySet(keys: seq<Word>): set<int> {
    set k | k in keys
  }

  /** All positions give every key. */
  lemma KeysBeforeAll(keys: seq<Word>)
    ensures KeysBefore(keys, |keys|) == KeySet(keys)
  {
    forall k | k in keys ensures k in KeysBefore(keys, |keys|) {
      var j :| 0 <= j < |keys| && keys[j] == k;
    }
  }

  /** Adding a set and then one more key adds their union. */
  lemma PlusOneMore(a: set<int>, b: set<int>, x: int)
    ensures a + b + {x} == a + (b + {x})
  {
  }

  /** Taking away a set and then one more key takes away their union. */
  lemma MinusOneMore(a: set<int>, b: set<int>, x: int)
    ensures a - b - {x} == a - (b + {x})
  {
  }

  /**
   * The `list_insert` thread of tests/lazy_list/main.cpp once it holds the
   * lock: `add` of each key in turn, results ignored. The keys already live
   * stay, every key of `keys` becomes live, and no marked node appears.
   */
  method InsertEach(ll: LazyList, keys: seq<Word>)
    requires ll.Valid() && NoMarks(ll.cells)
    requires forall i :: 0 <= i < |keys| ==> 0 < keys[i] < UINTPTR_MAX
    modifies ll, ll.Repr
    ensures ll.Valid() && NoMarks(ll.cells)
    ensures LiveKeys(ll.cells) == old(LiveKeys(ll.cells)) + KeySet(keys)
    ensures fresh(ll.Repr - old(ll.Repr))
  {
    ghost var live := LiveKeys(ll.cells);
    for i := 0 to |keys|
      invariant ll.Valid() && NoMarks(ll.cells)
      invariant fresh(ll.Repr - old(ll.Repr))
      invariant LiveKeys(ll.cells) == live + KeysBefore(keys, i)
    {
      KeysBeforeNext(keys, i);
      PlusOneMore(live, KeysBefore(keys, i), keys[i]);
      var added := AddKey(ll, keys[i]);
    }
    KeysBeforeAll(keys);
  }

  /**
   * The `list_remove` thread of tests/lazy_list/main.cpp once it holds the
   * lock: `remove(k, &l)` of each key in turn, which prunes, results
   * ignored. Exactly the keys of `keys` are gone and no marked node is left.
   */
  method RemoveEach(ll: LazyList, keys: seq<Word>)
    requires ll.Valid() && NoMarks(ll.cells)
    requires forall i :: 0 <= i < |keys| ==> 0 < keys[i]
    modifies ll, ll.Repr
    ensures ll.Valid() && NoMarks(ll.cells)
    ensures LiveKeys(ll.cells) == old(LiveKeys(ll.cells)) - KeySet(keys)
    ensures ll.Repr == old(ll.Repr)
  {
    ghost var live := LiveKeys(ll.cells);
    for i := 0 to |keys|
      invariant ll.Valid() && NoMarks(ll.cells)
      invariant ll.Repr == old(ll.Repr)
      invariant LiveKeys(ll.cells) == live - KeysBefore(keys, i)
    {
      KeysBeforeNext(keys, i);
      MinusOneMore(live, KeysBefore(keys, i), keys[i]);
      var removed := RemoveKey(ll, keys[i]);
    }
    KeysBeforeAll(keys);
  }

  /** The four `ops` arrays of tests/lazy_list/main.cpp. */
  const Ops1: seq<Word> := [1, 2, 3, 4, 5]
  const Ops2: seq<Word> := [6, 7, 8, 9, 10]
  const Ops3: seq<Word> := [2, 3, 8, 10, 1]
  const Ops4: seq<Word> := [13, 2, 12, 4, 11]

  /**
   * The keys threads a1 to a4 add, one thread after another: each holds the
   * lock for its whole loop, so together they add these keys in this order.
   */
  const Inserted: seq<Word> := Ops1 + Ops2 + Ops3 + Ops4

  /** The keys threads d1 to d4 remove, one thread after another. */
  const Removed: seq<Word> := Ops4 + Ops3 + Ops2 + Ops1

  /** Keys 1 to 13 in increasing order, none marked. */
  const OneToThirteen: seq<Cell> := seq(13, i => Cell(i + 1, false))

  /**
   * tests/lazy_list/main.cpp when the lock goes to the four inserting
   * threads first and then to the four removing ones: every key added is
   * removed again, so `print` lists nothing.
   */
  method InsertersFirstScenario() returns (lines: seq<Cell>)
    ensures lines == []
  {
    var ll := new LazyList();
    InsertEach(ll, Inserted);
    ghost var added := LiveKeys(ll.cells);
    RemoveEach(ll, Removed);
    EverythingRemoved(added, LiveKeys(ll.cells));
    ListingDeterminedByKeys(ll.cells, []);
    lines := ll.Print();
  }

  /**
   * tests/lazy_list/main.cpp when the lock goes to the four removing
   * threads first: they find nothing to remove, the inserting threads then
   * add keys 1 to 13 (1, 2, 3, 8 and 10 twice), and `print` lists 1 to 13
   * in increasing order, none marked.
   */
  method RemoversFirstScenario() returns (lines: seq<Cell>)
    ensures lines == OneToThirteen
  {
    var ll := new LazyList();
    RemoveEach(ll, Removed);
    ghost var left := LiveKeys(ll.cells);
    InsertEach(ll, Inserted);
    OneToThirteenAdded(left, LiveKeys(ll.cells));
    ListsOneToThirteen(ll.cells);
    lines := ll.Print();
  }

  /** The four removing threads remove every key the four inserting threads add. */
  lemma EverythingRemoved(added: set<int>, left: set<int>)
    requires added == {} + KeySet(Inserted)
    requires left == added - KeySet(Removed)
    ensures left == {}
  {
    SplitKeys(Ops1, Ops2, Ops3, Ops4);
    SplitKeys(Ops4, Ops3, Ops2, Ops1);
  }

  /** The keys of the four `ops` arrays are 1 to 13. */
  lemma OpsKeys()
    ensures KeySet(Inserted) == {1, 2, 3, 4, 5, 6, 7, 8, 9, 10, 11, 12, 13}
  {
    SplitKeys(Ops1, Ops2, Ops3, Ops4);
    EachOpsKeys();
  }

  /** The keys each `ops` array holds. */
  lemma EachOpsKeys()
    ensures KeySet(Ops1) == {1, 2, 3, 4, 5} && KeySet(Ops2) == {6, 7, 8, 9, 10}
    ensures KeySet(Ops3) == {1, 2, 3, 8, 10} && KeySet(Ops4) == {2, 4, 11, 12, 13}
  {
  }

  /** Four threads one after another use the keys of each. */
  lemma SplitKeys(a: seq<Word>, b: seq<Word>, c: seq<Word>, d: seq<Word>)
    ensures KeySet(a + b + c + d) == KeySet(a) + KeySet(b) + KeySet(c) + KeySet(d)
  {
  }

  /** Removing from an empty list and then adding the four `ops` arrays leaves keys 1 to 13. */
  lemma OneToThirteenAdded(left: set<int>, live: set<int>)
    requires left == {} - KeySet(Removed)
    requires live == left + KeySet(Inserted)
    ensures live == {1, 2, 3, 4, 5, 6, 7, 8, 9, 10, 11, 12, 13}
  {
    OpsKeys();
  }

  /** A chain without marks holding keys 1 to 13 lists them in increasing order. */
  lemma ListsOneToThirteen(cs: seq<Cell>)
    requires WellFormed(cs) && NoMarks(cs) && LiveKeys(cs) == {1, 2, 3, 4, 5, 6, 7, 8, 9, 10, 11, 12, 13}
    ensures cs[1..|cs| - 1] == OneToThirteen
  {
    var expected := OneToThirteen;
    assert KeysOf(expected) == {1, 2, 3, 4, 5, 6, 7, 8, 9, 10, 11, 12, 13} by {
      forall k | k in {1, 2, 3, 4, 5, 6, 7, 8, 9, 10, 11, 12, 13} ensures k in KeysOf(expected) {
        assert expected[k - 1].key == k;
      }
    }
    ListingDeterminedByKeys(cs, expected);
  }
}
