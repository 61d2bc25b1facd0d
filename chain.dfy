/**
 * The abstract state of a LazyList: the chain of nodes linked from head to
 * tail, each seen as its key and whether its `next` link carries the
 * logical-deletion mark. The functions here say what one sequential pass of
 * `search`, `add`, `remove` and `prune` does to that chain; the lemmas state
 * the invariants those operations keep.
 */
module Chain {
  import opened TaggedWord

  datatype Cell = Cell(key: int, marked: bool)

  /** Keys run strictly upward along the chain (marked cells included). */
  predicate Sorted(cs: seq<Cell>) {
    forall i, j :: 0 <= i < j < |cs| ==> cs[i].key < cs[j].key
  }

  /** Head (key 0) and tail (key UINTPTR_MAX) are unmarked sentinels at the two ends. */
  predicate WellFormed(cs: seq<Cell>) {
    |cs| >= 2 && cs[0] == Cell(0, false) && cs[|cs| - 1] == Cell(UINTPTR_MAX, false) && Sorted(cs)
  }

  /** The chain of a new list: head linked straight to tail. */
  function Empty(): (cs: seq<Cell>)
    ensures WellFormed(cs)
  {
    [Cell(0, false), Cell(UINTPTR_MAX, false)]
  }

  /** The set the list represents: keys of the unmarked nodes between the sentinels. */
  function LiveKeys(cs: seq<Cell>): set<int> {
    set i | 0 < i < |cs| - 1 && !cs[i].marked :: cs[i].key
  }

  /** No node of the chain is logically deleted. */
  predicate NoMarks(cs: seq<Cell>) {
    forall i :: 0 <= i < |cs| ==> !cs[i].marked
  }

  /**
   * Index `k` is where the walk from head stops for target `v`: the first
   * node after head that is unmarked with key `>= v` (the tail qualifies).
   */
  predicate IsRightOf(cs: seq<Cell>, v: Word, k: int) {
    1 <= k < |cs| && !cs[k].marked && cs[k].key >= v &&
    forall j :: 1 <= j < k ==> cs[j].marked || cs[j].key < v
  }

  function RightFrom(cs: seq<Cell>, v: Word, j: nat): (k: nat)
    requires WellFormed(cs) && 1 <= j < |cs|
    requires forall i :: 1 <= i < j ==> cs[i].marked || cs[i].key < v
    ensures IsRightOf(cs, v, k)
    decreases |cs| - j
  {
    if !cs[j].marked && cs[j].key >= v then j else RightFrom(cs, v, j + 1)
  }

  /** The node the walk stops at; it always exists because the tail qualifies. */
  function RightIndex(cs: seq<Cell>, v: Word): (k: nat)
    requires WellFormed(cs)
    ensures IsRightOf(cs, v, k)
  {
    RightFrom(cs, v, 1)
  }

  lemma RightIndexUnique(cs: seq<Cell>, v: Word, k: int)
    requires WellFormed(cs) && IsRightOf(cs, v, k)
    ensures k == RightIndex(cs, v)
  {
  }

  /** The last unmarked node before index `k`: the walk's `left`; head is unmarked. */
  function LastUnmarkedBefore(cs: seq<Cell>, k: nat): (l: nat)
    requires WellFormed(cs) && 1 <= k < |cs|
    ensures l < k && !cs[l].marked
    ensures forall j :: l < j < k ==> cs[j].marked
    decreases k
  {
    if !cs[k - 1].marked then k - 1 else LastUnmarkedBefore(cs, k - 1)
  }

  lemma LastUnmarkedUnique(cs: seq<Cell>, k: nat, l: nat)
    requires WellFormed(cs) && 1 <= k < |cs|
    requires l < k && !cs[l].marked && forall j :: l < j < k ==> cs[j].marked
    ensures l == LastUnmarkedBefore(cs, k)
  {
  }

  /**
   * The inner walk shared by `search` and `prune` for a target `v > 0`:
   * `left` is the last unmarked node before `right`, every node between them
   * is marked, `left`'s key is below `v` and `right` is where the walk stops.
   */
  function Walk(cs: seq<Cell>, v: Word): (r: (nat, nat))
    requires WellFormed(cs) && v > 0
    ensures IsRightOf(cs, v, r.1) && r.0 < r.1
    ensures !cs[r.0].marked && cs[r.0].key < v
    ensures forall j :: r.0 < j < r.1 ==> cs[j].marked
  {
    var k := RightIndex(cs, v);
    (LastUnmarkedBefore(cs, k), k)
  }

  datatype SearchOutcome = Bracket(left: nat, right: nat) | Spins

  /**
   * `search(v, &left)`: the bracket `left`, `right` when `left` links
   * directly to `right`; when a marked node sits between them (or `v == 0`,
   * so that `left` is never set) the retry loop never returns.
   */
  function Search(cs: seq<Cell>, v: Word): (r: SearchOutcome)
    requires WellFormed(cs)
    ensures r.Bracket? ==> r.right == r.left + 1 && IsRightOf(cs, v, r.right) && !cs[r.left].marked
  {
    if v == 0 then Spins
    else
      var (l, k) := Walk(cs, v);
      if l + 1 == k then Bracket(l, k) else Spins
  }

  /**
   * A returned bracket is adjacent, `left` is the last unmarked node with a
   * key below `v` and `right` is the first unmarked node with a key `>= v`
   * (or the tail); the search spins exactly when `v == 0` or the node just
   * before `right` is marked.
   */
  lemma SearchMeaning(cs: seq<Cell>, v: Word)
    requires WellFormed(cs)
    ensures Search(cs, v).Bracket? ==>
              var (l, k) := (Search(cs, v).left, Search(cs, v).right);
              k == l + 1 && IsRightOf(cs, v, k) && !cs[l].marked && cs[l].key < v &&
              forall j :: l < j < |cs| && !cs[j].marked ==> cs[j].key >= v
    ensures Search(cs, v).Spins? <==> v == 0 || cs[RightIndex(cs, v) - 1].marked
  {
    if v > 0 {
      var (l, k) := Walk(cs, v);
      if l + 1 == k {
        forall j | l < j < |cs| && !cs[j].marked ensures cs[j].key >= v {
          assert cs[k].key <= cs[j].key;
        }
      } else {
        assert cs[k - 1].marked;
      }
    }
  }

  /** With no marked node in the chain, search returns for every `v > 0`. */
  lemma SearchReturnsWithoutMarks(cs: seq<Cell>, v: Word)
    requires WellFormed(cs) && NoMarks(cs) && v > 0
    ensures Search(cs, v).Bracket?
  {
  }

  /**
   * The stop node holds key `v` (and is not the tail) exactly when `v` is a
   * live key: sortedness puts the unmarked node with key `v` at the stop.
   */
  lemma {:induction false} RightHoldsKeyIffLive(cs: seq<Cell>, v: Word)
    requires WellFormed(cs)
    ensures var k := RightIndex(cs, v); (k < |cs| - 1 && cs[k].key == v) <==> v in LiveKeys(cs)
  {
    var k := RightIndex(cs, v);
    if v in LiveKeys(cs) {
      var i :| 0 < i < |cs| - 1 && !cs[i].marked && cs[i].key == v;
    }
  }

  /** `contains(v)`: the walk that skips marked nodes answers by the stop node. */
  function Contains(cs: seq<Cell>, v: Word): (b: bool)
    requires WellFormed(cs)
    ensures b <==> v in LiveKeys(cs)
  {
    RightHoldsKeyIffLive(cs, v);
    var k := RightIndex(cs, v);
    k < |cs| - 1 && cs[k].key == v
  }

  /** The chain with cell `c` linked in at index `k`. */
  function InsertAt(cs: seq<Cell>, k: nat, c: Cell): (r: seq<Cell>)
    requires k <= |cs|
    ensures |r| == |cs| + 1 && r[k] == c
    ensures forall i :: 0 <= i < k ==> r[i] == cs[i]
    ensures forall i :: k < i < |r| ==> r[i] == cs[i - 1]
  {
    cs[..k] + [c] + cs[k..]
  }

  /** The chain with the run of cells strictly between `l` and `k` unlinked. */
  function Unlink(cs: seq<Cell>, l: nat, k: nat): (r: seq<Cell>)
    requires l < k <= |cs|
    ensures |r| == |cs| - (k - l - 1)
    ensures forall i :: 0 <= i <= l ==> r[i] == cs[i]
    ensures forall i :: l < i < |r| ==> r[i] == cs[i + (k - l - 1)]
  {
    cs[..l + 1] + cs[k..]
  }

  /** The chain with the `next` link of the node at `k` marked. */
  function MarkAt(cs: seq<Cell>, k: nat): (r: seq<Cell>)
    requires k < |cs|
    ensures |r| == |cs| && r[k] == Cell(cs[k].key, true)
    ensures forall i :: 0 <= i < |cs| && i != k ==> r[i] == cs[i]
    ensures WellFormed(cs) && 0 < k < |cs| - 1 ==> WellFormed(r)
  {
    cs[k := Cell(cs[k].key, true)]
  }

  /** What one call returns, and the chain afterwards; or that it never returns. */
  datatype Step = Returns(result: bool, cells: seq<Cell>) | NeverReturns

  /**
   * `add(v)`: false when the stop node already holds `v`, otherwise the new
   * node is linked between `left` and `right`.
   */
  function Add(cs: seq<Cell>, v: Word): (r: Step)
    requires WellFormed(cs)
    ensures r.NeverReturns? <==> Search(cs, v).Spins?
    ensures r.Returns? && !r.result ==> r.cells == cs
    ensures r.Returns? && r.result ==> |r.cells| == |cs| + 1 && Cell(v, false) in r.cells
  {
    match Search(cs, v)
    case Spins => NeverReturns
    case Bracket(l, k) =>
      if k < |cs| - 1 && cs[k].key == v then Returns(false, cs)
      else Returns(true, InsertAt(cs, k, Cell(v, false)))
  }

  datatype Run = Run(left: nat, right: nat) | NoRun

  /**
   * `prune(v)`: the marked run strictly between the walk's `left` and
   * `right`. There is one exactly when the node just before the stop node is
   * marked; it then starts right after an unmarked node with a key below `v`.
   */
  function PruneRun(cs: seq<Cell>, v: Word): (r: Run)
    requires WellFormed(cs) && v > 0
    ensures r.NoRun? <==> !cs[RightIndex(cs, v) - 1].marked
    ensures r.Run? ==> r.left + 1 < r.right && IsRightOf(cs, v, r.right) && !cs[r.left].marked && cs[r.left].key < v
    ensures r.Run? ==> forall j :: r.left < j < r.right ==> cs[j].marked
  {
    var (l, k) := Walk(cs, v);
    if l + 1 == k then NoRun else Run(l, k)
  }

  /**
   * One pass of `prune(v)`: the run is unlinked and true returned; without a
   * run the retry loop never returns.
   */
  function Prune(cs: seq<Cell>, v: Word): (r: Step)
    requires WellFormed(cs) && v > 0
    ensures r.NeverReturns? <==> !cs[RightIndex(cs, v) - 1].marked
    ensures r.Returns? ==> r.result && |r.cells| < |cs|
  {
    match PruneRun(cs, v)
    case NoRun => NeverReturns
    case Run(l, k) => Returns(true, Unlink(cs, l, k))
  }

  /**
   * `remove(v)`: false when the stop node is the tail or holds another key;
   * otherwise the node is marked and, when asked for, pruned.
   */
  function Remove(cs: seq<Cell>, v: Word, prune: bool): (r: Step)
    requires WellFormed(cs)
    ensures r.NeverReturns? <==> Search(cs, v).Spins?
    ensures r.Returns? && !r.result ==> r.cells == cs
    ensures r.Returns? && r.result ==> (prune <==> |r.cells| < |cs|) && |r.cells| <= |cs|
  {
    match Search(cs, v)
    case Spins => NeverReturns
    case Bracket(l, k) =>
      if k == |cs| - 1 || cs[k].key != v then Returns(false, cs)
      else
        var marked := MarkAt(cs, k);
        if !prune then Returns(true, marked)
        else PruneAfterMark(cs, v); Prune(marked, v)
  }

  // ----- invariants kept -----

  lemma MarkKeepsWellFormed(cs: seq<Cell>, k: nat)
    requires WellFormed(cs) && 0 < k < |cs| - 1
    ensures WellFormed(MarkAt(cs, k))
  {
    var r := MarkAt(cs, k);
    forall i, j | 0 <= i < j < |r| ensures r[i].key < r[j].key {
      assert r[i].key == cs[i].key && r[j].key == cs[j].key;
    }
  }

  /** Marking interior node `k` removes exactly its key from the live set. */
  lemma {:induction false} MarkRemovesKey(cs: seq<Cell>, k: nat)
    requires WellFormed(cs) && 0 < k < |cs| - 1 && !cs[k].marked
    ensures LiveKeys(MarkAt(cs, k)) == LiveKeys(cs) - {cs[k].key}
  {
    var r := MarkAt(cs, k);
    forall x | x in LiveKeys(cs) - {cs[k].key} ensures x in LiveKeys(r) {
      var i :| 0 < i < |cs| - 1 && !cs[i].marked && cs[i].key == x;
      assert r[i] == cs[i];
    }
    forall x | x in LiveKeys(r) ensures x in LiveKeys(cs) - {cs[k].key} {
      var i :| 0 < i < |r| - 1 && !r[i].marked && r[i].key == x;
      assert i != k && r[i] == cs[i];
      assert cs[i].key != cs[k].key by {
        if i < k { assert cs[i].key < cs[k].key; } else { assert cs[k].key < cs[i].key; }
      }
    }
  }

  /** Inserting key `v` strictly between its neighbours keeps the chain well formed. */
  lemma InsertKeepsWellFormed(cs: seq<Cell>, k: nat, v: Word)
    requires WellFormed(cs) && 0 < k < |cs|
    requires cs[k - 1].key < v < cs[k].key
    ensures WellFormed(InsertAt(cs, k, Cell(v, false)))
  {
    var r := InsertAt(cs, k, Cell(v, false));
    forall i, j | 0 <= i < j < |r| ensures r[i].key < r[j].key {
      if j < k {
      } else if j == k {
        assert cs[i].key <= cs[k - 1].key;
      } else if i < k {
        assert r[j] == cs[j - 1];
      } else if i == k {
        assert cs[k].key <= cs[j - 1].key;
      } else {
        assert r[i] == cs[i - 1] && r[j] == cs[j - 1];
      }
    }
  }

  /** Inserting an unmarked interior cell adds exactly its key to the live set. */
  lemma {:induction false} InsertAddsKey(cs: seq<Cell>, k: nat, v: Word)
    requires 0 < k < |cs|
    ensures LiveKeys(InsertAt(cs, k, Cell(v, false))) == LiveKeys(cs) + {v}
  {
    var r := InsertAt(cs, k, Cell(v, false));
    forall x | x in LiveKeys(cs) + {v} ensures x in LiveKeys(r) {
      if x == v {
        assert r[k] == Cell(v, false);
      } else {
        var i :| 0 < i < |cs| - 1 && !cs[i].marked && cs[i].key == x;
        if i < k { assert r[i] == cs[i]; } else { assert r[i + 1] == cs[i]; }
      }
    }
    forall x | x in LiveKeys(r) ensures x in LiveKeys(cs) + {v} {
      var i :| 0 < i < |r| - 1 && !r[i].marked && r[i].key == x;
      if i < k { assert r[i] == cs[i]; } else if k < i { assert r[i] == cs[i - 1]; }
    }
  }

  /** Unlinking any run keeps the sentinels at the ends and the keys sorted. */
  lemma UnlinkKeepsWellFormed(cs: seq<Cell>, l: nat, k: nat)
    requires WellFormed(cs) && l < k < |cs|
    ensures WellFormed(Unlink(cs, l, k))
  {
    var r := Unlink(cs, l, k);
    var d := k - l - 1;
    assert r[|r| - 1] == cs[|cs| - 1];
    forall i, j | 0 <= i < j < |r| ensures r[i].key < r[j].key {
      var i' := if i <= l then i else i + d;
      var j' := if j <= l then j else j + d;
      assert r[i] == cs[i'] && r[j] == cs[j'];
    }
  }

  /** Unlinking a run of marked cells keeps the chain well formed and the live set. */
  lemma UnlinkMarkedRun(cs: seq<Cell>, l: nat, k: nat)
    requires WellFormed(cs) && l < k < |cs|
    requires forall j :: l < j < k ==> cs[j].marked
    ensures WellFormed(Unlink(cs, l, k))
    ensures LiveKeys(Unlink(cs, l, k)) == LiveKeys(cs)
  {
    UnlinkKeepsWellFormed(cs, l, k);
    UnlinkKeepsLive(cs, l, k);
    UnlinkAddsNoLive(cs, l, k);
  }

  /** Every live key survives unlinking a marked run. */
  lemma UnlinkKeepsLive(cs: seq<Cell>, l: nat, k: nat)
    requires l < k < |cs|
    requires forall j :: l < j < k ==> cs[j].marked
    ensures LiveKeys(cs) <= LiveKeys(Unlink(cs, l, k))
  {
    var r := Unlink(cs, l, k);
    forall x | x in LiveKeys(cs) ensures x in LiveKeys(r) {
      var i :| 0 < i < |cs| - 1 && !cs[i].marked && cs[i].key == x;
      if i <= l { assert r[i] == cs[i]; } else { assert r[i - (k - l - 1)] == cs[i]; }
    }
  }

  /** Unlinking brings no new live key. */
  lemma UnlinkAddsNoLive(cs: seq<Cell>, l: nat, k: nat)
    requires l < k < |cs|
    ensures LiveKeys(Unlink(cs, l, k)) <= LiveKeys(cs)
  {
    var r := Unlink(cs, l, k);
    forall x | x in LiveKeys(r) ensures x in LiveKeys(cs) {
      var i :| 0 < i < |r| - 1 && !r[i].marked && r[i].key == x;
      if i <= l { assert r[i] == cs[i]; } else { assert r[i] == cs[i + (k - l - 1)]; }
    }
  }

  /**
   * Where `add` links its node when the stop node does not hold `v`: right
   * after `left`, before a stop node whose key is above `v`, and the chain
   * stays well formed.
   */
  lemma AddSlot(cs: seq<Cell>, v: Word)
    requires WellFormed(cs) && v < UINTPTR_MAX && Search(cs, v).Bracket?
    requires Search(cs, v).right == |cs| - 1 || cs[Search(cs, v).right].key != v
    ensures 0 < Search(cs, v).right < |cs|
    ensures WellFormed(InsertAt(cs, Search(cs, v).right, Cell(v, false)))
  {
    var k := Search(cs, v).right;
    if k == 1 {
    } else {
      assert cs[k - 1].marked || cs[k - 1].key < v;
    }
    InsertKeepsWellFormed(cs, k, v);
  }

  /**
   * `add(v)` for a client key: when it returns, the chain stays well formed,
   * the result is true exactly when `v` was absent, and the live set becomes
   * the old one plus `v`.
   */
  lemma AddCorrect(cs: seq<Cell>, v: Word)
    requires WellFormed(cs) && 0 < v < UINTPTR_MAX
    ensures Add(cs, v).NeverReturns? <==> Search(cs, v).Spins?
    ensures Add(cs, v).Returns? ==>
              WellFormed(Add(cs, v).cells) &&
              (Add(cs, v).result <==> v !in LiveKeys(cs)) &&
              LiveKeys(Add(cs, v).cells) == LiveKeys(cs) + {v}
  {
    RightHoldsKeyIffLive(cs, v);
    match Search(cs, v)
    case Spins =>
    case Bracket(l, k) =>
      if !(k < |cs| - 1 && cs[k].key == v) {
        assert cs[k].key != v;
        InsertKeepsWellFormed(cs, k, v);
        InsertAddsKey(cs, k, v);
      }
  }

  /** A successful `add` leaves every other node's mark as it was, so no new marks. */
  lemma AddKeepsNoMarks(cs: seq<Cell>, v: Word)
    requires WellFormed(cs) && NoMarks(cs) && 0 < v < UINTPTR_MAX
    ensures Add(cs, v).Returns? && NoMarks(Add(cs, v).cells)
  {
    SearchReturnsWithoutMarks(cs, v);
  }

  /**
   * Right after `remove` marks the node at `k`, the walk for `v` stops past
   * it with the same `left`, so `prune` always finds the marked run that
   * starts at that node.
   */
  lemma PruneAfterMark(cs: seq<Cell>, v: Word)
    requires WellFormed(cs) && Search(cs, v).Bracket?
    requires var k := Search(cs, v).right; k < |cs| - 1 && cs[k].key == v
    ensures var (l, k) := (Search(cs, v).left, Search(cs, v).right);
            PruneRun(MarkAt(cs, k), v).Run? && PruneRun(MarkAt(cs, k), v).left == l &&
            PruneRun(MarkAt(cs, k), v).right > k
  {
    var (l, k) := (Search(cs, v).left, Search(cs, v).right);
    MarkKeepsWellFormed(cs, k);
    var m := MarkAt(cs, k);
    var k' := RightFrom(m, v, k + 1);
    RightIndexUnique(m, v, k');
    LastUnmarkedUnique(m, k', l);
  }

  /**
   * `remove(v)`: when it returns, the chain stays well formed, the result is
   * true exactly when `v` was live, and the live set loses `v` and nothing
   * else, whether or not the node is pruned. With pruning it returns
   * whenever its search does.
   */
  lemma RemoveCorrect(cs: seq<Cell>, v: Word, prune: bool)
    requires WellFormed(cs)
    ensures Remove(cs, v, prune).NeverReturns? <==> Search(cs, v).Spins?
    ensures Remove(cs, v, prune).Returns? ==>
              WellFormed(Remove(cs, v, prune).cells) &&
              (Remove(cs, v, prune).result <==> v in LiveKeys(cs)) &&
              LiveKeys(Remove(cs, v, prune).cells) == LiveKeys(cs) - {v}
  {
    RightHoldsKeyIffLive(cs, v);
    match Search(cs, v)
    case Spins =>
    case Bracket(l, k) =>
      if k < |cs| - 1 && cs[k].key == v {
        MarkKeepsWellFormed(cs, k);
        MarkRemovesKey(cs, k);
        if prune {
          PruneAfterMark(cs, v);
          var run := PruneRun(MarkAt(cs, k), v);
          UnlinkMarkedRun(MarkAt(cs, k), run.left, run.right);
        }
      }
  }

  /**
   * `prune(v)` on its own: when it returns, the chain stays well formed and
   * the set is unchanged, since only marked nodes leave.
   */
  lemma PruneCorrect(cs: seq<Cell>, v: Word)
    requires WellFormed(cs) && v > 0
    ensures Prune(cs, v).Returns? ==>
              WellFormed(Prune(cs, v).cells) && LiveKeys(Prune(cs, v).cells) == LiveKeys(cs)
  {
    match PruneRun(cs, v)
    case NoRun =>
    case Run(l, k) => UnlinkMarkedRun(cs, l, k);
  }

  /**
   * A list whose removals all prune stays free of marks: the pruned run is
   * exactly the node just marked.
   */
  lemma RemovePrunedKeepsNoMarks(cs: seq<Cell>, v: Word)
    requires WellFormed(cs) && NoMarks(cs) && v > 0
    ensures Remove(cs, v, true).Returns? && NoMarks(Remove(cs, v, true).cells)
  {
    SearchReturnsWithoutMarks(cs, v);
    var (l, k) := (Search(cs, v).left, Search(cs, v).right);
    if k < |cs| - 1 && cs[k].key == v {
      PruneAfterMark(cs, v);
      MarkKeepsWellFormed(cs, k);
      var m := MarkAt(cs, k);
      var run := PruneRun(m, v);
      assert run.right == k + 1;
      var r := Unlink(m, run.left, run.right);
      forall i | 0 <= i < |r| ensures !r[i].marked {
        if i > run.left { assert r[i] == m[i + 1]; }
      }
    }
  }

  /**
   * The warning on `remove` without pruning: the marked node stays linked,
   * and any later search for a key between its live predecessor's key and
   * its own key (its own key included) never returns.
   */
  lemma UnprunedRemoveBlocksSearch(cs: seq<Cell>, v: Word, w: Word)
    requires WellFormed(cs) && Search(cs, v).Bracket?
    requires var k := Search(cs, v).right; k < |cs| - 1 && cs[k].key == v
    requires cs[Search(cs, v).left].key < w <= v
    ensures Remove(cs, v, false).Returns? && Remove(cs, v, false).result
    ensures Search(Remove(cs, v, false).cells, w).Spins?
  {
    var (l, k) := (Search(cs, v).left, Search(cs, v).right);
    MarkKeepsWellFormed(cs, k);
    var m := MarkAt(cs, k);
    assert forall j :: 1 <= j <= k ==> m[j].marked || m[j].key < w by {
      forall j | 1 <= j <= k ensures m[j].marked || m[j].key < w {
        if j < l { assert cs[j].key < cs[l].key; }
      }
    }
    var k' := RightFrom(m, w, k + 1);
    RightIndexUnique(m, w, k');
    assert m[k' - 1].marked;
  }

  /** The keys of a run of cells. */
  function KeysOf(s: seq<Cell>): set<int> {
    set i | 0 <= i < |s| :: s[i].key
  }

  /**
   * Without marks, the nodes between the sentinels, which `print` lists in
   * order, are sorted and hold exactly the live keys.
   */
  lemma ListedCells(cs: seq<Cell>)
    requires WellFormed(cs) && NoMarks(cs)
    ensures Sorted(cs[1..|cs| - 1]) && NoMarks(cs[1..|cs| - 1])
    ensures KeysOf(cs[1..|cs| - 1]) == LiveKeys(cs)
  {
    var m := cs[1..|cs| - 1];
    forall x | x in LiveKeys(cs) ensures x in KeysOf(m) {
      var i :| 0 < i < |cs| - 1 && !cs[i].marked && cs[i].key == x;
      assert m[i - 1].key == x;
    }
  }

  /** Only the empty run has no keys. */
  lemma KeysOfEmpty(a: seq<Cell>)
    ensures KeysOf(a) == {} <==> a == []
  {
    if a != [] {
      assert a[0].key in KeysOf(a);
    }
  }

  /** Dropping the first cell of a sorted run drops exactly its key. */
  lemma KeysOfTail(a: seq<Cell>)
    requires Sorted(a) && |a| > 0
    ensures KeysOf(a[1..]) == KeysOf(a) - {a[0].key}
  {
    forall x | x in KeysOf(a[1..]) ensures x in KeysOf(a) && x != a[0].key {
      var t :| 0 <= t < |a| - 1 && a[1..][t].key == x;
      assert a[t + 1].key == x;
    }
    forall x | x in KeysOf(a) - {a[0].key} ensures x in KeysOf(a[1..]) {
      var t :| 0 <= t < |a| && a[t].key == x;
      assert a[1..][t - 1].key == x;
    }
  }

  /**
   * Sorted runs without marks are fixed by their keys: two of them holding
   * the same keys are equal.
   */
  lemma {:induction false} SortedDeterminedByKeys(a: seq<Cell>, b: seq<Cell>)
    requires Sorted(a) && Sorted(b) && NoMarks(a) && NoMarks(b) && KeysOf(a) == KeysOf(b)
    ensures a == b
    decreases |a|
  {
    if |a| > 0 {
      assert a[0].key in KeysOf(a);
      var j :| 0 <= j < |b| && b[j].key == a[0].key;
      assert b[0].key in KeysOf(b);
      var i :| 0 <= i < |a| && a[i].key == b[0].key;
      assert a[0].key <= a[i].key && b[0].key <= b[j].key;
      assert a[0] == b[0];
      KeysOfTail(a);
      KeysOfTail(b);
      SortedDeterminedByKeys(a[1..], b[1..]);
      assert a == [a[0]] + a[1..] && b == [b[0]] + b[1..];
    } else {
      KeysOfEmpty(b);
    }
  }

  /**
   * Without marks, `print` lists exactly the sorted run of unmarked cells
   * that holds the live keys.
   */
  lemma ListingDeterminedByKeys(cs: seq<Cell>, expected: seq<Cell>)
    requires WellFormed(cs) && NoMarks(cs)
    requires Sorted(expected) && NoMarks(expected) && KeysOf(expected) == LiveKeys(cs)
    ensures cs[1..|cs| - 1] == expected
  {
    ListedCells(cs);
    SortedDeterminedByKeys(cs[1..|cs| - 1], expected);
  }
}
