/**
 * `buildTree` of binary-tree-deletion/EvenSubtreePruner.java: a binary tree
 * from its level-order listing, where a missing node is `null`.
 *
 * The Java routine links fresh node objects while it walks a FIFO queue of the
 * nodes still waiting for children. Here the nodes live in an arena (a
 * sequence of cells in creation order, children referred to by position),
 * and the finished arena is read off as a `Tree`.
 */
module TreeBuild {
  import opened Wrappers
  import opened EvenSubtree

  /** One arena node: its value and the positions of its children. */
  datatype Cell = Cell(val: int, left: Option<nat>, right: Option<nat>)

  /** The number of non-null entries of `a`. */
  function Count(a: seq<Option<int>>): nat
    decreases |a|
  {
    if |a| == 0 then 0 else Count(a[..|a| - 1]) + (if a[|a| - 1].Some? then 1 else 0)
  }

  lemma CountStep(a: seq<Option<int>>, e: nat)
    requires e < |a|
    ensures Count(a[..e + 1]) == Count(a[..e]) + (if a[e].Some? then 1 else 0)
  {
    assert a[..e + 1][..e] == a[..e];
  }

  lemma {:induction false} CountMonotone(a: seq<Option<int>>, e1: nat, e2: nat)
    requires e1 <= e2 <= |a|
    ensures Count(a[..e1]) <= Count(a[..e2])
    decreases e2 - e1
  {
    if e1 < e2 {
      CountStep(a, e1);
      CountMonotone(a, e1 + 1, e2);
    }
  }

  /**
   * The node that entry `e` of the listing becomes, if any: a non-null entry
   * becomes the node numbered by the non-null entries before it.
   */
  function Slot(a: seq<Option<int>>, e: nat): Option<nat> {
    if e < |a| && a[e].Some? then Some(Count(a[..e])) else None
  }

  /** Every child sits after its parent and inside the arena. */
  predicate Linked(cells: seq<Cell>) {
    forall k | 0 <= k < |cells| ::
      && (cells[k].left.Some? ==> k < cells[k].left.value < |cells|)
      && (cells[k].right.Some? ==> k < cells[k].right.value < |cells|)
  }

  /** The subtree rooted at arena node `k`. */
  function ToTree(cells: seq<Cell>, k: nat): Tree
    requires Linked(cells) && k < |cells|
    decreases |cells| - k
  {
    var c := cells[k];
    Node(c.val,
         if c.left.Some? then ToTree(cells, c.left.value) else Nil,
         if c.right.Some? then ToTree(cells, c.right.value) else Nil)
  }

  /**
   * The state of `buildTree`'s walk once the first `lefts` nodes have their
   * left child settled and the first `rights` their right child: `i` entries
   * are read, each non-null one became the node numbered by the non-null
   * entries before it, and node `k`'s children come from entries `2k + 1`
   * and `2k + 2`.
   */
  ghost predicate Built(a: seq<Option<int>>, cells: seq<Cell>, lefts: nat, rights: nat, i: nat) {
    && |a| > 0 && a[0].Some?
    && rights <= lefts <= |cells|
    && i == (if 1 + lefts + rights <= |a| then 1 + lefts + rights else |a|)
    && |cells| == Count(a[..i])
    && Linked(cells) && |cells| > 0 && cells[0].val == a[0].value
    && LeftsSettled(a, cells, lefts) && RightsSettled(a, cells, rights) && ValuesPlaced(a, cells, i)
  }

  /** The first `lefts` nodes have the left child entry `2k + 1` names; the rest have none yet. */
  ghost predicate LeftsSettled(a: seq<Option<int>>, cells: seq<Cell>, lefts: nat) {
    forall k | 0 <= k < |cells| :: cells[k].left == if k < lefts then Slot(a, 2 * k + 1) else None
  }

  /** The first `rights` nodes have the right child entry `2k + 2` names; the rest have none yet. */
  ghost predicate RightsSettled(a: seq<Option<int>>, cells: seq<Cell>, rights: nat) {
    forall k | 0 <= k < |cells| :: cells[k].right == if k < rights then Slot(a, 2 * k + 2) else None
  }

  /** Each non-null entry among the first `i` holds the value of the node it became. */
  ghost predicate ValuesPlaced(a: seq<Option<int>>, cells: seq<Cell>, i: nat) {
    i <= |a| && forall e | 0 <= e < i && a[e].Some? :: Count(a[..e]) < |cells| && cells[Count(a[..e])].val == a[e].value
  }

  /**
   * The queue walk of `buildTree` for a listing whose first entry is a value.
   * Node `k` takes its children from entries `2k + 1` and `2k + 2`: a
   * null entry leaves the child missing, and each non-null entry read
   * becomes exactly one node, numbered in reading order.
   */
  method BuildArena(a: seq<Option<int>>) returns (cells: seq<Cell>)
    requires |a| > 0 && a[0].Some?
    ensures 0 < |cells| <= Count(a) && Linked(cells)
    ensures cells[0].val == a[0].value
    ensures forall k | 0 <= k < |cells| :: cells[k].left == Slot(a, 2 * k + 1) && cells[k].right == Slot(a, 2 * k + 2)
    ensures forall e | 0 <= e < |a| && a[e].Some? && Count(a[..e]) < |cells| :: cells[Count(a[..e])].val == a[e].value
  {
    cells := [Cell(a[0].value, None, None)];
    var queue: seq<nat> := [0];
    ghost var head := 0;
    var i := 1;
    assert Count(a[..0]) == 0;
    CountStep(a, 0);
    while |queue| > 0 && i < |a|
      invariant Built(a, cells, head, head, i)
      invariant |queue| == |cells| - head
      invariant forall j | 0 <= j < |queue| :: queue[j] == head + j
      decreases |a| - i
    {
      var cur := queue[0];
      queue := queue[1..];
      cells, queue, i := Attach(a, cells, queue, cur, i, false, head, head);
      cells, queue, i := Attach(a, cells, queue, cur, i, true, head + 1, head);
      head := head + 1;
    }
    Finished(a, cells, head, i);
  }

  /** When the queue is empty or the listing is used up, the walk's state is the promised arena. */
  lemma Finished(a: seq<Option<int>>, cells: seq<Cell>, head: nat, i: nat)
    requires Built(a, cells, head, head, i)
    requires head == |cells| || i == |a|
    ensures 0 < |cells| <= Count(a) && Linked(cells)
    ensures cells[0].val == a[0].value
    ensures forall k | 0 <= k < |cells| :: cells[k].left == Slot(a, 2 * k + 1) && cells[k].right == Slot(a, 2 * k + 2)
    ensures forall e | 0 <= e < |a| && a[e].Some? && Count(a[..e]) < |cells| :: cells[Count(a[..e])].val == a[e].value
  {
    forall k | 0 <= k < |cells| ensures cells[k].left == Slot(a, 2 * k + 1) && cells[k].right == Slot(a, 2 * k + 2) {
      assert k >= head ==> 2 * k + 1 >= |a|;
    }
    forall e | 0 <= e < |a| && a[e].Some? && Count(a[..e]) < |cells| ensures cells[Count(a[..e])].val == a[e].value {
      if e >= i {
        CountMonotone(a, i, e);
      }
    }
    CountMonotone(a, i, |a|);
    assert a[..|a|] == a;
  }

  /**
   * One child of `buildTree`'s current node `cur` (the left one, or the right
   * one when `right` holds): the next entry, if any is left, is read; a
   * non-null entry becomes a new node, linked as that child and queued.
   */
  method Attach(a: seq<Option<int>>, cells0: seq<Cell>, queue0: seq<nat>, cur: nat, i0: nat, right: bool,
                ghost lefts: nat, ghost rights: nat)
    returns (cells: seq<Cell>, queue: seq<nat>, i: nat)
    requires Built(a, cells0, lefts, rights, i0)
    requires if right then cur == rights && lefts == rights + 1 else cur == lefts == rights
    requires cur < |cells0|
    ensures Built(a, cells, if right then lefts else lefts + 1, if right then rights + 1 else rights, i)
    ensures i0 < |a| ==> i == i0 + 1
    ensures (|cells| == |cells0| && queue == queue0) || (|cells| == |cells0| + 1 && queue == queue0 + [|cells0|])
  {
    cells, queue, i := cells0, queue0, i0;
    if i < |a| {
      var val := a[i];
      i := i + 1;
      if val.Some? {
        var n := |cells|;
        var c := if right then cells[cur].(right := Some(n)) else cells[cur].(left := Some(n));
        cells := cells[cur := c] + [Cell(val.value, None, None)];
        queue := queue + [n];
        Grown(a, cells0, lefts, rights, i0, cur, right, c, cells);
      } else {
        Skipped(a, cells0, lefts, rights, i0, cur, right);
      }
    } else {
      Skipped(a, cells0, lefts, rights, i0, cur, right);
    }
  }

  /** A null entry, or none left to read, settles the child of `cur` as missing. */
  lemma Skipped(a: seq<Option<int>>, cells: seq<Cell>, lefts: nat, rights: nat, i0: nat, cur: nat, right: bool)
    requires Built(a, cells, lefts, rights, i0)
    requires if right then cur == rights && lefts == rights + 1 else cur == lefts == rights
    requires cur < |cells|
    requires i0 < |a| ==> a[i0].None?
    ensures Built(a, cells, if right then lefts else lefts + 1, if right then rights + 1 else rights, if i0 < |a| then i0 + 1 else i0)
  {
    var i := if i0 < |a| then i0 + 1 else i0;
    if i0 < |a| {
      CountStep(a, i0);
    }
    forall e | 0 <= e < i && a[e].Some? ensures Count(a[..e]) < |cells| && cells[Count(a[..e])].val == a[e].value {
      assert e < i0;
    }
    assert ValuesPlaced(a, cells, i);
    if right {
      assert Slot(a, 2 * cur + 2) == None;
      assert RightsSettled(a, cells, rights + 1);
    } else {
      assert Slot(a, 2 * cur + 1) == None;
      assert LeftsSettled(a, cells, lefts + 1);
    }
  }

  /** A non-null entry becomes a new node at the end of the arena, linked as the child of `cur`. */
  lemma Grown(a: seq<Option<int>>, cells0: seq<Cell>, lefts: nat, rights: nat, i0: nat, cur: nat, right: bool,
              c: Cell, cells: seq<Cell>)
    requires Built(a, cells0, lefts, rights, i0)
    requires if right then cur == rights && lefts == rights + 1 else cur == lefts == rights
    requires cur < |cells0|
    requires i0 < |a| && a[i0].Some?
    requires c == if right then cells0[cur].(right := Some(|cells0|)) else cells0[cur].(left := Some(|cells0|))
    requires cells == cells0[cur := c] + [Cell(a[i0].value, None, None)]
    ensures Built(a, cells, if right then lefts else lefts + 1, if right then rights + 1 else rights, i0 + 1)
  {
    CountStep(a, i0);
    var lefts', rights' := if right then lefts else lefts + 1, if right then rights + 1 else rights;
    var x := Cell(a[i0].value, None, None);
    if right {
      assert Slot(a, 2 * cur + 2) == Some(|cells0|);
    } else {
      assert Slot(a, 2 * cur + 1) == Some(|cells0|);
    }
    LeftsAfter(a, cells0, cells, cur, lefts, lefts', c, x);
    RightsAfter(a, cells0, cells, cur, rights, rights', c, x);
    ValuesAfter(a, cells0, cells, cur, i0, c, x);
    LinkedAfter(cells0, cells, cur, c, x);
  }

  /** Appending the node entry `i0` becomes, and relinking another, keeps every placed value in place. */
  lemma ValuesAfter(a: seq<Option<int>>, cells0: seq<Cell>, cells: seq<Cell>, cur: nat, i0: nat, c: Cell, x: Cell)
    requires ValuesPlaced(a, cells0, i0) && |cells0| == Count(a[..i0])
    requires i0 < |a| && a[i0].Some? && cur < |cells0|
    requires c.val == cells0[cur].val && x.val == a[i0].value
    requires cells == cells0[cur := c] + [x]
    ensures ValuesPlaced(a, cells, i0 + 1)
  {
    forall e | 0 <= e < i0 + 1 && a[e].Some? ensures Count(a[..e]) < |cells| && cells[Count(a[..e])].val == a[e].value {
      assert e < i0 ==> Count(a[..e]) < |cells0|;
    }
  }

  /** Giving node `cur` the new last node as a child keeps children after their parents. */
  lemma LinkedAfter(cells0: seq<Cell>, cells: seq<Cell>, cur: nat, c: Cell, x: Cell)
    requires Linked(cells0) && cur < |cells0|
    requires c.left == cells0[cur].left || c.left == Some(|cells0|)
    requires c.right == cells0[cur].right || c.right == Some(|cells0|)
    requires x.left == None && x.right == None
    requires cells == cells0[cur := c] + [x]
    ensures Linked(cells)
  {
    forall k | 0 <= k < |cells|
      ensures cells[k].left.Some? ==> k < cells[k].left.value < |cells|
      ensures cells[k].right.Some? ==> k < cells[k].right.value < |cells|
    {
      assert k < |cells0| && k != cur ==> cells[k] == cells0[k];
    }
  }

  /** Relinking node `cur` and appending a childless node settles at most node `cur`'s left child. */
  lemma LeftsAfter(a: seq<Option<int>>, cells0: seq<Cell>, cells: seq<Cell>, cur: nat, lefts: nat, lefts': nat, c: Cell, x: Cell)
    requires LeftsSettled(a, cells0, lefts) && cur < |cells0| && lefts <= |cells0|
    requires lefts' == lefts || (lefts' == lefts + 1 && cur == lefts)
    requires c.left == if lefts' == lefts then cells0[cur].left else Slot(a, 2 * cur + 1)
    requires cells == cells0[cur := c] + [x] && x.left == None
    ensures LeftsSettled(a, cells, lefts')
  {
    forall k | 0 <= k < |cells| ensures cells[k].left == if k < lefts' then Slot(a, 2 * k + 1) else None {
      assert k < |cells0| && k != cur ==> cells[k] == cells0[k];
    }
  }

  /** Relinking node `cur` and appending a childless node settles at most node `cur`'s right child. */
  lemma RightsAfter(a: seq<Option<int>>, cells0: seq<Cell>, cells: seq<Cell>, cur: nat, rights: nat, rights': nat, c: Cell, x: Cell)
    requires RightsSettled(a, cells0, rights) && cur < |cells0| && rights <= |cells0|
    requires rights' == rights || (rights' == rights + 1 && cur == rights)
    requires c.right == if rights' == rights then cells0[cur].right else Slot(a, 2 * cur + 2)
    requires cells == cells0[cur := c] + [x] && x.right == None
    ensures RightsSettled(a, cells, rights')
  {
    forall k | 0 <= k < |cells| ensures cells[k].right == if k < rights' then Slot(a, 2 * k + 2) else None {
      assert k < |cells0| && k != cur ==> cells[k] == cells0[k];
    }
  }

  /**
   * `buildTree`: an empty listing, or one whose first entry is null, gives the
   * empty tree; otherwise the root holds the first entry and the tree is the
   * arena built by the queue walk, read off from node 0: node `k` has the
   * children that entries `2k + 1` and `2k + 2` name, and each non-null entry
   * read holds its value in the node it became.
   */
  method BuildTree(a: seq<Option<int>>) returns (t: Tree, ghost cells: seq<Cell>)
    ensures t == Nil <==> |a| == 0 || a[0].None?
    ensures t == Nil ==> cells == []
    ensures t.Node? ==> 0 < |cells| <= Count(a) && Linked(cells) && t == ToTree(cells, 0)
    ensures forall k | 0 <= k < |cells| :: cells[k].left == Slot(a, 2 * k + 1) && cells[k].right == Slot(a, 2 * k + 2)
    ensures forall e | 0 <= e < |a| && a[e].Some? && Count(a[..e]) < |cells| :: cells[Count(a[..e])].val == a[e].value
    ensures t.Node? ==> t.val == a[0].value
    ensures t.Node? ==> (t.left.Node? <==> |a| > 1 && a[1].Some?)
    ensures t.Node? && t.left.Node? ==> t.left.val == a[1].value
    ensures t.Node? ==> (t.right.Node? <==> |a| > 2 && a[2].Some?)
    ensures t.Node? && t.right.Node? ==> t.right.val == a[2].value
  {
    if |a| == 0 || a[0].None? {
      return Nil, [];
    }
    var arena := BuildArena(a);
    t := ToTree(arena, 0);
    cells := arena;
    assert cells[0].left == Slot(a, 1) && cells[0].right == Slot(a, 2);
    assert t.left == if cells[0].left.Some? then ToTree(cells, cells[0].left.value) else Nil;
    assert t.right == if cells[0].right.Some? then ToTree(cells, cells[0].right.value) else Nil;
    assert Count(a[..0]) == 0;
    CountStep(a, 0);
    if |a| > 1 && a[1].Some? {
      assert cells[Count(a[..1])].val == a[1].value;
    }
    if |a| > 2 && a[2].Some? {
      CountStep(a, 1);
      assert cells[Count(a[..2])].val == a[2].value;
    }
  }
}
