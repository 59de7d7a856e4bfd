/**
 * `printTreeLevelOrder` of binary-tree-deletion/EvenSubtreePruner.java: the
 * tokens it prints, level by level.
 *
 * An empty tree prints the single token `null`. Otherwise every level is
 * printed at full width: a missing node prints `null` and stands for two
 * missing children on the next level. Printing stops after the deepest level
 * that holds a node, so a tree of height `h` prints `2^h - 1` tokens. The
 * model is the token sequence; the spaces between the printed tokens and the
 * writer itself are not modelled.
 */
module TreePrint {
  import opened EvenSubtree

  datatype Token = NullToken | Value(v: int)

  function Pow2(k: nat): nat
    ensures Pow2(k) >= 1
  {
    if k == 0 then 1 else 2 * Pow2(k - 1)
  }

  /** The number of levels holding a node. */
  function Height(t: Tree): nat {
    match t
    case Nil => 0
    case Node(_, l, r) => 1 + if Height(l) < Height(r) then Height(r) else Height(l)
  }

  function Nulls(n: nat): (r: seq<Token>)
    ensures |r| == n && forall i | 0 <= i < n :: r[i] == NullToken
  {
    seq(n, _ => NullToken)
  }

  /** Level `k` of `t` at full width, read from the tree's shape: `2^k` tokens. */
  function Level(t: Tree, k: nat): seq<Token>
    decreases k
  {
    match t
    case Nil => Nulls(Pow2(k))
    case Node(v, l, r) => if k == 0 then [Value(v)] else Level(l, k - 1) + Level(r, k - 1)
  }

  /** Levels `0 .. k - 1` of `t`, one after the other. */
  function Levels(t: Tree, k: nat): seq<Token> {
    if k == 0 then [] else Levels(t, k - 1) + Level(t, k - 1)
  }

  /** What `printTreeLevelOrder` should print: `null` for the empty tree, else every level down to the deepest. */
  function Render(t: Tree): seq<Token> {
    if t.Nil? then [NullToken] else Levels(t, Height(t))
  }

  lemma {:induction false} LevelLength(t: Tree, k: nat)
    ensures |Level(t, k)| == Pow2(k)
    decreases k
  {
    match t
    case Nil =>
    case Node(_, l, r) =>
      if k > 0 {
        LevelLength(l, k - 1);
        LevelLength(r, k - 1);
      }
  }

  /** A non-empty tree of height `h` prints `2^h - 1` tokens. */
  lemma {:induction false} RenderLength(t: Tree)
    requires t.Node?
    ensures |Render(t)| == Pow2(Height(t)) - 1
  {
    LevelsLength(t, Height(t));
  }

  lemma {:induction false} LevelsLength(t: Tree, k: nat)
    ensures |Levels(t, k)| == Pow2(k) - 1
  {
    if k > 0 {
      LevelsLength(t, k - 1);
      LevelLength(t, k - 1);
    }
  }

  /** The token printed for one queued entry: a missing node prints `null`. */
  function TokenOf(t: Tree): Token {
    if t.Nil? then NullToken else Value(t.val)
  }

  function Tokens(s: seq<Tree>): (r: seq<Token>)
    ensures |r| == |s| && forall i | 0 <= i < |s| :: r[i] == TokenOf(s[i])
  {
    seq(|s|, i requires 0 <= i < |s| => TokenOf(s[i]))
  }

  /** The two entries a queued entry adds to the queue: its children, or two missing nodes. */
  function Children(t: Tree): seq<Tree> {
    if t.Nil? then [Nil, Nil] else [t.left, t.right]
  }

  /** The next level's queue entries, in order, from one level's entries. */
  function Expand(s: seq<Tree>): seq<Tree>
    decreases |s|
  {
    if |s| == 0 then [] else Expand(s[..|s| - 1]) + Children(s[|s| - 1])
  }

  /** The queue at the start of round `k` of the printing loop: level `k` of the tree, missing nodes included. */
  function Frontier(t: Tree, k: nat): seq<Tree> {
    if k == 0 then [t] else Expand(Frontier(t, k - 1))
  }

  /** Some entry of `s` is a node. */
  predicate HasNode(s: seq<Tree>) {
    exists i | 0 <= i < |s| :: s[i].Node?
  }

  lemma ExpandStep(s: seq<Tree>, i: nat)
    requires i < |s|
    ensures Expand(s[..i + 1]) == Expand(s[..i]) + Children(s[i])
  {
    assert s[..i + 1][..i] == s[..i];
  }

  lemma {:induction false} ExpandAppend(a: seq<Tree>, b: seq<Tree>)
    ensures Expand(a + b) == Expand(a) + Expand(b)
    decreases |b|
  {
    if |b| > 0 {
      var b' := b[..|b| - 1];
      assert (a + b)[..|a + b| - 1] == a + b';
      ExpandAppend(a, b');
    } else {
      assert a + b == a;
    }
  }

  lemma {:induction false} ExpandNulls(n: nat)
    ensures Expand(seq(n, _ => Nil)) == seq(2 * n, _ => Nil)
  {
    if n > 0 {
      var s := seq(n, _ => Nil);
      assert s[..n - 1] == seq(n - 1, _ => Nil);
      ExpandNulls(n - 1);
      assert seq(2 * (n - 1), _ => Nil) + [Nil, Nil] == seq(2 * n, _ => Nil);
    }
  }

  /** Below an empty subtree the queue holds only missing nodes. */
  lemma {:induction false} FrontierNil(k: nat)
    ensures Frontier(Nil, k) == seq(Pow2(k), _ => Nil)
  {
    if k > 0 {
      FrontierNil(k - 1);
      ExpandNulls(Pow2(k - 1));
    } else {
      assert [Nil] == seq(1, _ => Nil);
    }
  }

  /** A node's level `k + 1` is its left subtree's level `k` followed by its right subtree's. */
  lemma {:induction false} FrontierNode(t: Tree, k: nat)
    requires t.Node?
    ensures Frontier(t, k + 1) == Frontier(t.left, k) + Frontier(t.right, k)
  {
    if k == 0 {
      assert [t][..0] == [];
      assert Expand([t]) == Expand([]) + Children(t);
    } else {
      var a, b := Frontier(t.left, k - 1), Frontier(t.right, k - 1);
      FrontierNode(t, k - 1);
      var f := Frontier(t, k);
      assert Frontier(t, k + 1) == Expand(f);
      assert f == a + b;
      ExpandAppend(a, b);
      assert Frontier(t.left, k) == Expand(a) && Frontier(t.right, k) == Expand(b);
    }
  }

  /** The queue's tokens at round `k` are level `k` as read from the tree's shape. */
  lemma {:induction false} FrontierTokens(t: Tree, k: nat)
    ensures Tokens(Frontier(t, k)) == Level(t, k)
    decreases k
  {
    if t.Nil? {
      FrontierNil(k);
      assert Tokens(seq(Pow2(k), _ => Nil)) == Nulls(Pow2(k));
    } else if k > 0 {
      var l, r := t.left, t.right;
      var a, b := Frontier(l, k - 1), Frontier(r, k - 1);
      FrontierSplit(t, k);
      FrontierTokens(l, k - 1);
      FrontierTokens(r, k - 1);
      TokensAppend(a, b);
      assert Level(t, k) == Level(l, k - 1) + Level(r, k - 1);
    }
  }

  lemma FrontierSplit(t: Tree, k: nat)
    requires t.Node? && k > 0
    ensures Frontier(t, k) == Frontier(t.left, k - 1) + Frontier(t.right, k - 1)
  {
    FrontierNode(t, k - 1);
  }

  lemma TokensAppend(a: seq<Tree>, b: seq<Tree>)
    ensures Tokens(a + b) == Tokens(a) + Tokens(b)
  {
  }

  /** Round `k`'s queue holds a node exactly when the tree has more than `k` levels. */
  lemma {:induction false} FrontierHasNode(t: Tree, k: nat)
    ensures HasNode(Frontier(t, k)) <==> k < Height(t)
    decreases k
  {
    match t
    case Nil =>
      FrontierNil(k);
    case Node(_, l, r) =>
      if k == 0 {
        assert Frontier(t, 0)[0].Node?;
      } else {
        var a, b := Frontier(l, k - 1), Frontier(r, k - 1);
        FrontierSplit(t, k);
        FrontierHasNode(l, k - 1);
        FrontierHasNode(r, k - 1);
        HasNodeAppend(a, b);
        var f := Frontier(t, k);
        assert HasNode(f) <==> HasNode(a) || HasNode(b);
      }
  }

  /**
   * `printTreeLevelOrder`: the empty tree prints `null`; otherwise a FIFO queue
   * starts with the root, and each round prints the whole current level,
   * queues two entries per printed one, and goes on only if a node on it has
   * a child. The printed tokens are exactly `Render(root)`.
   */
  method PrintLevelOrder(root: Tree) returns (out: seq<Token>)
    ensures out == Render(root)
  {
    if root.Nil? {
      return [NullToken];
    }
    var queue := [root];
    out := [];
    var hasMore := true;
    ghost var k := 0;
    while hasMore
      invariant k <= Height(root)
      invariant queue == Frontier(root, k)
      invariant out == Levels(root, k)
      invariant hasMore <==> k < Height(root)
      decreases Height(root) - k
    {
      ghost var level := queue;
      out, queue, hasMore := PrintLevel(queue, out);
      Round(root, k, level);
      k := k + 1;
    }
  }

  /** After round `k` the output holds one more level, the queue is the next level, and `hasMore` tells whether it holds a node. */
  lemma Round(t: Tree, k: nat, level: seq<Tree>)
    requires level == Frontier(t, k)
    ensures Levels(t, k + 1) == Levels(t, k) + Tokens(level)
    ensures Frontier(t, k + 1) == Expand(level)
    ensures HasNode(Expand(level)) <==> k + 1 < Height(t)
  {
    FrontierTokens(t, k);
    FrontierHasNode(t, k + 1);
  }

  /**
   * One round of `printTreeLevelOrder`'s outer loop: every entry of the
   * current level is polled and printed and its two entries are queued;
   * `hasMore` records whether a printed node has a child.
   */
  method PrintLevel(level: seq<Tree>, out0: seq<Token>) returns (out: seq<Token>, queue: seq<Tree>, hasMore: bool)
    ensures out == out0 + Tokens(level)
    ensures queue == Expand(level)
    ensures hasMore <==> HasNode(Expand(level))
  {
    queue := level;
    out := out0;
    hasMore := false;
    var size := |queue|;
    var i := 0;
    while i < size
      invariant i <= size == |level|
      invariant queue == level[i..] + Expand(level[..i])
      invariant out == out0 + Tokens(level[..i])
      invariant hasMore <==> HasNode(Expand(level[..i]))
    {
      assert queue[0] == level[i] && queue[1..] == level[i + 1..] + Expand(level[..i]);
      var node := queue[0];
      queue := queue[1..];
      out := out + [TokenOf(node)];
      queue := queue + Children(node);
      if node.Node? && (node.left.Node? || node.right.Node?) {
        hasMore := true;
      }
      LevelStep(level, i);
      i := i + 1;
    }
    assert level[..i] == level;
  }

  /** Polling entry `i` of a level extends the printed tokens, the queued entries and the `hasMore` flag by that entry's share. */
  lemma LevelStep(level: seq<Tree>, i: nat)
    requires i < |level|
    ensures Expand(level[..i + 1]) == Expand(level[..i]) + Children(level[i])
    ensures Tokens(level[..i + 1]) == Tokens(level[..i]) + [TokenOf(level[i])]
    ensures HasNode(Expand(level[..i + 1])) <==>
      HasNode(Expand(level[..i])) || (level[i].Node? && (level[i].left.Node? || level[i].right.Node?))
  {
    ExpandStep(level, i);
    HasNodeAppend(Expand(level[..i]), Children(level[i]));
    var c := Children(level[i]);
    assert HasNode(c) ==> c[0].Node? || c[1].Node?;
    assert c[0].Node? ==> HasNode(c);
    assert c[1].Node? ==> HasNode(c);
  }

  lemma HasNodeAppend(a: seq<Tree>, b: seq<Tree>)
    ensures HasNode(a + b) <==> HasNode(a) || HasNode(b)
  {
    if HasNode(a + b) {
      var i :| 0 <= i < |a + b| && (a + b)[i].Node?;
      assert i < |a| ==> a[i].Node?;
      assert i >= |a| ==> b[i - |a|].Node?;
    }
    if HasNode(a) {
      var i :| 0 <= i < |a| && a[i].Node?;
      assert (a + b)[i].Node?;
    }
    if HasNode(b) {
      var i :| 0 <= i < |b| && b[i].Node?;
      assert (a + b)[|a| + i].Node?;
    }
  }
}
