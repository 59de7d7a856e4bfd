/**
 * `isAllEven` and `deleteTree` of binary-tree-deletion/EvenSubtreePruner.java:
 * a binary tree of ints loses every subtree whose values are all even.
 *
 * The Java routine prunes in place and hands back the same root; here the
 * tree is an immutable datatype and pruning builds the surviving tree.
 */
module EvenSubtree {
  import opened Wrappers

  datatype Tree = Nil | Node(val: int, left: Tree, right: Tree)

  /**
   * `isAllEven`: every value in the tree is even. Java's `%` truncates toward
   * zero and Dafny's is Euclidean, but both leave a remainder of zero exactly
   * for the even ints, so `% 2 != 0` means the same in both.
   */
  predicate IsAllEven(t: Tree) {
    match t
    case Nil => true
    case Node(v, l, r) => v % 2 == 0 && IsAllEven(l) && IsAllEven(r)
  }

  /** Some value in the tree is odd (an independent statement of `!IsAllEven`). */
  ghost predicate HasOdd(t: Tree) {
    exists p :: At(t, p).Some? && At(t, p).value % 2 != 0
  }

  /** No subtree left in `t` is all even: every node roots a subtree holding an odd value. */
  predicate Pruned(t: Tree) {
    match t
    case Nil => true
    case Node(_, l, r) => !IsAllEven(t) && Pruned(l) && Pruned(r)
  }

  /**
   * The subtree reached from the root by the path `p` (`false` goes left,
   * `true` goes right); `Nil` once the path leaves the tree.
   */
  function Sub(t: Tree, p: seq<bool>): Tree
    decreases |p|
  {
    if |p| == 0 || t.Nil? then t
    else Sub(if p[0] then t.right else t.left, p[1..])
  }

  /** The value at the end of path `p`, if a node is there. */
  function At(t: Tree, p: seq<bool>): Option<int> {
    match Sub(t, p)
    case Nil => None
    case Node(v, _, _) => Some(v)
  }

  /**
   * `deleteTree`: an empty or all-even tree becomes empty; otherwise the root
   * stays and both subtrees are pruned in turn.
   */
  function DeleteTree(t: Tree): (r: Tree)
    ensures r == Nil <==> IsAllEven(t)
    ensures Pruned(r)
  {
    match t
    case Nil => Nil
    case Node(v, l, r) =>
      if IsAllEven(t) then Nil else Node(v, DeleteTree(l), DeleteTree(r))
  }

  /** A tree is all even exactly when no path leads to an odd value. */
  lemma {:induction false} AllEvenIffNoOdd(t: Tree)
    ensures IsAllEven(t) <==> !HasOdd(t)
  {
    match t
    case Nil =>
      assert forall p :: At(t, p) == None;
    case Node(v, l, r) =>
      AllEvenIffNoOdd(l);
      AllEvenIffNoOdd(r);
      if HasOdd(t) {
        var p :| At(t, p).Some? && At(t, p).value % 2 != 0;
        if |p| > 0 {
          var child := if p[0] then r else l;
          assert At(t, p) == At(child, p[1..]);
          assert HasOdd(child);
        }
      }
      if !IsAllEven(t) {
        if v % 2 != 0 {
          assert At(t, []) == Some(v);
        } else if !IsAllEven(l) {
          var p :| At(l, p).Some? && At(l, p).value % 2 != 0;
          assert At(t, [false] + p) == At(l, p) by {
            assert ([false] + p)[1..] == p;
          }
        } else {
          var p :| At(r, p).Some? && At(r, p).value % 2 != 0;
          assert At(t, [true] + p) == At(r, p) by {
            assert ([true] + p)[1..] == p;
          }
        }
      }
  }

  /** Below an all-even subtree every subtree is all even. */
  lemma {:induction false} AllEvenBelow(t: Tree, p: seq<bool>)
    requires IsAllEven(t)
    ensures IsAllEven(Sub(t, p))
    decreases |p|
  {
    if |p| > 0 && t.Node? {
      AllEvenBelow(if p[0] then t.right else t.left, p[1..]);
    }
  }

  /**
   * What survives pruning, path by path: the node at `p` stays, with its
   * value, exactly when the subtree it roots holds an odd value. So every
   * odd-valued node survives where it was, and nothing appears that was not
   * there.
   */
  lemma {:induction false} DeleteTreeAt(t: Tree, p: seq<bool>)
    ensures At(DeleteTree(t), p) == if IsAllEven(Sub(t, p)) then None else At(t, p)
    decreases |p|
  {
    match t
    case Nil =>
    case Node(v, l, r) =>
      if |p| > 0 {
        if IsAllEven(t) {
          AllEvenBelow(t, p);
        } else {
          DeleteTreeAt(if p[0] then r else l, p[1..]);
        }
      }
  }

  /** An odd value is never pruned: it stays at its path. */
  lemma OddSurvives(t: Tree, p: seq<bool>)
    requires At(t, p).Some? && At(t, p).value % 2 != 0
    ensures At(DeleteTree(t), p) == At(t, p)
  {
    DeleteTreeAt(t, p);
  }

  /** A pruned tree has nothing left to prune. */
  lemma {:induction false} PrunedFixed(t: Tree)
    requires Pruned(t)
    ensures DeleteTree(t) == t
  {
    match t
    case Nil =>
    case Node(_, l, r) =>
      PrunedFixed(l);
      PrunedFixed(r);
  }

  /** `deleteTree` is idempotent. */
  lemma DeleteTreeIdempotent(t: Tree)
    ensures DeleteTree(DeleteTree(t)) == DeleteTree(t)
  {
    PrunedFixed(DeleteTree(t));
  }
}
