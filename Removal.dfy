/**
 * `remove` of binary-search-tree.js: the recursive `removeNode`, written in
 * "return the new subtree" style, and its helper `findMin`.
 */
module Removal {
  import opened Trees

  /**
   * `removeNode(val, node)`: descend by comparison; at a node holding `x`, a
   * leaf is dropped, a node with one child is replaced by that child, and a node
   * with two children takes the value of the leftmost node of its right subtree,
   * which is then removed from that subtree.
   */
  function RemoveNode(x: int, t: Tree): Tree
    decreases t
  {
    match t
    case Nil => Nil
    case Node(l, v, r) =>
      if x < v then Node(RemoveNode(x, l), v, r)
      else if x > v then Node(l, v, RemoveNode(x, r))
      else if l == Nil && r == Nil then Nil
      else if l == Nil then r
      else if r == Nil then l
      else
        var successor := Leftmost(r).val;
        Node(l, successor, RemoveNode(successor, r))
  }

  /** `findMin`: follow left links from a present node to the last one. */
  method FindMin(node: Tree) returns (m: Tree)
    requires node.Node?
    ensures m == Leftmost(node)
  {
    m := node;
    while m.left != Nil
      invariant m.Node? && Leftmost(m) == Leftmost(node)
      decreases m
    {
      m := m.left;
    }
  }

  /** A value that no node holds leaves the tree as it was, whatever its shape. */
  lemma {:induction false} RemoveAbsent(x: int, t: Tree)
    requires x !in Values(t)
    ensures RemoveNode(x, t) == t
  {
    match t
    case Nil =>
    case Node(l, v, r) =>
      RemoveAbsent(x, l);
      RemoveAbsent(x, r);
  }

  /**
   * On a tree that keeps the ordering invariant, removal takes exactly one
   * occurrence of `x` out of the values (none when there is none) and keeps the invariant.
   */
  lemma {:induction false} RemoveSpec(x: int, t: Tree)
    requires IsBst(t)
    ensures Values(RemoveNode(x, t)) == Values(t) - multiset{x}
    ensures IsBst(RemoveNode(x, t))
    decreases t, 1
  {
    match t
    case Nil =>
    case Node(l, v, r) =>
      if x < v {
        RemoveOnLeft(x, t);
      } else if x > v {
        RemoveOnRight(x, t);
      } else if l != Nil && r != Nil {
        RemoveWithTwoChildren(t);
      }
  }

  lemma {:induction false} RemoveOnLeft(x: int, t: Tree)
    requires IsBst(t) && t.Node? && x < t.val
    ensures Values(RemoveNode(x, t)) == Values(t) - multiset{x}
    ensures IsBst(RemoveNode(x, t))
    decreases t, 0
  {
    var Node(l, v, r) := t;
    RemoveSpec(x, l);
    var l' := RemoveNode(x, l);
    assert RemoveNode(x, t) == Node(l', v, r);
    AtLeastExcludes(r, v, x);
    DropFromLeft(Values(l), multiset{v}, Values(r), x);
    BoundsOfFewerValues(l', l, v);
  }

  lemma {:induction false} RemoveOnRight(x: int, t: Tree)
    requires IsBst(t) && t.Node? && x > t.val
    ensures Values(RemoveNode(x, t)) == Values(t) - multiset{x}
    ensures IsBst(RemoveNode(x, t))
    decreases t, 0
  {
    var Node(l, v, r) := t;
    RemoveSpec(x, r);
    var r' := RemoveNode(x, r);
    assert RemoveNode(x, t) == Node(l, v, r');
    BelowExcludes(l, v, x);
    DropFromRight(Values(l), multiset{v}, Values(r), x);
    BoundsOfFewerValues(r', r, v);
  }

  lemma {:induction false} RemoveWithTwoChildren(t: Tree)
    requires IsBst(t) && t.Node? && t.left.Node? && t.right.Node?
    ensures Values(RemoveNode(t.val, t)) == Values(t) - multiset{t.val}
    ensures IsBst(RemoveNode(t.val, t))
    decreases t, 0
  {
    var Node(l, v, r) := t;
    var m := Leftmost(r).val;
    LeftmostIsMinimum(r);
    RemoveSpec(m, r);
    var r' := RemoveNode(m, r);
    assert RemoveNode(v, t) == Node(l, m, r');
    ReplaceByMember(Values(l), v, m, Values(r));
    BoundsOfFewerValues(r', r, m);
    AtLeastMember(r, v, m);
    BelowWeaker(l, v, m);
  }

  lemma DropFromLeft(a: multiset<int>, b: multiset<int>, c: multiset<int>, x: int)
    requires x !in b && x !in c
    ensures (a - multiset{x}) + b + c == (a + b + c) - multiset{x}
  {
  }

  lemma DropFromRight(a: multiset<int>, b: multiset<int>, c: multiset<int>, x: int)
    requires x !in a && x !in b
    ensures a + b + (c - multiset{x}) == (a + b + c) - multiset{x}
  {
  }

  lemma ReplaceByMember(a: multiset<int>, v: int, m: int, c: multiset<int>)
    requires m in c
    ensures a + multiset{m} + (c - multiset{m}) == (a + multiset{v} + c) - multiset{v}
  {
  }

  /** The subtree without its leftmost node, whose right child takes its place. */
  function RemoveLeftmost(t: Tree): Tree
    requires t.Node?
  {
    if t.left == Nil then t.right else t.(left := RemoveLeftmost(t.left))
  }

  /**
   * The successor removal in the two-children case never reaches another
   * two-children node: removing the least value from an ordered subtree splices
   * out its leftmost node, which has no left child.
   */
  lemma {:induction false} SuccessorRemovalSplices(t: Tree)
    requires t.Node? && IsBst(t)
    ensures RemoveNode(Leftmost(t).val, t) == RemoveLeftmost(t)
  {
    var Node(l, v, r) := t;
    if l != Nil {
      LeftmostIsMinimum(l);
      BelowMember(l, v, Leftmost(l).val);
      SuccessorRemovalSplices(l);
    }
  }
}
