/**
 * The two lookups of binary-search-tree.js. `find` searches with an explicit
 * stack and ignores the ordering; `findRecursively` (its inner `search`) follows
 * the ordering. A found node is returned as the subtree rooted at it.
 */
module Lookup {
  import opened Wrappers
  import opened Trees
  import opened Traversals

  /** The first node, in pre-order, whose value is `x`. */
  function FirstPreOrder(t: Tree, x: int): Option<Tree>
  {
    match t
    case Nil => None
    case Node(l, v, r) =>
      if v == x then Some(t)
      else
        var inLeft := FirstPreOrder(l, x);
        if inLeft.Some? then inLeft else FirstPreOrder(r, x)
  }

  /**
   * What the search of a stack of pending subtrees finds: the top of the stack
   * (its last element) is searched first, then the rest of the stack.
   */
  function FirstInStack(stack: seq<Tree>, x: int): Option<Tree>
    decreases |stack|
  {
    if stack == [] then None
    else
      var top := FirstPreOrder(stack[|stack| - 1], x);
      if top.Some? then top else FirstInStack(stack[..|stack| - 1], x)
  }

  /** What `find` pushes after popping a node: its right child, then its left, when present. */
  function Pushed(node: Tree): seq<Tree>
  {
    match node
    case Nil => []
    case Node(l, _, r) => Present(r) + Present(l)
  }

  lemma PushPresent(stack: seq<Tree>, t: Tree, x: int)
    ensures FirstInStack(stack + Present(t), x) ==
      if FirstPreOrder(t, x).Some? then FirstPreOrder(t, x) else FirstInStack(stack, x)
  {
    if t.Node? {
      assert (stack + [t])[..|stack|] == stack;
    } else {
      assert stack + [] == stack;
    }
  }

  /**
   * Popping a node that does not hold `x` and pushing its children leaves the
   * outcome of the search unchanged and the pending nodes fewer.
   */
  lemma StackStep(rest: seq<Tree>, node: Tree, x: int)
    requires node.Node? && node.val != x
    ensures FirstInStack(rest + Pushed(node), x) == FirstInStack(rest + [node], x)
    ensures ForestSize(rest + Pushed(node)) < ForestSize(rest + [node])
  {
    var Node(l, _, r) := node;
    assert (rest + [node])[..|rest|] == rest;
    assert rest + Pushed(node) == (rest + Present(r)) + Present(l);
    PushPresent(rest, r, x);
    PushPresent(rest + Present(r), l, x);
    ForestAppend(rest, Present(r));
    ForestAppend(rest + Present(r), Present(l));
    ForestAppend(rest, [node]);
    PresentSize(l);
    PresentSize(r);
    PresentSize(node);
  }

  /** One step of `find` on a stack of present nodes, popping its top. */
  lemma StackTop(stack: seq<Tree>, x: int)
    requires stack != [] && AllPresent(stack)
    ensures stack[|stack| - 1].Node?
    ensures stack[|stack| - 1].val == x ==> FirstInStack(stack, x) == Some(stack[|stack| - 1])
    ensures AllPresent(stack[..|stack| - 1] + Pushed(stack[|stack| - 1]))
    ensures stack[|stack| - 1].val != x ==>
      FirstInStack(stack[..|stack| - 1] + Pushed(stack[|stack| - 1]), x) == FirstInStack(stack, x) &&
      ForestSize(stack[..|stack| - 1] + Pushed(stack[|stack| - 1])) < ForestSize(stack)
  {
    var node, rest := stack[|stack| - 1], stack[..|stack| - 1];
    assert node.Node?;
    assert stack == rest + [node];
    if node.val != x {
      StackStep(rest, node, x);
    }
  }

  /** A node is found exactly when some node holds `x`, and it is a node of the tree holding `x`. */
  lemma {:induction false} FirstPreOrderSpec(t: Tree, x: int)
    ensures FirstPreOrder(t, x).Some? <==> x in Values(t)
    ensures FirstPreOrder(t, x).Some? ==>
      FirstPreOrder(t, x).value.Node? && FirstPreOrder(t, x).value.val == x && IsSubtree(FirstPreOrder(t, x).value, t)
  {
    match t
    case Nil =>
    case Node(l, v, r) =>
      FirstPreOrderSpec(l, x);
      FirstPreOrderSpec(r, x);
  }

  /**
   * The node found is the first with value `x` in pre-order: the pre-order
   * sequence is a prefix without `x`, then the found node's own subtree, then the rest.
   */
  lemma {:induction false} FirstPreOrderIsFirst(t: Tree, x: int, found: Tree) returns (before: seq<int>, after: seq<int>)
    requires FirstPreOrder(t, x) == Some(found)
    ensures PreOrder(t) == before + PreOrder(found) + after
    ensures x !in before
    decreases t, 1
  {
    if t.val == x {
      before, after := [], [];
    } else if FirstPreOrder(t.left, x).Some? {
      before, after := FoundOnLeft(t, x, found);
    } else {
      before, after := FoundOnRight(t, x, found);
    }
  }

  lemma {:induction false} FoundOnLeft(t: Tree, x: int, found: Tree) returns (before: seq<int>, after: seq<int>)
    requires t.Node? && t.val != x && FirstPreOrder(t.left, x) == Some(found)
    ensures PreOrder(t) == before + PreOrder(found) + after
    ensures x !in before
    decreases t, 0
  {
    var Node(l, v, r) := t;
    var b, a := FirstPreOrderIsFirst(l, x, found);
    before, after := [v] + b, a + PreOrder(r);
    JoinPieces([v], b, PreOrder(found), a, PreOrder(r));
  }

  lemma {:induction false} FoundOnRight(t: Tree, x: int, found: Tree) returns (before: seq<int>, after: seq<int>)
    requires t.Node? && t.val != x && FirstPreOrder(t.left, x).None? && FirstPreOrder(t.right, x) == Some(found)
    ensures PreOrder(t) == before + PreOrder(found) + after
    ensures x !in before
    decreases t, 0
  {
    var Node(l, v, r) := t;
    NotFoundNotListed(l, x);
    var b, a := FirstPreOrderIsFirst(r, x, found);
    before, after := [v] + PreOrder(l) + b, a;
    JoinPieces([v] + PreOrder(l), b, PreOrder(found), a, []);
    assert x !in [v] + PreOrder(l);
  }

  lemma NotFoundNotListed(t: Tree, x: int)
    requires FirstPreOrder(t, x).None?
    ensures x !in PreOrder(t)
  {
    FirstPreOrderSpec(t, x);
    PreOrderContents(t);
    assert x !in multiset(PreOrder(t));
  }

  lemma JoinPieces(p: seq<int>, b: seq<int>, m: seq<int>, a: seq<int>, q: seq<int>)
    ensures p + (b + m + a) + q == (p + b) + m + (a + q)
  {
  }

  /**
   * `search`: if the value is not the node's, descend right when it is greater
   * and there is a right child; otherwise descend left when there is a left
   * child (so a greater value with no right child falls through to the left).
   * The source calls it only on a present node.
   */
  function Search(node: Tree, x: int): Option<Tree>
    requires node.Node?
  {
    if x == node.val then Some(node)
    else if x > node.val && node.right.Node? then Search(node.right, x)
    else if node.left.Node? then Search(node.left, x)
    else None
  }

  /** Whatever the shape of the tree, `search` only returns a node of the tree that holds `x`. */
  lemma {:induction false} SearchSound(t: Tree, x: int)
    requires t.Node?
    ensures Search(t, x).Some? ==> Search(t, x).value.Node? && Search(t, x).value.val == x && IsSubtree(Search(t, x).value, t)
    ensures Search(t, x).Some? ==> x in Values(t)
  {
    if x != t.val {
      if x > t.val && t.right.Node? {
        SearchSound(t.right, x);
      } else if t.left.Node? {
        SearchSound(t.left, x);
      }
    }
  }

  /** On a tree that keeps the ordering invariant `search` finds `x` exactly when some node holds it. */
  lemma {:induction false} SearchComplete(t: Tree, x: int)
    requires t.Node? && IsBst(t)
    ensures Search(t, x).Some? <==> x in Values(t)
  {
    SearchSound(t, x);
    var Node(l, v, r) := t;
    if x != v {
      if x > v {
        BelowExcludes(l, v, x);
      } else {
        AtLeastExcludes(r, v, x);
      }
      if x > v && r.Node? {
        SearchComplete(r, x);
      } else if l.Node? {
        SearchComplete(l, x);
      }
    }
  }
}
