/**
 * The `BinarySearchTree` class of binary-search-tree.js. Its one field, `root`,
 * holds the whole tree as a value; each method that the source writes as a
 * mutation of nodes reassigns `root` to the updated tree.
 */
module SearchTree {
  import opened Wrappers
  import opened Trees
  import opened Traversals
  import opened Insertion
  import opened Lookup
  import opened Removal
  import opened Balance
  import opened SecondHighest

  class BinarySearchTree {
    var root: Tree

    /** `constructor(root = null)`: an empty tree, or one seeded with an existing root. */
    constructor (root: Tree := Nil)
      ensures this.root == root
    {
      this.root := root;
    }

    /**
     * `insert`: an empty tree gets the value as its root; otherwise walk down
     * from the root, left on `<` and right otherwise, until the link to follow
     * is absent, and attach a new leaf there.
     */
    method Insert(val: int)
      modifies this
      ensures root == InsertTree(old(root), val)
      ensures Values(root) == Values(old(root)) + multiset{val}
      ensures IsBst(old(root)) ==> IsBst(root)
    {
      InsertTreeSpec(root, val);
      if IsBst(root) { InsertTreeOrdered(root, val); }
      if root == Nil {
        root := Node(Nil, val, Nil);
        return;
      }
      var cur := root;
      var path: seq<Frame> := [];
      var added := false;
      while !added
        invariant cur.Node?
        invariant !added ==> root == old(root) && Plug(path, InsertTree(cur, val)) == InsertTree(old(root), val)
        invariant added ==> root == InsertTree(old(root), val)
        decreases if added then 0 else Size(cur)
      {
        if val < cur.val {
          if cur.left == Nil {
            cur := cur.(left := Node(Nil, val, Nil));
            root := Plug(path, cur);
            added := true;
          } else {
            PlugExtend(path, WentLeft(cur.val, cur.right), InsertTree(cur.left, val));
          }
          path := path + [WentLeft(cur.val, cur.right)];
          cur := cur.left;
        } else {
          if cur.right == Nil {
            cur := cur.(right := Node(Nil, val, Nil));
            root := Plug(path, cur);
            added := true;
          } else {
            PlugExtend(path, WentRight(cur.left, cur.val), InsertTree(cur.right, val));
          }
          path := path + [WentRight(cur.left, cur.val)];
          cur := cur.right;
        }
      }
    }

    /**
     * `insertRecursively`: an empty tree gets the value as its root; otherwise
     * `addNode` runs from the root, so a value equal to a node met on the way
     * down is dropped.
     */
    method InsertRecursively(val: int)
      modifies this
      ensures old(root) == Nil ==> root == Node(Nil, val, Nil)
      ensures old(root) != Nil ==> root == AddNode(old(root), val)
      ensures old(root) != Nil && IsBst(old(root)) ==>
        root == if val in Values(old(root)) then old(root) else InsertTree(old(root), val)
    {
      if root == Nil {
        root := Node(Nil, val, Nil);
        return;
      }
      if IsBst(root) { AddNodeOrdered(root, val); }
      root := AddNode(root, val);
    }

    /**
     * `find`: pop a node from a stack seeded with the root, return it if it
     * holds the value, else push its right and then its left child.
     */
    method Find(val: int) returns (found: Option<Tree>)
      ensures found == FirstPreOrder(root, val)
      ensures found.Some? <==> val in Values(root)
      ensures found.Some? ==> found.value.Node? && found.value.val == val && IsSubtree(found.value, root)
    {
      FirstPreOrderSpec(root, val);
      if root == Nil {
        return None;
      }
      var stack := [root];
      while |stack| > 0
        invariant AllPresent(stack)
        invariant FirstInStack(stack, val) == FirstPreOrder(root, val)
        decreases ForestSize(stack)
      {
        StackTop(stack, val);
        var node := stack[|stack| - 1];
        ghost var next := stack[..|stack| - 1] + Pushed(node);
        stack := stack[..|stack| - 1];
        if node.val == val {
          return Some(node);
        }
        ghost var rest := stack;
        if node.right.Node? {
          stack := stack + [node.right];
        }
        assert stack == rest + Present(node.right);
        if node.left.Node? {
          stack := stack + [node.left];
        }
        assert stack == next by {
          assert stack == (rest + Present(node.right)) + Present(node.left);
        }
      }
      return None;
    }

    /** `findRecursively`: nothing in an empty tree, else `search` from the root. */
    method FindRecursively(val: int) returns (found: Option<Tree>)
      ensures found == if root == Nil then None else Search(root, val)
      ensures found.Some? ==> found.value.Node? && found.value.val == val && IsSubtree(found.value, root)
      ensures IsBst(root) ==> (found.Some? <==> val in Values(root))
    {
      if root == Nil {
        return None;
      }
      SearchSound(root, val);
      if IsBst(root) { SearchComplete(root, val); }
      found := Search(root, val);
    }

    method DfsPreOrder() returns (result: seq<int>)
      ensures result == PreOrder(root)
    {
      result := TraversePreOrder(root, []);
    }

    method DfsInOrder() returns (result: seq<int>)
      ensures result == InOrder(root)
      ensures IsBst(root) ==> Sorted(result)
    {
      result := TraverseInOrder(root, []);
      if IsBst(root) { InOrderSorted(root); }
    }

    method DfsPostOrder() returns (result: seq<int>)
      ensures result == PostOrder(root)
    {
      result := TraversePostOrder(root, []);
    }

    /**
     * `bfs`: a FIFO queue seeded with the root (when present); each node taken
     * from the front is visited and its present children are enqueued, left first.
     */
    method Bfs() returns (result: seq<int>)
      ensures result == LevelOrder([root])
    {
      result := [];
      var queue: seq<Tree> := [];
      if root.Node? {
        queue := queue + [root];
      }
      assert queue == Present(root);
      ghost var goal := QueueOrder(queue);
      while |queue| > 0
        invariant AllPresent(queue)
        invariant result + QueueOrder(queue) == goal
        decreases ForestSize(queue)
      {
        QueueFront(queue);
        var node := queue[0];
        ghost var next := queue[1..] + Children(node);
        assert (result + [node.val]) + QueueOrder(next) == goal by {
          assert result + ([node.val] + QueueOrder(next)) == goal;
        }
        queue := queue[1..];
        ghost var rest := queue;
        result := result + [node.val];
        if node.left.Node? {
          queue := queue + [node.left];
        }
        assert queue == rest + Present(node.left);
        if node.right.Node? {
          queue := queue + [node.right];
        }
        assert queue == next by {
          assert queue == (rest + Present(node.left)) + Present(node.right);
        }
      }
      QueueOrderOfTree(root);
    }

    /** `remove`: `removeNode` from the root; the source returns nothing. */
    method Remove(val: int)
      modifies this
      ensures root == RemoveNode(val, old(root))
      ensures val !in Values(old(root)) ==> root == old(root)
      ensures IsBst(old(root)) ==> IsBst(root) && Values(root) == Values(old(root)) - multiset{val}
    {
      if val !in Values(root) { RemoveAbsent(val, root); }
      if IsBst(root) { RemoveSpec(val, root); }
      root := RemoveNode(val, root);
    }

    /** `isBalanced`: the sentinel pass did not report an unbalanced node. */
    method IsBalanced() returns (balanced: bool)
      ensures balanced == Balanced(root)
    {
      GetHeightSpec(root);
      balanced := GetHeight(root) != -1;
    }

    /**
     * `findSecondHighest`: none for fewer than two nodes; otherwise walk the
     * right spine to the rightmost node, then take the rightmost node of its left
     * subtree if it has one, else the spine node whose right child it is.
     */
    method FindSecondHighest() returns (second: Option<int>)
      ensures second == SecondInOrderFromEnd(root)
    {
      InOrderContents(root);
      if root == Nil || (root.left == Nil && root.right == Nil) {
        return None;
      }
      var cur := root;
      while cur.right.Node?
        invariant cur.Node? && Rightmost(cur) == Rightmost(root)
        decreases cur
      {
        cur := cur.right;
      }
      if cur.left.Node? {
        LeftOfMaximum(root);
        var m := cur;
        cur := cur.left;
        while cur.right.Node?
          invariant cur.Node? && Rightmost(cur) == Rightmost(m.left)
          decreases cur
        {
          cur := cur.right;
        }
        return Some(cur.val);
      }
      ParentOfMaximum(root);
      var parent := root;
      while parent.Node?
        invariant parent.Node? && parent.right.Node? && SpineParent(parent) == SpineParent(root)
        invariant Rightmost(parent) == cur
        decreases parent
      {
        SpineTestExact(parent);
        if parent.right == cur {
          assert parent == SpineParent(root);
          return Some(parent.val);
        }
        parent := parent.right;
      }
      assert false;
      return None;
    }
  }

  /**
   * A session on a tree made with no argument: inserting 5, 3, 8, 1, 4, 7, 9
   * one by one gives the sorted in-order walk and 8 as the second highest.
   */
  method SampleSession() returns (inOrder: seq<int>, second: Option<int>)
    ensures inOrder == [1, 3, 4, 5, 7, 8, 9]
    ensures second == Some(8)
  {
    var tree := new BinarySearchTree();
    assert tree.root == Nil;
    tree.Insert(5);
    tree.Insert(3);
    tree.Insert(8);
    tree.Insert(1);
    tree.Insert(4);
    tree.Insert(7);
    tree.Insert(9);
    assert tree.root == Node(Node(Node(Nil, 1, Nil), 3, Node(Nil, 4, Nil)), 5, Node(Node(Nil, 7, Nil), 8, Node(Nil, 9, Nil)));
    inOrder := tree.DfsInOrder();
    second := tree.FindSecondHighest();
  }
}
