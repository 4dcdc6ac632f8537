/**
 * `findSecondHighest` of binary-search-tree.js, whose answer is positional:
 * the in-order predecessor of the rightmost node.
 */
module SecondHighest {
  import opened Wrappers
  import opened Trees
  import opened Traversals

  /** The second-to-last value of the in-order sequence; none for fewer than two nodes. */
  function SecondInOrderFromEnd(t: Tree): Option<int>
  {
    var s := InOrder(t);
    if |s| < 2 then None else Some(s[|s| - 2])
  }

  /** The node of the right spine whose right child is the rightmost node. */
  function SpineParent(t: Tree): (p: Tree)
    requires t.Node? && t.right.Node?
    ensures p.Node? && p.right.Node? && p.right.right == Nil
    ensures p.right == Rightmost(t)
    decreases t
  {
    if t.right.right == Nil then t else SpineParent(t.right)
  }

  /** The rightmost node is a subtree of the tree it ends. */
  lemma {:induction false} RightmostIsSubtree(t: Tree)
    requires t.Node?
    ensures IsSubtree(Rightmost(t), t)
    decreases t
  {
    if t.right != Nil { RightmostIsSubtree(t.right); }
  }

  /**
   * On the right spine, a node's right child equals the rightmost node exactly
   * when that child is the last spine node: any earlier right child is a larger
   * subtree. So the structural test of the walk succeeds only at `SpineParent`,
   * the one node whose right link is, by identity, the rightmost node.
   */
  lemma SpineTestExact(t: Tree)
    requires t.Node? && t.right.Node?
    ensures t.right == Rightmost(t) <==> t.right.right == Nil
    ensures t.right == Rightmost(t) <==> t == SpineParent(t)
  {
    if t.right.right != Nil {
      RightmostIsSubtree(t.right.right);
      SubtreeSize(Rightmost(t), t.right.right);
      assert Size(t.right.right) < Size(t.right);
    }
  }

  /** The in-order sequence of a present subtree ends with that of its rightmost node. */
  lemma {:induction false} InOrderEndsAtRightmost(t: Tree) returns (before: seq<int>)
    requires t.Node?
    ensures InOrder(t) == before + InOrder(Rightmost(t).left) + [Rightmost(t).val]
  {
    var Node(l, v, r) := t;
    if r == Nil {
      before := [];
    } else {
      var b := InOrderEndsAtRightmost(r);
      before := InOrder(l) + [v] + b;
    }
  }

  /** When the rightmost node has a left subtree, the answer is that subtree's rightmost value. */
  lemma LeftOfMaximum(t: Tree)
    requires t.Node? && Rightmost(t).left.Node?
    ensures SecondInOrderFromEnd(t) == Some(Rightmost(Rightmost(t).left).val)
  {
    var m := Rightmost(t);
    var before := InOrderEndsAtRightmost(t);
    var inner := InOrderEndsAtRightmost(m.left);
    var s := InOrder(t);
    assert s == (before + inner + InOrder(Rightmost(m.left).left)) + [Rightmost(m.left).val] + [m.val];
  }

  /** Otherwise the answer is the value of the rightmost node's parent on the right spine. */
  lemma {:induction false} ParentOfMaximum(t: Tree)
    requires t.Node? && t.right.Node? && Rightmost(t).left == Nil
    ensures SecondInOrderFromEnd(t) == Some(SpineParent(t).val)
    decreases t
  {
    var Node(l, v, r) := t;
    if r.right == Nil {
      assert Rightmost(t) == r;
      assert InOrder(r) == [r.val];
      assert InOrder(t) == InOrder(l) + [v] + [r.val];
    } else {
      ParentOfMaximum(r);
      InOrderContents(r);
      assert InOrder(t) == (InOrder(l) + [v]) + InOrder(r);
    }
  }

  /**
   * On a tree that keeps the ordering invariant the answer is the second
   * highest value: it exists exactly when there are two nodes, and it is a
   * greatest value once one occurrence of the maximum is set aside.
   */
  lemma SecondHighestIsSecondLargest(t: Tree)
    requires IsBst(t)
    ensures SecondInOrderFromEnd(t).Some? <==> Size(t) >= 2
    ensures SecondInOrderFromEnd(t).Some? ==>
      var rest := Values(t) - multiset{Rightmost(t).val};
      SecondInOrderFromEnd(t).value in rest && forall y | y in rest :: y <= SecondInOrderFromEnd(t).value
  {
    var s := InOrder(t);
    assert |s| == Size(t) && multiset(s) == Values(t) by {
      InOrderContents(t);
    }
    if |s| >= 2 {
      assert SecondInOrderFromEnd(t) == Some(s[|s| - 2]);
      assert s[|s| - 1] == Rightmost(t).val by {
        var before := InOrderEndsAtRightmost(t);
      }
      assert Sorted(s) by {
        InOrderSorted(t);
      }
      SortedPenultimate(s, Values(t) - multiset{Rightmost(t).val});
    }
  }

  /** In a sorted run the next-to-last element is a greatest one once the last is set aside. */
  lemma SortedPenultimate(s: seq<int>, rest: multiset<int>)
    requires Sorted(s) && |s| >= 2 && rest == multiset(s) - multiset{s[|s| - 1]}
    ensures s[|s| - 2] in rest
    ensures forall y | y in rest :: y <= s[|s| - 2]
  {
    var n := |s|;
    var init := s[..n - 1];
    assert s == init + [s[n - 1]];
    assert rest == multiset(init);
    assert init[n - 2] == s[n - 2];
    forall y | y in multiset(init) ensures y <= s[n - 2] {
      var i :| 0 <= i < |init| && init[i] == y;
      assert s[i] == y;
    }
  }
}
