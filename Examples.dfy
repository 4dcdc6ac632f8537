/**
 * Worked instances on the tree that inserting 5, 3, 8, 1, 4, 7, 9 builds.
 */
module Examples {
  import opened Wrappers
  import opened Trees
  import opened Traversals
  import opened Insertion
  import opened Lookup
  import opened Removal
  import opened Balance
  import opened SecondHighest

  function Leaf(v: int): Tree
  {
    Node(Nil, v, Nil)
  }

  /** The tree built from 5, 3, 8, 1, 4, 7, 9. */
  function Sample(): Tree
  {
    Node(Node(Leaf(1), 3, Leaf(4)), 5, Node(Leaf(7), 8, Leaf(9)))
  }

  lemma SampleBuilt()
    ensures BuildIteratively([5, 3, 8, 1, 4, 7, 9]) == Sample()
  {
    var xs := [5, 3, 8, 1, 4, 7, 9];
    assert [5][..0] == [];
    assert BuildIteratively([5]) == Leaf(5);
    assert [5, 3][..1] == [5];
    assert BuildIteratively([5, 3]) == Node(Leaf(3), 5, Nil);
    assert [5, 3, 8][..2] == [5, 3];
    assert BuildIteratively([5, 3, 8]) == Node(Leaf(3), 5, Leaf(8));
    assert [5, 3, 8, 1][..3] == [5, 3, 8];
    assert BuildIteratively([5, 3, 8, 1]) == Node(Node(Leaf(1), 3, Nil), 5, Leaf(8));
    assert [5, 3, 8, 1, 4][..4] == [5, 3, 8, 1];
    assert BuildIteratively([5, 3, 8, 1, 4]) == Node(Node(Leaf(1), 3, Leaf(4)), 5, Leaf(8));
    assert [5, 3, 8, 1, 4, 7][..5] == [5, 3, 8, 1, 4];
    assert BuildIteratively([5, 3, 8, 1, 4, 7]) == Node(Node(Leaf(1), 3, Leaf(4)), 5, Node(Leaf(7), 8, Nil));
    assert xs[..6] == [5, 3, 8, 1, 4, 7];
  }

  lemma SamplePreOrder()
    ensures PreOrder(Sample()) == [5, 3, 1, 4, 8, 7, 9]
  {
    assert PreOrder(Node(Leaf(1), 3, Leaf(4))) == [3, 1, 4];
    assert PreOrder(Node(Leaf(7), 8, Leaf(9))) == [8, 7, 9];
  }

  lemma SampleInOrder()
    ensures InOrder(Sample()) == [1, 3, 4, 5, 7, 8, 9]
  {
    assert InOrder(Node(Leaf(1), 3, Leaf(4))) == [1, 3, 4];
    assert InOrder(Node(Leaf(7), 8, Leaf(9))) == [7, 8, 9];
  }

  lemma SamplePostOrder()
    ensures PostOrder(Sample()) == [1, 4, 3, 7, 9, 8, 5]
  {
    assert PostOrder(Node(Leaf(1), 3, Leaf(4))) == [1, 4, 3];
    assert PostOrder(Node(Leaf(7), 8, Leaf(9))) == [7, 9, 8];
  }

  /** The answer of findSecondHighest on the sample is 8, the next-to-largest value. */
  lemma SampleSecondHighest()
    ensures SecondInOrderFromEnd(Sample()) == Some(8)
  {
    SampleInOrder();
  }

  /** The sample is balanced; a chain of three nodes is not. */
  lemma SampleBalanced()
    ensures GetHeight(Sample()) == 3 && Balanced(Sample())
    ensures GetHeight(Node(Nil, 1, Node(Nil, 2, Leaf(3)))) == -1
  {
    GetHeightSpec(Sample());
  }

  /** Removing the root, which has two children, moves its in-order successor 7 up. */
  lemma SampleRemoveRoot()
    ensures RemoveNode(5, Sample()) == Node(Node(Leaf(1), 3, Leaf(4)), 7, Node(Nil, 8, Leaf(9)))
  {
    assert Leftmost(Node(Leaf(7), 8, Leaf(9))).val == 7;
  }

  /** With one or two nodes: none for [5], the smaller value for [5, 3]. */
  lemma SmallSecondHighest()
    ensures SecondInOrderFromEnd(BuildIteratively([5])) == None
    ensures SecondInOrderFromEnd(BuildIteratively([5, 3])) == Some(3)
  {
    assert [5][..0] == [];
    assert [5, 3][..1] == [5];
    assert BuildIteratively([5, 3]) == Node(Leaf(3), 5, Nil);
    assert InOrder(Node(Leaf(3), 5, Nil)) == [3, 5];
  }

  /** Median-first insertion of 1..7 builds a balanced tree. */
  lemma MedianFirstBalanced()
    ensures GetHeight(BuildIteratively([4, 2, 6, 1, 3, 5, 7])) == 3
  {
    assert [4][..0] == [];
    assert [4, 2][..1] == [4];
    assert [4, 2, 6][..2] == [4, 2];
    assert [4, 2, 6, 1][..3] == [4, 2, 6];
    assert [4, 2, 6, 1, 3][..4] == [4, 2, 6, 1];
    assert [4, 2, 6, 1, 3, 5][..5] == [4, 2, 6, 1, 3];
    assert [4, 2, 6, 1, 3, 5, 7][..6] == [4, 2, 6, 1, 3, 5];
    assert BuildIteratively([4, 2, 6]) == Node(Leaf(2), 4, Leaf(6));
    assert BuildIteratively([4, 2, 6, 1, 3]) == Node(Node(Leaf(1), 2, Leaf(3)), 4, Leaf(6));
    assert BuildIteratively([4, 2, 6, 1, 3, 5, 7]) == Node(Node(Leaf(1), 2, Leaf(3)), 4, Node(Leaf(5), 6, Leaf(7)));
  }

  /** Increasing insertion of 1..5 builds a chain, which is not balanced. */
  lemma IncreasingUnbalanced()
    ensures GetHeight(BuildIteratively([1, 2, 3, 4, 5])) == -1
  {
    assert [1][..0] == [];
    assert [1, 2][..1] == [1];
    assert [1, 2, 3][..2] == [1, 2];
    assert [1, 2, 3, 4][..3] == [1, 2, 3];
    assert [1, 2, 3, 4, 5][..4] == [1, 2, 3, 4];
    assert BuildIteratively([1, 2, 3]) == Node(Nil, 1, Node(Nil, 2, Leaf(3)));
  }

  /** On the empty tree every traversal is empty, nothing is found, and it is balanced. */
  /** The sample's middle level: its root's two children. */
  function SampleMiddle(): seq<Tree>
  {
    [Node(Leaf(1), 3, Leaf(4)), Node(Leaf(7), 8, Leaf(9))]
  }

  /** The sample's bottom level: the four leaves, left to right. */
  function SampleBottom(): seq<Tree>
  {
    [Leaf(1), Leaf(4), Leaf(7), Leaf(9)]
  }

  lemma SampleTopLevel()
    ensures Roots([Sample()]) == [5] && NextLevel([Sample()]) == SampleMiddle()
  {
    RootsStep([Sample()]);
    assert [Sample()][1..] == [];
  }

  lemma SampleMiddleLevel()
    ensures Roots(SampleMiddle()) == [3, 8] && NextLevel(SampleMiddle()) == SampleBottom()
  {
    var f := SampleMiddle();
    RootsStep(f);
    RootsStep(f[1..]);
    assert f[1..][1..] == [];
  }

  lemma SampleBottomLevel()
    ensures Roots(SampleBottom()) == [1, 4, 7, 9] && NextLevel(SampleBottom()) == []
  {
    var f := SampleBottom();
    RootsStep(f);
    RootsStep(f[1..]);
    RootsStep(f[2..]);
    RootsStep(f[3..]);
    assert f[1..][1..] == f[2..] && f[2..][1..] == f[3..] && f[3..][1..] == [];
  }

  /** The level-by-level order of the sample, which `bfs` emits: 5, 3, 8, 1, 4, 7, 9. */
  lemma SampleLevelOrder()
    ensures LevelOrder([Sample()]) == [5, 3, 8, 1, 4, 7, 9]
  {
    SampleTopLevel();
    SampleMiddleLevel();
    SampleBottomLevel();
    LevelOrderUnfold([Sample()]);
    LevelOrderUnfold(SampleMiddle());
    LevelOrderUnfold(SampleBottom());
    assert ForestSize([]) == 0;
  }

  lemma EmptyTree()
    ensures PreOrder(Nil) == [] && InOrder(Nil) == [] && PostOrder(Nil) == [] && LevelOrder([Nil]) == []
    ensures forall x :: FirstPreOrder(Nil, x) == None
    ensures GetHeight(Nil) == 0 && SecondInOrderFromEnd(Nil) == None
  {
    LevelOrderOfTree(Nil);
  }
}
