/**
 * The four traversals of binary-search-tree.js: dfsPreOrder, dfsInOrder and
 * dfsPostOrder (a recursive `traverse` that pushes onto a shared result array)
 * and bfs (a FIFO queue of present nodes).
 */
module Traversals {
  import opened Trees

  function PreOrder(t: Tree): seq<int>
  {
    match t
    case Nil => []
    case Node(l, v, r) => [v] + PreOrder(l) + PreOrder(r)
  }

  function InOrder(t: Tree): seq<int>
  {
    match t
    case Nil => []
    case Node(l, v, r) => InOrder(l) + [v] + InOrder(r)
  }

  function PostOrder(t: Tree): seq<int>
  {
    match t
    case Nil => []
    case Node(l, v, r) => PostOrder(l) + PostOrder(r) + [v]
  }

  /** The pre-order `traverse` closure: appends the visited values to `result`. */
  method TraversePreOrder(node: Tree, result: seq<int>) returns (out: seq<int>)
    ensures out == result + PreOrder(node)
    decreases node
  {
    if node == Nil {
      return result;
    }
    out := result + [node.val];
    out := TraversePreOrder(node.left, out);
    out := TraversePreOrder(node.right, out);
  }

  /** The in-order `traverse` closure. */
  method TraverseInOrder(node: Tree, result: seq<int>) returns (out: seq<int>)
    ensures out == result + InOrder(node)
    decreases node
  {
    if node == Nil {
      return result;
    }
    out := TraverseInOrder(node.left, result);
    out := out + [node.val];
    out := TraverseInOrder(node.right, out);
  }

  /** The post-order `traverse` closure. */
  method TraversePostOrder(node: Tree, result: seq<int>) returns (out: seq<int>)
    ensures out == result + PostOrder(node)
    decreases node
  {
    if node == Nil {
      return result;
    }
    out := TraversePostOrder(node.left, result);
    out := TraversePostOrder(node.right, out);
    out := out + [node.val];
  }

  /** Pre-order visits every node once and starts at the root. */
  lemma {:induction false} PreOrderContents(t: Tree)
    ensures multiset(PreOrder(t)) == Values(t)
    ensures |PreOrder(t)| == Size(t)
    ensures t == Nil <==> PreOrder(t) == []
    ensures t.Node? ==> PreOrder(t)[0] == t.val
  {
    PreOrderValues(t);
    ValuesCount(t);
    assert |multiset(PreOrder(t))| == |PreOrder(t)|;
  }

  lemma {:induction false} PreOrderValues(t: Tree)
    ensures multiset(PreOrder(t)) == Values(t)
  {
    match t
    case Nil =>
    case Node(l, v, r) =>
      PreOrderValues(l);
      PreOrderValues(r);
      JoinValues([v], PreOrder(l), PreOrder(r));
  }

  /** In-order visits every node once. */
  lemma {:induction false} InOrderContents(t: Tree)
    ensures multiset(InOrder(t)) == Values(t)
    ensures |InOrder(t)| == Size(t)
    ensures t == Nil <==> InOrder(t) == []
  {
    InOrderValues(t);
    ValuesCount(t);
    assert |multiset(InOrder(t))| == |InOrder(t)|;
  }

  lemma {:induction false} InOrderValues(t: Tree)
    ensures multiset(InOrder(t)) == Values(t)
  {
    match t
    case Nil =>
    case Node(l, v, r) =>
      InOrderValues(l);
      InOrderValues(r);
      JoinValues(InOrder(l), [v], InOrder(r));
  }

  /** Post-order visits every node once and ends at the root. */
  lemma {:induction false} PostOrderContents(t: Tree)
    ensures multiset(PostOrder(t)) == Values(t)
    ensures |PostOrder(t)| == Size(t)
    ensures t == Nil <==> PostOrder(t) == []
    ensures t.Node? ==> PostOrder(t)[|PostOrder(t)| - 1] == t.val
  {
    PostOrderValues(t);
    ValuesCount(t);
    assert |multiset(PostOrder(t))| == |PostOrder(t)|;
  }

  lemma {:induction false} PostOrderValues(t: Tree)
    ensures multiset(PostOrder(t)) == Values(t)
  {
    match t
    case Nil =>
    case Node(l, v, r) =>
      PostOrderValues(l);
      PostOrderValues(r);
      JoinValues(PostOrder(l), PostOrder(r), [v]);
  }

  lemma JoinValues(a: seq<int>, b: seq<int>, c: seq<int>)
    ensures multiset(a + b + c) == multiset(a) + multiset(b) + multiset(c)
  {
    assert a + b + c == a + (b + c);
  }

  /** On a tree that keeps the ordering invariant the in-order sequence is non-decreasing. */
  lemma {:induction false} InOrderSorted(t: Tree)
    requires IsBst(t)
    ensures Sorted(InOrder(t))
  {
    match t
    case Nil =>
    case Node(l, v, r) =>
      InOrderSorted(l);
      InOrderSorted(r);
      InOrderContents(l);
      InOrderContents(r);
      BoundsAsValues(l, v);
      BoundsAsValues(r, v);
      SortedJoin(InOrder(l), v, InOrder(r));
  }

  /** Two sorted runs separated by a pivot that splits them join into a sorted run. */
  lemma SortedJoin(a: seq<int>, v: int, b: seq<int>)
    requires Sorted(a) && Sorted(b)
    requires forall x | x in multiset(a) :: x < v
    requires forall x | x in multiset(b) :: v <= x
    ensures Sorted(a + [v] + b)
  {
    var s := a + [v] + b;
    forall i, j | 0 <= i < j < |s| ensures s[i] <= s[j] {
      if j < |a| {
        assert s[i] == a[i] && s[j] == a[j];
      } else if i < |a| {
        assert s[i] == a[i] && a[i] in multiset(a);
        if j > |a| { assert s[j] == b[j - |a| - 1] && s[j] in multiset(b); }
      } else if i == |a| {
        assert s[j] == b[j - |a| - 1] && s[j] in multiset(b);
      } else {
        assert s[i] == b[i - |a| - 1] && s[j] == b[j - |a| - 1];
      }
    }
  }

  // Breadth-first traversal.

  /** Total number of nodes in a sequence of subtrees. */
  function ForestSize(f: seq<Tree>): nat
  {
    if f == [] then 0 else Size(f[0]) + ForestSize(f[1..])
  }

  /** All values held by a sequence of subtrees. */
  function ForestValues(f: seq<Tree>): multiset<int>
  {
    if f == [] then multiset{} else Values(f[0]) + ForestValues(f[1..])
  }

  lemma {:induction false} ForestAppend(a: seq<Tree>, b: seq<Tree>)
    ensures ForestSize(a + b) == ForestSize(a) + ForestSize(b)
    ensures ForestValues(a + b) == ForestValues(a) + ForestValues(b)
    decreases |a|
  {
    if a == [] {
      assert a + b == b;
    } else {
      assert (a + b)[1..] == a[1..] + b;
      ForestAppend(a[1..], b);
    }
  }

  /** The subtree as a sequence of pending subtrees: itself when present, nothing when absent. */
  function Present(t: Tree): seq<Tree>
  {
    if t.Node? then [t] else []
  }

  lemma PresentSize(t: Tree)
    ensures ForestSize(Present(t)) == Size(t)
    ensures ForestValues(Present(t)) == Values(t)
  {
    if t.Node? { assert [t][1..] == []; }
  }

  /** The present children of a node, left first: what bfs enqueues after visiting it. */
  function Children(t: Tree): seq<Tree>
  {
    match t
    case Nil => []
    case Node(l, _, r) => Present(l) + Present(r)
  }

  lemma ChildrenSize(t: Tree)
    ensures ForestSize(Children(t)) == Size(t) - (if t.Node? then 1 else 0)
    ensures ForestValues(Children(t)) + (if t.Node? then multiset{t.val} else multiset{}) == Values(t)
    ensures forall i | 0 <= i < |Children(t)| :: Children(t)[i].Node?
  {
    if t.Node? {
      ChildrenCount(t);
      ChildrenValues(t);
    }
  }

  lemma ChildrenCount(t: Tree)
    requires t.Node?
    ensures ForestSize(Children(t)) == Size(t) - 1
  {
    ForestAppend(Present(t.left), Present(t.right));
    PresentSize(t.left);
    PresentSize(t.right);
  }

  lemma ChildrenValues(t: Tree)
    requires t.Node?
    ensures ForestValues(Children(t)) + multiset{t.val} == Values(t)
  {
    ForestAppend(Present(t.left), Present(t.right));
    PresentSize(t.left);
    PresentSize(t.right);
  }

  /** The values of the present subtrees of a level, left to right. */
  function Roots(f: seq<Tree>): seq<int>
  {
    if f == [] then []
    else (if f[0].Node? then [f[0].val] else []) + Roots(f[1..])
  }

  /** The next level down: the present children of every subtree of a level, in order. */
  function NextLevel(f: seq<Tree>): seq<Tree>
  {
    if f == [] then [] else Children(f[0]) + NextLevel(f[1..])
  }

  /** Each level's nodes leave the count: the next level is smaller by the number of present roots. */
  lemma {:induction false} NextLevelSize(f: seq<Tree>)
    ensures ForestSize(NextLevel(f)) + |Roots(f)| == ForestSize(f)
    ensures ForestSize(f) > 0 ==> |Roots(f)| > 0
  {
    if f != [] {
      NextLevelSize(f[1..]);
      ChildrenSize(f[0]);
      ForestAppend(Children(f[0]), NextLevel(f[1..]));
    }
  }

  lemma RootsStep(f: seq<Tree>)
    requires f != []
    ensures Roots(f) == (if f[0].Node? then [f[0].val] else []) + Roots(f[1..])
    ensures NextLevel(f) == Children(f[0]) + NextLevel(f[1..])
  {
  }

  /**
   * What bfs has still to emit when `queue[..level]` is what is left of the
   * level being visited and the rest of the queue is the next level so far.
   */
  function Pending(queue: seq<Tree>, level: nat): seq<int>
    requires level <= |queue|
  {
    Roots(queue[..level]) + LevelOrder(queue[level..] + NextLevel(queue[..level]))
  }

  /** Before the first level starts, everything is still to be emitted. */
  lemma PendingWhole(queue: seq<Tree>)
    ensures Pending(queue, 0) == LevelOrder(queue)
    ensures queue == [] ==> Pending(queue, 0) == []
  {
    assert queue[..0] == [] && queue[0..] == queue;
    assert Roots([]) == [] && NextLevel([]) == [] && queue + [] == queue;
  }

  /** Starting a new level: the whole queue is the level being visited. */
  lemma PendingStart(queue: seq<Tree>)
    requires queue != [] && queue[0].Node?
    ensures Pending(queue, 0) == Pending(queue, |queue|)
  {
    assert queue[..0] == [] && queue[0..] == queue;
    assert queue[..|queue|] == queue && queue[|queue|..] == [];
    assert Pending(queue, |queue|) == Roots(queue) + LevelOrder([] + NextLevel(queue));
    assert [] + NextLevel(queue) == NextLevel(queue);
    assert Roots([]) == [] && NextLevel([]) == [] && queue + [] == queue;
    assert Pending(queue, 0) == LevelOrder(queue);
    LevelOrderUnfold(queue);
  }

  lemma LevelOrderUnfold(f: seq<Tree>)
    requires f != [] && f[0].Node?
    ensures LevelOrder(f) == Roots(f) + LevelOrder(NextLevel(f))
  {
    assert ForestSize(f) > 0;
    NextLevelSize(f);
  }

  /**
   * Taking the front of the queue: its value is the next one emitted, and its
   * present children join the end of the next level.
   */
  lemma PendingStep(queue: seq<Tree>, level: nat)
    requires 1 <= level <= |queue| && queue[0].Node?
    ensures Pending(queue, level) == [queue[0].val] + Pending(queue[1..] + Children(queue[0]), level - 1)
  {
    PendingAfterFront(queue, level);
    RootsStep(queue[..level]);
  }

  lemma PendingAfterFront(queue: seq<Tree>, level: nat)
    requires 1 <= level <= |queue|
    ensures Pending(queue[1..] + Children(queue[0]), level - 1)
         == Roots(queue[..level][1..]) + LevelOrder(queue[level..] + NextLevel(queue[..level]))
  {
    var cur, children := queue[..level], Children(queue[0]);
    var next := queue[1..] + children;
    RootsStep(cur);
    SplitAfterFront(queue, level, children);
    assert next[level - 1..] + NextLevel(next[..level - 1]) == queue[level..] + NextLevel(cur);
    PendingShape(next, level - 1, queue[level..] + NextLevel(cur));
  }

  lemma SplitAfterFront(queue: seq<Tree>, level: nat, children: seq<Tree>)
    requires 1 <= level <= |queue|
    ensures (queue[1..] + children)[..level - 1] == queue[..level][1..]
    ensures (queue[1..] + children)[level - 1..] == queue[level..] + children
  {
  }

  lemma PendingShape(queue: seq<Tree>, level: nat, below: seq<Tree>)
    requires level <= |queue| && queue[level..] + NextLevel(queue[..level]) == below
    ensures Pending(queue, level) == Roots(queue[..level]) + LevelOrder(below)
  {
  }

  /**
   * The values a FIFO queue of pending subtrees emits: take the front, emit its
   * value and append its present children; an absent subtree emits nothing.
   */
  function QueueOrder(queue: seq<Tree>): seq<int>
    decreases ForestSize(queue), |queue|
  {
    if queue == [] then []
    else if queue[0].Nil? then
      QueueStepSize(queue);
      QueueOrder(queue[1..])
    else
      QueueStepSize(queue);
      [queue[0].val] + QueueOrder(queue[1..] + Children(queue[0]))
  }

  /** Taking the front of the queue never adds nodes, and taking a present one removes one. */
  lemma QueueStepSize(queue: seq<Tree>)
    requires queue != []
    ensures ForestSize(queue[1..]) <= ForestSize(queue)
    ensures queue[0].Node? ==> ForestSize(queue[1..] + Children(queue[0])) < ForestSize(queue)
  {
    ChildrenSize(queue[0]);
    ForestAppend(queue[1..], Children(queue[0]));
  }

  ghost predicate AllPresent(queue: seq<Tree>)
  {
    forall i | 0 <= i < |queue| :: queue[i].Node?
  }

  /** One step of bfs on a queue of present subtrees. */
  lemma QueueFront(queue: seq<Tree>)
    requires queue != [] && AllPresent(queue)
    ensures queue[0].Node?
    ensures QueueOrder(queue) == [queue[0].val] + QueueOrder(queue[1..] + Children(queue[0]))
    ensures AllPresent(queue[1..] + Children(queue[0]))
    ensures ForestSize(queue[1..] + Children(queue[0])) < ForestSize(queue)
  {
    assert queue[0].Node?;
    ChildrenSize(queue[0]);
    QueueStepSize(queue);
  }

  /**
   * A queue of present subtrees whose first `level` entries are what is left of
   * the current level emits exactly the rest of that level and then the levels below.
   */
  lemma {:induction false} QueueOrderIsPending(queue: seq<Tree>, level: nat)
    requires level <= |queue| && AllPresent(queue)
    ensures QueueOrder(queue) == Pending(queue, level)
    decreases ForestSize(queue)
  {
    if queue == [] {
      PendingWhole(queue);
    } else {
      QueueFront(queue);
      var start := if level == 0 then |queue| else level;
      assert Pending(queue, level) == Pending(queue, start) by {
        if level == 0 {
          PendingStart(queue);
        }
      }
      QueueOrderIsPending(queue[1..] + Children(queue[0]), start - 1);
      PendingStep(queue, start);
    }
  }

  /** bfs's queue, seeded with the root when present, emits the tree in level order. */
  lemma QueueOrderOfTree(t: Tree)
    ensures QueueOrder(Present(t)) == LevelOrder([t])
  {
    QueueOrderIsPending(Present(t), 0);
    PendingWhole(Present(t));
    if t == Nil {
      assert [t][1..] == [];
      assert ForestSize([t]) == 0;
    }
  }

  /** Level-order as a reference: the values of one level, then of the levels below it. */
  function LevelOrder(f: seq<Tree>): seq<int>
    decreases ForestSize(f)
  {
    if ForestSize(f) == 0 then []
    else
      NextLevelSize(f);
      Roots(f) + LevelOrder(NextLevel(f))
  }

  lemma {:induction false} RootsAndNextLevel(f: seq<Tree>)
    ensures multiset(Roots(f)) + ForestValues(NextLevel(f)) == ForestValues(f)
  {
    if f != [] {
      RootsAndNextLevel(f[1..]);
      ChildrenSize(f[0]);
      ForestAppend(Children(f[0]), NextLevel(f[1..]));
    }
  }

  /** Level order visits every node once. */
  lemma {:induction false} LevelOrderContents(f: seq<Tree>)
    ensures multiset(LevelOrder(f)) == ForestValues(f)
    decreases ForestSize(f)
  {
    if ForestSize(f) == 0 {
      EmptyForestValues(f);
    } else {
      RootsAndNextLevel(f);
      NextLevelSize(f);
      LevelOrderContents(NextLevel(f));
    }
  }

  lemma {:induction false} EmptyForestValues(f: seq<Tree>)
    requires ForestSize(f) == 0
    ensures ForestValues(f) == multiset{}
  {
    if f != [] {
      ValuesCount(f[0]);
      EmptyForestValues(f[1..]);
    }
  }

  /** bfs of one tree: every node once, the empty tree gives [], and it starts at the root. */
  lemma LevelOrderOfTree(t: Tree)
    ensures multiset(LevelOrder([t])) == Values(t)
    ensures |LevelOrder([t])| == Size(t)
    ensures t == Nil <==> LevelOrder([t]) == []
    ensures t.Node? ==> LevelOrder([t])[0] == t.val
  {
    LevelOrderContents([t]);
    assert ForestValues([t]) == Values(t) by { assert [t][1..] == []; }
    ValuesCount(t);
    assert |multiset(LevelOrder([t]))| == |LevelOrder([t])|;
    if t.Node? {
      assert [t][1..] == [];
      assert ForestSize([t]) == Size(t) > 0;
      assert Roots([t]) == [t.val];
    }
  }
}
