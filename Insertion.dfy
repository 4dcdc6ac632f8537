/**
 * The two insertions of binary-search-tree.js: `insert` (an iterative descent)
 * and `insertRecursively` (its inner `addNode`). Their in-place link updates are
 * modelled by rebuilding the path from the root to the changed link.
 */
module Insertion {
  import opened Trees

  /**
   * The tree `insert` produces: descend left while the new value is strictly
   * smaller, right otherwise (so equal values go right), and attach a new leaf
   * at the first absent link; an empty tree gets the leaf as its root.
   */
  function InsertTree(t: Tree, x: int): Tree
  {
    match t
    case Nil => Node(Nil, x, Nil)
    case Node(l, v, r) => if x < v then Node(InsertTree(l, x), v, r) else Node(l, v, InsertTree(r, x))
  }

  /**
   * `addNode`: like the descent of `insert`, except that a value equal to the
   * current node's value goes neither left nor right and nothing is attached.
   */
  function AddNode(node: Tree, x: int): Tree
    requires node.Node?
  {
    if x < node.val then
      if node.left == Nil then node.(left := Node(Nil, x, Nil)) else node.(left := AddNode(node.left, x))
    else if x > node.val then
      if node.right == Nil then node.(right := Node(Nil, x, Nil)) else node.(right := AddNode(node.right, x))
    else node
  }

  /** `x` equals the value of some node on the path `insert` would descend for `x`. */
  ghost predicate OnDescentPath(t: Tree, x: int)
  {
    match t
    case Nil => false
    case Node(l, v, r) => x == v || (x < v && OnDescentPath(l, x)) || (x > v && OnDescentPath(r, x))
  }

  /** `insert` adds exactly one occurrence of the value and keeps the ordering invariant. */
  lemma {:induction false} InsertTreeSpec(t: Tree, x: int)
    ensures Values(InsertTree(t, x)) == Values(t) + multiset{x}
    ensures t == Nil ==> InsertTree(t, x) == Node(Nil, x, Nil)
  {
    match t
    case Nil =>
    case Node(l, v, r) =>
      if x < v {
        InsertTreeSpec(l, x);
        assert InsertTree(t, x) == Node(InsertTree(l, x), v, r);
        AddOnLeft(Values(l), multiset{v}, Values(r), x);
      } else {
        InsertTreeSpec(r, x);
        assert InsertTree(t, x) == Node(l, v, InsertTree(r, x));
      }
  }

  lemma AddOnLeft(a: multiset<int>, b: multiset<int>, c: multiset<int>, x: int)
    ensures (a + multiset{x}) + b + c == a + b + c + multiset{x}
  {
  }

  lemma {:induction false} InsertTreeOrdered(t: Tree, x: int)
    requires IsBst(t)
    ensures IsBst(InsertTree(t, x))
  {
    match t
    case Nil =>
    case Node(l, v, r) =>
      if x < v {
        InsertTreeOrdered(l, x);
        InsertTreeSpec(l, x);
        var l' := InsertTree(l, x);
        assert InsertTree(t, x) == Node(l', v, r);
        BoundsAsValues(l, v);
        BoundsAsValues(l', v);
        forall y | y in Values(l') ensures y < v {
          assert y in Values(l) + multiset{x};
        }
      } else {
        InsertTreeOrdered(r, x);
        InsertTreeSpec(r, x);
        var r' := InsertTree(r, x);
        assert InsertTree(t, x) == Node(l, v, r');
        BoundsAsValues(r, v);
        BoundsAsValues(r', v);
        forall y | y in Values(r') ensures v <= y {
          assert y in Values(r) + multiset{x};
        }
      }
  }

  /**
   * `addNode` leaves the tree unchanged exactly when the value meets an equal
   * node on its way down; otherwise it attaches the same leaf as `insert`.
   */
  lemma {:induction false} AddNodeSpec(t: Tree, x: int)
    requires t.Node?
    ensures OnDescentPath(t, x) ==> AddNode(t, x) == t
    ensures !OnDescentPath(t, x) ==> AddNode(t, x) == InsertTree(t, x)
  {
    var Node(l, v, r) := t;
    if x < v {
      if l != Nil {
        AddNodeSpec(l, x);
        assert AddNode(t, x) == Node(AddNode(l, x), v, r);
        assert OnDescentPath(t, x) == OnDescentPath(l, x);
        if OnDescentPath(l, x) {
          assert AddNode(l, x) == l;
          assert AddNode(t, x) == t;
        }
      } else {
        assert !OnDescentPath(t, x);
      }
    } else if x > v {
      if r != Nil {
        AddNodeSpec(r, x);
        assert AddNode(t, x) == Node(l, v, AddNode(r, x));
        assert OnDescentPath(t, x) == OnDescentPath(r, x);
        if OnDescentPath(r, x) {
          assert AddNode(r, x) == r;
          assert AddNode(t, x) == t;
        }
      } else {
        assert !OnDescentPath(t, x);
      }
    }
  }

  /** A value met on the descent path is held by the tree. */
  lemma {:induction false} OnDescentPathHeld(t: Tree, x: int)
    ensures OnDescentPath(t, x) ==> x in Values(t)
  {
    match t
    case Nil =>
    case Node(l, v, r) => OnDescentPathHeld(l, x); OnDescentPathHeld(r, x);
  }

  /** On an ordered tree the descent meets an equal node exactly when the value is held. */
  lemma {:induction false} OnDescentPathOrdered(t: Tree, x: int)
    requires IsBst(t)
    ensures OnDescentPath(t, x) <==> x in Values(t)
  {
    match t
    case Nil =>
    case Node(l, v, r) =>
      OnDescentPathOrdered(l, x);
      OnDescentPathOrdered(r, x);
      BoundsAsValues(l, v);
      BoundsAsValues(r, v);
  }

  /** So on an ordered tree `insertRecursively` is a no-op exactly for a value already held. */
  lemma AddNodeOrdered(t: Tree, x: int)
    requires t.Node? && IsBst(t)
    ensures AddNode(t, x) == if x in Values(t) then t else InsertTree(t, x)
  {
    AddNodeSpec(t, x);
    OnDescentPathOrdered(t, x);
  }

  // Whole insertion sequences, starting from the empty tree.

  /** The tree that repeated `insert` builds from an empty tree. */
  function BuildIteratively(xs: seq<int>): Tree
  {
    if xs == [] then Nil else InsertTree(BuildIteratively(xs[..|xs| - 1]), xs[|xs| - 1])
  }

  /** The tree that repeated `insertRecursively` builds from an empty tree. */
  function BuildRecursively(xs: seq<int>): Tree
  {
    if xs == [] then Nil
    else
      var t := BuildRecursively(xs[..|xs| - 1]);
      if t == Nil then Node(Nil, xs[|xs| - 1], Nil) else AddNode(t, xs[|xs| - 1])
  }

  ghost predicate Distinct(xs: seq<int>)
  {
    forall i, j | 0 <= i < j < |xs| :: xs[i] != xs[j]
  }

  /** Repeated `insert` keeps every inserted value and the ordering invariant. */
  lemma {:induction false} BuildIterativelySpec(xs: seq<int>)
    ensures Values(BuildIteratively(xs)) == multiset(xs)
    ensures IsBst(BuildIteratively(xs))
  {
    if xs != [] {
      var init := xs[..|xs| - 1];
      BuildIterativelySpec(init);
      InsertTreeSpec(BuildIteratively(init), xs[|xs| - 1]);
      InsertTreeOrdered(BuildIteratively(init), xs[|xs| - 1]);
      assert xs == init + [xs[|xs| - 1]];
    }
  }

  /** For an insertion sequence without repeated values both insertions build the same tree. */
  lemma {:induction false} BuildersAgreeOnDistinct(xs: seq<int>)
    requires Distinct(xs)
    ensures BuildRecursively(xs) == BuildIteratively(xs)
  {
    if xs != [] {
      var init, x := xs[..|xs| - 1], xs[|xs| - 1];
      BuildersAgreeOnDistinct(init);
      var t := BuildIteratively(init);
      if t != Nil {
        BuildIterativelySpec(init);
        assert x !in multiset(init);
        OnDescentPathHeld(t, x);
        AddNodeSpec(t, x);
      }
    }
  }

  /** With a repeated value the two insertions differ: `insertRecursively` drops the repeat. */
  lemma BuildersDifferOnRepeat()
    ensures Size(BuildIteratively([5, 5])) == 2
    ensures Size(BuildRecursively([5, 5])) == 1
  {
    assert [5, 5][..1] == [5];
    assert [5][..0] == [];
  }

  // The descent of `insert` as a path of frames from the root.

  /** One step of the descent: the node left behind, without the child taken. */
  datatype Frame = WentLeft(val: int, right: Tree) | WentRight(left: Tree, val: int)

  function Fill(f: Frame, t: Tree): Tree
  {
    match f
    case WentLeft(v, r) => Node(t, v, r)
    case WentRight(l, v) => Node(l, v, t)
  }

  /** Rebuilds the whole tree from the root-first `path` and the subtree at its end. */
  function Plug(path: seq<Frame>, t: Tree): Tree
    decreases |path|
  {
    if path == [] then t else Fill(path[0], Plug(path[1..], t))
  }

  lemma {:induction false} PlugExtend(path: seq<Frame>, f: Frame, t: Tree)
    ensures Plug(path + [f], t) == Plug(path, Fill(f, t))
    decreases |path|
  {
    if path != [] {
      assert (path + [f])[1..] == path[1..] + [f];
      PlugExtend(path[1..], f, t);
    }
  }
}
