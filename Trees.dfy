/**
 * The value view of the search tree's nodes (binary-search-tree.js, class Node).
 * An absent child link (`null` in the source) is `Nil`; a present one is a `Node`
 * with the node's value and its two links. Values are integers, so `<`, `>` and
 * `===` are the usual consistent comparisons.
 */
module Trees {

  datatype Tree = Nil | Node(left: Tree, val: int, right: Tree)

  /** Number of nodes in a subtree. */
  function Size(t: Tree): nat
  {
    match t
    case Nil => 0
    case Node(l, _, r) => Size(l) + 1 + Size(r)
  }

  /** The multiset of values held by the nodes of a subtree. */
  function Values(t: Tree): multiset<int>
  {
    match t
    case Nil => multiset{}
    case Node(l, v, r) => Values(l) + multiset{v} + Values(r)
  }

  /** Every value in `t` is strictly smaller than `v`. */
  ghost predicate AllBelow(t: Tree, v: int)
  {
    match t
    case Nil => true
    case Node(l, w, r) => AllBelow(l, v) && w < v && AllBelow(r, v)
  }

  /** Every value in `t` is greater than or equal to `v`. */
  ghost predicate AllAtLeast(t: Tree, v: int)
  {
    match t
    case Nil => true
    case Node(l, w, r) => AllAtLeast(l, v) && v <= w && AllAtLeast(r, v)
  }

  /**
   * The ordering invariant the source's insert keeps: every value in a node's
   * left subtree is strictly smaller than the node's value, every value in its
   * right subtree is greater or equal (equal values are routed right).
   */
  ghost predicate IsBst(t: Tree)
  {
    match t
    case Nil => true
    case Node(l, v, r) => IsBst(l) && IsBst(r) && AllBelow(l, v) && AllAtLeast(r, v)
  }

  /** The bounds read over the values of the subtree. */
  lemma BoundsAsValues(t: Tree, v: int)
    ensures AllBelow(t, v) <==> (forall y | y in Values(t) :: y < v)
    ensures AllAtLeast(t, v) <==> (forall y | y in Values(t) :: v <= y)
  {
    BelowAsValues(t, v);
    AtLeastAsValues(t, v);
  }

  lemma BelowAsValues(t: Tree, v: int)
    ensures AllBelow(t, v) <==> (forall y | y in Values(t) :: y < v)
  {
    if AllBelow(t, v) {
      forall y | y in Values(t) ensures y < v {
        BelowMember(t, v, y);
      }
    }
    if !AllBelow(t, v) {
      var y := NotBelowWitness(t, v);
    }
  }

  lemma AtLeastAsValues(t: Tree, v: int)
    ensures AllAtLeast(t, v) <==> (forall y | y in Values(t) :: v <= y)
  {
    if AllAtLeast(t, v) {
      forall y | y in Values(t) ensures v <= y {
        AtLeastMember(t, v, y);
      }
    }
    if !AllAtLeast(t, v) {
      var y := NotAtLeastWitness(t, v);
    }
  }

  /** A subtree that breaks the upper bound holds a value at or above it. */
  lemma {:induction false} NotBelowWitness(t: Tree, v: int) returns (y: int)
    requires !AllBelow(t, v)
    ensures y in Values(t) && v <= y
  {
    var Node(l, w, r) := t;
    if !AllBelow(l, v) {
      y := NotBelowWitness(l, v);
    } else if v <= w {
      y := w;
    } else {
      y := NotBelowWitness(r, v);
    }
  }

  /** A subtree that breaks the lower bound holds a value below it. */
  lemma {:induction false} NotAtLeastWitness(t: Tree, v: int) returns (y: int)
    requires !AllAtLeast(t, v)
    ensures y in Values(t) && y < v
  {
    var Node(l, w, r) := t;
    if !AllAtLeast(l, v) {
      y := NotAtLeastWitness(l, v);
    } else if w < v {
      y := w;
    } else {
      y := NotAtLeastWitness(r, v);
    }
  }

  lemma {:induction false} BelowMember(t: Tree, v: int, y: int)
    requires AllBelow(t, v) && y in Values(t)
    ensures y < v
  {
    var Node(l, w, r) := t;
    if y in Values(l) {
      BelowMember(l, v, y);
    } else if y in Values(r) {
      BelowMember(r, v, y);
    }
  }

  lemma {:induction false} AtLeastMember(t: Tree, v: int, y: int)
    requires AllAtLeast(t, v) && y in Values(t)
    ensures v <= y
  {
    var Node(l, w, r) := t;
    if y in Values(l) {
      AtLeastMember(l, v, y);
    } else if y in Values(r) {
      AtLeastMember(r, v, y);
    }
  }

  /** A strict upper bound excludes every value at or above it. */
  lemma {:induction false} BelowExcludes(t: Tree, v: int, x: int)
    requires AllBelow(t, v) && v <= x
    ensures x !in Values(t)
  {
    match t
    case Nil =>
    case Node(l, _, r) =>
      BelowExcludes(l, v, x);
      BelowExcludes(r, v, x);
  }

  /** A lower bound excludes every value below it. */
  lemma {:induction false} AtLeastExcludes(t: Tree, v: int, x: int)
    requires AllAtLeast(t, v) && x < v
    ensures x !in Values(t)
  {
    match t
    case Nil =>
    case Node(l, _, r) =>
      AtLeastExcludes(l, v, x);
      AtLeastExcludes(r, v, x);
  }

  /** An upper bound holds for every larger bound too. */
  lemma {:induction false} BelowWeaker(t: Tree, v: int, u: int)
    requires AllBelow(t, v) && v <= u
    ensures AllBelow(t, u)
  {
    match t
    case Nil =>
    case Node(l, _, r) =>
      BelowWeaker(l, v, u);
      BelowWeaker(r, v, u);
  }

  /** A lower bound holds for every smaller bound too. */
  lemma {:induction false} AtLeastWeaker(t: Tree, v: int, u: int)
    requires AllAtLeast(t, v) && u <= v
    ensures AllAtLeast(t, u)
  {
    match t
    case Nil =>
    case Node(l, _, r) =>
      AtLeastWeaker(l, v, u);
      AtLeastWeaker(r, v, u);
  }

  /** A subtree whose values are among another's inherits its bounds. */
  lemma BoundsOfFewerValues(s: Tree, t: Tree, v: int)
    requires Values(s) <= Values(t)
    ensures AllBelow(t, v) ==> AllBelow(s, v)
    ensures AllAtLeast(t, v) ==> AllAtLeast(s, v)
  {
    BoundsAsValues(s, v);
    BoundsAsValues(t, v);
  }

  /** Number of nodes on a longest root-to-leaf path; 0 for an absent subtree. */
  function Height(t: Tree): nat
  {
    match t
    case Nil => 0
    case Node(l, _, r) => (if Height(l) < Height(r) then Height(r) else Height(l)) + 1
  }

  /** `s` is a subtree of `t` (possibly `t` itself). */
  ghost predicate IsSubtree(s: Tree, t: Tree)
  {
    s == t || (t.Node? && (IsSubtree(s, t.left) || IsSubtree(s, t.right)))
  }

  /** Non-decreasing sequence. */
  ghost predicate Sorted(s: seq<int>)
  {
    forall i, j | 0 <= i < j < |s| :: s[i] <= s[j]
  }

  /** The node at the end of the right spine of a present subtree: its maximum position. */
  function Rightmost(t: Tree): (m: Tree)
    requires t.Node?
    ensures m.Node? && m.right == Nil
    decreases t
  {
    if t.right == Nil then t else Rightmost(t.right)
  }

  /** The node at the end of the left spine of a present subtree: its minimum position. */
  function Leftmost(t: Tree): (m: Tree)
    requires t.Node?
    ensures m.Node? && m.left == Nil
    decreases t
  {
    if t.left == Nil then t else Leftmost(t.left)
  }

  /** A subtree holds exactly as many values as it has nodes. */
  lemma {:induction false} ValuesCount(t: Tree)
    ensures |Values(t)| == Size(t)
  {
    match t
    case Nil =>
    case Node(l, _, r) => ValuesCount(l); ValuesCount(r);
  }

  /** A subtree is no larger than the tree containing it; a proper one is smaller. */
  lemma {:induction false} SubtreeSize(s: Tree, t: Tree)
    requires IsSubtree(s, t)
    ensures Size(s) <= Size(t)
    ensures s != t ==> Size(s) < Size(t)
  {
    if s != t {
      if IsSubtree(s, t.left) { SubtreeSize(s, t.left); } else { SubtreeSize(s, t.right); }
    }
  }

  /** In an ordered tree the value of the leftmost node is a least value. */
  lemma {:induction false} LeftmostIsMinimum(t: Tree)
    requires t.Node? && IsBst(t)
    ensures Leftmost(t).val in Values(t)
    ensures AllAtLeast(t, Leftmost(t).val)
  {
    var Node(l, v, r) := t;
    if l != Nil {
      var m := Leftmost(l).val;
      LeftmostIsMinimum(l);
      BelowMember(l, v, m);
      AtLeastWeaker(r, v, m);
      assert Leftmost(t) == Leftmost(l);
    }
  }

  /** In an ordered tree the value of the rightmost node is a greatest value. */
  lemma {:induction false} RightmostIsMaximum(t: Tree)
    requires t.Node? && IsBst(t)
    ensures Rightmost(t).val in Values(t)
    ensures forall y | y in Values(t) :: y <= Rightmost(t).val
  {
    var Node(l, v, r) := t;
    var m := Rightmost(t).val;
    if r != Nil {
      assert Rightmost(t) == Rightmost(r);
      RightmostIsMaximum(r);
      AtLeastMember(r, v, m);
    }
    forall y | y in Values(t) ensures y <= m {
      if y in Values(l) {
        BelowMember(l, v, y);
      } else if y !in Values(r) {
        assert y == v;
      }
    }
  }
}
