/**
 * `isBalanced` of binary-search-tree.js: one post-order pass (`getHeight`)
 * that returns a subtree's height, or -1 once any node below is unbalanced.
 */
module Balance {
  import opened Trees

  function Abs(n: int): nat
  {
    if n < 0 then -n else n
  }

  /** `getHeight`: 0 for an absent subtree, -1 as the "unbalanced" sentinel. */
  function GetHeight(t: Tree): int
  {
    match t
    case Nil => 0
    case Node(l, _, r) =>
      var left := GetHeight(l);
      var right := GetHeight(r);
      if left == -1 || right == -1 || Abs(left - right) > 1 then -1
      else (if left < right then right else left) + 1
  }

  /** Every node's two subtrees differ in height by at most one. */
  ghost predicate Balanced(t: Tree)
  {
    match t
    case Nil => true
    case Node(l, _, r) => Balanced(l) && Balanced(r) && Abs(Height(l) - Height(r)) <= 1
  }

  /**
   * The sentinel pass is exact: it yields the true height when every node is
   * balanced and -1 as soon as one node is not.
   */
  lemma {:induction false} GetHeightSpec(t: Tree)
    ensures GetHeight(t) == if Balanced(t) then Height(t) else -1
  {
    match t
    case Nil =>
    case Node(l, _, r) =>
      GetHeightSpec(l);
      GetHeightSpec(r);
  }
}
