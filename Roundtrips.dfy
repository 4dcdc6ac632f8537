/**
 * Properties that chain several operations of binary-search-tree.js: what
 * a lookup reports after a run of insertions, and after a removal.
 */
module Roundtrips {
  import opened Wrappers
  import opened Trees
  import opened Traversals
  import opened Insertion
  import opened Lookup
  import opened Removal

  /**
   * After inserting `xs` with `insert`, both lookups find every inserted value
   * and neither finds a value that was never inserted.
   */
  lemma InsertedAreFound(xs: seq<int>, x: int)
    ensures FirstPreOrder(BuildIteratively(xs), x).Some? <==> x in xs
    ensures BuildIteratively(xs).Node? ==> (Search(BuildIteratively(xs), x).Some? <==> x in xs)
    ensures xs != [] <==> BuildIteratively(xs).Node?
  {
    var t := BuildIteratively(xs);
    BuildIterativelySpec(xs);
    FirstPreOrderSpec(t, x);
    assert x in xs <==> x in multiset(xs);
    if xs != [] {
      assert xs[0] in multiset(xs);
    }
    if t.Node? {
      SearchComplete(t, x);
    }
  }

  /**
   * Removing the only node holding `x` from an ordered tree: afterwards `find`
   * reports it missing, and the in-order sequence is one shorter and still sorted.
   */
  lemma RemoveOnlyCopy(t: Tree, x: int)
    requires IsBst(t) && Values(t)[x] == 1
    ensures FirstPreOrder(RemoveNode(x, t), x) == None
    ensures |InOrder(RemoveNode(x, t))| == |InOrder(t)| - 1
    ensures Sorted(InOrder(RemoveNode(x, t)))
  {
    var t' := RemoveNode(x, t);
    RemoveSpec(x, t);
    assert Values(t')[x] == 0;
    FirstPreOrderSpec(t', x);
    InOrderContents(t);
    InOrderContents(t');
    ValuesCount(t);
    ValuesCount(t');
    assert |Values(t')| == |Values(t)| - 1;
    InOrderSorted(t');
  }
}
