/** The linked node structure of the tree, seen as a value, and the views of it
    that every contract is stated in: its element multiset, its in-order and
    pre-order sequences, its node count, and the search-tree ordering. */
module Trees {

  /** `Nil` is an absent link; `Node` is a `BSTNode` with its data and its two child links. */
  datatype Tree = Nil | Node(left: Tree, data: int, right: Tree)

  function Leaf(item: int): Tree {
    Node(Nil, item, Nil)
  }

  function Count(t: Tree): nat {
    match t
    case Nil => 0
    case Node(l, _, r) => Count(l) + 1 + Count(r)
  }

  function Elements(t: Tree): multiset<int> {
    match t
    case Nil => multiset{}
    case Node(l, d, r) => Elements(l) + multiset{d} + Elements(r)
  }

  function InOrder(t: Tree): seq<int> {
    match t
    case Nil => []
    case Node(l, d, r) => InOrder(l) + [d] + InOrder(r)
  }

  /** Root first, then the left subtree, then the right subtree. */
  function PreOrder(t: Tree): seq<int> {
    match t
    case Nil => []
    case Node(l, d, r) => [d] + PreOrder(l) + PreOrder(r)
  }

  /** The weak search-tree ordering: everything in a left subtree is at most the
      node's item and everything in a right subtree at least the node's item.
      Insertion sends equal items right and the rebuild of `rebalance` may put
      them left, so neither side is strict. */
  ghost predicate Ordered(t: Tree) {
    match t
    case Nil => true
    case Node(l, d, r) => Ordered(l) && Ordered(r) && AtMost(l, d) && AtLeast(r, d)
  }

  /** Every item of `t` is at most `bound`. */
  ghost predicate AtMost(t: Tree, bound: int) {
    forall x | x in Elements(t) :: x <= bound
  }

  /** Every item of `t` is at least `bound`. */
  ghost predicate AtLeast(t: Tree, bound: int) {
    forall y | y in Elements(t) :: bound <= y
  }

  /** Every item of `a` is an item of `b`. */
  ghost predicate Within(a: Tree, b: Tree) {
    forall x | x in Elements(a) :: x in Elements(b)
  }

  lemma AtMostSubset(a: Tree, b: Tree, bound: int)
    requires Within(a, b) && AtMost(b, bound)
    ensures AtMost(a, bound)
  {
    forall x | x in Elements(a) ensures x <= bound { assert x in Elements(b); }
  }

  lemma AtLeastSubset(a: Tree, b: Tree, bound: int)
    requires Within(a, b) && AtLeast(b, bound)
    ensures AtLeast(a, bound)
  {
    forall y | y in Elements(a) ensures bound <= y { assert y in Elements(b); }
  }

  ghost predicate Sorted(s: seq<int>) {
    forall i, j | 0 <= i < j < |s| :: s[i] <= s[j]
  }

  /** Two trees with the same links and possibly different items. */
  predicate SameShape(a: Tree, b: Tree) {
    match (a, b)
    case (Nil, Nil) => true
    case (Node(al, _, ar), Node(bl, _, br)) => SameShape(al, bl) && SameShape(ar, br)
    case _ => false
  }

  lemma {:induction false} CountElements(t: Tree)
    ensures |Elements(t)| == Count(t)
  {
    match t
    case Nil =>
    case Node(l, _, r) => CountElements(l); CountElements(r);
  }

  lemma {:induction false} InOrderElements(t: Tree)
    ensures multiset(InOrder(t)) == Elements(t)
    ensures |InOrder(t)| == Count(t)
  {
    match t
    case Nil =>
    case Node(l, d, r) =>
      InOrderElements(l); InOrderElements(r);
      assert InOrder(t) == InOrder(l) + [d] + InOrder(r);
  }

  lemma {:induction false} PreOrderElements(t: Tree)
    ensures multiset(PreOrder(t)) == Elements(t)
    ensures |PreOrder(t)| == Count(t)
  {
    match t
    case Nil =>
    case Node(l, d, r) =>
      PreOrderElements(l); PreOrderElements(r);
      assert PreOrder(t) == [d] + PreOrder(l) + PreOrder(r);
  }

  /** `a + [d] + b` is sorted exactly when both halves are and `d` separates them. */
  lemma SortedAround(a: seq<int>, d: int, b: seq<int>)
    ensures Sorted(a + [d] + b) <==>
      Sorted(a) && Sorted(b) && (forall x | x in a :: x <= d) && (forall y | y in b :: d <= y)
  {
    var s := a + [d] + b;
    if Sorted(a) && Sorted(b) && (forall x | x in a :: x <= d) && (forall y | y in b :: d <= y) {
      forall i, j | 0 <= i < j < |s| ensures s[i] <= s[j] {
        if j < |a| {
          assert s[i] == a[i] && s[j] == a[j];
        } else if |a| < i {
          assert s[i] == b[i - |a| - 1] && s[j] == b[j - |a| - 1];
        } else {
          assert s[|a|] == d;
          if i < |a| { assert s[i] == a[i] && a[i] in a; }
          if |a| < j { assert s[j] == b[j - |a| - 1] && b[j - |a| - 1] in b; }
        }
      }
    }
    if Sorted(s) {
      forall x | x in a ensures x <= d {
        var i :| 0 <= i < |a| && a[i] == x;
        assert s[i] == x && s[|a|] == d;
      }
      forall y | y in b ensures d <= y {
        var k :| 0 <= k < |b| && b[k] == y;
        assert s[|a| + 1 + k] == y && s[|a|] == d;
      }
      forall i, j | 0 <= i < j < |a| ensures a[i] <= a[j] {
        assert s[i] == a[i] && s[j] == a[j];
      }
      forall i, j | 0 <= i < j < |b| ensures b[i] <= b[j] {
        assert s[|a| + 1 + i] == b[i] && s[|a| + 1 + j] == b[j];
      }
    }
  }

  /** The ordering invariant holds exactly when the in-order sequence is non-decreasing. */
  lemma {:induction false} OrderedIffSorted(t: Tree)
    ensures Ordered(t) <==> Sorted(InOrder(t))
  {
    match t
    case Nil =>
    case Node(l, d, r) =>
      OrderedIffSorted(l);
      OrderedIffSorted(r);
      InOrderElements(l);
      InOrderElements(r);
      SortedAround(InOrder(l), d, InOrder(r));
      assert forall x :: x in InOrder(l) <==> x in Elements(l);
      assert forall y :: y in InOrder(r) <==> y in Elements(r);
      assert AtMost(l, d) <==> forall x | x in InOrder(l) :: x <= d;
      assert AtLeast(r, d) <==> forall y | y in InOrder(r) :: d <= y;
  }

  /** Same shape means the same number of nodes. */
  lemma {:induction false} SameShapeCount(a: Tree, b: Tree)
    requires SameShape(a, b)
    ensures Count(a) == Count(b)
  {
    match (a, b)
    case (Nil, Nil) =>
    case (Node(al, _, ar), Node(bl, _, br)) => SameShapeCount(al, bl); SameShapeCount(ar, br);
  }
}
