/** The tree operations of `LinkedBST` as functions on tree values: the recursive
    search of `find`, the recursive insertion of `add`, and the value that the
    loop-based `remove` and `replace` leave behind. The class methods are proved
    against these. */
module TreeOps {
  import opened Outcomes
  import opened Trees

  /** The recursive helper of `find`: equal returns the stored item, smaller goes
      left, anything else goes right. */
  function FindIn(t: Tree, item: int): (r: Option<int>)
    ensures r == None || r == Some(item)
    ensures r.Some? ==> item in Elements(t)
  {
    match t
    case Nil => None
    case Node(l, d, rt) =>
      if item == d then Some(d)
      else if item < d then FindIn(l, item)
      else FindIn(rt, item)
  }

  /** On an ordered tree the descent finds `item` exactly when it occurs. */
  lemma {:induction false} FindComplete(t: Tree, item: int)
    ensures Ordered(t) ==> (FindIn(t, item).Some? <==> item in Elements(t))
  {
    match t
    case Nil =>
    case Node(l, d, r) =>
      if Ordered(t) && item != d && item in Elements(t) {
        if item < d {
          assert item !in Elements(r);
          FindComplete(l, item);
        } else {
          assert item !in Elements(l);
          FindComplete(r, item);
        }
      }
  }

  /** The recursive helper of `add`: a smaller item goes left, a greater or equal
      one goes right, and the new leaf hangs from the first absent link. */
  function Insert(t: Tree, item: int): (u: Tree)
    ensures Elements(u) == Elements(t) + multiset{item}
    ensures Count(u) == Count(t) + 1
  {
    match t
    case Nil => Leaf(item)
    case Node(l, d, r) =>
      if item < d then Node(Insert(l, item), d, r)
      else Node(l, d, Insert(r, item))
  }

  lemma {:induction false} InsertOrdered(t: Tree, item: int)
    requires Ordered(t)
    ensures Ordered(Insert(t, item))
  {
    match t
    case Nil =>
    case Node(l, d, r) =>
      if item < d {
        InsertOrdered(l, item);
        var u := Insert(l, item);
        assert AtMost(u, d) by {
          forall x | x in Elements(u) ensures x <= d {
            assert x in Elements(l) || x == item;
          }
        }
        assert Insert(t, item) == Node(u, d, r);
      } else {
        InsertOrdered(r, item);
        var u := Insert(r, item);
        assert AtLeast(u, d) by {
          forall y | y in Elements(u) ensures d <= y {
            assert y in Elements(r) || y == item;
          }
        }
        assert Insert(t, item) == Node(l, d, u);
      }
  }

  /** The item of the node reached by following right links from the top of `t`. */
  function Rightmost(t: Tree): (m: int)
    requires t.Node?
    ensures m in Elements(t)
  {
    if t.right == Nil then t.data else Rightmost(t.right)
  }

  /** `t` with its rightmost node spliced out: that node has no right child, so
      its parent takes over its left child. */
  function RemoveRightmost(t: Tree): (u: Tree)
    requires t.Node?
    ensures Elements(u) + multiset{Rightmost(t)} == Elements(t)
    ensures Count(u) + 1 == Count(t)
  {
    if t.right == Nil then t.left else Node(t.left, t.data, RemoveRightmost(t.right))
  }

  /** On an ordered tree the rightmost item is a maximum, and splicing it out keeps the order. */
  lemma {:induction false} RightmostIsMax(t: Tree)
    requires t.Node? && Ordered(t)
    ensures AtMost(t, Rightmost(t))
    ensures Ordered(RemoveRightmost(t))
  {
    if t.right != Nil {
      RightmostIsMax(t.right);
      assert t.data <= Rightmost(t.right);
      forall x | x in Elements(RemoveRightmost(t.right)) ensures x in Elements(t.right) {
        assert x in Elements(RemoveRightmost(t.right)) + multiset{Rightmost(t.right)};
      }
    }
  }

  /** What `remove` makes of the subtree it walks: the first node whose item equals
      `item` on the ordered descent is deleted; a node with two children takes the
      maximum of its left subtree, which is spliced out of that subtree, and a node
      with at most one child is replaced by that child. */
  function DeleteAt(t: Tree, item: int): (u: Tree)
    ensures Count(u) <= Count(t)
  {
    match t
    case Nil => Nil
    case Node(l, d, r) =>
      if d == item then
        if l.Node? && r.Node? then Node(RemoveRightmost(l), Rightmost(l), r)
        else if l == Nil then r
        else l
      else if d > item then Node(DeleteAt(l, item), d, r)
      else Node(l, d, DeleteAt(r, item))
  }

  /** Deleting a found item removes exactly one occurrence of it. */
  lemma {:induction false} DeleteElements(t: Tree, item: int)
    requires FindIn(t, item).Some?
    ensures Elements(DeleteAt(t, item)) + multiset{item} == Elements(t)
  {
    var l, d, r := t.left, t.data, t.right;
    if d == item {
      DeleteHere(l, d, r);
    } else if d > item {
      DeleteElements(l, item);
      var l' := DeleteAt(l, item);
      assert DeleteAt(t, item) == Node(l', d, r);
      ElementsLeft(l', l, d, r, multiset{item});
    } else {
      DeleteElements(r, item);
      var r' := DeleteAt(r, item);
      assert DeleteAt(t, item) == Node(l, d, r');
      ElementsRight(l, d, r', r, multiset{item});
    }
  }

  /** Deleting the root itself leaves all the other items. */
  lemma DeleteHere(l: Tree, d: int, r: Tree)
    ensures Elements(DeleteAt(Node(l, d, r), d)) + multiset{d} == Elements(Node(l, d, r))
  {
    if l.Node? && r.Node? {
      var m, l' := Rightmost(l), RemoveRightmost(l);
      assert DeleteAt(Node(l, d, r), d) == Node(l', m, r);
      MultisetTrade(Elements(l') + multiset{m}, Elements(l), d, Elements(r), multiset{}, multiset{});
      MultisetTrade(Elements(l'), Elements(l'), m, Elements(r), multiset{d}, multiset{d});
    }
  }

  /** A left subtree that lost `extra` makes the whole tree lose it. */
  lemma ElementsLeft(l': Tree, l: Tree, d: int, r: Tree, extra: multiset<int>)
    requires Elements(l') + extra == Elements(l)
    ensures Elements(Node(l', d, r)) + extra == Elements(Node(l, d, r))
  {
    MultisetTrade(Elements(l'), Elements(l), d, Elements(r), extra, multiset{});
  }

  lemma ElementsRight(l: Tree, d: int, r': Tree, r: Tree, extra: multiset<int>)
    requires Elements(r') + extra == Elements(r)
    ensures Elements(Node(l, d, r')) + extra == Elements(Node(l, d, r))
  {
    MultisetTrade(Elements(r'), Elements(r), d, Elements(l), extra, multiset{});
  }

  lemma DeleteCount(t: Tree, item: int)
    requires FindIn(t, item).Some?
    ensures Count(DeleteAt(t, item)) + 1 == Count(t)
  {
    DeleteElements(t, item);
    CountElements(t);
    CountElements(DeleteAt(t, item));
  }

  /** Deleting an item the descent misses changes nothing. */
  lemma {:induction false} DeleteMissing(t: Tree, item: int)
    requires FindIn(t, item).None?
    ensures DeleteAt(t, item) == t
  {
    match t
    case Nil =>
    case Node(l, d, r) =>
      if d > item { DeleteMissing(l, item); } else { DeleteMissing(r, item); }
  }

  lemma DeleteShrinks(t: Tree, item: int)
    ensures Within(DeleteAt(t, item), t)
  {
    if FindIn(t, item).Some? {
      DeleteElements(t, item);
      forall x | x in Elements(DeleteAt(t, item)) ensures x in Elements(t) {
        assert x in Elements(DeleteAt(t, item)) + multiset{item};
      }
    } else {
      DeleteMissing(t, item);
    }
  }

  lemma {:induction false} DeleteOrdered(t: Tree, item: int)
    requires Ordered(t)
    ensures Ordered(DeleteAt(t, item))
  {
    match t
    case Nil =>
    case Node(l, d, r) =>
      if d == item {
        if l.Node? && r.Node? {
          LiftOrdered(l, d, r);
        }
      } else if d > item {
        DeleteOrdered(l, item);
        DeleteShrinks(l, item);
        var l' := DeleteAt(l, item);
        AtMostSubset(l', l, d);
        assert DeleteAt(t, item) == Node(l', d, r);
      } else {
        DeleteOrdered(r, item);
        DeleteShrinks(r, item);
        var r' := DeleteAt(r, item);
        AtLeastSubset(r', r, d);
        assert DeleteAt(t, item) == Node(l, d, r');
      }
  }

  /** Lifting the left subtree's maximum into a two-child node keeps the order. */
  lemma LiftOrdered(l: Tree, d: int, r: Tree)
    requires l.Node? && Ordered(Node(l, d, r))
    ensures Ordered(Node(RemoveRightmost(l), Rightmost(l), r))
  {
    var m, l' := Rightmost(l), RemoveRightmost(l);
    RightmostIsMax(l);
    forall x | x in Elements(l') ensures x in Elements(l) {
      assert x in Elements(l') + multiset{m};
    }
    AtMostSubset(l', l, m);
    assert m <= d;
    assert AtLeast(r, m);
  }

  /** What `replace` makes of the tree: the first node whose item equals `item` on
      the ordered descent gets `newItem` as its data; no link changes. */
  function ReplaceAt(t: Tree, item: int, newItem: int): (u: Tree)
    ensures Count(u) == Count(t)
  {
    match t
    case Nil => Nil
    case Node(l, d, r) =>
      if d == item then Node(l, newItem, r)
      else if d > item then Node(ReplaceAt(l, item, newItem), d, r)
      else Node(l, d, ReplaceAt(r, item, newItem))
  }

  /** Replacing keeps every link. */
  lemma {:induction false} ReplaceShape(t: Tree, item: int, newItem: int)
    ensures SameShape(ReplaceAt(t, item, newItem), t)
  {
    match t
    case Nil =>
    case Node(l, d, r) =>
      if d == item {
        SameShapeRefl(l);
        SameShapeRefl(r);
      } else if d > item {
        ReplaceShape(l, item, newItem);
        SameShapeRefl(r);
      } else {
        ReplaceShape(r, item, newItem);
        SameShapeRefl(l);
      }
  }

  /** Replacing trades one occurrence of `item` for `newItem` when the descent reaches it. */
  lemma {:induction false} ReplaceElements(t: Tree, item: int, newItem: int)
    requires FindIn(t, item).Some?
    ensures Elements(ReplaceAt(t, item, newItem)) + multiset{item} == Elements(t) + multiset{newItem}
  {
    var l, d, r := t.left, t.data, t.right;
    if d == item {
      assert ReplaceAt(t, item, newItem) == Node(l, newItem, r);
    } else if d > item {
      ReplaceElements(l, item, newItem);
      var l' := ReplaceAt(l, item, newItem);
      assert ReplaceAt(t, item, newItem) == Node(l', d, r);
      ElementsTrade(l', l, d, r, item, newItem);
    } else {
      ReplaceElements(r, item, newItem);
      var r' := ReplaceAt(r, item, newItem);
      assert ReplaceAt(t, item, newItem) == Node(l, d, r');
      ElementsTrade(r', r, d, l, item, newItem);
    }
  }

  /** A subtree that traded `x` for `y` makes the whole tree trade it, on either side. */
  lemma ElementsTrade(a': Tree, a: Tree, d: int, b: Tree, x: int, y: int)
    requires Elements(a') + multiset{x} == Elements(a) + multiset{y}
    ensures Elements(Node(a', d, b)) + multiset{x} == Elements(Node(a, d, b)) + multiset{y}
    ensures Elements(Node(b, d, a')) + multiset{x} == Elements(Node(b, d, a)) + multiset{y}
  {
    MultisetTrade(Elements(a'), Elements(a), d, Elements(b), multiset{x}, multiset{y});
  }

  /** Multiset regrouping behind `ElementsTrade`, `ElementsLeft` and `ElementsRight`. */
  lemma MultisetTrade(a': multiset<int>, a: multiset<int>, d: int, b: multiset<int>, x: multiset<int>, y: multiset<int>)
    requires a' + x == a + y
    ensures a' + multiset{d} + b + x == a + multiset{d} + b + y
    ensures b + multiset{d} + a' + x == b + multiset{d} + a + y
  {
    calc {
      a' + multiset{d} + b + x;
      (a' + x) + (multiset{d} + b);
      (a + y) + (multiset{d} + b);
      a + multiset{d} + b + y;
    }
    calc {
      b + multiset{d} + a' + x;
      (b + multiset{d}) + (a' + x);
      (b + multiset{d}) + (a + y);
    }
  }

  /** Replacing an item the descent misses changes nothing. */
  lemma {:induction false} ReplaceMissing(t: Tree, item: int, newItem: int)
    requires FindIn(t, item).None?
    ensures ReplaceAt(t, item, newItem) == t
  {
    match t
    case Nil =>
    case Node(l, d, r) =>
      if d > item { ReplaceMissing(l, item, newItem); } else { ReplaceMissing(r, item, newItem); }
  }

  lemma {:induction false} SameShapeRefl(t: Tree)
    ensures SameShape(t, t)
  {
    match t
    case Nil =>
    case Node(l, _, r) => SameShapeRefl(l); SameShapeRefl(r);
  }

  /** `r` is what `successor` promises: the least item greater than `item`, or
      `None` when no item is greater. */
  ghost predicate IsSuccessor(t: Tree, item: int, r: Option<int>) {
    match r
    case None => forall y | y in Elements(t) :: y <= item
    case Some(v) => v in Elements(t) && item < v && forall y | y in Elements(t) && item < y :: v <= y
  }

  /** `r` is what `predecessor` promises: the greatest item smaller than `item`, or
      `None` when no item is smaller. */
  ghost predicate IsPredecessor(t: Tree, item: int, r: Option<int>) {
    match r
    case None => forall y | y in Elements(t) :: item <= y
    case Some(v) => v in Elements(t) && v < item && forall y | y in Elements(t) && y < item :: y <= v
  }

  /** The `successor` descent: at a node whose data exceeds `item` remember that
      data and go left, otherwise go right; the answer is the last remembered data.
      `last` is what the descent remembered before reaching `t`. */
  function SuccessorFrom(t: Tree, item: int, last: Option<int>): (r: Option<int>)
    ensures r == last || (r.Some? && r.value in Elements(t) && item < r.value)
  {
    match t
    case Nil => last
    case Node(l, d, r) =>
      if item < d then SuccessorFrom(l, item, Some(d)) else SuccessorFrom(r, item, last)
  }

  /** `r` is the least item above `item` among the items of `t` and the
      candidate `last`; `None` only when there is neither. */
  ghost predicate SuccessorAmong(t: Tree, item: int, last: Option<int>, r: Option<int>) {
    match r
    case None => last.None? && AtMost(t, item)
    case Some(v) =>
      (v in Elements(t) || last == Some(v)) && item < v &&
      forall y | y in Elements(t) && item < y :: v <= y
  }

  /** On an ordered tree whose items are all at most the candidate `last`, the
      descent finds the least item above `item`. */
  lemma {:induction false} SuccessorFromCorrect(t: Tree, item: int, last: Option<int>)
    requires Ordered(t)
    requires last.Some? ==> item < last.value && AtMost(t, last.value)
    ensures SuccessorAmong(t, item, last, SuccessorFrom(t, item, last))
  {
    match t
    case Nil =>
    case Node(l, d, r) =>
      if item < d {
        SuccessorFromCorrect(l, item, Some(d));
      } else {
        if last.Some? {
          assert AtMost(r, last.value) by {
            forall x | x in Elements(r) ensures x <= last.value { assert x in Elements(t); }
          }
        }
        SuccessorFromCorrect(r, item, last);
        assert AtMost(l, item) by {
          forall x | x in Elements(l) ensures x <= item { assert x <= d; }
        }
      }
  }

  /** What `successor` promises on an ordered tree. */
  lemma SuccessorCorrect(t: Tree, item: int)
    requires Ordered(t)
    ensures IsSuccessor(t, item, SuccessorFrom(t, item, None))
  {
    SuccessorFromCorrect(t, item, None);
  }

  /** The `predecessor` descent, the mirror of `SuccessorFrom`: at a node whose
      data is below `item` remember that data and go right, otherwise go left. */
  function PredecessorFrom(t: Tree, item: int, last: Option<int>): (r: Option<int>)
    ensures r == last || (r.Some? && r.value in Elements(t) && r.value < item)
  {
    match t
    case Nil => last
    case Node(l, d, r) =>
      if item > d then PredecessorFrom(r, item, Some(d)) else PredecessorFrom(l, item, last)
  }

  ghost predicate PredecessorAmong(t: Tree, item: int, last: Option<int>, r: Option<int>) {
    match r
    case None => last.None? && AtLeast(t, item)
    case Some(v) =>
      (v in Elements(t) || last == Some(v)) && v < item &&
      forall y | y in Elements(t) && y < item :: y <= v
  }

  lemma {:induction false} PredecessorFromCorrect(t: Tree, item: int, last: Option<int>)
    requires Ordered(t)
    requires last.Some? ==> last.value < item && AtLeast(t, last.value)
    ensures PredecessorAmong(t, item, last, PredecessorFrom(t, item, last))
  {
    match t
    case Nil =>
    case Node(l, d, r) =>
      if item > d {
        PredecessorFromCorrect(r, item, Some(d));
      } else {
        if last.Some? {
          assert AtLeast(l, last.value) by {
            forall x | x in Elements(l) ensures last.value <= x { assert x in Elements(t); }
          }
        }
        PredecessorFromCorrect(l, item, last);
        assert AtLeast(r, item) by {
          forall x | x in Elements(r) ensures item <= x { assert d <= x; }
        }
      }
  }

  /** What `predecessor` promises on an ordered tree. */
  lemma PredecessorCorrect(t: Tree, item: int)
    requires Ordered(t)
    ensures IsPredecessor(t, item, PredecessorFrom(t, item, None))
  {
    PredecessorFromCorrect(t, item, None);
  }
}
