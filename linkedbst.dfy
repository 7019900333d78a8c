/** The class `LinkedBST`: a root link and the size counter `_size`. Every method
    that walks the tree keeps the path it has taken (see `Zipper`) and, where the
    source rewrites a child link or a node's data at the end of the walk, links the
    rewritten subtree back in along that path. */
module LinkedBst {
  import opened Outcomes
  import opened Trees
  import opened TreeOps
  import opened Balance
  import opened Zipper

  /** What `find_no_rec` returns: the stored item, or `False` on a miss. */
  datatype NoRecAnswer = Data(item: int) | ReturnedFalse

  class LinkedBST {
    var root: Tree
    var size: int

    /** The size counter never exceeds the node count (`add_no_recursion` may leave
        it behind) and is zero only for the empty tree. The ordering is not part of
        it, because `replace` can break it. */
    ghost predicate Valid()
      reads this
    {
      0 <= size <= Count(root) && (size == 0 ==> root == Nil)
    }

    constructor ()
      ensures Valid() && root == Nil && size == 0
    {
      root := Nil;
      size := 0;
    }

    /** `find`: the stored item equal to `item`, or `None`. */
    function Find(item: int): (r: Option<int>)
      reads this
      ensures r == None || r == Some(item)
      ensures Ordered(root) ==> (r.Some? <==> item in Elements(root))
    {
      FindComplete(root, item);
      FindIn(root, item)
    }

    /** `__contains__`: `find(item) != None`. */
    function Contains(item: int): (b: bool)
      reads this
      ensures b ==> item in Elements(root)
      ensures Ordered(root) ==> (b <==> item in Elements(root))
    {
      Find(item) != None
    }

    /** `find_no_rec`: the same descent as `find` as a loop, with `False` for `None`. */
    method FindNoRec(item: int) returns (r: NoRecAnswer)
      ensures r == (if Find(item).Some? then Data(item) else ReturnedFalse)
      ensures Ordered(root) ==> (r.Data? <==> item in Elements(root))
    {
      FindComplete(root, item);
      var node := root;
      while node != Nil
        invariant FindIn(node, item) == FindIn(root, item)
        decreases node
      {
        if item == node.data {
          return Data(node.data);
        } else if item < node.data {
          node := node.left;
        } else {
          node := node.right;
        }
      }
      return ReturnedFalse;
    }

    method Clear()
      modifies this
      ensures Valid() && root == Nil && size == 0
    {
      root := Nil;
      size := 0;
    }

    /** `add_no_recursion`: the tree `add` builds, but the counter only moves
        from 0 to 1 on an empty tree. */
    method AddNoRecursion(item: int)
      requires Valid()
      modifies this
      ensures Valid()
      ensures root == Insert(old(root), item)
      ensures size == if old(size) == 0 then 1 else old(size)
      ensures Elements(root) == old(Elements(root)) + multiset{item}
      ensures old(Ordered(root)) ==> Ordered(root)
    {
      if Ordered(root) { InsertOrdered(root, item); }
      if size == 0 {
        root := Leaf(item);
        size := size + 1;
        return;
      }
      root := HangBelow(root, item);
    }

    /** `add_no_recursion` with the counter moved on every insertion, as `add`
        does: a counter that matched the node count still does. */
    method AddNoRecursionCounted(item: int)
      requires Valid()
      modifies this
      ensures Valid()
      ensures root == Insert(old(root), item) && size == old(size) + 1
      ensures old(size == Count(root)) ==> size == Count(root)
      ensures Elements(root) == old(Elements(root)) + multiset{item}
      ensures old(Ordered(root)) ==> Ordered(root)
    {
      if Ordered(root) { InsertOrdered(root, item); }
      if size == 0 {
        root := Leaf(item);
      } else {
        root := HangBelow(root, item);
      }
      size := size + 1;
    }

    /** `add`: the item hangs from the first absent link on its descent, and the
        counter goes up by one. */
    method Add(item: int)
      requires Valid()
      modifies this
      ensures Valid()
      ensures root == Insert(old(root), item) && size == old(size) + 1
      ensures Elements(root) == old(Elements(root)) + multiset{item}
      ensures old(Ordered(root)) ==> Ordered(root)
    {
      if Ordered(root) { InsertOrdered(root, item); }
      if size == 0 {
        root := Leaf(item);
      } else {
        root := Insert(root, item);
      }
      size := size + 1;
    }

    /** `remove`: `KeyError` when `item` is not found, otherwise the node the
        descent reaches first is deleted, the counter goes down by one and, should
        it reach zero, the root link is cleared. */
    method Remove(item: int) returns (r: Result<int>)
      requires Valid()
      modifies this
      ensures Valid()
      ensures old(FindIn(root, item)).None? ==>
        r == Failure(KeyError) && root == old(root) && size == old(size)
      ensures old(FindIn(root, item)).Some? ==>
        r == Success(item) && size == old(size) - 1 &&
        root == (if size == 0 then Nil else DeleteAt(old(root), item))
      ensures old(Ordered(root)) ==> Ordered(root)
      ensures old(Ordered(root)) ==> (r.Failure? <==> item !in old(Elements(root)))
      ensures old(size == Count(root)) ==> size == Count(root)
      ensures old(size == Count(root)) && r.Success? ==>
        Elements(root) + multiset{item} == old(Elements(root))
    {
      ghost var t0 := root;
      FindComplete(root, item);
      if !Contains(item) {
        return Failure(KeyError);
      }
      var newRoot, removed := Unlink(root, item);
      DeleteElements(t0, item);
      DeleteCount(t0, item);
      if Ordered(t0) { DeleteOrdered(t0, item); }
      size := size - 1;
      if size == 0 {
        root := Nil;
      } else {
        root := newRoot;
      }
      r := Success(removed);
    }

    /** `replace`: the node the descent reaches first with data equal to `item`
        gets `newItem`, and its old data is returned; nothing else changes. */
    method Replace(item: int, newItem: int) returns (r: Option<int>)
      requires Valid()
      modifies this
      ensures Valid()
      ensures r == old(FindIn(root, item))
      ensures root == ReplaceAt(old(root), item, newItem) && size == old(size)
      ensures SameShape(root, old(root))
      ensures r.Some? ==> Elements(root) + multiset{item} == old(Elements(root)) + multiset{newItem}
      ensures r.None? ==> root == old(root)
      ensures old(Ordered(root)) ==> (r.Some? <==> item in old(Elements(root)))
    {
      ReplaceShape(root, item, newItem);
      SameShapeCount(ReplaceAt(root, item, newItem), root);
      FindComplete(root, item);
      if FindIn(root, item).Some? {
        ReplaceElements(root, item, newItem);
      } else {
        ReplaceMissing(root, item, newItem);
      }
      var probe := root;
      var path: seq<Frame> := [];
      while probe != Nil
        invariant root == old(root) && size == old(size)
        invariant FindIn(probe, item) == FindIn(root, item)
        invariant Plug(path, ReplaceAt(probe, item, newItem)) == ReplaceAt(root, item, newItem)
        decreases probe
      {
        var f: Frame;
        if probe.data == item {
          var oldData := probe.data;
          root := Plug(path, Node(probe.left, newItem, probe.right));
          return Some(oldData);
        } else if probe.data > item {
          f := WentLeft(probe.data, probe.right);
          PlugStep(path, f, ReplaceAt(probe.left, item, newItem));
          probe := probe.left;
        } else {
          f := WentRight(probe.left, probe.data);
          PlugStep(path, f, ReplaceAt(probe.right, item, newItem));
          probe := probe.right;
        }
        path := path + [f];
      }
      return None;
    }

    /** `height`: -1 for the empty tree; never lower than the least height of a
        tree with as many nodes, and lower than the node count. */
    function Height(): (h: int)
      reads this
      ensures -1 <= h < Count(root)
      ensures MinHeight(Count(root)) <= h
    {
      MinHeightIsLeast(root);
      TreeHeight(root)
    }

    /** `is_balanced`: `height == ceil(log2(_size + 1)) - 1`, that is, the height
        is the exponent of the largest power of two not above the counter (or
        -1 with a zero counter). */
    function IsBalanced(): (b: bool)
      reads this
      requires Valid()
      ensures b <==> (size == 0 && Height() == -1) ||
                     (0 <= Height() && Pow2(Height()) <= size < Pow2(Height() + 1))
    {
      MinHeightMeaning(Height(), size);
      Height() == MinHeight(size)
    }

    /** `inorder`: the items in in-order, collected into a list. */
    method InOrderItems() returns (items: seq<int>)
      ensures items == InOrder(root)
      ensures multiset(items) == Elements(root)
      ensures Ordered(root) <==> Sorted(items)
    {
      items := CollectInOrder(root, []);
      InOrderElements(root);
      OrderedIffSorted(root);
    }

    /** `__iter__`: pre-order with an explicit stack (top first); the right child
        is pushed before the left one so that the left subtree comes first. */
    method Iterate() returns (items: seq<int>)
      requires Valid()
      ensures items == PreOrder(root)
      ensures multiset(items) == Elements(root)
    {
      items := [];
      if size != 0 {
        var stack := [root];
        assert StackOrder(stack) == PreOrder(root) + StackOrder([]);
        while stack != []
          invariant AllNodes(stack)
          invariant items + StackOrder(stack) == PreOrder(root)
          decreases StackCount(stack)
        {
          var node := stack[0];
          var rest := stack[1..];
          items := items + [node.data];
          stack := rest;
          if node.right != Nil {
            stack := [node.right] + stack;
          }
          if node.left != Nil {
            stack := [node.left] + stack;
          }
          StackPop(rest, node, stack);
        }
      }
      PreOrderElements(root);
    }

    /** `range_find`: the pre-order list sliced from the first index of `low` up to,
        not including, the first index of `high`; `ValueError` when either bound is
        missing. High is thus never in the answer, and a `low` that comes after
        `high` gives the empty list. */
    method RangeFind(low: int, high: int) returns (r: Result<seq<int>>)
      requires Valid()
      ensures r.Failure? <==> low !in Elements(root) || high !in Elements(root)
      ensures r.Failure? ==> r.error == ValueError
      ensures r.Success? ==>
        var pre, i, j := PreOrder(root), FirstIndex(PreOrder(root), low), FirstIndex(PreOrder(root), high);
        i.Some? && j.Some? && r.value == PySlice(pre, i.value, j.value)
      ensures r.Success? ==> high !in r.value && multiset(r.value) <= Elements(root)
      ensures r.Success? && r.value != [] ==> r.value[0] == low
    {
      var items := Iterate();
      PreOrderElements(root);
      var i1 := FirstIndex(items, low);
      if i1.None? {
        return Failure(ValueError);
      }
      var i2 := FirstIndex(items, high);
      if i2.None? {
        return Failure(ValueError);
      }
      SliceBetween(items, low, high);
      r := Success(PySlice(items, i1.value, i2.value));
    }

    /** `rebalance`: the in-order list rebuilt by `small_rebalance`. The items and
        their in-order sequence stay, the height becomes the least possible, and
        the tree is balanced whenever the counter equals the node count. */
    method Rebalance()
      requires Valid()
      modifies this
      ensures Valid() && size == old(size)
      ensures root == Rebuild(old(InOrder(root)))
      ensures InOrder(root) == old(InOrder(root))
      ensures Elements(root) == old(Elements(root))
      ensures TreeHeight(root) == MinHeight(Count(root))
      ensures old(Ordered(root)) ==> Ordered(root)
      ensures size == Count(root) ==> IsBalanced()
    {
      RebuildKeeps(root);
      var arr := InOrderItems();
      root := Rebuild(arr);
    }

    /** `successor`: the least item greater than `item`, found by one descent that
        remembers the last node where it turned left. */
    method Successor(item: int) returns (r: Option<int>)
      ensures r == SuccessorFrom(root, item, None)
      ensures r.Some? ==> r.value in Elements(root) && item < r.value
      ensures Ordered(root) ==> IsSuccessor(root, item, r)
    {
      var curr := root;
      var last: Option<int> := None;
      while curr != Nil
        invariant SuccessorFrom(curr, item, last) == SuccessorFrom(root, item, None)
        decreases curr
      {
        if item < curr.data {
          last := Some(curr.data);
          curr := curr.left;
        } else {
          curr := curr.right;
        }
      }
      if last.Some? && last.value > item {
        r := last;
      } else {
        r := None;
      }
      if Ordered(root) { SuccessorCorrect(root, item); }
    }

    /** `predecessor`: the greatest item smaller than `item`, found by one descent
        that remembers the last node where it turned right. */
    method Predecessor(item: int) returns (r: Option<int>)
      ensures r == PredecessorFrom(root, item, None)
      ensures r.Some? ==> r.value in Elements(root) && r.value < item
      ensures Ordered(root) ==> IsPredecessor(root, item, r)
    {
      var curr := root;
      var last: Option<int> := None;
      while curr != Nil
        invariant PredecessorFrom(curr, item, last) == PredecessorFrom(root, item, None)
        decreases curr
      {
        if item > curr.data {
          last := Some(curr.data);
          curr := curr.right;
        } else {
          curr := curr.left;
        }
      }
      if last.Some? && last.value < item {
        r := last;
      } else {
        r := None;
      }
      if Ordered(root) { PredecessorCorrect(root, item); }
    }
  }

  /** The loop of `add_no_recursion` on a non-empty tree: descend left when
      `item` is smaller and right otherwise, and hang a new leaf from the first
      absent link. The path of frames stands for the node the source holds on to. */
  method HangBelow(t: Tree, item: int) returns (u: Tree)
    requires t.Node?
    ensures u == Insert(t, item)
  {
    var curr := t;
    var path: seq<Frame> := [];
    while true
      invariant curr.Node?
      invariant Plug(path, Insert(curr, item)) == Insert(t, item)
      decreases curr
    {
      var f: Frame;
      if item < curr.data {
        if curr.left == Nil {
          return Plug(path, Node(Leaf(item), curr.data, curr.right));
        }
        f := WentLeft(curr.data, curr.right);
        PlugStep(path, f, Insert(curr.left, item));
        curr := curr.left;
      } else if curr.right == Nil {
        return Plug(path, Node(curr.left, curr.data, Leaf(item)));
      } else {
        f := WentRight(curr.left, curr.data);
        PlugStep(path, f, Insert(curr.right, item));
        curr := curr.right;
      }
      path := path + [f];
    }
  }

  /** The link surgery of `remove` on a tree that holds `item`: descend to the
      first node whose data equals `item`, remembering where each step came from,
      splice that node out (lifting its left subtree's maximum into it when it has
      two children), and relink the parent. The path of frames stands for the
      parent and direction the source keeps; its empty form is the pre-root. */
  method Unlink(t: Tree, item: int) returns (u: Tree, removed: int)
    requires FindIn(t, item).Some?
    ensures u == DeleteAt(t, item) && removed == item
  {
    var path: seq<Frame> := [];
    var curr := t;
    while curr.data != item
      invariant FindIn(curr, item).Some?
      invariant Plug(path, DeleteAt(curr, item)) == DeleteAt(t, item)
      decreases curr
    {
      var f: Frame;
      if curr.data > item {
        f := WentLeft(curr.data, curr.right);
        PlugStep(path, f, DeleteAt(curr.left, item));
        curr := curr.left;
      } else {
        f := WentRight(curr.left, curr.data);
        PlugStep(path, f, DeleteAt(curr.right, item));
        curr := curr.right;
      }
      path := path + [f];
    }
    removed := curr.data;
    var newChild: Tree;
    if curr.left != Nil && curr.right != Nil {
      newChild := LiftMaxInLeftSubtreeToTop(curr);
    } else if curr.left == Nil {
      newChild := curr.right;
    } else {
      newChild := curr.left;
    }
    u := Plug(path, newChild);
  }

  /** `liftMaxInLeftSubtreeToTop`: `top` takes the item of the rightmost node of
      its left subtree, and that node, which has no right child, is replaced by
      its left child. */
  method LiftMaxInLeftSubtreeToTop(top: Tree) returns (t: Tree)
    requires top.Node? && top.left.Node?
    ensures t == Node(RemoveRightmost(top.left), Rightmost(top.left), top.right)
  {
    var spine: seq<Frame> := [];
    var curr := top.left;
    while curr.right != Nil
      invariant curr.Node?
      invariant Plug(spine, RemoveRightmost(curr)) == RemoveRightmost(top.left)
      invariant Rightmost(curr) == Rightmost(top.left)
      decreases curr
    {
      var f := WentRight(curr.left, curr.data);
      PlugStep(spine, f, RemoveRightmost(curr.right));
      spine := spine + [f];
      curr := curr.right;
    }
    var newLeft: Tree;
    if spine == [] {
      newLeft := curr.left;
    } else {
      newLeft := Plug(spine, curr.left);
    }
    t := Node(newLeft, curr.data, top.right);
  }

  /** The recursive helper of `inorder`: appends the in-order items of `node` to `lyst`. */
  method CollectInOrder(node: Tree, lyst: seq<int>) returns (out: seq<int>)
    ensures out == lyst + InOrder(node)
    decreases node
  {
    if node == Nil {
      out := lyst;
    } else {
      out := CollectInOrder(node.left, lyst);
      out := out + [node.data];
      out := CollectInOrder(node.right, out);
    }
  }

  /** Only nodes are ever pushed. */
  ghost predicate AllNodes(stack: seq<Tree>) {
    stack == [] || (stack[0].Node? && AllNodes(stack[1..]))
  }

  /** The items still to come from a traversal stack: the subtree on top first. */
  ghost function StackOrder(stack: seq<Tree>): seq<int> {
    if stack == [] then [] else PreOrder(stack[0]) + StackOrder(stack[1..])
  }

  function StackCount(stack: seq<Tree>): nat {
    if stack == [] then 0 else Count(stack[0]) + StackCount(stack[1..])
  }

  lemma StackPush(stack: seq<Tree>, t: Tree)
    ensures StackOrder([t] + stack) == PreOrder(t) + StackOrder(stack)
    ensures StackCount([t] + stack) == Count(t) + StackCount(stack)
    ensures AllNodes([t] + stack) <==> t.Node? && AllNodes(stack)
  {
    assert ([t] + stack)[1..] == stack;
  }

  /** Popping `node` off `[node] + rest` and pushing its present children, right
      first, gives `pushed`: the traversal yields `node`'s item and then `pushed`'s
      order, and `pushed` is smaller and still holds only nodes. */
  lemma StackPop(rest: seq<Tree>, node: Tree, pushed: seq<Tree>)
    requires node.Node? && AllNodes(rest)
    requires var pushedRight := if node.right != Nil then [node.right] + rest else rest;
      pushed == if node.left != Nil then [node.left] + pushedRight else pushedRight
    ensures [node.data] + StackOrder(pushed) == StackOrder([node] + rest)
    ensures StackCount(pushed) < StackCount([node] + rest)
    ensures AllNodes(pushed)
  {
    var l, d, r := node.left, node.data, node.right;
    var pushedRight := if r != Nil then [r] + rest else rest;
    StackPush(rest, node);
    StackPush(rest, r);
    StackPush(pushedRight, l);
    assert StackOrder(pushedRight) == PreOrder(r) + StackOrder(rest) by {
      if r == Nil {
        assert PreOrder(r) + StackOrder(rest) == StackOrder(rest);
      }
    }
    assert StackOrder(pushed) == PreOrder(l) + StackOrder(pushedRight) by {
      if l == Nil {
        assert PreOrder(l) + StackOrder(pushedRight) == StackOrder(pushedRight);
      }
    }
    assert StackCount(pushedRight) == Count(r) + StackCount(rest);
    assert StackCount(pushed) == Count(l) + StackCount(pushedRight);
    Regroup([d], PreOrder(l), PreOrder(r), StackOrder(rest));
  }

  /** Concatenation regrouped; kept apart from StackPop so that its context stays small. */
  lemma Regroup(a: seq<int>, b: seq<int>, c: seq<int>, e: seq<int>)
    ensures a + (b + (c + e)) == a + b + c + e
  {
  }

  /** `list.index`: the first position of `x` in `s`, or `None` where Python raises `ValueError`. */
  function FirstIndex(s: seq<int>, x: int): (r: Option<nat>)
    ensures r.None? <==> x !in s
    ensures r.Some? ==> r.value < |s| && s[r.value] == x && x !in s[..r.value]
  {
    if s == [] then None
    else if s[0] == x then Some(0)
    else
      match FirstIndex(s[1..], x)
      case None => None
      case Some(i) =>
        assert s[..i + 1] == [s[0]] + s[1..][..i];
        Some(i + 1)
  }

  /** Python's `s[i:j]` for `0 <= i, j <= len(s)`: empty when `j <= i`. */
  function PySlice(s: seq<int>, i: nat, j: nat): (r: seq<int>)
    requires i <= |s| && j <= |s|
    ensures |r| == if i < j then j - i else 0
    ensures forall k | 0 <= k < |r| :: r[k] == s[i + k]
  {
    if i < j then s[i..j] else []
  }

  /** The slice between the first `low` and the first `high` never holds `high`,
      starts with `low` when not empty, and holds only items of `s`. */
  lemma SliceBetween(s: seq<int>, low: int, high: int)
    requires FirstIndex(s, low).Some? && FirstIndex(s, high).Some?
    ensures var slice := PySlice(s, FirstIndex(s, low).value, FirstIndex(s, high).value);
      high !in slice && multiset(slice) <= multiset(s) && (slice != [] ==> slice[0] == low)
  {
    var i, j := FirstIndex(s, low).value, FirstIndex(s, high).value;
    if i < j {
      var slice := s[i..j];
      assert slice == s[..j][i..];
      assert high !in s[..j];
      assert slice[0] == s[i];
      SliceMultiset(s, i, j);
    }
  }

  lemma SliceMultiset(s: seq<int>, i: nat, j: nat)
    requires i <= j <= |s|
    ensures multiset(s[i..j]) <= multiset(s)
  {
    assert s == s[..i] + s[i..j] + s[j..];
  }

  /** Two calls of `add_no_recursion` on a new tree: two nodes, a counter of 1. */
  method LaggingTree() returns (t: LinkedBST)
    ensures fresh(t) && t.Valid()
    ensures t.root == Node(Nil, 1, Leaf(2)) && t.size == 1
  {
    t := new LinkedBST();
    t.AddNoRecursion(1);
    assert t.root == Leaf(1) && t.size == 1;
    t.AddNoRecursion(2);
    assert Insert(Leaf(1), 2) == Node(Nil, 1, Leaf(2));
  }

  /** A client of the class: because `add_no_recursion` left the counter at 1,
      removing one of the two items brings the counter to 0, and `remove` then
      clears the root link, so the other item is gone as well. */
  method CounterLagExample() {
    var t := LaggingTree();
    assert FindIn(t.root, 1) == Some(1);
    var r := t.Remove(1);
    assert r == Success(1) && t.size == 0;
    assert t.root == Nil;
    assert FindIn(t.root, 2) == None;
  }
}
