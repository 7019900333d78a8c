/** Height, the balance criterion of `is_balanced`, and the rebuild of `rebalance`.
    The criterion `height == ceil(log2(size + 1)) - 1` is stated with an integer
    `CeilLog2` in place of floating-point `log2`. */
module Balance {
  import opened Trees

  function Pow2(k: nat): (p: nat)
    ensures p >= 1
  {
    if k == 0 then 1 else 2 * Pow2(k - 1)
  }

  lemma {:induction false} Pow2Monotone(a: nat, b: nat)
    requires a <= b
    ensures Pow2(a) <= Pow2(b)
  {
    if a < b { Pow2Monotone(a, b - 1); }
  }

  /** `ceil(log2(m))`: the least exponent whose power of two reaches `m`. */
  function CeilLog2(m: nat): (k: nat)
    requires m >= 1
    ensures m <= Pow2(k)
    ensures k > 0 ==> Pow2(k - 1) < m
  {
    if m == 1 then 0 else 1 + CeilLog2((m + 1) / 2)
  }

  /** The two bounds determine `CeilLog2` uniquely. */
  lemma {:induction false} CeilLog2Unique(m: nat, j: nat)
    requires m >= 1 && m <= Pow2(j) && (j > 0 ==> Pow2(j - 1) < m)
    ensures CeilLog2(m) == j
  {
    var k := CeilLog2(m);
    if k < j {
      Pow2Monotone(k, j - 1);
    } else if j < k {
      Pow2Monotone(j, k - 1);
    }
  }

  /** The height `is_balanced` demands of a tree of `n` items: `ceil(log2(n + 1)) - 1`. */
  function MinHeight(n: nat): (h: int)
    ensures h >= -1
    ensures n > 0 <==> h >= 0
  {
    CeilLog2(n + 1) - 1
  }

  /** Halving the item count lowers `MinHeight` by exactly one. */
  lemma {:induction false} MinHeightHalf(n: nat)
    requires n >= 1
    ensures MinHeight(n) == 1 + MinHeight(n / 2)
  {
    assert (n + 2) / 2 == n / 2 + 1;
  }

  /** A height equals `MinHeight(n)` exactly when it is -1 for no items, or
      otherwise the exponent of the largest power of two not above `n`. */
  lemma {:induction false} MinHeightMeaning(h: int, n: nat)
    requires h >= -1
    ensures h == MinHeight(n) <==> (n == 0 && h == -1) || (0 <= h && Pow2(h) <= n < Pow2(h + 1))
  {
    if 0 <= h && Pow2(h) <= n < Pow2(h + 1) {
      CeilLog2Unique(n + 1, h + 1);
    }
  }

  lemma {:induction false} MinHeightMonotone(a: nat, b: nat)
    requires a <= b
    ensures MinHeight(a) <= MinHeight(b)
  {
    var ka, kb := CeilLog2(a + 1), CeilLog2(b + 1);
    if kb < ka {
      Pow2Monotone(kb, ka - 1);
    }
  }

  /** The height computed by `height1`: -1 for an absent node, otherwise one more
      than the taller child. */
  function TreeHeight(t: Tree): (h: int)
    ensures h >= -1
    ensures h < Count(t)
  {
    match t
    case Nil => -1
    case Node(l, _, r) =>
      var hl, hr := TreeHeight(l), TreeHeight(r);
      (if hl < hr then hr else hl) + 1
  }

  /** A tree lower than `k` holds fewer than `2^k` nodes. */
  lemma {:induction false} CountBound(t: Tree, k: nat)
    requires TreeHeight(t) < k
    ensures Count(t) < Pow2(k)
  {
    match t
    case Nil =>
    case Node(l, _, r) =>
      CountBound(l, k - 1);
      CountBound(r, k - 1);
  }

  /** No tree is lower than `MinHeight` of its node count, so `is_balanced` holds,
      when the counter equals the node count, exactly for trees of the least possible height. */
  lemma {:induction false} MinHeightIsLeast(t: Tree)
    ensures MinHeight(Count(t)) <= TreeHeight(t)
  {
    var n, h := Count(t), TreeHeight(t);
    CountBound(t, h + 1);
    var k := CeilLog2(n + 1);
    if k > h + 1 {
      Pow2Monotone(h + 1, k - 1);
    }
  }

  /** The recursive helper `small_rebalance` of `rebalance`: the middle item
      (index `len // 2`) becomes the root, the items before it the left subtree
      and the items after it the right subtree. */
  function Rebuild(arr: seq<int>): (t: Tree)
    ensures InOrder(t) == arr
    decreases |arr|
  {
    if |arr| == 1 then Leaf(arr[0])
    else if |arr| < 1 then Nil
    else
      var mid := |arr| / 2;
      var t := Node(Rebuild(arr[..mid]), arr[mid], Rebuild(arr[mid + 1..]));
      assert arr == arr[..mid] + [arr[mid]] + arr[mid + 1..];
      t
  }

  /** The rebuilt tree has the least height for its size. */
  lemma {:induction false} RebuildHeight(arr: seq<int>)
    ensures TreeHeight(Rebuild(arr)) == MinHeight(|arr|)
    decreases |arr|
  {
    var n := |arr|;
    if n == 1 {
      assert CeilLog2(2) == 1;
    } else if n == 0 {
    } else {
      var mid := n / 2;
      var left, right := arr[..mid], arr[mid + 1..];
      assert Rebuild(arr) == Node(Rebuild(left), arr[mid], Rebuild(right));
      RebuildHeight(left);
      RebuildHeight(right);
      assert |left| == mid && |right| == n - mid - 1;
      MinHeightMonotone(n - mid - 1, mid);
      MinHeightHalf(n);
      var hl, hr := TreeHeight(Rebuild(left)), TreeHeight(Rebuild(right));
      assert hr <= hl;
      assert TreeHeight(Rebuild(arr)) == hl + 1;
    }
  }

  /** Rebuilding a tree from its in-order sequence keeps its items, their
      in-order sequence and its ordering, and gives it the least height. */
  lemma RebuildKeeps(t: Tree)
    ensures var u := Rebuild(InOrder(t));
      InOrder(u) == InOrder(t) && Elements(u) == Elements(t) && Count(u) == Count(t) &&
      TreeHeight(u) == MinHeight(Count(u)) && (Ordered(t) ==> Ordered(u))
  {
    var u := Rebuild(InOrder(t));
    RebuildHeight(InOrder(t));
    InOrderElements(t);
    InOrderElements(u);
    CountElements(t);
    CountElements(u);
    OrderedIffSorted(t);
    OrderedIffSorted(u);
  }
}
