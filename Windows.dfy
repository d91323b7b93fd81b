/**
 * Index arithmetic of the implicit complete binary tree that BinaryTree lays
 * over its dense array. At depth d the array is cut into windows of 2^d slots;
 * `path` numbers them from the left. Window (d, p) starts at p * 2^d and ends
 * 2^d - 1 slots later, clipped to the last index of the array.
 */
module Windows {

  /** 2^d: the width of a window at depth d (PHP `1 << $depth`). */
  function Pow2(d: nat): (p: nat)
    ensures p >= 1
  {
    if d == 0 then 1 else 2 * Pow2(d - 1)
  }

  /**
   * Integer stand-in for PHP's floating-point `ceil(log($n, 2))`: the least
   * depth whose single window at path 0 covers all n slots.
   */
  function CeilLog2(n: nat): (d: nat)
    ensures n <= Pow2(d)
    ensures d > 0 ==> Pow2(d - 1) < n
  {
    if n <= 1 then 0 else 1 + CeilLog2((n + 1) / 2)
  }

  /** getMinValueKey: the first index of window (depth, path), `path << depth`. */
  function MinValueKey(depth: nat, path: nat): (r: nat)
    ensures depth == 0 ==> r == path
    ensures r == 0 <==> path == 0
  {
    path * Pow2(depth)
  }

  /**
   * getMaxValueKey over an array of n slots: the last index of window
   * (depth, path), or the last index of the array when the window runs past it
   * (`isset` fails; stored nulls are not modelled).
   */
  function MaxValueKey(n: int, depth: nat, path: nat): (r: int)
    ensures r <= n - 1
    ensures r <= MinValueKey(depth, path) + Pow2(depth) - 1
    ensures r == n - 1 || r == MinValueKey(depth, path) + Pow2(depth) - 1
    ensures MinValueKey(depth, path) < n ==> MinValueKey(depth, path) <= r
  {
    var last := MinValueKey(depth, path) + (Pow2(depth) - 1);
    if last < n then last else n - 1
  }

  /** The root window (depth, 0) of a depth that covers n >= 1 slots is the whole array. */
  lemma Root(n: int, depth: nat)
    requires 1 <= n <= Pow2(depth)
    ensures MinValueKey(depth, 0) == 0 && MaxValueKey(n, depth, 0) == n - 1
  {
  }

  /** A window at depth 1 holds at most two slots. */
  lemma PairWindow(n: int, p: nat)
    ensures MaxValueKey(n, 1, p) <= MinValueKey(1, p) + 1
  {
    assert Pow2(1) == 2;
  }

  /** The left child of a window that starts inside the array ends inside it too. */
  lemma LeftChildInside(n: int, d: nat, p: nat)
    requires d >= 1 && MinValueKey(d, p) < n
    ensures 0 <= MaxValueKey(n, d - 1, 2 * p) < n
  {
    Children(n, d, p);
  }

  /**
   * The children of window (d, p), d >= 1, are (d - 1, 2p) on the left and
   * (d - 1, 2p + 1) on the right: the left child starts where its parent
   * starts, the right child ends where its parent ends, and the right child
   * starts 2^(d-1) slots after the left one, just past its end when the left
   * child is not clipped.
   */
  lemma Children(n: int, d: nat, p: nat)
    requires d >= 1
    ensures MinValueKey(d - 1, 2 * p) == MinValueKey(d, p)
    ensures MinValueKey(d - 1, 2 * p + 1) == MinValueKey(d - 1, 2 * p) + Pow2(d - 1)
    ensures MaxValueKey(n, d - 1, 2 * p + 1) == MaxValueKey(n, d, p)
    ensures MaxValueKey(n, d - 1, 2 * p) < n - 1 ==>
              MinValueKey(d - 1, 2 * p + 1) == MaxValueKey(n, d - 1, 2 * p) + 1
  {
    calc {
      MinValueKey(d - 1, 2 * p);
      (2 * p) * Pow2(d - 1);
      p * (2 * Pow2(d - 1));
      p * Pow2(d);
    }
    calc {
      MinValueKey(d - 1, 2 * p + 1);
      (2 * p + 1) * Pow2(d - 1);
      (2 * p) * Pow2(d - 1) + Pow2(d - 1);
    }
  }
}
