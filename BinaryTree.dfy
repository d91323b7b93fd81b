/**
 * The class BinaryTree: values kept in one dense list, sorted by a key
 * function, and searched without recursion by treating the list as an
 * implicit complete binary tree of windows (see module Windows).
 */
module Tree {
  import opened Windows
  import opened Order
  import opened Lookup

  class BinaryTree<V> {
    /** `$tree`: the stored values, a dense list. */
    var tree: seq<V>
    /** `$closure`: the key by which values are ordered and found. */
    const key: V -> int

    /** `__construct` with a closure: an empty tree ordered by `key`. */
    constructor (key: V -> int)
      ensures tree == [] && this.key == key
    {
      this.key := key;
      tree := [];
    }

    /**
     * `_add`: moves every slot from k on one place right, from the last slot
     * down, then writes the value into slot k.
     */
    method AddAt(k: nat, value: V)
      requires k <= |tree|
      modifies this
      ensures tree == Insert(old(tree), k, value)
    {
      ghost var t := tree;
      var i: int := |tree| - 1;
      while i >= k
        invariant k - 1 <= i <= |t| - 1
        invariant |tree| == if i == |t| - 1 then |t| else |t| + 1
        invariant forall j :: 0 <= j <= i + 1 && j < |t| ==> tree[j] == t[j]
        invariant forall j :: i + 2 <= j < |tree| ==> tree[j] == t[j - 1]
      {
        tree := Assign(tree, i + 1, tree[i]);
        i := i - 1;
      }
      tree := Assign(tree, k, value);
      assert tree == Insert(t, k, value);
    }

    /**
     * `_delete`: moves every slot after k one place left, then unsets the
     * last slot; an index past the end changes nothing.
     */
    method DeleteAt(k: nat)
      modifies this
      ensures tree == RemoveAt(old(tree), k)
    {
      ghost var t := tree;
      var i := k;
      while i < |tree| - 1
        invariant |tree| == |t|
        invariant k <= i && (k < |t| ==> i <= |t| - 1) && (k >= |t| ==> i == k)
        invariant forall j :: 0 <= j < k && j < |t| ==> tree[j] == t[j]
        invariant forall j :: k <= j < i ==> tree[j] == t[j + 1]
        invariant forall j :: i <= j < |t| ==> tree[j] == t[j]
      {
        tree := Assign(tree, i, tree[i + 1]);
        i := i + 1;
      }
      if i < |tree| {
        // `unset($this->tree[$i])` with i the last slot: the list stays dense
        tree := tree[..i];
        assert tree == t[..k] + t[k + 1..];
      }
    }

    /**
     * `add`: exactly one insertion; when the tree is sorted, every key before
     * the new slot is at most the value's and every key after it is at least
     * it, and the tree stays sorted.
     */
    method Add(value: V) returns (ghost at: nat)
      modifies this
      ensures at <= |old(tree)| && tree == Insert(old(tree), at, value)
      ensures multiset(tree) == multiset(old(tree)) + multiset{value}
      ensures Sorted(old(tree), key) ==> Sorted(tree, key)
      ensures Sorted(old(tree), key) ==>
                (forall j :: 0 <= j < at ==> key(old(tree)[j]) <= key(value)) &&
                (forall j :: at <= j < |old(tree)| ==> key(value) <= key(old(tree)[j]))
    {
      ghost var t := tree;
      var k := InsertionIndex(tree, key, value);
      at := k.value;
      if k.Some? {
        AddAt(k.value, value);
      }
      InsertMultiset(t, at, value);
      if Sorted(t, key) {
        InsertSorted(t, key, at, value);
        SlotBetween(t, key, at, value);
      }
    }

    /** `load`: `add` of each item in turn. */
    method Load(items: seq<V>)
      modifies this
      ensures |tree| == |old(tree)| + |items|
      ensures multiset(tree) == multiset(old(tree)) + multiset(items)
      ensures Sorted(old(tree), key) ==> Sorted(tree, key)
      ensures old(tree) == [] ==> Sorted(tree, key) && multiset(tree) == multiset(items)
    {
      for j := 0 to |items|
        invariant |tree| == |old(tree)| + j
        invariant multiset(tree) == multiset(old(tree)) + multiset(items[..j])
        invariant Sorted(old(tree), key) ==> Sorted(tree, key)
      {
        ghost var _ := Add(items[j]);
        assert items[..j + 1] == items[..j] + [items[j]];
      }
      assert items[..|items|] == items;
    }

    /**
     * `find`: null for no keys, the stored value for one, else the
     * index-to-value array of the keys found.
     */
    method Find(q: int) returns (r: Outcome<Found<V>>)
      ensures FoundShape(tree, key, q, r)
    {
      var t := tree;
      var found := FindKeysByValue(t, key, q);
      if found.TypeError? {
        r := TypeError;
      } else if found.value == [] {
        r := Ok(Null);
      } else {
        var keys := found.value;
        var result := ValuesAt(t, keys);
        if |result| == 1 {
          // `array_shift` yields the entry written first
          r := Ok(Single(result[keys[0]]));
        } else {
          r := Ok(Many(result));
        }
      }
      FindPromise(t, key, q, found, r);
    }

    /**
     * `delete`: `_delete` of each key found, in ascending order, so that
     * every removal after the first lands on a shifted slot. Throws where
     * findKeysByValue does, leaving the tree as it was.
     */
    method Delete(q: int) returns (thrown: bool, ghost found: Outcome<seq<nat>>)
      modifies this
      ensures KeysPromise(old(tree), key, q, found) && thrown == found.TypeError?
      ensures tree == if found.Ok? then DeleteAll(old(tree), found.value) else old(tree)
      ensures Sorted(old(tree), key) ==> Sorted(tree, key)
      ensures multiset(tree) <= multiset(old(tree))
      ensures OutOfRange(old(tree), key, q) ==> !thrown && tree == old(tree)
      ensures found.Ok? && |found.value| == 1 ==>
                var k := found.value[0];
                k < |old(tree)| && tree == old(tree)[..k] + old(tree)[k + 1..]
    {
      var r := FindKeysByValue(tree, key, q);
      found := r;
      if r.TypeError? {
        return true, found;
      }
      thrown := false;
      var keys := r.value;
      ghost var t := tree;
      for j := 0 to |keys|
        invariant DeleteAll(tree, keys[j..]) == DeleteAll(t, keys)
      {
        assert keys[j..][1..] == keys[j + 1..];
        DeleteAt(keys[j]);
      }
      DeleteOutcome(t, key, q, r, tree);
    }
  }

  /**
   * The search of `add`: where the value goes. One slot: before it when its
   * key is larger, after it otherwise. Otherwise windows are descended from
   * depth CeilLog2(n) to 0; each stops the search at its first slot when that
   * key is not below the value's, past its last slot when that key is not
   * above it, and at its last slot when it spans at most two slots. None
   * stands for falling out of the loop without inserting, which never happens.
   */
  method InsertionIndex<V>(t: seq<V>, key: V -> int, value: V) returns (r: Option<nat>)
    ensures r.Some? && SlotFor(t, key, key(value), r.value)
  {
    var n := |t|;
    if n == 0 {
      return Some(0);
    }
    var v := key(value);
    if n == 1 {
      if key(t[0]) > v {
        return Some(0);
      }
      return Some(1);
    }
    var path: nat := 0;
    var i: int := CeilLog2(n);
    Root(n, i);
    while i >= 0
      invariant 0 <= i
      invariant Brackets(t, key, v, i, path)
      decreases i
    {
      var minKey := MinValueKey(i, path);
      var maxKey := MaxValueKey(n, i, path);
      WindowSlots(t, key, v, i, path);
      if key(t[minKey]) >= v {
        return Some(minKey);
      }
      if key(t[maxKey]) <= v {
        return Some(maxKey + 1);
      }
      if maxKey - minKey <= 1 {
        return Some(maxKey);
      }
      LeftChildInside(n, i, path);
      ghost var parent := path;
      path := path * 2;
      var maxKeyNextDepth := MaxValueKey(n, i - 1, path);
      if key(t[maxKeyNextDepth]) < v {
        path := path + 1;
      }
      BracketStep(t, key, v, i, parent, path);
      i := i - 1;
    }
    return None;
  }

  /**
   * What the search of `add` knows at depth i on window (i, p): the window
   * starts inside the array, the slot before it has a key below v, and its
   * last slot, unless it is the last of the array, has a key not below v.
   */
  ghost predicate Brackets<V>(t: seq<V>, key: V -> int, v: int, i: nat, p: nat)
  {
    && MinValueKey(i, p) < |t|
    && (MinValueKey(i, p) == 0 || key(t[MinValueKey(i, p) - 1]) < v)
    && (MaxValueKey(|t|, i, p) == |t| - 1 || key(t[MaxValueKey(|t|, i, p)]) >= v)
  }

  /** k is a place for a value with key v: its left neighbour's key is at most v, and on a sorted t its own key is at least v. */
  ghost predicate SlotFor<V>(t: seq<V>, key: V -> int, v: int, k: nat)
  {
    && k <= |t|
    && (k > 0 ==> key(t[k - 1]) <= v)
    && (Sorted(t, key) && k < |t| ==> v <= key(t[k]))
  }

  /**
   * The three exits of the search of `add` from window (i, p): its first slot
   * when that key is not below v, past its last slot when that key is not
   * above v, and its last slot when it spans at most two slots.
   */
  lemma WindowSlots<V>(t: seq<V>, key: V -> int, v: int, i: nat, p: nat)
    requires Brackets(t, key, v, i, p)
    ensures var mn := MinValueKey(i, p);
            var mx := MaxValueKey(|t|, i, p);
            && 0 <= mn <= mx < |t|
            && (key(t[mn]) >= v ==> SlotFor(t, key, v, mn))
            && (key(t[mn]) < v && key(t[mx]) <= v ==> SlotFor(t, key, v, mx + 1))
            && (key(t[mn]) < v && key(t[mx]) > v && mx - mn <= 1 ==> SlotFor(t, key, v, mx))
  {
    var mn := MinValueKey(i, p);
    var mx := MaxValueKey(|t|, i, p);
    if key(t[mn]) < v && key(t[mx]) <= v && mx + 1 < |t| && Sorted(t, key) {
      assert key(t[mx]) <= key(t[mx + 1]);
    }
  }

  /**
   * One step down the search of `add`, on a window of three or more slots
   * whose first key is below v and whose last key is above it: the child
   * picked at depth i - 1 (the right one when the left one's last key is
   * below v) keeps what Brackets states.
   */
  lemma BracketStep<V>(t: seq<V>, key: V -> int, v: int, i: nat, p: nat, c: nat)
    requires 1 <= i && Brackets(t, key, v, i, p)
    requires key(t[MinValueKey(i, p)]) < v
    requires 0 <= MaxValueKey(|t|, i, p) && key(t[MaxValueKey(|t|, i, p)]) > v
    requires var mk := MaxValueKey(|t|, i - 1, 2 * p);
             0 <= mk < |t| && c == if key(t[mk]) < v then 2 * p + 1 else 2 * p
    ensures Brackets(t, key, v, i - 1, c)
  {
    Children(|t|, i, p);
  }

  /**
   * The descent of `findKeysByValue`, for three or more slots and q within
   * the key range: windows from depth CeilLog2(n) down to 1, each recording
   * its first slot (minFoundKey) or its last slot (maxFoundKey) when that
   * key is q, until both are known; the result is minFoundKey ?? maxFoundKey.
   * On a sorted tree it is the first index holding q, or None when q is absent.
   */
  method RunStart<V>(t: seq<V>, key: V -> int, q: int) returns (start: Option<nat>)
    requires |t| >= 3 && key(t[0]) <= q <= key(t[|t| - 1])
    ensures start.Some? ==> start.value < |t| && key(t[start.value]) == q
    ensures Grouped(t, key, q) ==>
              var a := FirstNotBelow(t, key, q, 0);
              a < |t| && start == if key(t[a]) == q then Some(a) else None
  {
    var n := |t|;
    var path: nat := 0;
    var minFound: Option<nat> := None;
    var maxFound: Option<nat> := None;
    var i: int := CeilLog2(n);
    ghost var g := Grouped(t, key, q);
    ghost var a := FirstNotBelow(t, key, q, 0);
    Root(n, i);
    while i > 0
      invariant 0 <= i
      invariant Tracks(t, key, q, g, a, i, path, minFound, maxFound)
      decreases i
    {
      if minFound.Some? && maxFound.Some? {
        break;
      }
      var minKey := MinValueKey(i, path);
      var maxKey := MaxValueKey(n, i, path);
      if minKey > maxKey {
        break;
      }
      ghost var (minBefore, maxBefore, parent) := (minFound, maxFound, path);
      minFound := if key(t[minKey]) == q then Some(minKey) else minFound;
      maxFound := if key(t[maxKey]) == q then Some(maxKey) else maxFound;
      LeftChildInside(n, i, path);
      path := path * 2;
      var maxKeyNextDepth := MaxValueKey(n, i - 1, path);
      path := if key(t[maxKeyNextDepth]) < q then path + 1 else path;
      DescendStep(t, key, q, g, a, i, parent, minBefore, maxBefore, path, minFound, maxFound);
      i := i - 1;
    }
    start := if minFound.Some? then minFound else maxFound;
    TracksExit(t, key, q, g, a, i, path, minFound, maxFound, start);
  }

  /** The loop of `find`: the array mapping each index in keys to the value stored there. */
  method ValuesAt<V>(t: seq<V>, keys: seq<nat>) returns (result: map<nat, V>)
    requires forall i :: 0 <= i < |keys| ==> keys[i] < |t|
    ensures result == map k | k in keys :: t[k]
  {
    result := map[];
    for j := 0 to |keys|
      invariant result == map k | k in keys[..j] :: t[k]
    {
      assert keys[..j + 1] == keys[..j] + [keys[j]];
      result := result[keys[j] := t[keys[j]]];
    }
    assert keys[..|keys|] == keys;
  }

  /**
   * The forward scan of `findKeysByValue` from a slot holding q: the slots
   * start .. e - 1 up to the first slot e whose key differs, except that
   * reaching the last slot yields just that slot, whatever it holds.
   */
  method ScanRun<V>(t: seq<V>, key: V -> int, q: int, start: nat) returns (keys: seq<nat>)
    requires start < |t| && key(t[start]) == q
    ensures keys == Scan(t, key, q, start)
  {
    var n := |t|;
    var i := start;
    // `$maxRange` is first read after the first slot, which holds q, set it
    var maxRange := start;
    while i <= n
      invariant start <= i <= n - 1
      invariant forall j :: start <= j < i ==> key(t[j]) == q
      invariant i > start ==> maxRange == i - 1
      decreases n - i
    {
      if i == n - 1 {
        return [i];
      }
      if key(t[i]) == q {
        maxRange := i;
      } else {
        return Range(start, maxRange);
      }
      i := i + 1;
    }
    return [];
  }

  /**
   * `findKeysByValue`: no keys out of range; up to two slots checked
   * directly; otherwise the descent, a TypeError when it found nothing, and
   * the forward scan.
   */
  method FindKeysByValue<V>(t: seq<V>, key: V -> int, q: int) returns (r: Outcome<seq<nat>>)
    ensures KeysPromise(t, key, q, r)
  {
    var n := |t|;
    if n == 0 || key(t[0]) > q || key(t[n - 1]) < q {
      return Ok([]);
    }
    if n <= 2 {
      var result: seq<nat> := [];
      if key(t[0]) == q {
        result := result + [0];
      }
      if n == 2 && key(t[1]) == q {
        result := result + [1];
      }
      assert result == (if key(t[0]) == q then [0] else []) +
                       (if n == 2 && key(t[1]) == q then [1] else []);
      r := Ok(result);
      SmallPromise(t, key, q, r);
      return;
    }
    var start := RunStart(t, key, q);
    if start.None? {
      r := TypeError;
    } else {
      var keys := ScanRun(t, key, q, start.value);
      r := Ok(keys);
    }
    DescentPromise(t, key, q, start, r);
  }

  /**
   * What the descent of findKeysByValue knows at depth i on window (i, p):
   * the window is non-empty and a recorded slot holds q. When g holds (the
   * keys are grouped around q, and a is the first index whose key is not
   * below q), the window also holds a, a recorded first slot is a, a
   * recorded last slot shows that q is present, and once the descent ends
   * without a first slot, q present means that the last slot recorded is a.
   */
  ghost predicate Tracks<V>(t: seq<V>, key: V -> int, q: int, g: bool, a: nat, i: nat, p: nat,
                            minFound: Option<nat>, maxFound: Option<nat>)
  {
    && MinValueKey(i, p) <= MaxValueKey(|t|, i, p)
    && (minFound.Some? ==> minFound.value < |t| && key(t[minFound.value]) == q)
    && (maxFound.Some? ==> maxFound.value < |t| && key(t[maxFound.value]) == q)
    && (g ==>
          && MinValueKey(i, p) <= a <= MaxValueKey(|t|, i, p)
          && (minFound.Some? ==> minFound.value == a)
          && (maxFound.Some? ==> a < |t| && key(t[a]) == q)
          && (a < |t| && key(t[a]) == q && minFound.None? && i == 0 ==> maxFound == Some(a)))
  }

  /**
   * Where the descent of findKeysByValue stops, at depth 0 or with both ends
   * recorded, minFoundKey ?? maxFoundKey is a slot holding q, and on grouped
   * keys the first one, or None when q is absent.
   */
  lemma TracksExit<V>(t: seq<V>, key: V -> int, q: int, g: bool, a: nat, i: nat, p: nat,
                      minFound: Option<nat>, maxFound: Option<nat>, start: Option<nat>)
    requires g == Grouped(t, key, q) && a == FirstNotBelow(t, key, q, 0)
    requires Tracks(t, key, q, g, a, i, p, minFound, maxFound)
    requires i == 0 || (minFound.Some? && maxFound.Some?)
    requires start == if minFound.Some? then minFound else maxFound
    ensures start.Some? ==> start.value < |t| && key(t[start.value]) == q
    ensures Grouped(t, key, q) ==>
              var a := FirstNotBelow(t, key, q, 0);
              a < |t| && start == if key(t[a]) == q then Some(a) else None
  {
  }

  /**
   * One step down the descent of findKeysByValue, with the last key not below
   * q: recording the ends of window (i, p) that hold q and moving to the child
   * picked at depth i - 1 (the right one when the left one's last key is below
   * q) keeps what Tracks states.
   */
  lemma DescendStep<V>(t: seq<V>, key: V -> int, q: int, g: bool, a: nat, i: nat, p: nat,
                       minFound: Option<nat>, maxFound: Option<nat>,
                       c: nat, minFound': Option<nat>, maxFound': Option<nat>)
    requires 1 <= i && |t| >= 1 && q <= key(t[|t| - 1])
    requires g ==> Grouped(t, key, q) && a == FirstNotBelow(t, key, q, 0)
    requires Tracks(t, key, q, g, a, i, p, minFound, maxFound)
    requires minFound' == if key(t[MinValueKey(i, p)]) == q then Some(MinValueKey(i, p)) else minFound
    requires maxFound' == if key(t[MaxValueKey(|t|, i, p)]) == q then Some(MaxValueKey(|t|, i, p)) else maxFound
    requires var mk := MaxValueKey(|t|, i - 1, 2 * p);
             0 <= mk < |t| && c == if key(t[mk]) < q then 2 * p + 1 else 2 * p
    ensures Tracks(t, key, q, g, a, i - 1, c, minFound', maxFound')
  {
    var mn, mx := MinValueKey(i, p), MaxValueKey(|t|, i, p);
    var cmn, cmx := MinValueKey(i - 1, c), MaxValueKey(|t|, i - 1, c);
    var mk := MaxValueKey(|t|, i - 1, 2 * p);
    var right := key(t[mk]) < q;
    assert cmn <= cmx && (!right ==> cmn == mn && cmx == mk) && (right ==> cmn == mk + 1 && cmx == mx) by {
      Children(|t|, i, p);
      if right {
        assert mk < |t| - 1;
      }
    }
    assert i == 1 ==> mx <= mn + 1 by {
      if i == 1 {
        PairWindow(|t|, p);
      }
    }
    if g {
      GroupedStep(t, key, q, a, mn, mx, mk, right, cmn, cmx, i == 1, minFound, maxFound, minFound', maxFound');
    }
  }

  /**
   * The part of DescendStep that needs the keys grouped around q, on plain
   * indices: window mn..mx containing a, the first slot not below q; its
   * left child ending at mk; the child taken, cmn..cmx; and whether the
   * window is at depth 1.
   */
  lemma GroupedStep<V>(t: seq<V>, key: V -> int, q: int, a: nat, mn: nat, mx: nat, mk: nat, right: bool,
                       cmn: nat, cmx: nat, bottom: bool,
                       minFound: Option<nat>, maxFound: Option<nat>,
                       minFound': Option<nat>, maxFound': Option<nat>)
    requires Grouped(t, key, q) && a == FirstNotBelow(t, key, q, 0)
    requires mn <= a <= mx < |t| && mk < |t| && right == (key(t[mk]) < q)
    requires !right ==> cmn == mn && cmx == mk
    requires right ==> cmn == mk + 1 && cmx == mx
    requires bottom ==> mx <= mn + 1
    requires minFound.Some? ==> minFound.value == a
    requires maxFound.Some? ==> a < |t| && key(t[a]) == q
    requires minFound' == if key(t[mn]) == q then Some(mn) else minFound
    requires maxFound' == if key(t[mx]) == q then Some(mx) else maxFound
    ensures cmn <= a <= cmx
    ensures minFound'.Some? ==> minFound'.value == a
    ensures maxFound'.Some? ==> a < |t| && key(t[a]) == q
    ensures a < |t| && key(t[a]) == q && minFound'.None? && bottom ==> maxFound' == Some(a)
  {
    var b := FirstOther(t, key, q, a);
    assert key(t[mk]) < q <==> mk < a;
    assert key(t[mn]) == q <==> a <= mn < b;
    assert key(t[mx]) == q <==> a <= mx < b;
  }

  /** `__construct` without a closure: an empty tree of integers keyed by themselves. */
  method NewIdentityTree() returns (t: BinaryTree<int>)
    ensures fresh(t) && t.tree == [] && forall x :: t.key(x) == x
  {
    t := new BinaryTree(Id);
  }
}
