/**
 * Sequences ordered by a key function, and the two structural edits the tree
 * makes to its array: inserting one value at an index (`_add`) and removing
 * the value at an index (`_delete`), possibly several times in a row.
 */
module Order {

  /** Keys ascend along t: the invariant the tree keeps for its array. */
  predicate Sorted<V>(t: seq<V>, key: V -> int)
  {
    forall i, j :: 0 <= i < j < |t| ==> key(t[i]) <= key(t[j])
  }

  /** The first index at or after `from` whose key is not below q, or |t|. */
  function FirstNotBelow<V>(t: seq<V>, key: V -> int, q: int, from: nat): (r: nat)
    requires from <= |t|
    ensures from <= r <= |t|
    ensures forall j :: from <= j < r ==> key(t[j]) < q
    ensures r < |t| ==> key(t[r]) >= q
    decreases |t| - from
  {
    if from == |t| || key(t[from]) >= q then from else FirstNotBelow(t, key, q, from + 1)
  }

  /** The first index at or after `from` whose key differs from q, or |t|. */
  function FirstOther<V>(t: seq<V>, key: V -> int, q: int, from: nat): (r: nat)
    requires from <= |t|
    ensures from <= r <= |t|
    ensures forall j :: from <= j < r ==> key(t[j]) == q
    ensures r < |t| ==> key(t[r]) != q
    decreases |t| - from
  {
    if from == |t| || key(t[from]) != q then from else FirstOther(t, key, q, from + 1)
  }

  /**
   * In a sorted sequence the indices whose key is q form one run: they are
   * exactly those from FirstNotBelow(.., 0) up to FirstOther from there.
   */
  lemma {:induction false} RunOfKey<V>(t: seq<V>, key: V -> int, q: int)
    requires Sorted(t, key)
    ensures var a := FirstNotBelow(t, key, q, 0);
            var b := FirstOther(t, key, q, a);
            forall j :: 0 <= j < |t| ==> (key(t[j]) == q <==> a <= j < b)
  {
    var a := FirstNotBelow(t, key, q, 0);
    var b := FirstOther(t, key, q, a);
    if b < |t| {
      assert key(t[a]) <= key(t[b]);
      assert key(t[b]) > q;
    }
  }

  /** In a sorted sequence the keys below q are exactly those before FirstNotBelow(.., 0). */
  lemma BelowPrefix<V>(t: seq<V>, key: V -> int, q: int)
    requires Sorted(t, key)
    ensures var a := FirstNotBelow(t, key, q, 0);
            forall j :: 0 <= j < |t| ==> (key(t[j]) < q <==> j < a)
  {
    var a := FirstNotBelow(t, key, q, 0);
    forall j | a <= j < |t|
      ensures key(t[j]) >= q
    {
      assert key(t[a]) <= key(t[j]);
    }
  }

  /**
   * What the lookups need of sortedness for one query q: the keys below q
   * come first, then the run of keys equal to q.
   */
  predicate Grouped<V>(t: seq<V>, key: V -> int, q: int)
  {
    var a := FirstNotBelow(t, key, q, 0);
    var b := FirstOther(t, key, q, a);
    forall j :: 0 <= j < |t| ==> (key(t[j]) < q <==> j < a) && (key(t[j]) == q <==> a <= j < b)
  }

  /** A sorted sequence is grouped around every query. */
  lemma SortedGrouped<V>(t: seq<V>, key: V -> int, q: int)
    requires Sorted(t, key)
    ensures Grouped(t, key, q)
  {
    BelowPrefix(t, key, q);
    RunOfKey(t, key, q);
  }

  /** PHP `range($lo, $hi)` for lo <= hi: the indices lo, lo + 1, ..., hi. */
  function Range(lo: nat, hi: nat): (r: seq<nat>)
    requires lo <= hi
    ensures |r| == hi - lo + 1
    ensures forall i :: 0 <= i < |r| ==> r[i] == lo + i
  {
    seq(hi - lo + 1, i requires 0 <= i => lo + i)
  }

  /**
   * PHP `$a[$i] = $x` on a dense list: slot i is overwritten, or appended
   * when i is the length.
   */
  function Assign<V>(t: seq<V>, i: nat, x: V): (r: seq<V>)
    requires i <= |t|
    ensures |r| == if i == |t| then |t| + 1 else |t|
    ensures r[i] == x && forall j :: 0 <= j < |t| && j != i ==> r[j] == t[j]
  {
    if i == |t| then t + [x] else t[i := x]
  }

  /** t with x placed at index k and everything from k on moved one slot right. */
  function Insert<V>(t: seq<V>, k: nat, x: V): (r: seq<V>)
    requires k <= |t|
    ensures |r| == |t| + 1 && r[k] == x
    ensures r[..k] == t[..k] && r[k + 1..] == t[k..]
  {
    t[..k] + [x] + t[k..]
  }

  /** Insertion adds exactly the one value to the contents. */
  lemma InsertMultiset<V>(t: seq<V>, k: nat, x: V)
    requires k <= |t|
    ensures multiset(Insert(t, k, x)) == multiset(t) + multiset{x}
  {
    assert t == t[..k] + t[k..];
  }

  /**
   * Inserting into a sorted sequence keeps it sorted exactly when the new key
   * is no smaller than its left neighbour and no larger than its right one.
   */
  lemma InsertSorted<V>(t: seq<V>, key: V -> int, k: nat, x: V)
    requires Sorted(t, key) && k <= |t|
    ensures Sorted(Insert(t, k, x), key) <==>
              (k > 0 ==> key(t[k - 1]) <= key(x)) && (k < |t| ==> key(x) <= key(t[k]))
  {
    var s := Insert(t, k, x);
    assert forall i :: 0 <= i < k ==> s[i] == t[i];
    assert s[k] == x;
    assert forall i :: k < i < |s| ==> s[i] == t[i - 1];
    if (k > 0 ==> key(t[k - 1]) <= key(x)) && (k < |t| ==> key(x) <= key(t[k])) {
      forall i, j | 0 <= i < j < |s|
        ensures key(s[i]) <= key(s[j])
      {
        if j < k || i > k {
        } else if i == k {
          assert key(x) <= key(t[k]) <= key(t[j - 1]);
        } else if j == k {
          assert key(t[i]) <= key(t[k - 1]) <= key(x);
        } else {
          assert key(t[i]) <= key(t[k - 1]) <= key(x) <= key(t[k]) <= key(t[j - 1]);
        }
      }
    } else if k > 0 && key(t[k - 1]) > key(x) {
      assert s[k - 1] == t[k - 1];
    } else {
      assert s[k + 1] == t[k];
    }
  }

  /**
   * In a sorted sequence, a slot k whose left neighbour's key is at most x's
   * and whose right neighbour's key is at least x's has every key before it at
   * most x's and every key from it on at least x's.
   */
  lemma SlotBetween<V>(t: seq<V>, key: V -> int, k: nat, x: V)
    requires Sorted(t, key) && k <= |t|
    requires k > 0 ==> key(t[k - 1]) <= key(x)
    requires k < |t| ==> key(x) <= key(t[k])
    ensures forall j :: 0 <= j < k ==> key(t[j]) <= key(x)
    ensures forall j :: k <= j < |t| ==> key(x) <= key(t[j])
  {
    forall j | 0 <= j < k
      ensures key(t[j]) <= key(x)
    {
      assert key(t[j]) <= key(t[k - 1]);
    }
    forall j | k <= j < |t|
      ensures key(x) <= key(t[j])
    {
      assert key(t[k]) <= key(t[j]);
    }
  }

  /**
   * The effect of `_delete($k)`: the slot k removed and the tail moved one slot
   * left; an index past the end leaves the sequence as it is.
   */
  function RemoveAt<V>(t: seq<V>, k: nat): (r: seq<V>)
    ensures |r| == if k < |t| then |t| - 1 else |t|
    ensures k < |t| ==> r[..k] == t[..k] && r[k..] == t[k + 1..]
    ensures k >= |t| ==> r == t
  {
    if k < |t| then t[..k] + t[k + 1..] else t
  }

  /** `_delete` applied to each index of ks in turn, as `delete` does. */
  function DeleteAll<V>(t: seq<V>, ks: seq<nat>): (r: seq<V>)
    ensures |t| - |ks| <= |r| <= |t|
    decreases |ks|
  {
    if ks == [] then t else DeleteAll(RemoveAt(t, ks[0]), ks[1..])
  }

  /** Removing slots never breaks the sorted invariant. */
  lemma {:induction false} DeleteAllSorted<V>(t: seq<V>, key: V -> int, ks: seq<nat>)
    requires Sorted(t, key)
    ensures Sorted(DeleteAll(t, ks), key)
    decreases |ks|
  {
    if ks != [] {
      var u := RemoveAt(t, ks[0]);
      if ks[0] < |t| {
        var k := ks[0];
        forall i, j | 0 <= i < j < |u|
          ensures key(u[i]) <= key(u[j])
        {
          var i' := if i < k then i else i + 1;
          var j' := if j < k then j else j + 1;
          assert u[i] == t[i'] && u[j] == t[j'];
        }
      }
      DeleteAllSorted(u, key, ks[1..]);
    }
  }

  /**
   * Deleting only removes stored values: what remains is a sub-multiset of
   * what was there, smaller by at most one value per index deleted.
   */
  lemma {:induction false} DeleteAllShrinks<V>(t: seq<V>, ks: seq<nat>)
    ensures multiset(DeleteAll(t, ks)) <= multiset(t)
    ensures |t| - |ks| <= |DeleteAll(t, ks)| <= |t|
    decreases |ks|
  {
    if ks != [] {
      var u := RemoveAt(t, ks[0]);
      if ks[0] < |t| {
        assert t == t[..ks[0]] + [t[ks[0]]] + t[ks[0] + 1..];
      }
      DeleteAllShrinks(u, ks[1..]);
    }
  }

  /** Deleting only indices beyond a leaves the prefix up to a in place. */
  lemma {:induction false} DeleteAllKeepsPrefix<V>(t: seq<V>, ks: seq<nat>, a: nat)
    requires a < |t|
    requires forall i :: 0 <= i < |ks| ==> ks[i] > a
    ensures a < |DeleteAll(t, ks)| && DeleteAll(t, ks)[..a + 1] == t[..a + 1]
    decreases |ks|
  {
    if ks != [] {
      var u := RemoveAt(t, ks[0]);
      assert u[..a + 1] == t[..a + 1];
      DeleteAllKeepsPrefix(u, ks[1..], a);
    }
  }

  /**
   * Deleting the ascending indices a, a + 1, ..., c (c > a) one after the
   * other, as `delete` does, never removes the value first stored at a + 1:
   * after the first removal it sits at index a, below every later index.
   */
  lemma AscendingDeleteKeepsSecond<V>(t: seq<V>, a: nat, c: nat)
    requires a < c && a + 1 < |t|
    ensures a < |DeleteAll(t, Range(a, c))| && DeleteAll(t, Range(a, c))[a] == t[a + 1]
  {
    var ks := Range(a, c);
    var u := RemoveAt(t, a);
    assert u[a] == t[a + 1];
    assert DeleteAll(t, ks) == DeleteAll(u, ks[1..]);
    DeleteAllKeepsPrefix(u, ks[1..], a);
    assert DeleteAll(u, ks[1..])[..a + 1][a] == u[..a + 1][a];
  }
}
