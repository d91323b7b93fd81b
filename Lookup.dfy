/**
 * What `findKeysByValue`, `find` and `delete` yield. The general promise holds
 * of every array; on a sorted array the result is fixed by SortedLookup, which
 * is stated through the run of indices holding the queried key, not through
 * the window descent that computes it.
 */
module Lookup {
  import opened Order

  datatype Option<T> = None | Some(value: T)

  /**
   * A result, or the TypeError PHP throws when findKeysByValue ends its
   * descent with no matching boundary and calls `getValueByKey(null)`.
   */
  datatype Outcome<T> = Ok(value: T) | TypeError

  /** What `find` returns: null, the one stored value, or an index-to-value array. */
  datatype Found<V> = Null | Single(value: V) | Many(entries: map<nat, V>)

  /** The early exit of findKeysByValue: empty array, or q below the first key or above the last. */
  predicate OutOfRange<V>(t: seq<V>, key: V -> int, q: int): (r: bool)
    ensures r && Sorted(t, key) ==> forall i :: 0 <= i < |t| ==> key(t[i]) != q
  {
    |t| == 0 || q < key(t[0]) || key(t[|t| - 1]) < q
  }

  /** ks is an ascending run of adjacent indices. */
  predicate Consecutive(ks: seq<nat>)
  {
    forall i :: 0 <= i < |ks| ==> ks[i] == ks[0] + i
  }

  /**
   * What findKeysByValue promises on any array: no keys when q is out of
   * range; a TypeError only from three slots on; otherwise adjacent indices
   * inside the array whose keys are q, except that a lone index may be the
   * last slot whatever it holds.
   */
  predicate KeysShape<V>(t: seq<V>, key: V -> int, q: int, r: Outcome<seq<nat>>)
  {
    && (OutOfRange(t, key, q) ==> r == Ok([]))
    && (r.TypeError? ==> |t| >= 3)
    && (r.Ok? ==> Consecutive(r.value) && forall i :: 0 <= i < |r.value| ==> r.value[i] < |t|)
    && (r.Ok? && |r.value| != 1 ==> forall i :: 0 <= i < |r.value| ==> key(t[r.value[i]]) == q)
    && (r.Ok? && |r.value| == 1 ==> r.value[0] == |t| - 1 || key(t[r.value[0]]) == q)
  }

  /**
   * findKeysByValue on a sorted array. Let a..b-1 be the run of indices whose
   * key is q. Out of range: no keys. Empty run: no keys below three slots,
   * a TypeError from three on. Otherwise the run itself when the array has at
   * most two slots or the run ends before index |t| - 2, and else only the
   * last index |t| - 1, because the forward scan stops there unconditionally.
   */
  function SortedLookup<V>(t: seq<V>, key: V -> int, q: int): (r: Outcome<seq<nat>>)
    ensures KeysShape(t, key, q, r)
  {
    if OutOfRange(t, key, q) then Ok([])
    else
      var a := FirstNotBelow(t, key, q, 0);
      var b := FirstOther(t, key, q, a);
      if a == b then (if |t| <= 2 then Ok([]) else TypeError)
      else if |t| <= 2 || b <= |t| - 2 then Ok(Range(a, b - 1))
      else Ok([|t| - 1])
  }

  /** The full promise of findKeysByValue: its shape, and SortedLookup on a sorted array. */
  predicate KeysPromise<V>(t: seq<V>, key: V -> int, q: int, r: Outcome<seq<nat>>)
  {
    KeysShape(t, key, q, r) && (Sorted(t, key) ==> r == SortedLookup(t, key, q))
  }

  /**
   * `find` given the indices: null for none; for one distinct index the value
   * stored there (`array_shift` of a one-entry array); else the index-to-value
   * array.
   */
  function Wrap<V>(t: seq<V>, ks: seq<nat>): (r: Found<V>)
    requires forall i :: 0 <= i < |ks| ==> ks[i] < |t|
    ensures r.Null? <==> ks == []
    ensures r.Single? ==> r.value == t[ks[0]]
    ensures r.Many? ==> forall k :: k in r.entries <==> k in ks
  {
    if ks == [] then Null
    else
      var m := map k | k in ks :: t[k];
      if |m| == 1 then Single(t[ks[0]]) else Many(m)
  }

  /** `find` on a sorted array. */
  function SortedFind<V>(t: seq<V>, key: V -> int, q: int): Outcome<Found<V>>
  {
    match SortedLookup(t, key, q)
    case TypeError => TypeError
    case Ok(ks) => Ok(Wrap(t, ks))
  }

  /**
   * The forward scan of findKeysByValue from a slot s holding q: the slots
   * s .. e - 1 before the first other key e, or only the last slot once the
   * scan reaches it, whatever that slot holds.
   */
  function Scan<V>(t: seq<V>, key: V -> int, q: int, s: nat): (r: seq<nat>)
    requires s < |t| && key(t[s]) == q
    ensures r != [] && (r[0] == s || r == [|t| - 1])
    ensures forall i :: 0 <= i < |r| ==> r[i] < |t|
  {
    var e := FirstOther(t, key, q, s);
    if e <= |t| - 2 then Range(s, e - 1) else [|t| - 1]
  }

  /**
   * The forward scan from a slot s holding q, in an array of three or more
   * slots with q in range, has the general shape: the slots s .. e - 1 before
   * the first other key e, or the last slot alone once the scan reaches it.
   */
  lemma ScanShape<V>(t: seq<V>, key: V -> int, q: int, s: nat)
    requires |t| >= 3 && !OutOfRange(t, key, q) && s < |t| && key(t[s]) == q
    ensures KeysShape(t, key, q, Ok(Scan(t, key, q, s)))
  {
    var e := FirstOther(t, key, q, s);
    if e <= |t| - 2 {
      var ks := Range(s, e - 1);
      assert forall i :: 0 <= i < |ks| ==> s <= ks[i] < e;
    }
  }

  /**
   * On any array of three or more slots with q in range, SortedLookup is
   * what the descent and the forward scan compute: a TypeError when the
   * first slot not below q holds another key, else the scan from that slot.
   */
  lemma DescentLookup<V>(t: seq<V>, key: V -> int, q: int)
    requires |t| >= 3 && !OutOfRange(t, key, q)
    ensures var a := FirstNotBelow(t, key, q, 0);
            a < |t| &&
            SortedLookup(t, key, q) == if key(t[a]) != q then TypeError else Ok(Scan(t, key, q, a))
  {
  }

  /**
   * When the descent starts the scan at the first slot not below q, or
   * reports a TypeError exactly when that slot holds another key, the result
   * is SortedLookup.
   */
  lemma StartLookup<V>(t: seq<V>, key: V -> int, q: int, start: Option<nat>, r: Outcome<seq<nat>>)
    requires |t| >= 3 && !OutOfRange(t, key, q)
    requires var a := FirstNotBelow(t, key, q, 0);
             a < |t| && start == if key(t[a]) == q then Some(a) else None
    requires start.None? ==> r == TypeError
    requires start.Some? ==> start.value < |t| && key(t[start.value]) == q && r == Ok(Scan(t, key, q, start.value))
    ensures r == SortedLookup(t, key, q)
  {
    DescentLookup(t, key, q);
  }

  /**
   * Three or more slots with q in range: a start slot as the descent finds it
   * (one holding q, and on a grouped array the first one) leads to the full
   * promise, a TypeError without one and the forward scan from it otherwise.
   */
  lemma DescentPromise<V>(t: seq<V>, key: V -> int, q: int, start: Option<nat>, r: Outcome<seq<nat>>)
    requires |t| >= 3 && !OutOfRange(t, key, q)
    requires Grouped(t, key, q) ==>
               var a := FirstNotBelow(t, key, q, 0);
               a < |t| && start == if key(t[a]) == q then Some(a) else None
    requires start.None? ==> r == TypeError
    requires start.Some? ==> start.value < |t| && key(t[start.value]) == q && r == Ok(Scan(t, key, q, start.value))
    ensures KeysPromise(t, key, q, r)
  {
    assert KeysShape(t, key, q, r) by {
      if start.Some? {
        ScanShape(t, key, q, start.value);
      }
    }
    assert Sorted(t, key) ==> Grouped(t, key, q) by {
      if Sorted(t, key) {
        SortedGrouped(t, key, q);
      }
    }
    if Grouped(t, key, q) {
      StartLookup(t, key, q, start, r);
    }
  }

  /**
   * What `find` promises on any array: SortedFind on a sorted one; null when
   * q is out of range; a TypeError only from three slots on; a single value
   * stored in the array, holding q unless it is the last slot; an
   * index-to-value array whose entries are slots holding q.
   */
  ghost predicate FoundShape<V>(t: seq<V>, key: V -> int, q: int, r: Outcome<Found<V>>)
  {
    && (Sorted(t, key) ==> r == SortedFind(t, key, q))
    && (OutOfRange(t, key, q) ==> r == Ok(Null))
    && (r.TypeError? ==> |t| >= 3)
    && (r.Ok? && r.value.Single? ==>
          r.value.value in t && (key(r.value.value) == q || r.value.value == t[|t| - 1]))
    && (r.Ok? && r.value.Many? ==>
          forall k :: k in r.value.entries ==> k < |t| && r.value.entries[k] == t[k] && key(t[k]) == q)
  }

  /** Wrapping what findKeysByValue returns, as `find` does, keeps its promise. */
  lemma FindPromise<V>(t: seq<V>, key: V -> int, q: int, found: Outcome<seq<nat>>, r: Outcome<Found<V>>)
    requires KeysPromise(t, key, q, found)
    requires found.TypeError? ==> r == TypeError
    requires found.Ok? ==> r == Ok(Wrap(t, found.value))
    ensures FoundShape(t, key, q, r)
  {
    if found.Ok? && |found.value| >= 2 {
      var ks := found.value;
      assert ks[1] == ks[0] + 1;
      WrapMany(t, ks);
    } else if found.Ok? && |found.value| == 1 {
      var m := map k | k in found.value :: t[k];
      assert m.Keys == {found.value[0]};
    }
  }

  /**
   * When q occurs in a sorted array but not in its last two slots, its run
   * a .. b - 1 ends before |t| - 2 and is what findKeysByValue yields.
   */
  lemma RunBeforeLastTwo<V>(t: seq<V>, key: V -> int, q: int, j: nat)
    requires Sorted(t, key) && j < |t| && key(t[j]) == q
    requires forall i :: 0 <= i < |t| && i >= |t| - 2 ==> key(t[i]) != q
    ensures var a := FirstNotBelow(t, key, q, 0);
            var b := FirstOther(t, key, q, a);
            a <= j < b <= |t| - 2 && SortedLookup(t, key, q) == Ok(Range(a, b - 1))
  {
    var a := FirstNotBelow(t, key, q, 0);
    var b := FirstOther(t, key, q, a);
    assert a <= j < b <= |t| - 2 by {
      RunOfKey(t, key, q);
      assert key(t[|t| - 2]) != q;
    }
    assert !OutOfRange(t, key, q) by {
      assert key(t[0]) <= key(t[j]) <= key(t[|t| - 1]);
    }
  }

  /**
   * When the run of q is short of the last two slots (or the array has at
   * most two), findKeysByValue yields exactly the indices holding q.
   */
  lemma LookupFindsRun<V>(t: seq<V>, key: V -> int, q: int, j: nat)
    requires Sorted(t, key) && j < |t| && key(t[j]) == q
    requires |t| <= 2 || forall i :: |t| - 2 <= i < |t| ==> key(t[i]) != q
    ensures SortedLookup(t, key, q).Ok?
    ensures forall i: nat :: i in SortedLookup(t, key, q).value <==> i < |t| && key(t[i]) == q
  {
    RunOfKey(t, key, q);
    var a := FirstNotBelow(t, key, q, 0);
    var b := FirstOther(t, key, q, a);
    assert a <= j < b;
    assert !OutOfRange(t, key, q) by {
      assert key(t[0]) <= key(t[j]) <= key(t[|t| - 1]);
    }
    if |t| > 2 {
      assert key(t[b - 1]) == q;
    }
    var ks := Range(a, b - 1);
    forall i | i in ks ensures i < |t| && key(t[i]) == q {
      var x :| 0 <= x < |ks| && ks[x] == i;
    }
    forall i: nat | i < |t| && key(t[i]) == q ensures i in ks {
      assert a <= i < b;
      assert ks[i - a] == i;
    }
  }

  /** On one or two slots within range, findKeysByValue's direct check keeps the full promise. */
  lemma SmallPromise<V>(t: seq<V>, key: V -> int, q: int, r: Outcome<seq<nat>>)
    requires 1 <= |t| <= 2 && !OutOfRange(t, key, q)
    requires r == Ok((if key(t[0]) == q then [0] else []) +
                     (if |t| == 2 && key(t[1]) == q then [1] else []))
    ensures KeysPromise(t, key, q, r)
  {
    if Sorted(t, key) {
      SmallLookup(t, key, q);
    }
  }

  /** On one or two sorted slots within range, SortedLookup lists the slots holding q. */
  lemma SmallLookup<V>(t: seq<V>, key: V -> int, q: int)
    requires Sorted(t, key) && 1 <= |t| <= 2 && !OutOfRange(t, key, q)
    ensures SortedLookup(t, key, q) ==
              Ok((if key(t[0]) == q then [0] else []) +
                 (if |t| == 2 && key(t[1]) == q then [1] else []))
  {
    var n := |t|;
    var a := FirstNotBelow(t, key, q, 0);
    var b := FirstOther(t, key, q, a);
    var direct: seq<nat> := (if key(t[0]) == q then [0] else []) +
                            (if n == 2 && key(t[1]) == q then [1] else []);
    if key(t[0]) == q {
      assert a == 0;
      if n == 2 && key(t[1]) == q {
        assert b == 2 by { assert FirstOther(t, key, q, 1) == 2; }
        assert direct == [0, 1] == Range(0, 1);
      } else {
        assert b == 1 by { assert FirstOther(t, key, q, 1) == 1; }
        assert direct == [0] == Range(0, 0);
      }
    } else if key(t[n - 1]) == q {
      assert a == 1 == n - 1 && b == 2;
      assert direct == [1] == Range(1, 1);
    } else {
      assert a == b;
      assert direct == [];
    }
  }

  /**
   * When q occurs in one of the last two slots of a sorted array of three or
   * more, findKeysByValue yields only the last index, whatever it holds.
   */
  lemma LookupLastSlot<V>(t: seq<V>, key: V -> int, q: int, j: nat)
    requires Sorted(t, key) && |t| >= 3 && |t| - 2 <= j < |t| && key(t[j]) == q
    ensures SortedLookup(t, key, q) == Ok([|t| - 1])
  {
    RunOfKey(t, key, q);
    assert key(t[0]) <= key(t[j]) <= key(t[|t| - 1]);
  }

  /**
   * When q is absent from a sorted array, findKeysByValue yields no keys
   * unless q lies strictly inside the key range of three or more slots, where
   * it throws.
   */
  lemma LookupAbsent<V>(t: seq<V>, key: V -> int, q: int)
    requires Sorted(t, key) && forall i :: 0 <= i < |t| ==> key(t[i]) != q
    ensures SortedLookup(t, key, q) ==
              if |t| >= 3 && !OutOfRange(t, key, q) then TypeError else Ok([])
  {
    RunOfKey(t, key, q);
  }

  /** Two distinct indices give an index-to-value array with both of them. */
  lemma WrapMany<V>(t: seq<V>, ks: seq<nat>)
    requires forall i :: 0 <= i < |ks| ==> ks[i] < |t|
    requires |ks| >= 2 && ks[0] != ks[1]
    ensures Wrap(t, ks) == Many(map k | k in ks :: t[k])
  {
    var m := map k | k in ks :: t[k];
    assert {ks[0], ks[1]} <= m.Keys;
    assert |{ks[0], ks[1]}| == 2;
    SubsetCard({ks[0], ks[1]}, m.Keys);
  }

  lemma {:induction false} SubsetCard<T>(a: set<T>, b: set<T>)
    requires a <= b
    ensures |a| <= |b|
  {
    if a != {} {
      var x :| x in a;
      SubsetCard(a - {x}, b - {x});
    }
  }

  /**
   * Round trip of `find`: a key held by one stored value of a sorted array
   * gives back that value, provided its index is not |t| - 2 of three or more
   * slots (there the last value is returned instead).
   */
  lemma FindUnique<V>(t: seq<V>, key: V -> int, k: nat)
    requires Sorted(t, key) && k < |t|
    requires forall i :: 0 <= i < |t| && i != k ==> key(t[i]) != key(t[k])
    requires |t| <= 2 || k != |t| - 2
    ensures SortedFind(t, key, key(t[k])) == Ok(Single(t[k]))
  {
    var q := key(t[k]);
    if |t| >= 3 && k == |t| - 1 {
      LookupLastSlot(t, key, q, k);
      var m := map i | i in [k] :: t[i];
      assert m.Keys == {k};
    } else {
      LookupFindsRun(t, key, q, k);
      RunOfKey(t, key, q);
      var a := FirstNotBelow(t, key, q, 0);
      var b := FirstOther(t, key, q, a);
      assert a == k && b == k + 1 by {
        assert a <= k < b;
        assert key(t[a]) == q && key(t[b - 1]) == q;
      }
      var ks := SortedLookup(t, key, q).value;
      assert ks == [k];
      var m := map i | i in ks :: t[i];
      assert m.Keys == {k};
    }
  }

  /**
   * A sorted array holding q at two or more indices, all before |t| - 2:
   * `find` returns every one of them with its value.
   */
  lemma FindReturnsRun<V>(t: seq<V>, key: V -> int, q: int, j: nat)
    requires Sorted(t, key) && j + 1 < |t| && key(t[j]) == q && key(t[j + 1]) == q
    requires forall i :: |t| - 2 <= i < |t| ==> key(t[i]) != q
    ensures SortedFind(t, key, q).Ok? && SortedFind(t, key, q).value.Many?
    ensures var m := SortedFind(t, key, q).value.entries;
            forall i: nat :: i in m <==> i < |t| && key(t[i]) == q
    ensures var m := SortedFind(t, key, q).value.entries;
            forall i :: i in m ==> i < |t| && m[i] == t[i]
  {
    LookupFindsRun(t, key, q, j);
    var ks := SortedLookup(t, key, q).value;
    assert j in ks && j + 1 in ks;
    assert ks[0] != ks[1];
    WrapMany(t, ks);
  }

  /**
   * What `delete` leaves once findKeysByValue has yielded keys: a sub-multiset
   * of the contents, sorted when they were; the contents unchanged when q is
   * out of range; exactly one slot removed, the rest in order, for one key.
   */
  lemma DeleteOutcome<V>(t: seq<V>, key: V -> int, q: int, found: Outcome<seq<nat>>, u: seq<V>)
    requires KeysShape(t, key, q, found) && found.Ok? && u == DeleteAll(t, found.value)
    ensures multiset(u) <= multiset(t)
    ensures Sorted(t, key) ==> Sorted(u, key)
    ensures OutOfRange(t, key, q) ==> u == t
    ensures |found.value| == 1 ==>
              var k := found.value[0];
              k < |t| && u == t[..k] + t[k + 1..]
  {
    var ks := found.value;
    DeleteAllShrinks(t, ks);
    if Sorted(t, key) {
      DeleteAllSorted(t, key, ks);
    }
    if |ks| == 1 {
      assert DeleteAll(t, ks) == DeleteAll(RemoveAt(t, ks[0]), []);
    }
  }

  /**
   * `delete` removes at ascending indices, so a run of two or more copies of q
   * ending before |t| - 2 is not cleared: the second copy survives.
   */
  lemma DeleteLeavesCopy<V>(t: seq<V>, key: V -> int, q: int, j: nat)
    requires Sorted(t, key) && j + 1 < |t| && key(t[j]) == q && key(t[j + 1]) == q
    requires forall i :: |t| - 2 <= i < |t| ==> key(t[i]) != q
    ensures SortedLookup(t, key, q).Ok?
    ensures var a := FirstNotBelow(t, key, q, 0);
            var u := DeleteAll(t, SortedLookup(t, key, q).value);
            a + 1 < |t| && a < |u| && u[a] == t[a + 1] && key(u[a]) == q
  {
    var a := FirstNotBelow(t, key, q, 0);
    var b := LongRun(t, key, q, j);
    var ks := Range(a, b - 1);
    assert SortedLookup(t, key, q).value == ks;
    AscendingDeleteKeepsSecond(t, a, b - 1);
    var u := DeleteAll(t, ks);
    assert a < |u| && key(u[a]) == q;
  }

  /** The run of q holding slots j and j + 1 and ending before |t| - 2, as findKeysByValue finds it. */
  lemma LongRun<V>(t: seq<V>, key: V -> int, q: int, j: nat) returns (b: nat)
    requires Sorted(t, key) && j + 1 < |t| && key(t[j]) == q && key(t[j + 1]) == q
    requires forall i :: |t| - 2 <= i < |t| ==> key(t[i]) != q
    ensures var a := FirstNotBelow(t, key, q, 0);
            a + 1 < b <= |t| - 2 && key(t[a + 1]) == q && SortedLookup(t, key, q) == Ok(Range(a, b - 1))
  {
    var a := FirstNotBelow(t, key, q, 0);
    b := FirstOther(t, key, q, a);
    RunBeforeLastTwo(t, key, q, j);
  }

  /** Identity keys: the default closure `fn($x) => $x` of the constructor, also used by `Tree.NewIdentityTree`. */
  function Id(x: int): int { x }

  /** Sorted [1, 2, 3]: `find(2)` yields 3, the value in the last slot. */
  lemma MiddleOfThree()
    ensures SortedFind([1, 2, 3], Id, 2) == Ok(Single(3))
  {
    var t := [1, 2, 3];
    assert FirstNotBelow(t, Id, 2, 0) == 1 by {
      assert FirstNotBelow(t, Id, 2, 1) == 1;
    }
    assert FirstOther(t, Id, 2, 1) == 2 by {
      assert FirstOther(t, Id, 2, 2) == 2;
    }
    var m := map k | k in [2] :: t[k];
    assert m.Keys == {2};
  }

  /** Sorted [2, 2, 2, 5]: `delete(2)` removes the 5 and keeps every 2. */
  lemma DeleteTwosRemovesFive()
    ensures SortedLookup([2, 2, 2, 5], Id, 2) == Ok([3])
    ensures DeleteAll([2, 2, 2, 5], [3]) == [2, 2, 2]
  {
    LookupLastSlot([2, 2, 2, 5], Id, 2, 2);
  }
  /** Sorted [1, 2, 3]: `find(3)` yields the only 3 and `delete(3)` removes it. */
  lemma LastOfThree()
    ensures SortedFind([1, 2, 3], Id, 3) == Ok(Single(3))
    ensures SortedLookup([1, 2, 3], Id, 3) == Ok([2])
    ensures DeleteAll([1, 2, 3], [2]) == [1, 2]
  {
    LookupLastSlot([1, 2, 3], Id, 3, 2);
    var m := map k | k in [2] :: [1, 2, 3][k];
    assert m.Keys == {2};
  }

  /** Sorted [1, 1, 2, 3, 4]: `delete(1)` removes the first 1 and the 2, and keeps a 1. */
  lemma DeleteOnesRemovesTwo()
    ensures SortedLookup([1, 1, 2, 3, 4], Id, 1) == Ok([0, 1])
    ensures DeleteAll([1, 1, 2, 3, 4], [0, 1]) == [1, 3, 4]
  {
    var t := [1, 1, 2, 3, 4];
    assert FirstNotBelow(t, Id, 1, 0) == 0;
    assert FirstOther(t, Id, 1, 0) == 2 by {
      assert FirstOther(t, Id, 1, 2) == 2;
    }
    assert !OutOfRange(t, Id, 1);
    assert Range(0, 1) == [0, 1];
    var u := RemoveAt(t, 0);
    assert u == [1, 2, 3, 4];
    assert RemoveAt(u, 1) == [1, 3, 4];
    assert DeleteAll(t, [0, 1]) == DeleteAll(RemoveAt(u, 1), []);
  }
}
