# BinaryTree: a sorted array searched as an implicit binary tree

The PHP class `BinaryTree` keeps its values in one dense list, `$tree`,
sorted by a key function, `$closure`. It never recurses. To search, it
lays an implicit complete binary tree over the list. At depth `d` the
list is cut into windows of `2^d` slots. `path` numbers the windows from
the left. Window `(d, path)` runs from `path << d` to
`min(path << d + 2^d - 1, n - 1)`.

- `add` descends these windows to find where the value goes, then shifts
  the tail right (`_add`).
- `findKeysByValue` descends the same windows to locate the run of slots
  holding the queried key, then scans forward. `find` and `delete` are
  built on it.
- `delete` removes the indices found with `_delete`, in ascending order.

This project models that class in Dafny and proves what each operation
does to the list.

- `Windows.dfy`: the window arithmetic (`getMinValueKey`,
  `getMaxValueKey`, `ceil(log(n, 2))`) and how a window relates to its
  two children.
- `Order.dfy`: sortedness, the run of a key in a sorted sequence, and the
  effect on a sequence of the two structural edits (insert at an index,
  remove at an index, removal repeated over a list of indices).
- `Lookup.dfy`: what `findKeysByValue`, `find` and `delete` yield.
  - `KeysShape` and `FoundShape` state the promise on any list.
  - `SortedLookup` and `SortedFind` fix the exact result on a sorted list,
    stated by the run of the key rather than by the descent.
  - The lemmas derive the consequences, including the cases where the
    result differs from "all slots holding the key".
- `BinaryTree.dfy`: the class, with `tree` as a `seq<V>` field and the
  closure as a `const key: V -> int`.
  - The shifting loops `_add` and `_delete`, and `add`, `load`, `find` and
    `delete`, are imperative methods.
  - The read-only searches inside `add` and `findKeysByValue` are
    module-level methods over the list contents. Each carries loop
    invariants packaged as a predicate (`Brackets`, `Tracks`) with a
    one-step lemma.

The model follows the code where the code and its documentation disagree:

- The forward scan returns only the last index once it reaches it,
  whatever that slot holds.
  - On `[1, 2, 3]`, `find(2)` returns 3 (`Lookup.MiddleOfThree`).
  - On `[2, 2, 2, 5]`, `findKeysByValue(2)` returns `[3]`, so `delete(2)`
    removes the 5 and keeps every 2 (`Lookup.DeleteTwosRemovesFive`).
- Deletion removes the indices found in ascending order, and each removal
  shifts the tail left. On `[1, 1, 2, 3, 4]`, `delete(1)` removes the
  first 1 and then the 2, leaving `[1, 3, 4]`
  (`Lookup.DeleteOnesRemovesTwo`, `Lookup.DeleteLeavesCopy`).
- The doc comment of `find` (BinaryTree.php:106) says it returns all
  elements with the key. For a key present in a sorted list this holds
  when the list has at most two slots, when the run of the key ends before
  the last two slots (`Lookup.LookupFindsRun`), or when the run is the
  last slot alone (`Lookup.LookupLastSlot`, `Lookup.LastOfThree`).
- The doc comment of `delete` (BinaryTree.php:91) says it deletes all
  elements with the key. Under the same conditions this holds only when
  the run is a single slot (`Lookup.DeleteOutcome`); a longer run keeps a
  copy (`Lookup.DeleteLeavesCopy`).
- The doc comment of `find` (BinaryTree.php:109) says a key with no
  element gives null. An absent key strictly inside the key range of three
  or more slots instead ends in PHP's TypeError from
  `getValueByKey(null)`; the model gives this case the outcome
  `TypeError` (`Lookup.LookupAbsent`).

## Model

| member | source | states |
|---|---|---|
| Windows.Pow2 | BinaryTree.php:202 | `1 << depth`: 2^d, defined by doubling, and at least 1 |
| Windows.MinValueKey | BinaryTree.php:195-198 | `path << depth`, the first index of a window: path * 2^depth; at depth 0 the path itself, and 0 exactly for path 0 |
| Windows.CeilLog2 | BinaryTree.php:61 | the starting depth is the least d with n <= 2^d: 2^d covers n, and 2^(d-1) does not |
| Windows.MaxValueKey | BinaryTree.php:200-204 | the last index of a window is inside the list and inside the window; it is the window's own end or the last index n - 1; and it is not before the window's start when that start is inside the list |
| Windows.Root | BinaryTree.php:60-63 | at the starting depth, path 0 is the whole list: first index 0, last index n - 1 |
| Windows.PairWindow | BinaryTree.php:75-78 | a window at depth 1 spans at most two slots |
| Windows.LeftChildInside | BinaryTree.php:80-82 | the look-ahead index `maxKeyNextDepth` of a window starting inside the list is a valid index |
| Windows.Children | BinaryTree.php:80-84 | after `path << 1` (and `path++`), the left child starts where its parent starts; the right child ends where its parent ends; the right child starts just past the left child's end unless the left child is clipped at n - 1 |
| Order.RunOfKey | BinaryTree.php:180-190 | in a sorted list, the slots holding q are exactly one contiguous run, from the first slot not below q up to the first slot after it holding another key |
| Order.BelowPrefix | BinaryTree.php:150-179 | in a sorted list, the slots whose key is below q are exactly those before the first slot not below q |
| Order.SortedGrouped | BinaryTree.php:150-179 | a sorted list has its keys below q first, then the run of q, for every q |
| Order.Range | BinaryTree.php:188 | `range(lo, hi)` has hi - lo + 1 entries, the i-th being lo + i |
| Order.Assign | BinaryTree.php:220-222 | writing slot i overwrites it, or appends when i is the length, and leaves every other slot alone |
| Order.Insert | BinaryTree.php:217-223 | the effect of `_add(k, v)`: one slot longer, v at k, the slots before k unchanged, the slots from k on shifted one to the right |
| Order.InsertMultiset | BinaryTree.php:217-223 | inserting at an index adds exactly the one value to the contents |
| Order.InsertSorted | BinaryTree.php:43-88 | inserting into a sorted list keeps it sorted if and only if the new key is at least its left neighbour's and at most its right neighbour's |
| Order.SlotBetween | BinaryTree.php:43-88 | in a sorted list, every key before such a slot is at most the new key, and every key from the slot on is at least it |
| Order.RemoveAt | BinaryTree.php:225-231 | the effect of `_delete(k)`: for k inside the list, one slot shorter, the slots before k unchanged, the slots after k shifted one to the left; for k past the end, the list unchanged |
| Order.DeleteAll | BinaryTree.php:97-101 | the loop of `delete`: `_delete` at each index in the order given; the result loses at most one slot per index |
| Order.DeleteAllSorted | BinaryTree.php:95-103 | removing slots at any indices, one after another, keeps a sorted list sorted |
| Order.DeleteAllShrinks | BinaryTree.php:95-103 | removing slots leaves a sub-multiset of the contents, shorter by at most one slot per index |
| Order.DeleteAllKeepsPrefix | BinaryTree.php:98-100 | removals only at indices above a leave the slots 0..a in place |
| Order.AscendingDeleteKeepsSecond | BinaryTree.php:98-100 | removing the ascending indices a, a + 1, ..., c one after another never removes the value first stored at a + 1: it ends up at index a |
| Lookup.OutOfRange | BinaryTree.php:134-136 | the early exit of findKeysByValue: no slots, or q below the first key or above the last; on a sorted list such a q is held by no slot |
| Lookup.Scan | BinaryTree.php:180-190 | the forward scan from a slot s holding q: the indices from s up to the first other key, or the last index alone once the scan reaches it; never empty, every index inside the list |
| Lookup.Wrap | BinaryTree.php:116-125 | how `find` wraps the keys: null exactly when there are none, the stored value at the single index when there is one, otherwise an array over exactly the indices found |
| Lookup.SortedLookup | BinaryTree.php:130-193 | the result on a sorted list has the general shape `KeysShape`: no keys when q is out of range, a TypeError only from three slots on, otherwise adjacent indices inside the list holding q, except that a lone index may be the last slot |
| Lookup.ScanShape | BinaryTree.php:180-192 | the forward scan from a slot holding q has that shape on any list |
| Lookup.DescentLookup | BinaryTree.php:150-192 | for three or more slots with q in range, SortedLookup is a TypeError when the first slot not below q holds another key, and otherwise the forward scan from that slot |
| Lookup.StartLookup | BinaryTree.php:179-192 | a start that is the first slot not below q when it holds q, and absent otherwise, followed by the scan or the TypeError, gives exactly SortedLookup |
| Lookup.DescentPromise | BinaryTree.php:150-192 | a start as the descent finds it yields the full promise of findKeysByValue: its shape on any list, and SortedLookup on a sorted one |
| Lookup.SmallPromise | BinaryTree.php:138-148 | on one or two slots with q in range, the direct check of slots 0 and 1 keeps the full promise |
| Lookup.SmallLookup | BinaryTree.php:138-148 | on one or two sorted slots with q in range, SortedLookup lists exactly the slots holding q |
| Lookup.FindPromise | BinaryTree.php:114-128 | wrapping the keys as `find` does keeps its promise: SortedFind on a sorted list; null out of range; a TypeError only from three slots on; a single value that is stored and holds q unless it is the last slot; an index-to-value array whose entries are stored slots holding q |
| Lookup.RunBeforeLastTwo | BinaryTree.php:180-190 | when q occurs in a sorted list but not in its last two slots, its run ends before n - 2 and findKeysByValue yields exactly that run |
| Lookup.LookupFindsRun | BinaryTree.php:130-193 | when the run of q stops short of the last two slots (or there are at most two), an index is returned if and only if it holds q |
| Lookup.LookupLastSlot | BinaryTree.php:180-183 | when q occurs in one of the last two slots of three or more, only the last index is returned |
| Lookup.LookupAbsent | BinaryTree.php:134-185 | an absent q gives no keys, except strictly inside the key range of three or more slots, where it throws |
| Lookup.WrapMany | BinaryTree.php:117-125 | two distinct indices give the index-to-value array rather than a single value |
| Lookup.FindUnique | BinaryTree.php:114-128 | round trip: the key of a value held by no other slot of a sorted list gives back that value, unless it sits at n - 2 of three or more slots |
| Lookup.FindReturnsRun | BinaryTree.php:114-128 | two or more copies of q ending before the last two slots come back as an array whose indices are exactly the slots holding q, each mapped to its value |
| Lookup.DeleteOutcome | BinaryTree.php:95-103 | what `delete` leaves: a sub-multiset, sorted when the list was; the list unchanged when q is out of range; for a single key k, the list with slot k removed and the rest in order |
| Lookup.DeleteLeavesCopy | BinaryTree.php:95-103 | because removal is ascending, a run of two or more copies of q ending before the last two slots is not cleared: the second copy survives at the run's start |
| Lookup.LongRun | BinaryTree.php:150-190 | when q holds two adjacent slots of a sorted list and neither of the last two, findKeysByValue returns the run of q as a range of at least two indices, starting at the first slot not below q |
| Lookup.MiddleOfThree | BinaryTree.php:180-183 | on sorted [1, 2, 3], `find(2)` returns 3 |
| Lookup.LastOfThree | BinaryTree.php:114-192 | on sorted [1, 2, 3], `find(3)` returns 3 from the keys [2], and `delete(3)` leaves [1, 2] |
| Lookup.DeleteTwosRemovesFive | BinaryTree.php:95-103 | on sorted [2, 2, 2, 5], `delete(2)` removes index 3 and leaves [2, 2, 2] |
| Lookup.DeleteOnesRemovesTwo | BinaryTree.php:95-103 | on sorted [1, 1, 2, 3, 4], the keys of 1 are [0, 1] and `delete(1)` leaves [1, 3, 4] |
| Tree.BinaryTree.constructor | BinaryTree.php:18-21 | a new tree is empty and ordered by the given key |
| Tree.NewIdentityTree | BinaryTree.php:18-21 | without a closure, a new empty tree of integers is keyed by the integers themselves, through `Lookup.Id`, the default closure `fn($x) => $x` |
| Tree.BinaryTree.AddAt | BinaryTree.php:217-223 | `_add(k, v)` leaves the list equal to its slots before k, then v, then its slots from k on |
| Tree.BinaryTree.DeleteAt | BinaryTree.php:225-231 | `_delete(k)` removes slot k and moves the tail left; an index past the end changes nothing |
| Tree.BinaryTree.Add | BinaryTree.php:43-88 | exactly one insertion: the contents gain exactly the value; on a sorted list every key before its slot is at most its own and every key after it is at least its own, and the list stays sorted |
| Tree.InsertionIndex | BinaryTree.php:45-87 | the search always yields an index (it never falls out of the loop), within 0..n, whose left neighbour's key is at most the value's and, on a sorted list, whose slot's key is at least it |
| Tree.WindowSlots | BinaryTree.php:62-78 | each exit of the search from a window it keeps bracketed yields a valid place: at the first slot when its key is not below the value, past the last slot when its key is not above it, at the last slot when the window spans at most two slots; a place is one whose left neighbour's key is at most the value's and, on a sorted list, whose own slot's key is at least it |
| Tree.BracketStep | BinaryTree.php:60-85 | one step down the search of `add` keeps its invariant: the window starts inside the list, the slot before it is below the value, its last slot is the list's last or not below the value |
| Tree.BinaryTree.Load | BinaryTree.php:29-35 | the list grows by the number of items and its contents gain exactly the items; a sorted list stays sorted; starting empty, the list ends sorted and a permutation of the items |
| Tree.RunStart | BinaryTree.php:150-179 | `minFoundKey ?? maxFoundKey` is a slot holding q; when the keys are grouped around q (in particular when sorted) it is the first slot holding q, or null when q is absent |
| Tree.DescendStep | BinaryTree.php:153-177 | one step down the descent of findKeysByValue keeps its invariant: the window contains the first slot not below q; a recorded first slot is that slot; a recorded last slot shows q present |
| Tree.GroupedStep | BinaryTree.php:163-177 | on keys grouped around q, recording the window's ends and taking the child chosen by the look-ahead keeps the first slot not below q inside the window; a recorded first slot is that slot; a recorded last slot proves q present; and at depth 1 with no first slot recorded, the last slot recorded is the first slot holding q |
| Tree.TracksExit | BinaryTree.php:154-156 | where the descent stops, at depth 0 or with both ends recorded, its invariant gives the promise of RunStart |
| Tree.ScanRun | BinaryTree.php:180-192 | the forward scan returns the slots from the start up to the first other key, or only the last slot once it reaches it |
| Tree.ValuesAt | BinaryTree.php:117-120 | the loop of `find` maps each key found to the value stored at it |
| Tree.FindKeysByValue | BinaryTree.php:130-193 | the full promise `KeysPromise`: the general shape on any list, and SortedLookup on a sorted one |
| Tree.BinaryTree.Find | BinaryTree.php:114-128 | the full promise `FoundShape`, including SortedFind on a sorted list |
| Tree.BinaryTree.Delete | BinaryTree.php:95-103 | throws exactly where findKeysByValue throws, leaving the list as it was; otherwise the list is the one left by removing the keys found in ascending order, with the outcomes of DeleteOutcome |

## Left out

- Keys are `int`, and the closure is a fixed pure function `V -> int`. PHP `mixed` values, loose `==`/`<` comparisons and type juggling are not modelled.
- `find` and `delete` compare their argument directly against the keys, as the code does, while `add` applies the closure first. The query of `find` and `delete` is therefore modelled as a key.
- `ceil(log($n, 2))` is floating point in the source. It is modelled as the integer ceiling log2 `Windows.CeilLog2`; rounding error in `log` is not modelled.
- `isset` in `getMaxValueKey` treats a stored null as absent. The model takes an index to be present exactly when it is below the length; stored nulls are not modelled.
- For one slot, `findKeysByValue` also reads the missing slot 1, with an undefined-index warning, and compares null loosely with the query. In PHP 8 `null == 0` holds, so on a one-slot list whose key is 0 the source returns `[0, 1]`: `find(0)` then gives a two-entry array whose second value is null, and `delete(0)` removes slot 0 and then does nothing for index 1. The model checks only slot 0, so it returns `[0]`, and `find(0)` gives the single stored value.
- The TypeError from `getValueByKey(null)` is modelled as the outcome `TypeError`, not as a thrown exception. `Tree.BinaryTree.Delete` reports it as `thrown` and leaves the list unchanged.
- `getValueByKey` and `getRealValue` are inlined as `key(t[i])`; they carry no behaviour of their own.
- The fluent `return $this` of `load`, `add` and `delete` is not modelled; it only allows chaining.
- Integer width: PHP integers are 64-bit, and `<<` could overflow for very large lists. Indices are unbounded here.
- PHP arrays are ordered maps. The model keeps `$tree` as a dense sequence, and the result of `find` as a `map` without insertion order. `array_shift` on a one-entry array is modelled as taking that entry.
- Tree.InsertionIndex: returns `Option<nat>` so that falling out of the loop (line 87, returning without inserting) can be expressed; the ensures proves it never happens.
- Tree.RunStart, Tree.ScanRun, Tree.InsertionIndex, Tree.FindKeysByValue: module-level methods over a snapshot of the list rather than class methods. They only read `$tree`, so nothing changes in place; the class methods `Add`, `Find` and `Delete` call them with `tree`.
