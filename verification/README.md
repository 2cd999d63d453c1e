# Two SET implementations refining a finite set

This project models two implementations of the same SET abstract data type
from a course-lab repository, and proves that each one behaves like a
mathematical finite set.

- `lab2_unsorted.c` keeps strings in a bounded, unsorted array. The array
  has `length` slots and its live prefix is `data[0..count)`. A linear
  `search` finds elements. `addElement` appends at slot `count` unless the
  array is full or the string is already there. `removeElement` fills the
  hole with the last live string and sets the old last slot to NULL.
- `lab4_set.c` keeps generic elements in a hash table of `maxElts / 20`
  LIST buckets (separate chaining). An element lives in bucket
  `hash(elt) % length`. Insertion prepends to that bucket if the element is
  absent, removal deletes it from that bucket, and lookup searches only that
  bucket.

Files:

- `wrappers.dfy` (`Wrappers`): `Option`, standing for a possibly-NULL pointer result.
- `seqs.dfy` (`Seqs`): duplicate-freedom of a sequence, the set of its
  elements, and the fact that a duplicate-free sequence is as long as that set.
- `lists.dfy` (`Lists`): the two LIST operations the hash set needs beyond
  prepend and length, over the sequence of items read from the head. The
  behaviour follows the repository's circular-list LIST (`lab4_list.c`):
  `findItem` returns the data of the first matching node, and `removeItem`
  unlinks the first matching node.
- `unsorted_set.dfy` (`UnsortedSet`): the array set. The array is a sequence
  of `length` slots, and each slot is `None` (NULL) or `Some(string)`. The
  abstract set `Contents` is the set of strings in the live prefix. `Valid`
  says `0 <= count <= length`, every live slot is non-NULL and no string is
  stored twice. Each C function that changes the set becomes a method that
  returns the new set value.
- `hash_set.dfy` (`HashSet`): the hash set. Buckets are a `seq<seq<T>>`.
  The user's hash function is a pure `hash: T -> nat` stored in the set, and
  "compare returns 0" is `==`. `Valid` says: there is at least one bucket;
  every element sits in its home bucket; no bucket holds a duplicate; and
  `count` is the sum of the bucket lengths. The abstract set `Contents` is
  the union of the buckets.

`createSet` in `lab4_set.c` does not check `maxElts`. With fewer than 20 it
builds a table of zero buckets, and any later `hash(elt) % length` divides by
zero. `HashSet.CreateSet` models this. Its result is `Valid` exactly when
`maxElts >= 20`. The hashing operations require at least one bucket.

Helpers without a row of their own: `UnsortedSet.Live` (the strings of the
live prefix `data[0..count)`, in slot order), `UnsortedSet.ContentsMember`,
`HashSet.BucketsDisjoint`, the `Flatten`/`TotalSize` lemmas and
`Lists.DropDistinct`.

## Model

| member | source | states |
|---|---|---|
| UnsortedSet.Search | lab2_unsorted.c:23-28 | Returns -1 exactly when no live slot holds `elt`. Otherwise it returns the first live index whose string equals `elt`, which lies in `[0, count)`. |
| UnsortedSet.CreateSet | lab2_unsorted.c:30-39 | The new set has `length == maxElts` and `count == 0`, satisfies the invariant and denotes the empty set. |
| UnsortedSet.NumElements | lab2_unsorted.c:49-52 | Returns `count`. On a valid set this equals the number of distinct strings in the abstract set. |
| UnsortedSet.AddElement | lab2_unsorted.c:54-60 | A full array or a present string leaves the set unchanged. Otherwise `elt` is stored at slot `count` and `count` grows by one. The invariant is preserved. When there is room the abstract set gains exactly `elt`; when the array is full it is unchanged. |
| UnsortedSet.RemoveElement | lab2_unsorted.c:62-70 | An absent string leaves the set unchanged. Otherwise, at the index where `elt` was found, the former last string fills the hole, the old last slot becomes NULL and `count` drops by one. The invariant is preserved and the abstract set loses exactly `elt`. |
| UnsortedSet.RemoveLiveContents | lab2_unsorted.c:66-69 | Filling the hole with the last string, on a duplicate-free live prefix, keeps it duplicate-free and removes exactly the string that was in the hole. |
| UnsortedSet.FindElement | lab2_unsorted.c:72-76 | Returns None exactly when `elt` is not in the abstract set. Otherwise it returns the stored string, which equals `elt`. |
| UnsortedSet.GetElements | lab2_unsorted.c:78-83 | Returns `count` strings, the i-th being the string in slot i. Their set is the abstract set, with no duplicates when the set is valid. |
| Lists.FindItem | lab4_set.c:62 | Finds a match exactly when `x` is in the list, and the item returned equals `x`. |
| Lists.RemoveItem | lab4_set.c:73 | An absent item leaves the list unchanged. A present item makes the list one shorter, and its multiset loses exactly one copy of `x`. |
| Lists.RemoveItemFirst | lab4_set.c:73 | The node removed is the first one holding `x`. The nodes before and after it keep their order. |
| Lists.RemoveItemDistinct | lab4_set.c:73 | On a duplicate-free bucket, removal keeps it duplicate-free. Its members become exactly the old members other than `x`. |
| Seqs.DistinctCardinality | lab4_set.c:54-57 | A duplicate-free sequence has as many elements as its set. This is why `count` is the size of the set. |
| HashSet.CreateSet | lab4_set.c:29-45 | `maxElts / 20` buckets, all empty, with `count == 0` and the empty abstract set. The table is valid exactly when `maxElts >= 20`. |
| HashSet.AddElement | lab4_set.c:59-66 | If `elt` is already in its home bucket, buckets and count are unchanged. Otherwise `elt` is prepended to bucket `hash(elt) % length` and `count` grows by one. Every other bucket is untouched. |
| HashSet.RemoveElement | lab4_set.c:68-75 | If `elt` is absent from its home bucket, nothing changes. Otherwise that bucket loses one copy of `elt` and one item, and `count` drops by one. Every other bucket is untouched. |
| HashSet.FindElement | lab4_set.c:77-82 | Finds a match exactly when `elt` is in its home bucket, and the match equals `elt`. |
| HashSet.GetElements | lab4_set.c:84-98 | Returns the buckets' items concatenated in bucket-index order. The length is the total of the bucket sizes. |
| HashSet.GetElementsIsContents | lab4_set.c:84-98 | On a valid table the result of getElements has length `count`, holds no duplicate, and its set is the abstract set. |
| HashSet.NumElements | lab4_set.c:54-57 | Returns `count`, which on a valid table is the size of the abstract set (proved by `CountIsCardinality`). |
| HashSet.CountIsCardinality | lab4_set.c:54-57 | On a valid table, `count` equals the number of distinct elements in the union of the buckets. |
| HashSet.Home | lab4_set.c:61 | The home bucket `hash(elt) % length` is a valid bucket index below `length`. The same index is computed at lines 70 and 79. |
| HashSet.HomeMember | lab4_set.c:61-62 | Under the invariant, an element is in the abstract set exactly when it is in its home bucket. This is why searching one bucket suffices. |
| HashSet.FindElementRefines | lab4_set.c:77-82 | On a valid table, findElement finds `elt` exactly when `elt` is in the abstract set. |
| HashSet.AddElementRefines | lab4_set.c:59-66 | addElement preserves the invariant (home buckets, no duplicates, `count` equal to the sum of bucket lengths). The abstract set gains exactly `elt`. |
| HashSet.RemoveElementRefines | lab4_set.c:68-75 | removeElement preserves the invariant. The abstract set loses exactly `elt`. |
| HashSet.AddElementIdempotent | lab4_set.c:61-63 | Adding the same element twice leaves the same buckets and count as adding it once. |
| HashSet.AddRemoveRoundTrip | lab4_set.c:59-75 | Adding an element absent from its home bucket and then removing it restores the buckets and count exactly. |

## Left out

- Memory management is not modelled: `malloc`, `free`, `strdup`, `memcpy` and the `assert`s on allocation results. Allocation is taken to succeed, and a string copy is the same value as the original.
- `destroySet` in both files is not modelled, because it only deallocates. The hash-set version never frees its bucket array, which leaks memory but has no effect on behaviour.
- UnsortedSet.CreateSet: the model starts every slot as NULL (`None`), but `malloc` leaves them indeterminate. No operation reads a slot at or beyond `count`, so this affects nothing observable.
- A negative `maxElts` is not modelled: both `createSet`s take a `nat`. In the C code the allocation size converts the negative value to a huge unsigned size, so `malloc` fails and the allocation assert aborts.
- The concrete `hash` and `compare` functions are not modelled. `hash` is any pure function to `nat`, so its 32-bit `unsigned` width does not appear. `compare(a, b) == 0` and `strcmp(a, b) == 0` are modelled as `==`.
- NULL elements are outside the model for every hash-set operation, not just for the `elt != NULL` assertion in `findElement`. `findItem` returns the stored data, so a stored NULL would look like "not found". `addElement` would then insert it again and `removeElement` could never remove it. The model's elements are values of `T`, which has no NULL.
- In-place update and pointer aliasing are not modelled. Each operation returns a new set value instead of updating the structure behind a pointer. `findElement` and `getElements` in the array set hand out the set's own string pointers, and a later `removeElement` frees one of them; the model hands out values, so it cannot show such a pointer dangling.
- NUL-terminated strings are not modelled: `String` is `seq<char>`, which may contain `'\0'`. A C string stops at its first NUL, so `strcmp` and `strdup` only ever see the part before it. For strings without a NUL the two agree.
- Integer overflow of `count` is not modelled. Both counts are bounded by the number of stored elements, which memory limits long before the `int` limit.
- The LIST module's internals are not modelled: its circular doubly-linked nodes, sentinel head and node allocation. A bucket is the sequence of its items read from the head. `addFirst` is prepending, `numItems` is the length and `getItems` is the sequence itself.
