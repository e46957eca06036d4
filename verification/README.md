# Small collections of the ECS examples, modelled in Dafny

This project models the two self-contained collection types in
`Assets/Examples/Collections/` of an Entity-Component-Storage engine for Unity.
It proves properties of both.

- **SmallBuffer** (`small_buffer.dfy`, module `SmallBuffers`) is a fixed-capacity
  inline list. The source has six structs (capacities 14, 12, 10, 7, 4 and 3)
  that differ only in capacity and share one set of shifting algorithms. The
  model is one class `SmallBuffer<T>`: an array of `N` slots and a `length`
  field. Pure functions (`Inserted`, `ShiftedLeft`, `CopiedDown`, `Cleared`,
  `RangeRemovedAsWritten`, `RangeRemoved`) give the whole storage after each
  operation, stale slots past `length` included. Every method that changes the
  storage is proved to leave exactly that storage.
  - `Add`, `Clear`, `Insert`, `RemoveAt` and the corrected `RemoveRange` also
    state the live contents.
  - `RemoveRangeAsWritten` states them only when the tail after the range is no
    longer than `count`, where the source gets them right.
  - `SetElement`, `ShiftLeft`, `CopyDown` and `MoveRangeTailAsWritten` state
    only the storage.

  The debug-only guards (`RequireIndexInBounds`, `RequirePositiveCount`) become
  `requires` clauses; the predicate `RangeInBounds` collects RemoveRange's three.
  The predicate `PassesNotFullCheckAsWritten` is `RequireNotFull`'s test as
  written. The model's Add and Insert require `length < N` instead.
- **FixedHashTable** (`fixed_hash_table.dfy`, module `HashTables`) is a fixed
  number of buckets. Each bucket is a small linear-probe array of integer keys
  and their values. `Get(hash)` uses bucket `|hash % size|` and allocates it on
  first use. An allocated bucket is recorded in `sparse`, so that `Clear` and the
  enumerator visit only recorded buckets. `Get` then returns a reference to the
  value slot of `hash`, inserting the key if it is absent. The C# `ref V` becomes
  a pair (bucket index, slot), read and written through `Read` and `Write`.
  `Bucket` is a C# struct that holds two array references, so it is a Dafny
  datatype that holds two arrays. The table is a class whose ghost `State`
  follows the pure specification `TableGet` / `WriteSlot` / `ClearedTable` /
  `Enumerated`.

Behaviours of the source that the model keeps and proves:

- `Insert` needs `index < Length`, so it can neither append nor insert into an
  empty buffer.
- `RemoveAt` and `RemoveRange` leave stale copies in the slots past the new
  length.
- `Clear` on a SmallBuffer writes the default value into the live slots.
- `Clear` on the table resets only bucket counts. It erases no key or value and
  deallocates no bucket.
- A bucket that was allocated before a table `Clear` is not recorded again by a
  later `Get` (`GetAfterClearNotRecorded`). A key inserted into it then is
  neither enumerated nor reset by the next `Clear`.

C#'s `%` truncates toward zero. `Rem` models it explicitly, because Dafny's `%`
is Euclidean. The model sets aside C#'s boxing of the struct when it is passed
to an extension method over an interface (SmallBuffer.cs:149): the shifting
loops work on the buffer's own storage.

## Model

| member | source | states |
|---|---|---|
| SmallBuffers.Inserted | Assets/Examples/Collections/SmallBuffer.cs:56-65 | slot by slot: slots before `index` kept, `v` at `index`, live slot `i >= index` moved to `i + 1`, slots past the end kept |
| SmallBuffers.ShiftedLeft | Assets/Examples/Collections/SmallBuffer.cs:71-72 | slot by slot: slots before `from` kept, slot `i` of `[from, len-1)` takes slot `i + 1`, last live slot and beyond keep their old value |
| SmallBuffers.CopiedDown | Assets/Examples/Collections/SmallBuffer.cs:90-91 | slot by slot: the `n` slots from `dst` take the `n` slots from `src`; all other slots kept |
| SmallBuffers.Cleared | Assets/Examples/Collections/SmallBuffer.cs:50-54 | the first `len` slots hold the default value, all later slots are kept |
| SmallBuffers.RangeRemovedAsWritten | Assets/Examples/Collections/SmallBuffer.cs:82-94 | the source's two-loop RemoveRange keeps the storage length and every slot before `index` |
| SmallBuffers.CopiesAsWritten | Assets/Examples/Collections/SmallBuffer.cs:82-88 | the first loop copies at most `count` elements, all from the live tail, and fewer only when it reaches `Length` |
| SmallBuffers.RangeRemoved | Assets/Examples/Collections/SmallBuffer.cs:75-95 | corrected storage: slots before `index` kept, live slot `j` of `[index, len - count)` takes slot `j + count`, later slots kept |
| SmallBuffers.RangeInBoundsAdmits | Assets/Examples/Collections/SmallBuffer.cs:77-81 | the guards pass exactly a range inside the live elements, plus a zero count at any `index >= 1` |
| SmallBuffers.InsertedContents | Assets/Examples/Collections/SmallBuffer.cs:56-65 | after Insert the live contents are the old ones with `v` inserted at `index` |
| SmallBuffers.ShiftedLeftContents | Assets/Examples/Collections/SmallBuffer.cs:67-73 | after the shift the live contents are the old ones with the element at `from` deleted |
| SmallBuffers.InsertThenRemoveAt | Assets/Examples/Collections/SmallBuffer.cs:56-73 | round trip: RemoveAt(index) after Insert(index, v) restores the first `Length` elements |
| SmallBuffers.RangeRemovedContents | Assets/Examples/Collections/SmallBuffer.cs:75-95 | corrected RemoveRange: the live contents lose exactly the slots `[index, index + count)` |
| SmallBuffers.RangeRemovedAsWrittenShortTail | Assets/Examples/Collections/SmallBuffer.cs:82-95 | when at most `count` elements follow the range, the source's RemoveRange deletes exactly the range |
| SmallBuffers.RangeRemovedAsWrittenOne | Assets/Examples/Collections/SmallBuffer.cs:75-95 | RemoveRange(index, 1) leaves the same storage as RemoveAt(index) |
| SmallBuffers.RangeRemovedAsWrittenLongTail | Assets/Examples/Collections/SmallBuffer.cs:90-94 | counterexample: `[1,2,3,4,5,6]`, RemoveRange(1, 2) keeps `[1,4,5,5]`, the corrected one `[1,4,5,6]` |
| SmallBuffers.RangeRemovedAsWrittenZeroCount | Assets/Examples/Collections/SmallBuffer.cs:77-94 | counterexample: the guards admit RemoveRange(1, 0) on `[1,2,3]`, which then holds `[1,3,3]` |
| SmallBuffers.NotFullCheckAsWrittenCounterexample | Assets/Examples/Collections/SmallBuffer.cs:24-30 | for every capacity: the `Length == 10` test agrees with "there is room" on all lengths exactly when the capacity is 10; otherwise a full buffer passes, and above 10 a buffer of 10 is refused |
| SmallBuffers.SmallBuffer.constructor | Assets/Examples/Collections/SmallBuffer.cs:100-118 | a default struct: `N` slots all holding the default value, `Length` 0 |
| SmallBuffers.SmallBuffer.GetElement | Assets/Examples/Collections/SmallBuffer.cs:121-126 | requires `0 <= index < Length`; returns live element `index` |
| SmallBuffers.SmallBuffer.SetElement | Assets/Examples/Collections/SmallBuffer.cs:128-132 | writes slot `index` and leaves every other slot unchanged |
| SmallBuffers.SmallBuffer.Add | Assets/Examples/Collections/SmallBuffer.cs:134-139 | with room: slot `old Length` holds `item`, `Length` grows by 1, earlier slots unchanged |
| SmallBuffers.SmallBuffer.Clear | Assets/Examples/Collections/SmallBuffer.cs:141-145 | live slots become default, later slots unchanged, `Length` 0 |
| SmallBuffers.SmallBuffer.Insert | Assets/Examples/Collections/SmallBuffer.cs:147-151 | requires room and `0 <= index < Length`; storage is `Inserted`, contents gain `value` at `index`, `Length` + 1 |
| SmallBuffers.SmallBuffer.ShiftLeft | Assets/Examples/Collections/SmallBuffer.cs:71-72 | the shift-left loop leaves exactly `ShiftedLeft` of the old storage |
| SmallBuffers.SmallBuffer.CopyDown | Assets/Examples/Collections/SmallBuffer.cs:90-91 | the ascending copy loop leaves exactly `CopiedDown` of the old storage |
| SmallBuffers.SmallBuffer.RemoveAt | Assets/Examples/Collections/SmallBuffer.cs:153-157 | requires `0 <= index < Length`; contents lose element `index`, `Length` - 1 |
| SmallBuffers.SmallBuffer.RemoveRangeAsWritten | Assets/Examples/Collections/SmallBuffer.cs:159-163 | the source's RemoveRange: storage is `RangeRemovedAsWritten`, `Length` shrinks by exactly `count`; when at most `count` elements follow the range, the contents lose exactly the range |
| SmallBuffers.SmallBuffer.MoveRangeTailAsWritten | Assets/Examples/Collections/SmallBuffer.cs:82-94 | the clamp and both loops leave the copy of `CopiesAsWritten` elements followed by the one-slot shift, which is `RangeRemovedAsWritten` |
| SmallBuffers.SmallBuffer.RemoveRange | Assets/Examples/Collections/SmallBuffer.cs:75-95 | corrected RemoveRange under the same guards: contents lose exactly `[index, index + count)`, `Length` - `count` |
| HashTables.Rem | Assets/Examples/Collections/FixedHashTable.cs:41 | C# `%`: magnitude `|a| mod n`, sign of the dividend, strictly inside `(-n, n)` |
| HashTables.BucketIndex | Assets/Examples/Collections/FixedHashTable.cs:41 | the bucket index always lies in `[0, size)` and equals `|hash| mod size` |
| HashTables.RecordedIndexAsWritten | Assets/Examples/Collections/FixedHashTable.cs:45 | what the source records has the bucket index as magnitude; it differs from the bucket index exactly when it is negative, which needs a negative hash |
| HashTables.NegativeHashRecordedAsWritten | Assets/Examples/Collections/FixedHashTable.cs:45 | every negative hash that is not a multiple of `size` uses a bucket in `(0, size)` and records its negation, below 0 |
| HashTables.FindFrom | Assets/Examples/Collections/FixedHashTable.cs:19-20 | the first position from `from` holding the key, or none exists below `count` |
| HashTables.Find | Assets/Examples/Collections/FixedHashTable.cs:19-20 | found exactly when the key is live; the result is its first live position |
| HashTables.BucketGet | Assets/Examples/Collections/FixedHashTable.cs:17-23 | live key: its slot, bucket unchanged; absent key: written at slot `count`, which is returned, `count` + 1, earlier keys and all values kept |
| HashTables.BucketGetKeepsDistinct | Assets/Examples/Collections/FixedHashTable.cs:17-23 | Bucket.Get keeps the live keys free of duplicates |
| HashTables.BucketGetFindsSlot | Assets/Examples/Collections/FixedHashTable.cs:19-20 | with distinct live keys, Bucket.Get of a live key returns the slot where it sits and changes nothing |
| HashTables.NewBucket | Assets/Examples/Collections/FixedHashTable.cs:15 | a new bucket has `perKeySize` slots and `count` 0 |
| HashTables.TableGet | Assets/Examples/Collections/FixedHashTable.cs:39-48 | returns bucket `|hash % size|` and a slot holding `hash`; other buckets unchanged; table `count` + 1 and `sparse[count]` set exactly when the bucket was unallocated |
| HashTables.WithNewBucket | Assets/Examples/Collections/FixedHashTable.cs:44-45 | bucket `i` becomes a new bucket, `sparse[count]` becomes `i`, `count` + 1, other buckets and earlier records unchanged; valid records stay valid |
| HashTables.WriteSlot | Assets/Examples/Collections/FixedHashTable.cs:47 | writing through a reference changes only that value slot |
| HashTables.ResetCounts | Assets/Examples/Collections/FixedHashTable.cs:51-52 | listed buckets get `count` 0 with keys and values kept; others unchanged |
| HashTables.ClearedTable | Assets/Examples/Collections/FixedHashTable.cs:50-54 | table count 0, `sparse` kept, every bucket keeps its allocation, keys and values; recorded buckets get count 0, others keep theirs |
| HashTables.Enumerated | Assets/Examples/Collections/FixedHashTable.cs:57-61 | yields `buckets[sparse[i]]` for `i` in `[0, count)`, in recording order |
| HashTables.DistinctBounded | Assets/Examples/Collections/FixedHashTable.cs:45 | pigeonhole: distinct bucket indices number at most `size` |
| HashTables.SparseHasRoom | Assets/Examples/Collections/FixedHashTable.cs:45 | under the invariant `sparse[count++]` is in bounds whenever a bucket is allocated |
| HashTables.CanGetUnderInv | Assets/Examples/Collections/FixedHashTable.cs:39-48 | under the invariant, Get needs only room in the selected bucket |
| HashTables.WithNewBucketPreservesInv | Assets/Examples/Collections/FixedHashTable.cs:42-46 | allocation records the bucket once: records stay distinct, `count <= size` |
| HashTables.TableGetPreservesInv | Assets/Examples/Collections/FixedHashTable.cs:39-48 | Get keeps the records distinct, allocated and in range, and every bucket's live keys distinct |
| HashTables.TableGetIdempotent | Assets/Examples/Collections/FixedHashTable.cs:39-48 | a second Get with the same hash returns the same bucket and slot and changes nothing |
| HashTables.WriteThenGetReadsBack | Assets/Examples/Collections/FixedHashTable.cs:39-48 | a value written after Get is found through the reference the next Get returns |
| HashTables.ClearKeepsBuckets | Assets/Examples/Collections/FixedHashTable.cs:50-54 | after Clear the invariant holds (every bucket's live keys are still distinct) and nothing is enumerated |
| HashTables.GetAfterClearNotRecorded | Assets/Examples/Collections/FixedHashTable.cs:42-46 | after Clear, Get on a bucket allocated before does not re-record it and the table count stays 0 |
| HashTables.EnumeratedAfterAllocation | Assets/Examples/Collections/FixedHashTable.cs:57-61 | allocating a bucket appends it to the enumeration, earlier entries unchanged |
| HashTables.Bucket.Get | Assets/Examples/Collections/FixedHashTable.cs:17-23 | the search loop and append leave the bucket and slot `BucketGet` gives; only `keys` is written |
| HashTables.Bucket.Create | Assets/Examples/Collections/FixedHashTable.cs:15 | `new Bucket(size)`: two fresh, distinct arrays of `size` slots holding `NewBucket(size)` |
| HashTables.FixedHashTable.constructor | Assets/Examples/Collections/FixedHashTable.cs:32-37 | any `size` (0 included) and any `perKeySize`, 5 by default: `size` unallocated buckets, nothing recorded |
| HashTables.FixedHashTable.Get | Assets/Examples/Collections/FixedHashTable.cs:39-48 | new state, bucket and slot are those of `TableGet`; invariant kept |
| HashTables.FixedHashTable.AllocateBucket | Assets/Examples/Collections/FixedHashTable.cs:42-46 | allocates a fresh bucket in place and records its index at `sparse[count++]` |
| HashTables.FixedHashTable.GetInBucket | Assets/Examples/Collections/FixedHashTable.cs:47 | runs Bucket.Get on the struct held in place, as `BucketGet` says |
| HashTables.FixedHashTable.Read | Assets/Examples/Collections/FixedHashTable.cs:47 | reading through a reference yields the slot's value |
| HashTables.FixedHashTable.Write | Assets/Examples/Collections/FixedHashTable.cs:47 | writing through a reference is `WriteSlot` |
| HashTables.FixedHashTable.Clear | Assets/Examples/Collections/FixedHashTable.cs:50-54 | the new state is exactly `ClearedTable` of the old state; invariant kept |
| HashTables.FixedHashTable.ResetRecorded | Assets/Examples/Collections/FixedHashTable.cs:51-52 | the loop gives each recorded bucket struct count 0 and leaves every other struct unchanged |
| HashTables.FixedHashTable.Enumerate | Assets/Examples/Collections/FixedHashTable.cs:57-61 | returns the structs `buckets[sparse[i]]` for `i < count`, whose contents are `Enumerated` |

## Left out

- The engine's world, data pools and native pools are not part of this model. So are the physics, rendering, spawner and jobs examples: floating point, Unity API calls and parallel jobs.
- Unsafe layout is not modelled: `StructLayout`, `fixed` pointers, `readonly` fields written through pointers. The element fields are one array.
- `[BurstDiscard]` and the `ENABLE_UNITY_COLLECTIONS_CHECKS` switch are not modelled. The guards always apply, as `requires` clauses.
- The boxing of the struct at the extension-method calls (SmallBuffer.cs:143-161) is not modelled. The shifts act on the buffer's own storage.
- `Length` is a `ushort`. With capacities of at most 14 and the guards in force, it never wraps, so the model uses `nat`.
- SmallBuffers.SmallBuffer.SetElement: the source does no bounds check and writes outside the struct for a bad index. The model requires a slot index in `[0, N)`.
- SmallBuffers.SmallBuffer.Add: the source's capacity test is `Length == 10`. The model requires `length < N` (see Findings).
- SmallBuffers.SmallBuffer.Insert: the same `Length == 10` test guards Insert (SmallBuffer.cs:58). The model requires `length < N`, so on a 12- or 14-slot buffer holding 10 the model's Insert proceeds where the source's throws.
- Writes through the indexer `this[int]` (SmallBuffer.cs:119) are not modelled separately. The indexer returns `ref GetElement(index)`, so it is bounds-checked against `Length`. Reads through it are GetElement.
- HashTables.FixedHashTable.Get: on a table of 0 buckets the source throws `DivideByZeroException` at line 41. The model's `CanGet` requires at least one bucket.
- HashTables.FixedHashTable.AllocateBucket: with a negative `perKeySize` the source's first allocation throws `OverflowException`. With `perKeySize` 0, the write into the bucket then fails. The model's `CanGet` requires `perKeySize > 0` for a bucket not yet allocated.
- A negative `size` makes the C# constructor throw at `new Bucket[size]`. The model's `size` is a `nat`.
- The FixedHashTable constructor never allocates `sparse`, so the first `Get` would fail on a null array. The model allocates `size` slots, the most the table can record.
- HashTables.Bucket.Get: the source never checks for a full bucket and would index past the arrays. The model requires room when the key is absent.
- HashTables.FixedHashTable.Get: the model records the bucket index, not the signed remainder (see Findings).
- Hashes are C# `int`. The model uses unbounded `int`; no overflow can occur, because `|hash % size| < size`.
- The enumerator is lazy in C#. The model returns the whole sequence at once. The non-generic `GetEnumerator` (FixedHashTable.cs:62) is the same sequence.
- Keys and values are arrays shared by every copy of a `Bucket` struct. The abstract `State` keeps their contents as sequences, so an enumerated bucket's contents are those at the time of the call.
- C#'s `default(T)` is not a Dafny expression. It is the value `zero` passed to each constructor.

## Findings

| source | as written | input that shows it | evidently intended | confidence | as-written member | corrected member |
|---|---|---|---|---|---|---|
| Assets/Examples/Collections/SmallBuffer.cs:27 | `RequireNotFull` tests `Length == 10` for every capacity | a SmallBuffer7 holding 7 elements passes, so `Add` writes an eighth slot; a SmallBuffer14 holding 10 is refused | `Length == capacity` | high; not executed | SmallBuffers.NotFullCheckAsWrittenCounterexample | SmallBuffers.SmallBuffer.Add |
| Assets/Examples/Collections/SmallBuffer.cs:93-94 | the second loop shifts the tail after the range left by one slot, not by `count` | `[1,2,3,4,5,6]` with RemoveRange(1, 2) keeps `[1,4,5,5]` | `[1,4,5,6]` | high; not executed | SmallBuffers.RangeRemovedAsWrittenLongTail | SmallBuffers.SmallBuffer.RemoveRange |
| Assets/Examples/Collections/SmallBuffer.cs:79-94 | a zero count passes the guards when `index >= 1`, and the second loop still deletes element `index` | `[1,2,3]` with RemoveRange(1, 0) holds `[1,3,3]` | the buffer unchanged | medium; not executed | SmallBuffers.RangeRemovedAsWrittenZeroCount | SmallBuffers.SmallBuffer.RemoveRange |
| Assets/Examples/Collections/FixedHashTable.cs:45 | `sparse` records the signed remainder `i`, while line 41 uses bucket `|i|` | `Get(-7)` on 5 buckets uses bucket 2 and records -2, so `Clear` indexes `buckets[-2]` | record the bucket index `|i|` | high; not executed | HashTables.NegativeHashRecordedAsWritten | HashTables.FixedHashTable.AllocateBucket |
