/**
 * The fixed hash table of Assets/Examples/Collections/FixedHashTable.cs.
 *
 * A table of `size` buckets; each bucket is a small linear-probe array of at
 * most `perKeySize` integer keys with their values. `Get(hash)` selects the
 * bucket |hash % size|, allocates it on first use (recording its index in
 * `sparse` so that Clear and the enumerator visit only allocated buckets), and
 * returns a reference to the value slot of `hash`, inserting the key if absent.
 *
 * C# returns `ref V`; here a reference is the pair (bucket index, slot), read
 * and written through Read and Write.
 *
 * The state is specified twice: as a value (TableState) with pure functions for
 * each operation and lemmas about them, and as the class FixedHashTable over
 * arrays whose methods are proved to move its ghost State as those functions do.
 */
module HashTables {

  datatype Option<T> = None | Some(value: T)

  predicate Distinct(s: seq<int>)
  {
    forall i, j :: 0 <= i < j < |s| ==> s[i] != s[j]
  }

  /** C#'s `%` on int: truncating division, so the remainder has the dividend's sign. */
  function Rem(a: int, n: int): (r: int)
    requires n > 0
    ensures -n < r < n
    ensures a >= 0 ==> r >= 0
    ensures a <= 0 ==> r <= 0
    ensures (if r < 0 then -r else r) == (if a < 0 then -a else a) % n
  {
    if a >= 0 then a % n else -((-a) % n)
  }

  /** The bucket `Get` uses for a hash: `i < 0 ? -i : i` with `i = hash % size`. */
  function BucketIndex(hash: int, size: int): (r: nat)
    requires size > 0
    ensures r < size
    ensures r == (if hash < 0 then -hash else hash) % size
  {
    var i := Rem(hash, size);
    if i < 0 then -i else i
  }

  /** What the source records in `sparse`: the signed remainder, not the bucket index. */
  function RecordedIndexAsWritten(hash: int, size: int): (r: int)
    requires size > 0
    ensures (if r < 0 then -r else r) == BucketIndex(hash, size)
    ensures r != BucketIndex(hash, size) <==> r < 0
    ensures r < 0 ==> hash < 0
  {
    Rem(hash, size)
  }

  /**
   * Every negative hash that is not a multiple of `size` makes the source
   * record a negative number in `sparse`, the negated bucket it used (hash -7
   * in a table of 5 buckets uses bucket 2 but records -2), so a later Clear or
   * enumeration indexes `buckets` below 0.
   */
  lemma NegativeHashRecordedAsWritten(hash: int, size: int)
    requires size > 0 && hash < 0 && (-hash) % size != 0
    ensures 0 < BucketIndex(hash, size) < size
    ensures RecordedIndexAsWritten(hash, size) < 0
    ensures RecordedIndexAsWritten(hash, size) + BucketIndex(hash, size) == 0
  {
  }

  // ---------------------------------------------------------------------------
  // Buckets as values
  // ---------------------------------------------------------------------------

  /** The contents of an allocated bucket: both arrays in full, and `count`. */
  datatype BucketState<V> = BucketState(keys: seq<int>, values: seq<V>, count: nat)

  /** A well-formed bucket of capacity `capacity` whose live keys are distinct. */
  predicate BucketInv<V>(b: BucketState<V>, capacity: int)
  {
    |b.keys| == capacity && |b.values| == capacity && b.count <= capacity
    && Distinct(b.keys[..b.count])
  }

  /** The first position in [from, count) holding key `k`, searching upward. */
  function FindFrom(keys: seq<int>, count: nat, k: int, from: nat): (r: Option<nat>)
    requires from <= count <= |keys|
    ensures r.Some? ==> from <= r.value < count && keys[r.value] == k
    ensures r.Some? ==> forall j :: from <= j < r.value ==> keys[j] != k
    ensures r.None? ==> forall j :: from <= j < count ==> keys[j] != k
    decreases count - from
  {
    if from == count then None
    else if keys[from] == k then Some(from)
    else FindFrom(keys, count, k, from + 1)
  }

  /** The search loop of Bucket.Get over the live keys. */
  function Find(keys: seq<int>, count: nat, k: int): (r: Option<nat>)
    requires count <= |keys|
    ensures r.Some? <==> k in keys[..count]
    ensures r.Some? ==> r.value < count && keys[r.value] == k
    ensures r.Some? ==> forall j :: 0 <= j < r.value ==> keys[j] != k
  {
    var r := FindFrom(keys, count, k, 0);
    assert r.Some? ==> keys[..count][r.value] == k;
    r
  }

  /** Bucket.Get can proceed: the key is live, or there is a free slot for it. */
  predicate CanGetFromBucket<V>(b: BucketState<V>, k: int)
  {
    b.count <= |b.keys| && (k in b.keys[..b.count] || b.count < |b.keys|)
  }

  /**
   * Bucket.Get: the slot of a live key `k`, or else `k` is written into slot
   * `count`, which is returned, and `count` grows by one. Values are not touched.
   */
  function BucketGet<V>(b: BucketState<V>, k: int): (r: (BucketState<V>, nat))
    requires CanGetFromBucket(b, k)
    ensures r.1 < r.0.count <= |r.0.keys| == |b.keys| && r.0.keys[r.1] == k
    ensures r.0.values == b.values
    ensures k in b.keys[..b.count] ==> r.0 == b
    ensures k !in b.keys[..b.count] ==>
      r.1 == b.count && r.0 == b.(keys := b.keys[b.count := k], count := b.count + 1)
  {
    match Find(b.keys, b.count, k)
    case Some(i) => (b, i)
    case None => (b.(keys := b.keys[b.count := k], count := b.count + 1), b.count)
  }

  /** Bucket.Get keeps the live keys distinct. */
  lemma BucketGetKeepsDistinct<V>(b: BucketState<V>, k: int, capacity: int)
    requires BucketInv(b, capacity) && CanGetFromBucket(b, k)
    ensures BucketInv(BucketGet(b, k).0, capacity)
  {
    var b' := BucketGet(b, k).0;
    if k !in b.keys[..b.count] {
      var live := b'.keys[..b'.count];
      assert live == b.keys[..b.count] + [k];
      forall i, j | 0 <= i < j < |live| ensures live[i] != live[j] {
        if j == b.count {
          assert live[i] in b.keys[..b.count];
        }
      }
    }
  }

  /** Looking up a key that is live finds the slot where it sits, when the live keys are distinct. */
  lemma BucketGetFindsSlot<V>(b: BucketState<V>, k: int, slot: nat)
    requires b.count <= |b.keys| && Distinct(b.keys[..b.count])
    requires slot < b.count && b.keys[slot] == k
    ensures CanGetFromBucket(b, k) && BucketGet(b, k) == (b, slot)
  {
    assert b.keys[..b.count][slot] == k;
    var r := Find(b.keys, b.count, k);
    assert b.keys[..b.count][r.value] == k;
  }

  // ---------------------------------------------------------------------------
  // The table as a value
  // ---------------------------------------------------------------------------

  /**
   * `buckets[j]` is None while bucket j has never been allocated (its arrays
   * are null); `sparse` is the whole array, of which [0, count) is recorded.
   */
  datatype TableState<V> = TableState(buckets: seq<Option<BucketState<V>>>, sparse: seq<int>, count: nat)

  /** The recorded entries are allocated buckets of the table. */
  predicate RecordsValid<V>(t: TableState<V>)
  {
    t.count <= |t.sparse|
    && forall i :: 0 <= i < t.count ==> 0 <= t.sparse[i] < |t.buckets| && t.buckets[t.sparse[i]].Some?
  }

  /** The table invariant the source relies on. */
  predicate Inv<V>(t: TableState<V>, size: nat, perKeySize: int)
  {
    |t.buckets| == size && |t.sparse| == size
    && RecordsValid(t) && Distinct(t.sparse[..t.count])
    && forall j :: 0 <= j < size && t.buckets[j].Some? ==> BucketInv(t.buckets[j].value, perKeySize)
  }

  /** Get(hash) can proceed: the bucket has room for the key, and `sparse` has room for a new bucket. */
  predicate CanGet<V>(t: TableState<V>, hash: int, perKeySize: int)
  {
    |t.buckets| > 0 &&
    var i := BucketIndex(hash, |t.buckets|);
    match t.buckets[i]
    case None => perKeySize > 0 && t.count < |t.sparse|
    case Some(b) => CanGetFromBucket(b, hash)
  }

  /** A newly allocated bucket: `new Bucket(perKeySize)`. */
  function NewBucket<V>(perKeySize: nat, zero: V): (b: BucketState<V>)
    ensures BucketInv(b, perKeySize) && b.count == 0
  {
    BucketState(seq(perKeySize, _ => 0), seq(perKeySize, _ => zero), 0)
  }

  /** Allocating bucket i and recording it at `sparse[count]`. */
  function WithNewBucket<V>(t: TableState<V>, i: nat, perKeySize: nat, zero: V): (r: TableState<V>)
    requires i < |t.buckets| && t.count < |t.sparse|
    ensures |r.buckets| == |t.buckets| && |r.sparse| == |t.sparse| && r.count == t.count + 1
    ensures r.buckets[i] == Some(NewBucket(perKeySize, zero)) && r.sparse[t.count] == i
    ensures forall j :: 0 <= j < |t.buckets| && j != i ==> r.buckets[j] == t.buckets[j]
    ensures r.sparse[..t.count] == t.sparse[..t.count]
    ensures RecordsValid(t) ==> RecordsValid(r)
  {
    TableState(t.buckets[i := Some(NewBucket(perKeySize, zero))], t.sparse[t.count := i], t.count + 1)
  }

  /**
   * Get(hash): the new state, the bucket index and the slot. Allocating a
   * bucket records its index at `sparse[count]` and increments `count`.
   */
  function TableGet<V>(t: TableState<V>, hash: int, perKeySize: int, zero: V): (r: (TableState<V>, nat, nat))
    requires CanGet(t, hash, perKeySize)
    ensures r.1 == BucketIndex(hash, |t.buckets|)
    ensures |r.0.buckets| == |t.buckets| && |r.0.sparse| == |t.sparse|
    ensures r.0.buckets[r.1].Some?
    ensures r.2 < r.0.buckets[r.1].value.count <= |r.0.buckets[r.1].value.keys|
    ensures r.0.buckets[r.1].value.keys[r.2] == hash
    ensures forall j :: 0 <= j < |t.buckets| && j != r.1 ==> r.0.buckets[j] == t.buckets[j]
    ensures t.buckets[r.1].None? ==>
      r.0.count == t.count + 1 && r.0.sparse == t.sparse[t.count := r.1]
    ensures t.buckets[r.1].Some? ==> r.0.count == t.count && r.0.sparse == t.sparse
  {
    var i := BucketIndex(hash, |t.buckets|);
    var t1 := if t.buckets[i].None? then WithNewBucket(t, i, perKeySize, zero) else t;
    var (b, slot) := BucketGet(t1.buckets[i].value, hash);
    (t1.(buckets := t1.buckets[i := Some(b)]), i, slot)
  }

  /** Writing through the reference Get returned. */
  function WriteSlot<V>(t: TableState<V>, b: nat, slot: nat, v: V): (r: TableState<V>)
    requires b < |t.buckets| && t.buckets[b].Some? && slot < |t.buckets[b].value.values|
    ensures |r.buckets| == |t.buckets| && r.sparse == t.sparse && r.count == t.count
    ensures r.buckets[b].Some?
    ensures var o, n := t.buckets[b].value, r.buckets[b].value;
      n.keys == o.keys && n.count == o.count && n.values == o.values[slot := v]
    ensures forall j :: 0 <= j < |t.buckets| && j != b ==> r.buckets[j] == t.buckets[j]
  {
    var old_ := t.buckets[b].value;
    t.(buckets := t.buckets[b := Some(old_.(values := old_.values[slot := v]))])
  }

  /** Resetting the count of each bucket listed in `ids`, in order. */
  function ResetCounts<V>(bs: seq<Option<BucketState<V>>>, ids: seq<int>): (r: seq<Option<BucketState<V>>>)
    requires forall k :: 0 <= k < |ids| ==> 0 <= ids[k] < |bs| && bs[ids[k]].Some?
    ensures |r| == |bs|
    ensures forall j :: 0 <= j < |bs| && j in ids ==> r[j] == Some(bs[j].value.(count := 0))
    ensures forall j :: 0 <= j < |bs| && j !in ids ==> r[j] == bs[j]
    decreases |ids|
  {
    if ids == [] then bs
    else
      var last := ids[|ids| - 1];
      var prefix := ids[..|ids| - 1];
      assert forall j :: j in ids <==> j in prefix || j == last;
      ResetCounts(bs, prefix)[last := Some(bs[last].value.(count := 0))]
  }

  /** Clear: every recorded bucket gets count 0, then the table count is 0. */
  function ClearedTable<V>(t: TableState<V>): (r: TableState<V>)
    requires RecordsValid(t)
    ensures r.count == 0 && r.sparse == t.sparse && |r.buckets| == |t.buckets|
    ensures forall j :: 0 <= j < |t.buckets| ==>
      (r.buckets[j].Some? <==> t.buckets[j].Some?)
      && (r.buckets[j].Some? ==>
            r.buckets[j].value.keys == t.buckets[j].value.keys
            && r.buckets[j].value.values == t.buckets[j].value.values
            && r.buckets[j].value.count == (if j in t.sparse[..t.count] then 0 else t.buckets[j].value.count))
  {
    TableState(ResetCounts(t.buckets, t.sparse[..t.count]), t.sparse, 0)
  }

  /** The enumerator: the recorded buckets, in recording order. */
  function Enumerated<V>(t: TableState<V>): (r: seq<BucketState<V>>)
    requires RecordsValid(t)
    ensures |r| == t.count
    ensures forall i :: 0 <= i < t.count ==> t.buckets[t.sparse[i]] == Some(r[i])
  {
    seq(t.count, i requires 0 <= i < t.count => t.buckets[t.sparse[i]].value)
  }

  // ---------------------------------------------------------------------------
  // Properties of the table
  // ---------------------------------------------------------------------------

  /** Pigeonhole: distinct numbers drawn from [0, n) are at most n. */
  lemma {:induction false} DistinctBounded(s: seq<int>, n: nat)
    requires forall k :: 0 <= k < |s| ==> 0 <= s[k] < n
    requires Distinct(s)
    ensures |s| <= n
    decreases n
  {
    if |s| > 0 {
      assert 0 <= s[0] < n;
      var m := n - 1;
      if k :| 0 <= k < |s| && s[k] == m {
        var rest := s[..k] + s[k + 1..];
        forall a | 0 <= a < |rest| ensures 0 <= rest[a] < m {
          var a' := if a < k then a else a + 1;
          assert rest[a] == s[a'];
        }
        forall a, b | 0 <= a < b < |rest| ensures rest[a] != rest[b] {
          var a', b' := if a < k then a else a + 1, if b < k then b else b + 1;
          assert rest[a] == s[a'] && rest[b] == s[b'];
        }
        DistinctBounded(rest, m);
      } else {
        DistinctBounded(s, m);
      }
    }
  }

  /** Under the invariant, `sparse` always has room when a new bucket is allocated. */
  lemma SparseHasRoom<V>(t: TableState<V>, size: nat, perKeySize: int, i: nat)
    requires Inv(t, size, perKeySize) && i < size && t.buckets[i].None?
    ensures t.count < size
  {
    var s := t.sparse[..t.count] + [i];
    forall a, b | 0 <= a < b < |s| ensures s[a] != s[b] {
      if b == t.count {
        assert t.buckets[s[a]].Some?;
      }
    }
    DistinctBounded(s, size);
  }

  /** Under the invariant, Get needs only that the selected bucket has room. */
  lemma CanGetUnderInv<V>(t: TableState<V>, size: nat, perKeySize: int, hash: int)
    requires Inv(t, size, perKeySize) && size > 0 && perKeySize > 0
    requires var b := t.buckets[BucketIndex(hash, size)]; b.Some? ==> CanGetFromBucket(b.value, hash)
    ensures CanGet(t, hash, perKeySize)
  {
    var i := BucketIndex(hash, size);
    if t.buckets[i].None? {
      SparseHasRoom(t, size, perKeySize, i);
    }
  }

  /** Allocating a bucket that was not allocated keeps the invariant: it is recorded once. */
  lemma WithNewBucketPreservesInv<V>(t: TableState<V>, size: nat, perKeySize: nat, i: nat, zero: V)
    requires Inv(t, size, perKeySize) && i < size && t.buckets[i].None?
    ensures t.count < size && Inv(WithNewBucket(t, i, perKeySize, zero), size, perKeySize)
  {
    SparseHasRoom(t, size, perKeySize, i);
    var t' := WithNewBucket(t, i, perKeySize, zero);
    var s := t'.sparse[..t'.count];
    assert s == t.sparse[..t.count] + [i];
    forall a, c | 0 <= a < c < |s| ensures s[a] != s[c] {
      if c == t.count {
        assert t.buckets[s[a]].Some?;
      }
    }
  }

  /** Get preserves the invariant: records stay distinct allocated buckets, live keys stay distinct. */
  lemma TableGetPreservesInv<V>(t: TableState<V>, size: nat, perKeySize: int, hash: int, zero: V)
    requires Inv(t, size, perKeySize) && CanGet(t, hash, perKeySize)
    ensures Inv(TableGet(t, hash, perKeySize, zero).0, size, perKeySize)
  {
    var i := BucketIndex(hash, size);
    var t1 := t;
    if t.buckets[i].None? {
      WithNewBucketPreservesInv(t, size, perKeySize, i, zero);
      t1 := WithNewBucket(t, i, perKeySize, zero);
    }
    BucketGetKeepsDistinct(t1.buckets[i].value, hash, perKeySize);
  }

  /** Get-or-insert is idempotent: a second Get with the same hash changes nothing and returns the same reference. */
  lemma TableGetIdempotent<V>(t: TableState<V>, size: nat, perKeySize: int, hash: int, zero: V)
    requires Inv(t, size, perKeySize) && CanGet(t, hash, perKeySize)
    ensures var (t1, b, slot) := TableGet(t, hash, perKeySize, zero);
      CanGet(t1, hash, perKeySize) && TableGet(t1, hash, perKeySize, zero) == (t1, b, slot)
  {
    var (t1, b, slot) := TableGet(t, hash, perKeySize, zero);
    TableGetPreservesInv(t, size, perKeySize, hash, zero);
    BucketGetFindsSlot(t1.buckets[b].value, hash, slot);
    assert t1.buckets[b := t1.buckets[b]] == t1.buckets;
  }

  /** A value written through the reference Get returned is what the next Get with that hash refers to. */
  lemma WriteThenGetReadsBack<V>(t: TableState<V>, size: nat, perKeySize: int, hash: int, zero: V, v: V)
    requires Inv(t, size, perKeySize) && CanGet(t, hash, perKeySize)
    ensures var (t1, b, slot) := TableGet(t, hash, perKeySize, zero);
      var t2 := WriteSlot(t1, b, slot, v);
      CanGet(t2, hash, perKeySize)
      && TableGet(t2, hash, perKeySize, zero) == (t2, b, slot)
      && t2.buckets[b].value.values[slot] == v
  {
    var (t1, b, slot) := TableGet(t, hash, perKeySize, zero);
    TableGetPreservesInv(t, size, perKeySize, hash, zero);
    var t2 := WriteSlot(t1, b, slot, v);
    var bs := t2.buckets[b].value;
    assert bs.keys == t1.buckets[b].value.keys && bs.count == t1.buckets[b].value.count;
    BucketGetFindsSlot(bs, hash, slot);
    assert t2.buckets[b := t2.buckets[b]] == t2.buckets;
  }

  /**
   * Clear resets the count of every recorded bucket and the table count, keeps
   * every bucket allocated and erases no key or value; the invariant survives.
   */
  lemma ClearKeepsBuckets<V>(t: TableState<V>, size: nat, perKeySize: int)
    requires Inv(t, size, perKeySize)
    ensures var c := ClearedTable(t);
      Inv(c, size, perKeySize) && Enumerated(c) == []
  {
    var c := ClearedTable(t);
    forall j | 0 <= j < size && c.buckets[j].Some?
      ensures BucketInv(c.buckets[j].value, perKeySize)
    {
      if j in t.sparse[..t.count] {
        assert c.buckets[j].value.keys[..0] == [];
      }
    }
  }

  /**
   * After Clear a Get whose bucket was allocated before does not record the
   * bucket again and leaves the table count at 0, so neither the enumerator nor
   * the next Clear sees the key it inserts.
   */
  lemma GetAfterClearNotRecorded<V>(t: TableState<V>, size: nat, perKeySize: int, hash: int, zero: V)
    requires Inv(t, size, perKeySize) && size > 0
    requires t.buckets[BucketIndex(hash, size)].Some?
    requires CanGet(ClearedTable(t), hash, perKeySize)
    ensures var t' := TableGet(ClearedTable(t), hash, perKeySize, zero).0;
      t'.count == 0 && t'.sparse == t.sparse && Enumerated(t') == []
  {
    var c := ClearedTable(t);
    assert c.buckets[BucketIndex(hash, size)].Some?;
  }

  /** Allocating a bucket appends it to the enumeration; the buckets enumerated before are unchanged. */
  lemma EnumeratedAfterAllocation<V>(t: TableState<V>, size: nat, perKeySize: int, hash: int, zero: V)
    requires Inv(t, size, perKeySize) && CanGet(t, hash, perKeySize) && size > 0
    requires t.buckets[BucketIndex(hash, size)].None?
    ensures var (t', b, _) := TableGet(t, hash, perKeySize, zero);
      RecordsValid(t') && Enumerated(t') == Enumerated(t) + [t'.buckets[b].value]
  {
    var (t', b, _) := TableGet(t, hash, perKeySize, zero);
    TableGetPreservesInv(t, size, perKeySize, hash, zero);
    var e, e' := Enumerated(t), Enumerated(t');
    forall i | 0 <= i < t.count ensures e'[i] == e[i] {
      assert t.sparse[i] != b;
    }
  }

  // ---------------------------------------------------------------------------
  // The table over arrays
  // ---------------------------------------------------------------------------

  /**
   * The C# struct Bucket: two array references and a count. `keys == null`
   * is the default, never-allocated bucket.
   */
  datatype Bucket<V> = Bucket(keys: array?<int>, values: array?<V>, count: nat)
  {
    ghost predicate Allocated()
    {
      keys != null && values != null && keys as object != values
    }

    ghost function View(): BucketState<V>
      reads keys, values
      requires Allocated()
    {
      BucketState(keys[..], values[..], count)
    }

    /** `new Bucket(size)`: two fresh arrays of `size` zero keys and default values, count 0. */
    static method Create(size: nat, zero: V) returns (b: Bucket<V>)
      ensures b.Allocated() && fresh(b.keys) && fresh(b.values)
      ensures b.keys.Length == size && b.values.Length == size
      ensures b.View() == NewBucket(size, zero)
    {
      var keys := new int[size](_ => 0);
      var values := new V[size](_ => zero);
      b := Bucket(keys, values, 0);
      assert keys[..] == seq(size, _ => 0) && values[..] == seq(size, _ => zero);
    }

    /**
     * Bucket.Get on a struct held in place: the linear search, then the append.
     * The updated struct comes back as `next`; only the keys array is written.
     * The source never checks for a full bucket: the model requires room.
     */
    method Get(k: int) returns (next: Bucket<V>, slot: nat)
      requires Allocated() && CanGetFromBucket(View(), k)
      modifies keys
      ensures next.keys == keys && next.values == values
      ensures (next.View(), slot) == BucketGet(old(View()), k)
    {
      var i := 0;
      while i < count
        invariant 0 <= i <= count
        invariant forall j :: 0 <= j < i ==> keys[j] != k
        invariant unchanged(keys)
      {
        if keys[i] == k {
          ghost var v := View();
          assert v.keys[..count][i] == k;
          assert Find(v.keys, count, k) == Some(i);
          return this, i;
        }
        i := i + 1;
      }
      assert k !in keys[..count];
      keys[count] := k;
      next, slot := this.(count := count + 1), count;
    }
  }

  class FixedHashTable<V> {
    const size: nat
    const perKeySize: int
    /** The value C# writes as `default` for V. */
    const Zero: V
    const buckets: array<Bucket<V>>
    const sparse: array<int>
    /** The number of recorded buckets, the public field `count`. */
    var count: nat

    ghost var State: TableState<V>
    ghost var Repr: set<object>

    /** Bucket j's arrays belong to this table and are two distinct objects. */
    ghost predicate Owned(b: Bucket<V>)
      reads this
    {
      (b.keys == null <==> b.values == null)
      && (b.keys != null ==>
            b.keys in Repr && b.values in Repr
            && b.keys.Length == perKeySize && b.values.Length == perKeySize
            && b.keys as object != b.values && b.keys != sparse && b.values as object != sparse
            && b.keys as object != buckets && b.values as object != buckets)
    }

    /** Two buckets share no array. */
    ghost predicate Apart(b: Bucket<V>, c: Bucket<V>)
    {
      b.keys != null && b.values != null && c.keys != null && c.values != null ==>
        b.keys != c.keys && b.values != c.values
        && b.keys as object != c.values && b.values as object != c.keys
    }

    /** Bucket struct `b` holds what the abstract bucket `s` says. */
    ghost predicate Mirrors(b: Bucket<V>, s: Option<BucketState<V>>)
      reads b.keys, b.values
    {
      (b.keys == null <==> s.None?)
      && (s.Some? ==> b.Allocated() && b.View() == s.value)
    }

    ghost predicate Valid()
      reads this, Repr
    {
      this in Repr && buckets in Repr && sparse in Repr
      && buckets.Length == size && sparse.Length == size
      && (forall j :: 0 <= j < size ==> Owned(buckets[j]))
      && (forall j, j' :: 0 <= j < size && 0 <= j' < size && j != j' ==> Apart(buckets[j], buckets[j']))
      && |State.buckets| == size
      && (forall j :: 0 <= j < size ==> Mirrors(buckets[j], State.buckets[j]))
      && State.sparse == sparse[..] && State.count == count
      && Inv(State, size, perKeySize)
    }

    /**
     * The constructor, with the source's default of 5 slots per bucket. The
     * source never allocates `sparse` (the first Get would fail on it); the
     * model allocates `size` slots, the most it can need. A table of 0 buckets
     * or a negative `perKeySize` is accepted, as in the source; only Get fails
     * on them, and CanGet excludes both.
     */
    constructor (size: nat, zero: V, perKeySize: int := 5)
      ensures Valid() && fresh(Repr)
      ensures this.size == size && this.perKeySize == perKeySize && Zero == zero
      ensures State == TableState(seq(size, _ => None), seq(size, _ => 0), 0)
    {
      this.size, this.perKeySize, Zero := size, perKeySize, zero;
      buckets := new Bucket<V>[size](_ => Bucket(null, null, 0));
      sparse := new int[size](_ => 0);
      count := 0;
      State := TableState(seq(size, _ => None), seq(size, _ => 0), 0);
      Repr := {this, buckets, sparse};
    }

    /**
     * Get(hash): the reference (bucket, slot) to the value of `hash`,
     * allocating the bucket and inserting the key when needed.
     */
    method Get(hash: int) returns (b: nat, slot: nat)
      requires Valid() && CanGet(State, hash, perKeySize)
      modifies Repr
      ensures Valid() && fresh(Repr - old(Repr))
      ensures (State, b, slot) == TableGet(old(State), hash, perKeySize, Zero)
    {
      var i := Rem(hash, size);
      b := if i < 0 then -i else i;
      if buckets[b].keys == null {
        AllocateBucket(b);
      }
      slot := GetInBucket(b, hash);
      assert BucketIndex(hash, size) == b;
    }

    /**
     * The allocation branch of Get: `new Bucket(perKeySize)` stored in place,
     * and its index recorded at `sparse[count++]`. The source records the
     * signed remainder there; the model records the bucket index it used.
     */
    method AllocateBucket(b: nat)
      requires Valid() && b < size && State.buckets[b].None? && State.count < size && perKeySize >= 0
      modifies Repr
      ensures Valid() && fresh(Repr - old(Repr))
      ensures State == WithNewBucket(old(State), b, perKeySize, Zero)
    {
      WithNewBucketPreservesInv(State, size, perKeySize, b, Zero);
      var bucket := Bucket.Create(perKeySize, Zero);
      buckets[b] := bucket;
      sparse[count] := b;
      count := count + 1;
      Repr := Repr + {bucket.keys as object, bucket.values as object};
      State := WithNewBucket(State, b, perKeySize, Zero);
      forall j | 0 <= j < size && j != b
        ensures Owned(buckets[j]) && Mirrors(buckets[j], State.buckets[j])
      {
        assert old(Owned(buckets[j]) && Mirrors(buckets[j], State.buckets[j]));
      }
    }

    /** The last step of Get: Bucket.Get on the struct held in `buckets[b]`. */
    method GetInBucket(b: nat, hash: int) returns (slot: nat)
      requires Valid() && b < size && State.buckets[b].Some?
      requires CanGetFromBucket(State.buckets[b].value, hash)
      modifies Repr
      ensures Valid() && Repr == old(Repr)
      ensures var (bucket, s) := BucketGet(old(State).buckets[b].value, hash);
        slot == s && State == old(State).(buckets := old(State).buckets[b := Some(bucket)])
    {
      BucketGetKeepsDistinct(State.buckets[b].value, hash, perKeySize);
      var next;
      next, slot := buckets[b].Get(hash);
      buckets[b] := next;
      State := State.(buckets := State.buckets[b := Some(next.View())]);
      forall j | 0 <= j < size && j != b
        ensures Mirrors(buckets[j], State.buckets[j])
      {
        assert Apart(buckets[j], buckets[b]);
        assert old(Mirrors(buckets[j], State.buckets[j]));
      }
    }

    /** Reading through a reference returned by Get. */
    method Read(b: int, slot: int) returns (v: V)
      requires Valid() && 0 <= b < size && State.buckets[b].Some? && 0 <= slot < perKeySize
      ensures v == State.buckets[b].value.values[slot]
    {
      v := buckets[b].values[slot];
    }

    /** Writing through a reference returned by Get. */
    method Write(b: int, slot: int, v: V)
      requires Valid() && 0 <= b < size && State.buckets[b].Some? && 0 <= slot < perKeySize
      modifies Repr
      ensures Valid() && Repr == old(Repr)
      ensures State == WriteSlot(old(State), b, slot, v)
    {
      buckets[b].values[slot] := v;
      State := WriteSlot(State, b, slot, v);
      forall j | 0 <= j < size && j != b
        ensures Mirrors(buckets[j], State.buckets[j])
      {
        assert Apart(buckets[j], buckets[b]);
        assert old(Mirrors(buckets[j], State.buckets[j]));
      }
    }

    /** The loop of Clear: the count of each recorded bucket is reset, in recording order. */
    method ResetRecorded()
      requires Valid()
      modifies buckets
      ensures forall j :: 0 <= j < size ==>
        buckets[j] == if j in sparse[..count] then old(buckets[j]).(count := 0) else old(buckets[j])
    {
      var i := 0;
      while i < count
        invariant 0 <= i <= count
        invariant forall j :: 0 <= j < size ==>
          buckets[j] == if j in sparse[..i] then old(buckets[j]).(count := 0) else old(buckets[j])
      {
        var j := sparse[i];
        buckets[j] := buckets[j].(count := 0);
        assert sparse[..i + 1] == sparse[..i] + [j];
        i := i + 1;
      }
    }

    /** Clear: resets the count of each recorded bucket, then the table count. */
    method Clear()
      requires Valid()
      modifies Repr
      ensures Valid() && Repr == old(Repr)
      ensures State == ClearedTable(old(State))
    {
      ResetRecorded();
      assert sparse[..count] == old(State).sparse[..old(State).count];
      count := 0;
      State := ClearedTable(old(State));
      forall j | 0 <= j < size
        ensures Owned(buckets[j]) && Mirrors(buckets[j], State.buckets[j])
      {
        assert old(Owned(buckets[j]) && Mirrors(buckets[j], State.buckets[j]));
      }
      forall j, j' | 0 <= j < size && 0 <= j' < size && j != j'
        ensures Apart(buckets[j], buckets[j'])
      {
        assert Apart(old(buckets[j]), old(buckets[j']));
      }
      ClearKeepsBuckets(old(State), size, perKeySize);
    }

    /** The enumerator: the recorded buckets, in recording order. */
    method Enumerate() returns (items: seq<Bucket<V>>)
      requires Valid()
      ensures |items| == count
      ensures forall i :: 0 <= i < count ==> items[i] == buckets[sparse[i]]
      ensures forall i :: 0 <= i < count ==>
        items[i].Allocated() && items[i].View() == Enumerated(State)[i]
    {
      items := [];
      var i := 0;
      while i < count
        invariant 0 <= i <= count && |items| == i
        invariant forall k :: 0 <= k < i ==> items[k] == buckets[sparse[k]]
      {
        items := items + [buckets[sparse[i]]];
        i := i + 1;
      }
    }
  }
}
