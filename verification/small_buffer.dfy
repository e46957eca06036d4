/**
 * The fixed-capacity inline list of Assets/Examples/Collections/SmallBuffer.cs.
 *
 * The source declares six structs (SmallBuffer14, 12, 10, 7, 4 and 3) that differ
 * only in how many element fields they hold; all of them delegate to one set of
 * extension algorithms. The model is one class, generic in the capacity N: the
 * element fields become one array of N slots and `Length` becomes `length`.
 *
 * In C# the structs hand `this` to extension methods over an interface type, so
 * the shifting loops run on a boxed copy of the struct. The model runs them on
 * the buffer's own storage, as the code evidently intends.
 *
 * Every method that changes the storage is specified by a function giving the
 * WHOLE storage afterwards (stale slots past `length` included). Add, Clear,
 * Insert, RemoveAt and the corrected RemoveRange also state the live contents;
 * RemoveRange as written states them where the source gets them right.
 */
module SmallBuffers {

  /** Storage after Insert(index, v) on a buffer holding `len` elements. */
  function Inserted<T>(s: seq<T>, len: nat, index: nat, v: T): (r: seq<T>)
    requires index <= len < |s|
    ensures |r| == |s|
    ensures forall j :: 0 <= j < index ==> r[j] == s[j]
    ensures r[index] == v
    ensures forall j :: index <= j < len ==> r[j + 1] == s[j]
    ensures forall j :: len < j < |s| ==> r[j] == s[j]
  {
    s[..index] + [v] + s[index..len] + s[len + 1..]
  }

  /**
   * Storage after the shift-left loop `for i in [from, len - 1): s[i] := s[i + 1]`.
   * The last live slot keeps its old value: nothing clears it.
   */
  function ShiftedLeft<T>(s: seq<T>, from: nat, len: nat): (r: seq<T>)
    requires from <= len <= |s|
    ensures |r| == |s|
    ensures forall j :: 0 <= j < from ==> r[j] == s[j]
    ensures forall j :: from <= j < len - 1 ==> r[j] == s[j + 1]
    ensures forall j :: from <= j && len - 1 <= j < |s| ==> r[j] == s[j]
  {
    if from == len then s else s[..from] + s[from + 1..len] + s[len - 1..]
  }

  /** Storage after the ascending copy loop `for i in [0, n): s[dst + i] := s[src + i]`. */
  function CopiedDown<T>(s: seq<T>, dst: nat, src: nat, n: nat): (r: seq<T>)
    requires dst <= src && src + n <= |s|
    ensures |r| == |s|
    ensures forall j :: 0 <= j < dst ==> r[j] == s[j]
    ensures forall j :: dst <= j < dst + n ==> r[j] == s[j - dst + src]
    ensures forall j :: dst + n <= j < |s| ==> r[j] == s[j]
  {
    s[..dst] + s[src..src + n] + s[dst + n..]
  }

  /** Storage after Clear: the first `len` slots hold the default value. */
  function Cleared<T>(s: seq<T>, len: nat, zero: T): (r: seq<T>)
    requires len <= |s|
    ensures |r| == |s|
    ensures forall j :: 0 <= j < len ==> r[j] == zero
    ensures forall j :: len <= j < |s| ==> r[j] == s[j]
  {
    seq(len, _ => zero) + s[len..]
  }

  /** The guards RemoveRange applies before it touches the storage. */
  predicate RangeInBounds(len: int, index: int, count: int)
  {
    0 <= index < len && 0 <= count && 0 <= index + count - 1 < len
  }

  /**
   * What the guards admit: a range inside the live elements, and also a zero
   * count whenever `index >= 1`, because `index - 1` is then in bounds too.
   */
  lemma RangeInBoundsAdmits(len: int, index: int, count: int)
    ensures RangeInBounds(len, index, count)
        <==> 0 <= index < len && 0 <= count && index + count <= len && (count == 0 ==> 1 <= index)
  {
  }

  /**
   * How many tail elements the first loop of RemoveRange copies onto the range:
   * those in [index + count, index + 2 * count), clamped to the live elements.
   */
  function CopiesAsWritten(len: nat, index: nat, count: nat): (n: nat)
    requires RangeInBounds(len, index, count)
    ensures n <= count && index + count + n <= len
    ensures n == count || index + count + n == len
  {
    var indexAfter := index + count;
    var indexEndCopy := if indexAfter + count >= len then len else indexAfter + count;
    indexEndCopy - indexAfter
  }

  /**
   * Storage after RemoveRange(index, count) exactly as the source performs it:
   * a first loop copies at most `count` elements of the tail down onto the range,
   * then a second loop shifts everything after the range left by ONE slot.
   */
  function RangeRemovedAsWritten<T>(s: seq<T>, len: nat, index: nat, count: nat): (r: seq<T>)
    requires RangeInBounds(len, index, count) && len <= |s|
    ensures |r| == |s|
    ensures forall j :: 0 <= j < index ==> r[j] == s[j]
  {
    ShiftedLeft(CopiedDown(s, index, index + count, CopiesAsWritten(len, index, count)), index + count, len)
  }

  /** Storage after the corrected RemoveRange: the whole tail moves down by `count`. */
  function RangeRemoved<T>(s: seq<T>, len: nat, index: nat, count: nat): (r: seq<T>)
    requires RangeInBounds(len, index, count) && len <= |s|
    ensures |r| == |s|
    ensures forall j :: 0 <= j < index ==> r[j] == s[j]
    ensures forall j :: index <= j < len - count ==> r[j] == s[j + count]
    ensures forall j :: len - count <= j < |s| ==> r[j] == s[j]
  {
    CopiedDown(s, index, index + count, len - (index + count))
  }

  // ---------------------------------------------------------------------------
  // Properties of the storage functions
  // ---------------------------------------------------------------------------

  /** Insert puts `v` at `index` and moves the live tail one slot right. */
  lemma InsertedContents<T>(s: seq<T>, len: nat, index: nat, v: T)
    requires index <= len < |s|
    ensures Inserted(s, len, index, v)[..len + 1] == s[..index] + [v] + s[index..len]
  {
    var r := Inserted(s, len, index, v);
    var e := s[..index] + [v] + s[index..len];
    assert |r[..len + 1]| == |e|;
    forall j | 0 <= j < len + 1 ensures r[..len + 1][j] == e[j] {
      if j > index { assert r[(j - 1) + 1] == s[j - 1]; }
    }
  }

  /** The shift-left loop deletes the element at `from` from the live contents. */
  lemma ShiftedLeftContents<T>(s: seq<T>, from: nat, len: nat)
    requires from < len <= |s|
    ensures ShiftedLeft(s, from, len)[..len - 1] == s[..from] + s[from + 1..len]
  {
    var r := ShiftedLeft(s, from, len);
    var e := s[..from] + s[from + 1..len];
    assert |r[..len - 1]| == |e|;
    forall j | 0 <= j < len - 1 ensures r[..len - 1][j] == e[j] {
    }
  }

  /** Round trip: RemoveAt(index) after Insert(index, v) restores the live contents. */
  lemma InsertThenRemoveAt<T>(s: seq<T>, len: nat, index: nat, v: T)
    requires index < len < |s|
    ensures ShiftedLeft(Inserted(s, len, index, v), index, len + 1)[..len] == s[..len]
  {
    var t := Inserted(s, len, index, v);
    var r := ShiftedLeft(t, index, len + 1);
    forall j | 0 <= j < len ensures r[j] == s[j] {
      if j >= index {
        assert r[j] == t[j + 1];
      }
    }
  }

  /** The corrected RemoveRange deletes exactly the slots [index, index + count). */
  lemma RangeRemovedContents<T>(s: seq<T>, len: nat, index: nat, count: nat)
    requires RangeInBounds(len, index, count) && len <= |s|
    ensures RangeRemoved(s, len, index, count)[..len - count]
         == s[..index] + s[index + count..len]
         == s[..len][..index] + s[..len][index + count..]
  {
    assert s[..len][..index] == s[..index];
    assert s[..len][index + count..] == s[index + count..len];
    var r := RangeRemoved(s, len, index, count);
    var e := s[..index] + s[index + count..len];
    assert |r[..len - count]| == |e|;
    forall j | 0 <= j < len - count ensures r[..len - count][j] == e[j] {
      if j >= index {
        assert r[index + (j - index)] == s[index + count + (j - index)];
      }
    }
  }

  /**
   * When no more than `count` elements follow the range, the source's RemoveRange
   * leaves the same live contents as the corrected one.
   */
  lemma RangeRemovedAsWrittenShortTail<T>(s: seq<T>, len: nat, index: nat, count: nat)
    requires RangeInBounds(len, index, count) && len <= |s|
    requires len - (index + count) <= count
    ensures RangeRemovedAsWritten(s, len, index, count)[..len - count]
         == s[..index] + s[index + count..len]
         == s[..len][..index] + s[..len][index + count..]
  {
    var c := CopiedDown(s, index, index + count, len - (index + count));
    var r := RangeRemovedAsWritten(s, len, index, count);
    assert r == ShiftedLeft(c, index + count, len);
    assert r[..len - count] == c[..len - count];
    RangeRemovedContents(s, len, index, count);
    assert s[..len][..index] == s[..index];
    assert s[..len][index + count..] == s[index + count..len];
  }

  /** RemoveRange(index, 1) as written leaves the same storage as RemoveAt(index). */
  lemma RangeRemovedAsWrittenOne<T>(s: seq<T>, len: nat, index: nat)
    requires RangeInBounds(len, index, 1) && len <= |s|
    ensures RangeRemovedAsWritten(s, len, index, 1) == ShiftedLeft(s, index, len)
  {
    var r := RangeRemovedAsWritten(s, len, index, 1);
    var e := ShiftedLeft(s, index, len);
    if index + 1 == len {
      assert r == s;
    } else {
      var c := CopiedDown(s, index, index + 1, 1);
      assert r == ShiftedLeft(c, index + 1, len);
      forall j | 0 <= j < |s| ensures r[j] == e[j] {
        if j == index {
          assert c[index + 0] == s[index + 1 + 0];
        }
      }
    }
  }

  /**
   * With more than `count` elements after the range the source corrupts the tail:
   * [1, 2, 3, 4, 5, 6] with RemoveRange(1, 2) keeps [1, 4, 5, 5], not [1, 4, 5, 6].
   */
  lemma RangeRemovedAsWrittenLongTail()
    ensures RangeRemovedAsWritten([1, 2, 3, 4, 5, 6], 6, 1, 2)[..4] == [1, 4, 5, 5]
    ensures RangeRemoved([1, 2, 3, 4, 5, 6], 6, 1, 2)[..4] == [1, 4, 5, 6]
  {
    var s := [1, 2, 3, 4, 5, 6];
    var c := CopiedDown(s, 1, 3, 2);
    assert c == [1, 4, 5, 4, 5, 6];
    assert ShiftedLeft(c, 3, 6) == [1, 4, 5, 5, 6, 6];
    assert RangeRemoved(s, 6, 1, 2) == [1, 4, 5, 6, 5, 6];
  }

  /**
   * The guards let a zero count through whenever index >= 1, and the second loop
   * then deletes the element at `index` although the length does not change:
   * [1, 2, 3] with RemoveRange(1, 0) holds [1, 3, 3] where it should hold [1, 2, 3].
   */
  lemma RangeRemovedAsWrittenZeroCount()
    ensures RangeInBounds(3, 1, 0)
    ensures RangeRemovedAsWritten([1, 2, 3], 3, 1, 0) == [1, 3, 3]
    ensures RangeRemoved([1, 2, 3], 3, 1, 0) == [1, 2, 3]
  {
    var s := [1, 2, 3];
    assert CopiedDown(s, 1, 1, 0) == s;
    assert ShiftedLeft(s, 1, 3) == [1, 3, 3];
  }

  /** The capacity test RequireNotFull performs: it compares with 10 whatever N is. */
  predicate PassesNotFullCheckAsWritten(length: int)
  {
    length != 10
  }

  /**
   * The check agrees with "there is room" on every length a buffer of capacity
   * N can have exactly when N is 10. For any other capacity a full buffer
   * passes it (SmallBuffer7 holding 7: Add would write an eighth slot), and for
   * capacities above 10 a buffer of ten elements is refused although it has room.
   */
  lemma NotFullCheckAsWrittenCounterexample(capacity: nat)
    ensures (forall len :: 0 <= len <= capacity ==> (PassesNotFullCheckAsWritten(len) <==> len < capacity))
            <==> capacity == 10
    ensures capacity != 10 ==> PassesNotFullCheckAsWritten(capacity)
    ensures capacity > 10 ==> !PassesNotFullCheckAsWritten(10)
  {
    if capacity != 10 {
      assert PassesNotFullCheckAsWritten(capacity) && !(capacity < capacity);
    }
  }

  // ---------------------------------------------------------------------------
  // The buffer
  // ---------------------------------------------------------------------------

  class SmallBuffer<T> {
    /** Capacity: 14, 12, 10, 7, 4 or 3 in the source. */
    const N: nat
    /** The value C# writes as `default` for the element type. */
    const Zero: T
    /** The element fields element0 .. element(N-1). */
    const elements: array<T>
    /** `Length` of the source. */
    var length: nat

    ghost predicate Valid()
      reads this
    {
      elements.Length == N && length <= N
    }

    /** The live elements, slots [0, Length). */
    ghost function Contents(): seq<T>
      reads this, elements
      requires Valid()
    {
      elements[..length]
    }

    /** A zero-initialised struct: every slot holds the default value, Length is 0. */
    constructor (capacity: nat, zero: T)
      ensures Valid() && fresh(elements)
      ensures N == capacity && Zero == zero
      ensures length == 0 && elements[..] == seq(capacity, _ => zero)
    {
      N, Zero := capacity, zero;
      elements := new T[capacity](_ => zero);
      length := 0;
    }

    /** GetElement / the indexer: reading a live slot (RequireIndexInBounds). */
    method GetElement(index: int) returns (v: T)
      requires Valid() && 0 <= index < length
      ensures v == Contents()[index]
    {
      v := elements[index];
    }

    /**
     * SetElement: the source performs no check at all; a write outside the N slots
     * is outside the struct, so the model requires the index to be a slot.
     */
    method SetElement(index: int, value: T)
      requires Valid() && 0 <= index < N
      modifies elements
      ensures Valid()
      ensures elements[..] == old(elements[..])[index := value]
      ensures forall j :: 0 <= j < N && j != index ==> elements[j] == old(elements[j])
    {
      elements[index] := value;
    }

    /** Add: appends after the last live slot. */
    method Add(item: T)
      requires Valid() && length < N
      modifies this, elements
      ensures Valid()
      ensures length == old(length) + 1
      ensures elements[..] == old(elements[..])[old(length) := item]
      ensures Contents() == old(Contents()) + [item]
    {
      elements[length] := item;
      length := length + 1;
    }

    /** Clear: writes the default value into every live slot, then Length = 0. */
    method Clear()
      requires Valid()
      modifies this, elements
      ensures Valid()
      ensures length == 0 && Contents() == []
      ensures elements[..] == Cleared(old(elements[..]), old(length), Zero)
    {
      var i := 0;
      while i < length
        modifies elements
        invariant 0 <= i <= length
        invariant forall j :: 0 <= j < i ==> elements[j] == Zero
        invariant forall j :: i <= j < N ==> elements[j] == old(elements[j])
      {
        elements[i] := Zero;
        i := i + 1;
      }
      assert elements[..] == Cleared(old(elements[..]), length, Zero);
      length := 0;
    }

    /**
     * Insert: shifts slots [index, Length) one to the right, writes `value` at
     * `index`, then Length++. The source demands index < Length, so it can
     * neither append nor insert into an empty buffer.
     */
    method Insert(index: int, value: T)
      requires Valid() && length < N && 0 <= index < length
      modifies this, elements
      ensures Valid()
      ensures length == old(length) + 1
      ensures elements[..] == Inserted(old(elements[..]), old(length), index, value)
      ensures Contents() == old(Contents())[..index] + [value] + old(Contents())[index..]
    {
      var i := length;
      while i > index
        modifies elements
        invariant index <= i <= length
        invariant forall j :: 0 <= j <= i ==> elements[j] == old(elements[j])
        invariant forall j :: i < j <= length ==> elements[j] == old(elements[j - 1])
        invariant forall j :: length < j < N ==> elements[j] == old(elements[j])
      {
        elements[i] := elements[i - 1];
        i := i - 1;
      }
      elements[index] := value;
      assert elements[..] == Inserted(old(elements[..]), length, index, value);
      InsertedContents(old(elements[..]), length, index, value);
      length := length + 1;
    }

    /**
     * The shift-left loop of RemoveAt (and the second loop of RemoveRange):
     * `for i in [from, Length - 1): element[i] = element[i + 1]`.
     */
    method ShiftLeft(from: int)
      requires Valid() && 0 <= from <= length
      modifies elements
      ensures Valid()
      ensures elements[..] == ShiftedLeft(old(elements[..]), from, length)
    {
      var i := from;
      while i < length - 1
        modifies elements
        invariant from <= i && (i <= length - 1 || i == from)
        invariant forall j :: 0 <= j < from ==> elements[j] == old(elements[j])
        invariant forall j :: from <= j < i ==> elements[j] == old(elements[j + 1])
        invariant forall j :: i <= j < N ==> elements[j] == old(elements[j])
      {
        elements[i] := elements[i + 1];
        i := i + 1;
      }
      assert elements[..] == ShiftedLeft(old(elements[..]), from, length);
    }

    /**
     * The ascending copy loop of RemoveRange:
     * `for i in [0, n): element[dst + i] = element[src + i]`.
     */
    method CopyDown(dst: int, src: int, n: int)
      requires Valid() && 0 <= dst <= src && 0 <= n && src + n <= N
      modifies elements
      ensures Valid()
      ensures elements[..] == CopiedDown(old(elements[..]), dst, src, n)
    {
      var i := 0;
      while i < n
        modifies elements
        invariant 0 <= i <= n
        invariant forall j :: 0 <= j < dst ==> elements[j] == old(elements[j])
        invariant forall j :: dst <= j < dst + i ==> elements[j] == old(elements[j - dst + src])
        invariant forall j :: dst + i <= j < N ==> elements[j] == old(elements[j])
      {
        elements[dst + i] := elements[src + i];
        i := i + 1;
      }
      assert elements[..] == CopiedDown(old(elements[..]), dst, src, n);
    }

    /** RemoveAt: shifts slots (index, Length) one to the left, then Length--. */
    method RemoveAt(index: int)
      requires Valid() && 0 <= index < length
      modifies this, elements
      ensures Valid()
      ensures length == old(length) - 1
      ensures elements[..] == ShiftedLeft(old(elements[..]), index, old(length))
      ensures Contents() == old(Contents())[..index] + old(Contents())[index + 1..]
    {
      ShiftLeft(index);
      ShiftedLeftContents(old(elements[..]), index, length);
      length := length - 1;
    }

    /**
     * RemoveRange exactly as the source performs it (both loops), then
     * Length -= count. Its live contents are right only when at most `count`
     * elements follow the range (RangeRemovedAsWrittenShortTail).
     */
    method RemoveRangeAsWritten(index: int, count: int)
      requires Valid() && RangeInBounds(length, index, count)
      modifies this, elements
      ensures Valid()
      ensures length == old(length) - count
      ensures elements[..] == RangeRemovedAsWritten(old(elements[..]), old(length), index, count)
      ensures old(length) - (index + count) <= count ==>
        Contents() == old(Contents())[..index] + old(Contents())[index + count..]
    {
      ghost var before := elements[..];
      MoveRangeTailAsWritten(index, count);
      if length - (index + count) <= count {
        RangeRemovedAsWrittenShortTail(before, length, index, count);
      }
      length := length - count;
    }

    /** The two loops of RemoveRange as the source writes them, with its clamp of the first copy. */
    method MoveRangeTailAsWritten(index: int, count: int)
      requires Valid() && RangeInBounds(length, index, count)
      modifies elements
      ensures Valid()
      ensures elements[..] == ShiftedLeft(CopiedDown(old(elements[..]), index, index + count,
                                                    CopiesAsWritten(length, index, count)), index + count, length)
    {
      var indexAfter := index + count;
      var indexEndCopy := indexAfter + count;
      if indexEndCopy >= length {
        indexEndCopy := length;
      }
      var numCopies := indexEndCopy - indexAfter;
      assert numCopies == CopiesAsWritten(length, index, count);
      ghost var before := elements[..];
      assert before == old(elements[..]);
      CopyDown(index, indexAfter, numCopies);
      ghost var copied := elements[..];
      ShiftLeft(indexAfter);
      assert elements[..] == ShiftedLeft(copied, indexAfter, length);
      assert copied == CopiedDown(before, index, indexAfter, numCopies);
      assert length == old(length);
      assert copied == CopiedDown(old(elements[..]), index, index + count, CopiesAsWritten(length, index, count));
    }

    /**
     * RemoveRange as intended: one loop moves the whole tail down by `count`,
     * so the live contents lose exactly the slots [index, index + count).
     */
    method RemoveRange(index: int, count: int)
      requires Valid() && RangeInBounds(length, index, count)
      modifies this, elements
      ensures Valid()
      ensures length == old(length) - count
      ensures elements[..] == RangeRemoved(old(elements[..]), old(length), index, count)
      ensures Contents() == old(Contents())[..index] + old(Contents())[index + count..]
    {
      ghost var before := elements[..];
      CopyDown(index, index + count, length - (index + count));
      RangeRemovedContents(before, length, index, count);
      length := length - count;
    }
  }
}
