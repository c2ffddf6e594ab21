/**
 * DynamicArray<T>: a growable array whose backing buffer is replaced when it
 * fills up and when it becomes mostly empty.  The Java class keeps an
 * `Object[]` whose unused slots hold null; here the buffer is an
 * `array<Option<T>>` whose unused slots hold `None`.
 */
module DynamicArrays {
  import opened Wrappers
  import opened Seqs

  /** INITIAL_CAPACITY: the default capacity, and the floor of a shrink. */
  const InitialCapacity: nat := 10

  function Max(a: int, b: int): int { if a >= b then a else b }

  /** The capacity a full buffer of capacity `c` grows to:
      max(c + 1, (int)(c * GROWTH_FACTOR)) with GROWTH_FACTOR 2.0. */
  function GrownCapacity(c: nat): (r: nat)
    ensures r > c
    ensures r >= 2 * c
  {
    Max(c + 1, 2 * c)
  }

  /** Whether a removal that leaves `size` elements in a buffer of capacity
      `c` shrinks the buffer: size > 0 && size < c * SHRINK_FACTOR, with
      SHRINK_FACTOR 0.25 (exact in double arithmetic for every int). */
  predicate ShouldShrink(size: nat, c: nat)
    ensures ShouldShrink(size, c) ==> 0 < size < c && c >= 5
  {
    size > 0 && 4 * size < c
  }

  /** The capacity a shrink moves to: max(INITIAL_CAPACITY, (int)(c / GROWTH_FACTOR)). */
  function ShrunkCapacity(c: nat): (r: nat)
    ensures r >= InitialCapacity
  {
    Max(InitialCapacity, c / 2)
  }

  /** A shrink never drops an element: the new buffer is at least twice as
      large as what it keeps. It is smaller than the old buffer exactly when
      the old capacity was above `InitialCapacity`. */
  lemma ShrinkKeepsRoom(size: nat, c: nat)
    requires ShouldShrink(size, c)
    ensures 2 * size <= ShrunkCapacity(c)
    ensures ShrunkCapacity(c) < c <==> c > InitialCapacity
  {
  }

  class DynamicArray<T(==)> {
    var arr: array<Option<T>>
    var size: nat
    var capacity: nat

    /** The elements, in index order. */
    ghost var Contents: seq<T>
    ghost var Repr: set<object>

    /** Object invariant: `size <= capacity == arr.Length`, the first `size`
        slots hold `Contents` and every later slot holds null. */
    ghost predicate Valid()
      reads this, Repr
      ensures Valid() ==> this in Repr
    {
      && Repr == {this, arr}
      && size <= capacity == arr.Length
      && |Contents| == size
      && (forall i :: 0 <= i < size ==> arr[i] == Some(Contents[i]))
      && (forall i :: size <= i < capacity ==> arr[i] == None)
    }

    /** `new DynamicArray<>()`: empty, with capacity INITIAL_CAPACITY. */
    constructor ()
      ensures Valid() && fresh(Repr)
      ensures Contents == [] && capacity == InitialCapacity
    {
      arr := new Option<T>[InitialCapacity](_ => None);
      size, capacity := 0, InitialCapacity;
      Contents := [];
      Repr := {this, arr};
    }

    /** The body of `new DynamicArray<>(initialCapacity)` once the argument
        has been found non-negative. */
    constructor Sized(initialCapacity: nat)
      ensures Valid() && fresh(Repr)
      ensures Contents == [] && capacity == initialCapacity
    {
      arr := new Option<T>[initialCapacity](_ => None);
      size, capacity := 0, initialCapacity;
      Contents := [];
      Repr := {this, arr};
    }

    /** `new DynamicArray<>(initialCapacity)`: a negative capacity is an
        IllegalArgumentException. */
    static method WithCapacity(initialCapacity: int) returns (r: Result<DynamicArray<T>>)
      ensures r.Err? <==> initialCapacity < 0
      ensures r.Err? ==> r.error == IllegalArgument(NegativeCapacity)
      ensures r.Ok? ==> r.value.Valid() && fresh(r.value.Repr)
      ensures r.Ok? ==> r.value.Contents == [] && r.value.capacity == initialCapacity
    {
      if initialCapacity < 0 {
        return Err(IllegalArgument(NegativeCapacity));
      }
      var a := new DynamicArray<T>.Sized(initialCapacity);
      return Ok(a);
    }

    /** `resize`: copy the elements into a fresh buffer of `newCapacity` slots. */
    method Resize(newCapacity: nat)
      requires Valid() && size <= newCapacity
      modifies this
      ensures Valid() && fresh(arr)
      ensures capacity == newCapacity && Contents == old(Contents)
    {
      var newArray := new Option<T>[newCapacity](_ => None);
      var i := 0;
      while i < size
        invariant 0 <= i <= size
        invariant forall k :: 0 <= k < i ==> newArray[k] == arr[k]
        invariant forall k :: i <= k < newCapacity ==> newArray[k] == None
        modifies newArray
      {
        newArray[i] := arr[i];
        i := i + 1;
      }
      arr, capacity := newArray, newCapacity;
      Repr := {this, arr};
    }

    /** `add(element)`: append, growing a full buffer first. */
    method Add(element: Option<T>) returns (r: Outcome)
      requires Valid()
      modifies Repr
      ensures Valid() && fresh(Repr - old(Repr))
      ensures r == if element.None? then Fail(IllegalArgument(NullElement)) else Pass
      ensures element.None? ==> unchanged(this) && unchanged(arr)
      ensures element.Some? ==> Contents == old(Contents) + [element.value]
      ensures element.Some? ==>
        capacity == if old(size) == old(capacity) then GrownCapacity(old(capacity)) else old(capacity)
    {
      if element.None? {
        return Fail(IllegalArgument(NullElement));
      }
      if size == capacity {
        Resize(GrownCapacity(capacity));
      }
      arr[size] := element;
      size := size + 1;
      Contents := Contents + [element.value];
      r := Pass;
    }

    /** `add(index, element)`: the bounds are checked before the element;
        the elements from `index` on move one slot up. */
    method AddAt(index: int, element: Option<T>) returns (r: Outcome)
      requires Valid()
      modifies Repr
      ensures Valid() && fresh(Repr - old(Repr))
      ensures r == if !(0 <= index <= old(size)) then Fail(IndexOutOfBounds(index, old(size)))
                   else if element.None? then Fail(IllegalArgument(NullElement))
                   else Pass
      ensures r.Fail? ==> unchanged(this) && unchanged(arr)
      ensures r.Pass? ==> Contents == Insert(old(Contents), index, element.value)
      ensures r.Pass? ==>
        capacity == if old(size) == old(capacity) then GrownCapacity(old(capacity)) else old(capacity)
    {
      if index < 0 || index > size {
        return Fail(IndexOutOfBounds(index, size));
      }
      if element.None? {
        return Fail(IllegalArgument(NullElement));
      }
      if size == capacity {
        Resize(GrownCapacity(capacity));
      }
      ShiftUp(index);
      arr[index] := element;
      size := size + 1;
      Contents := Insert(Contents, index, element.value);
      r := Pass;
    }

    /** `System.arraycopy(array, index, array, index + 1, size - index)` on a
        buffer with a free slot: the elements from `index` on move one slot up. */
    method ShiftUp(index: nat)
      requires Valid() && index <= size < capacity
      modifies arr
      ensures forall k :: 0 <= k < index ==> arr[k] == Some(Contents[k])
      ensures forall k :: index < k <= size ==> arr[k] == Some(Contents[k - 1])
      ensures forall k :: size < k < capacity ==> arr[k] == None
    {
      var j := size;
      while j > index
        invariant index <= j <= size
        invariant forall k :: 0 <= k < j ==> arr[k] == Some(Contents[k])
        invariant forall k :: j < k <= size ==> arr[k] == Some(Contents[k - 1])
        invariant forall k :: size < k < capacity ==> arr[k] == None
      {
        arr[j] := arr[j - 1];
        j := j - 1;
      }
    }

    /** `remove(index)`: return the element at `index`, close the gap, and
        shrink the buffer when it has become less than a quarter full. */
    method RemoveAt(index: int) returns (r: Result<T>)
      requires Valid()
      modifies Repr
      ensures Valid() && fresh(Repr - old(Repr))
      ensures !(0 <= index < old(size)) ==>
        r == Err(IndexOutOfBounds(index, old(size))) && unchanged(this) && unchanged(arr)
      ensures 0 <= index < old(size) ==>
        r == Ok(old(Contents)[index]) && Contents == Delete(old(Contents), index)
      ensures 0 <= index < old(size) ==>
        capacity == if ShouldShrink(old(size) - 1, old(capacity)) then ShrunkCapacity(old(capacity)) else old(capacity)
    {
      if index < 0 || index >= size {
        return Err(IndexOutOfBounds(index, size));
      }
      var removed := arr[index].value;
      ShiftDown(index);
      size := size - 1;
      arr[size] := None;
      Contents := Delete(Contents, index);
      if ShouldShrink(size, capacity) {
        ShrinkKeepsRoom(size, capacity);
        Resize(ShrunkCapacity(capacity));
      }
      r := Ok(removed);
    }

    /** `System.arraycopy(array, index + 1, array, index, size - index - 1)`:
        the elements after `index` move one slot down over it. */
    method ShiftDown(index: nat)
      requires Valid() && index < size
      modifies arr
      ensures forall k :: 0 <= k < index ==> arr[k] == Some(Contents[k])
      ensures forall k :: index <= k < size - 1 ==> arr[k] == Some(Contents[k + 1])
      ensures forall k :: size - 1 <= k < size ==> arr[k] == Some(Contents[k])
      ensures forall k :: size <= k < capacity ==> arr[k] == None
    {
      var j := index;
      while j < size - 1
        invariant index <= j <= size - 1
        invariant forall k :: 0 <= k < index ==> arr[k] == Some(Contents[k])
        invariant forall k :: index <= k < j ==> arr[k] == Some(Contents[k + 1])
        invariant forall k :: j <= k < size ==> arr[k] == Some(Contents[k])
        invariant forall k :: size <= k < capacity ==> arr[k] == None
      {
        arr[j] := arr[j + 1];
        j := j + 1;
      }
    }

    /** `remove(element)`: remove the first element equal to `element` and
        report whether there was one. */
    method Remove(element: T) returns (found: bool)
      requires Valid()
      modifies Repr
      ensures Valid() && fresh(Repr - old(Repr))
      ensures found <==> element in old(Contents)
      ensures !found ==> unchanged(this) && unchanged(arr)
      ensures found ==> Contents == Delete(old(Contents), FirstIndex(old(Contents), element))
      ensures found ==>
        capacity == if ShouldShrink(old(size) - 1, old(capacity)) then ShrunkCapacity(old(capacity)) else old(capacity)
    {
      var i := 0;
      while i < size
        invariant 0 <= i <= size
        invariant element !in Contents[..i]
      {
        if arr[i] == Some(element) {
          assert Contents[..i + 1] == Contents[..i] + [element];
          var _ := RemoveAt(i);
          return true;
        }
        assert Contents[..i + 1] == Contents[..i] + [Contents[i]];
        i := i + 1;
      }
      assert Contents[..i] == Contents;
      return false;
    }

    /** `get(index)`. */
    function Get(index: int): (r: Result<T>)
      reads this, Repr
      requires Valid()
      ensures r.Ok? <==> 0 <= index < |Contents|
      ensures r.Ok? ==> r.value == Contents[index]
      ensures r.Err? ==> r.error == IndexOutOfBounds(index, |Contents|)
    {
      if index < 0 || index >= size then Err(IndexOutOfBounds(index, size))
      else Ok(arr[index].value)
    }

    /** `set(index, element)`: the bounds are checked before the element;
        only position `index` changes. */
    method Set(index: int, element: Option<T>) returns (r: Outcome)
      requires Valid()
      modifies Repr
      ensures Valid() && Repr == old(Repr) && arr == old(arr)
      ensures size == old(size) && capacity == old(capacity)
      ensures r == if !(0 <= index < size) then Fail(IndexOutOfBounds(index, size))
                   else if element.None? then Fail(IllegalArgument(NullElement))
                   else Pass
      ensures r.Fail? ==> unchanged(this) && unchanged(arr)
      ensures r.Pass? ==> Contents == old(Contents)[index := element.value]
    {
      if index < 0 || index >= size {
        return Fail(IndexOutOfBounds(index, size));
      }
      if element.None? {
        return Fail(IllegalArgument(NullElement));
      }
      arr[index] := element;
      Contents := Contents[index := element.value];
      r := Pass;
    }

    /** `clear`: a fresh buffer of INITIAL_CAPACITY slots. */
    method Clear()
      requires Valid()
      modifies this
      ensures Valid() && fresh(arr)
      ensures Contents == [] && capacity == InitialCapacity
    {
      capacity := InitialCapacity;
      size := 0;
      arr := new Option<T>[InitialCapacity](_ => None);
      Contents := [];
      Repr := {this, arr};
    }

    /** `contains(element)`. */
    method Contains(element: T) returns (b: bool)
      requires Valid()
      ensures b <==> element in Contents
    {
      var i := 0;
      while i < size
        invariant 0 <= i <= size
        invariant element !in Contents[..i]
      {
        if arr[i] == Some(element) {
          return true;
        }
        assert Contents[..i + 1] == Contents[..i] + [Contents[i]];
        i := i + 1;
      }
      assert Contents[..i] == Contents;
      return false;
    }

    /** `indexOf(element)`: the first position holding `element`, or -1. */
    method IndexOf(element: T) returns (index: int)
      requires Valid()
      ensures index == FirstIndex(Contents, element)
    {
      var i := 0;
      while i < size
        invariant 0 <= i <= size
        invariant element !in Contents[..i]
      {
        if arr[i] == Some(element) {
          return i;
        }
        assert Contents[..i + 1] == Contents[..i] + [Contents[i]];
        i := i + 1;
      }
      assert Contents[..i] == Contents;
      return -1;
    }

    /** `size()`. */
    function Size(): (n: nat)
      reads this, Repr
      requires Valid()
      ensures n == |Contents|
    {
      size
    }

    /** `capacity()`: never below the size. */
    function Capacity(): (n: nat)
      reads this, Repr
      requires Valid()
      ensures n >= |Contents|
      ensures n == arr.Length
    {
      capacity
    }

    /** `isEmpty()`. */
    function IsEmpty(): (b: bool)
      reads this, Repr
      requires Valid()
      ensures b <==> Contents == []
    {
      size == 0
    }

    /** `trimToSize`: capacity becomes the size, the elements stay. */
    method TrimToSize()
      requires Valid()
      modifies this
      ensures Valid() && fresh(Repr - old(Repr))
      ensures capacity == |Contents| && Contents == old(Contents)
    {
      if size < capacity {
        Resize(size);
      }
    }
  }
}
