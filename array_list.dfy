/** The growable array list: a buffer of capacity 10 that doubles when an
    insertion finds it full. The logical contents are the first `size` slots. */
module ArrayList {
  import opened Common

  /** Initial capacity of the buffer. */
  const CAPACITY: nat := 10
  /** Growth factor applied when the buffer is full. */
  const MULTIPLIER: nat := 2

  class MyArrayList<E(==)> {
    // Implementation: the buffer (a `null` slot is `None`) and the logical size.
    var buffer: array<Option<E>>
    var size: nat

    // Public view: the elements at indices [0, size), and the objects used.
    ghost var Contents: seq<E>
    ghost var Repr: set<object>

    /** The object invariant: `size` never exceeds the capacity, and the
        first `size` slots hold the contents in order. */
    ghost predicate Valid()
      reads this, Repr
      ensures Valid() ==> this in Repr
    {
      && Repr == {this, buffer}
      && CAPACITY <= buffer.Length
      && size <= buffer.Length
      && |Contents| == size
      && forall i :: 0 <= i < size ==> buffer[i] == Some(Contents[i])
    }

    /** A new, empty list with a buffer of CAPACITY null slots. */
    constructor ()
      ensures Valid() && fresh(Repr)
      ensures Contents == [] && buffer.Length == CAPACITY
    {
      buffer := new Option<E>[CAPACITY](_ => None);
      size := 0;
      Contents := [];
      Repr := {this, buffer};
    }

    /** The number of elements. */
    function Size(): (n: nat)
      reads this, Repr
      requires Valid()
      ensures n == |Contents|
    {
      size
    }

    /** Whether the list holds no element. */
    function IsEmpty(): (b: bool)
      reads this, Repr
      requires Valid()
      ensures b <==> Contents == []
    {
      size == 0
    }

    /** Resets the logical size only: the buffer and its stale slots stay. */
    method Clear()
      requires Valid()
      modifies this
      ensures Valid() && Repr == old(Repr)
      ensures Contents == []
      ensures buffer == old(buffer) && buffer[..] == old(buffer[..])
    {
      size := 0;
      Contents := [];
    }

    /** Makes room for one more element: when the buffer is full it is
        replaced by one twice as long holding the same slots, followed by
        null slots; otherwise nothing changes. */
    method CheckCapacity()
      requires Valid()
      modifies this
      ensures Valid() && fresh(Repr - old(Repr))
      ensures Contents == old(Contents) && size == old(size)
      ensures size < buffer.Length
      ensures old(size) == old(buffer.Length) ==>
                && fresh(buffer)
                && buffer.Length == MULTIPLIER * old(buffer.Length)
                && buffer[..old(buffer.Length)] == old(buffer[..])
                && forall i :: old(buffer.Length) <= i < buffer.Length ==> buffer[i] == None
      ensures old(size) < old(buffer.Length) ==> buffer == old(buffer) && buffer[..] == old(buffer[..])
    {
      if size == buffer.Length {
        var newArray := new Option<E>[buffer.Length * MULTIPLIER](_ => None);
        for i := 0 to buffer.Length
          modifies newArray
          invariant forall k :: 0 <= k < i ==> newArray[k] == buffer[k]
          invariant forall k :: i <= k < newArray.Length ==> newArray[k] == None
        {
          newArray[i] := buffer[i];
        }
        assert newArray[..buffer.Length] == buffer[..];
        buffer := newArray;
        Repr := {this, buffer};
      }
    }

    /** Moves the slots [index, size) one place right, leaving slot `index`
        as it was. */
    method ShiftToRight(index: nat)
      requires Valid()
      requires index <= size < buffer.Length
      modifies buffer
      ensures forall k :: 0 <= k <= index ==> buffer[k] == old(buffer[k])
      ensures forall k :: index < k <= size ==> buffer[k] == old(buffer[k - 1])
      ensures forall k :: size < k < buffer.Length ==> buffer[k] == old(buffer[k])
    {
      var i := size;
      while i > index
        invariant index <= i <= size
        invariant forall k :: 0 <= k <= i ==> buffer[k] == old(buffer[k])
        invariant forall k :: i < k <= size ==> buffer[k] == old(buffer[k - 1])
        invariant forall k :: size < k < buffer.Length ==> buffer[k] == old(buffer[k])
      {
        buffer[i] := buffer[i - 1];
        i := i - 1;
      }
    }

    /** Inserts at `index`, shifting its successors right. A bad index is
        reported before a null element; a failing call changes nothing. */
    method AddAt(index: int, toAdd: Option<E>) returns (r: Result<bool>)
      requires Valid()
      modifies Repr
      ensures Valid() && fresh(Repr - old(Repr))
      ensures !(0 <= index <= old(size)) ==> r == Err(IndexOutOfBounds)
      ensures 0 <= index <= old(size) && toAdd.None? ==> r == Err(NullPointer)
      ensures r.Err? ==> Contents == old(Contents) && buffer == old(buffer) && buffer[..] == old(buffer[..])
      ensures 0 <= index <= old(size) && toAdd.Some? ==>
                r == Ok(true) && Contents == old(Contents)[..index] + [toAdd.value] + old(Contents)[index..]
    {
      if index < 0 || index > size {
        return Err(IndexOutOfBounds);
      }
      if toAdd.None? {
        return Err(NullPointer);
      }
      CheckCapacity();
      ShiftToRight(index);
      buffer[index] := toAdd;
      size := size + 1;
      Contents := Contents[..index] + [toAdd.value] + Contents[index..];
      r := Ok(true);
    }

    /** Appends at the end, growing the buffer first when it is full. */
    method Add(toAdd: Option<E>) returns (r: Result<bool>)
      requires Valid()
      modifies Repr
      ensures Valid() && fresh(Repr - old(Repr))
      ensures toAdd.None? ==> r == Err(NullPointer) && Contents == old(Contents)
                              && buffer == old(buffer) && buffer[..] == old(buffer[..])
      ensures toAdd.Some? ==> r == Ok(true) && Contents == old(Contents) + [toAdd.value]
    {
      if toAdd.None? {
        return Err(NullPointer);
      }
      CheckCapacity();
      buffer[size] := toAdd;
      size := size + 1;
      Contents := Contents + [toAdd.value];
      r := Ok(true);
    }

    /** Appends every element of `toAdd`, in its iteration order; the result
        is true even when `toAdd` is empty. */
    method AddAll(toAdd: Option<seq<E>>) returns (r: Result<bool>)
      requires Valid()
      modifies Repr
      ensures Valid() && fresh(Repr - old(Repr))
      ensures toAdd.None? ==> r == Err(NullPointer) && Contents == old(Contents)
      ensures toAdd.Some? ==> r == Ok(true) && Contents == old(Contents) + toAdd.value
    {
      if toAdd.None? {
        return Err(NullPointer);
      }
      var elements := toAdd.value;
      for i := 0 to |elements|
        invariant Valid() && fresh(Repr - old(Repr))
        invariant Contents == old(Contents) + elements[..i]
      {
        var _ := Add(Some(elements[i]));
        assert elements[..i + 1] == elements[..i] + [elements[i]];
      }
      assert elements[..|elements|] == elements;
      r := Ok(true);
    }

    /** The element at `index`. */
    method Get(index: int) returns (r: Result<E>)
      requires Valid()
      ensures 0 <= index < |Contents| ==> r == Ok(Contents[index])
      ensures !(0 <= index < |Contents|) ==> r == Err(IndexOutOfBounds)
    {
      if index < 0 || index >= size {
        return Err(IndexOutOfBounds);
      }
      r := Ok(buffer[index].value);
    }

    /** Removes the element at `index`, shifting its successors left and
        nulling the slot that falls vacant. */
    method RemoveAt(index: int) returns (r: Result<E>)
      requires Valid()
      modifies Repr
      ensures Valid() && Repr == old(Repr) && buffer == old(buffer)
      ensures !(0 <= index < old(size)) ==> r == Err(IndexOutOfBounds) && Contents == old(Contents)
                                             && buffer[..] == old(buffer[..])
      ensures 0 <= index < old(size) ==>
                && r == Ok(old(Contents)[index])
                && Contents == old(Contents)[..index] + old(Contents)[index + 1..]
                && buffer[old(size) - 1] == None
    {
      if index < 0 || index >= size {
        return Err(IndexOutOfBounds);
      }
      var removedElement := buffer[index].value;
      for i := index to size - 1
        modifies buffer
        invariant forall k :: 0 <= k < index ==> buffer[k] == old(buffer[k])
        invariant forall k :: index <= k < i ==> buffer[k] == old(buffer[k + 1])
        invariant forall k :: i <= k < buffer.Length ==> buffer[k] == old(buffer[k])
      {
        buffer[i] := buffer[i + 1];
      }
      buffer[size - 1] := None;
      size := size - 1;
      ghost var rest := Contents[..index] + Contents[index + 1..];
      assert forall k :: 0 <= k < |rest| ==> rest[k] == if k < index then Contents[k] else Contents[k + 1];
      Contents := rest;
      r := Ok(removedElement);
    }

    /** Removes the first element equal to `toRemove` and returns it; when
        there is none, returns null and changes nothing. */
    method RemoveElement(toRemove: Option<E>) returns (r: Result<Option<E>>)
      requires Valid()
      modifies Repr
      ensures Valid() && Repr == old(Repr)
      ensures toRemove.None? ==> r == Err(NullPointer) && Contents == old(Contents)
      ensures toRemove.Some? && toRemove.value !in old(Contents) ==>
                r == Ok(None) && Contents == old(Contents)
      ensures toRemove.Some? && toRemove.value in old(Contents) ==>
                && r == Ok(toRemove)
                && exists i :: 0 <= i < |old(Contents)| && old(Contents)[i] == toRemove.value
                               && toRemove.value !in old(Contents)[..i]
                               && Contents == old(Contents)[..i] + old(Contents)[i + 1..]
    {
      if toRemove.None? {
        return Err(NullPointer);
      }
      var x := toRemove.value;
      for i := 0 to size
        invariant Valid() && Contents == old(Contents) && Repr == old(Repr)
        invariant x !in Contents[..i]
      {
        if buffer[i].value == x {
          var removedElement := buffer[i];
          ghost var before := Contents;
          var _ := RemoveAt(i);
          assert before[i] == x;
          return Ok(removedElement);
        }
        assert Contents[..i + 1] == Contents[..i] + [Contents[i]];
      }
      assert Contents[..size] == Contents;
      r := Ok(None);
    }

    /** Replaces the element at `index` and returns the one it held. A bad
        index is reported before a null element. */
    method Set(index: int, toChange: Option<E>) returns (r: Result<E>)
      requires Valid()
      modifies Repr
      ensures Valid() && Repr == old(Repr) && buffer == old(buffer)
      ensures !(0 <= index < |old(Contents)|) ==> r == Err(IndexOutOfBounds)
      ensures 0 <= index < |old(Contents)| && toChange.None? ==> r == Err(NullPointer)
      ensures r.Err? ==> Contents == old(Contents) && buffer[..] == old(buffer[..])
      ensures 0 <= index < |old(Contents)| && toChange.Some? ==>
                r == Ok(old(Contents)[index]) && Contents == old(Contents)[index := toChange.value]
    {
      if index < 0 || index >= size {
        return Err(IndexOutOfBounds);
      }
      if toChange.None? {
        return Err(NullPointer);
      }
      var oldValue := buffer[index].value;
      buffer[index] := toChange;
      Contents := Contents[index := toChange.value];
      r := Ok(oldValue);
    }

    /** Whether some element equals `toFind`. */
    method Contains(toFind: Option<E>) returns (r: Result<bool>)
      requires Valid()
      ensures toFind.None? ==> r == Err(NullPointer)
      ensures toFind.Some? ==> r == Ok(toFind.value in Contents)
    {
      if toFind.None? {
        return Err(NullPointer);
      }
      for i := 0 to size
        invariant toFind.value !in Contents[..i]
      {
        if buffer[i].value == toFind.value {
          return Ok(true);
        }
        assert Contents[..i + 1] == Contents[..i] + [Contents[i]];
      }
      assert Contents[..size] == Contents;
      r := Ok(false);
    }

    /** Copies the elements into `toHold`, or into a fresh array of length
        `size` when `toHold` is too short. Slots past `size` are left as they
        were: no null terminator is written. */
    method ToArrayInto(toHold: Option<array<Option<E>>>) returns (r: Result<array<Option<E>>>)
      requires Valid()
      requires toHold.Some? ==> toHold.value !in Repr
      modifies if toHold.Some? then {toHold.value} else {}
      ensures toHold.None? ==> r == Err(NullPointer)
      ensures toHold.Some? ==> r.Ok? && r.value.Length >= |Contents|
                               && r.value[..|Contents|] == Wrapped(Contents)
      ensures toHold.Some? && toHold.value.Length >= |Contents| ==>
                r == Ok(toHold.value)
                && r.value[|Contents|..] == old(toHold.value[|Contents|..])
      ensures toHold.Some? && toHold.value.Length < |Contents| ==>
                fresh(r.value) && r.value.Length == |Contents|
    {
      if toHold.None? {
        return Err(NullPointer);
      }
      var target := toHold.value;
      if target.Length < size {
        target := new Option<E>[size](_ => None);
      }
      ghost var initial := target[..];
      for i := 0 to size
        modifies target
        invariant forall k :: 0 <= k < i ==> target[k] == buffer[k]
        invariant forall k :: i <= k < target.Length ==> target[k] == initial[k]
      {
        target[i] := buffer[i];
      }
      r := Ok(target);
    }

    /** A fresh array holding the elements in order. */
    method ToArray() returns (r: array<Option<E>>)
      requires Valid()
      ensures fresh(r) && r[..] == Wrapped(Contents)
    {
      r := new Option<E>[size](_ => None);
      for i := 0 to size
        modifies r
        invariant forall k :: 0 <= k < i ==> r[k] == buffer[k]
      {
        r[i] := buffer[i];
      }
    }

    /** A forward iterator bound to this list. */
    method Iterator() returns (it: ArrayListIterator<E>)
      requires Valid()
      ensures fresh(it) && it.list == this && it.index == 0
    {
      it := new ArrayListIterator(this);
    }
  }

  /** The iterator `MyArrayList.iterator()` returns: it keeps an index and
      reads the list's size and buffer afresh on every call. */
  class ArrayListIterator<E(==)> {
    const list: MyArrayList<E>
    var index: nat

    constructor (list: MyArrayList<E>)
      ensures this.list == list && index == 0
    {
      this.list := list;
      index := 0;
    }

    /** Whether an element remains at or after the current index. */
    function HasNext(): (b: bool)
      reads this, list, list.Repr
      requires list.Valid()
      ensures b <==> index < |list.Contents|
    {
      index < list.size
    }

    /** The element at the current index, which then advances. */
    method Next() returns (r: Result<E>)
      requires list.Valid()
      modifies this
      ensures old(index) < |list.Contents| ==> r == Ok(list.Contents[old(index)]) && index == old(index) + 1
      ensures old(index) >= |list.Contents| ==> r == Err(NoSuchElement) && index == old(index)
    {
      if !HasNext() {
        return Err(NoSuchElement);
      }
      r := Ok(list.buffer[index].value);
      index := index + 1;
    }
  }
}
