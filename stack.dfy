/** The stack: an array list whose last element is the top. Iteration,
    `toArray` and `search` all read it from the top down. */
module Stack {
  import opened Common
  import opened ArrayList

  /** The 1-based distance from the top of `s` (its last element) to the
      topmost occurrence of `x`, or -1 when `x` does not occur. */
  function TopDistance<E(==)>(s: seq<E>, x: E): (d: int)
    ensures x !in s <==> d == -1
    ensures x in s ==> 1 <= d <= |s| && s[|s| - d] == x && x !in s[|s| - d + 1..]
  {
    if s == [] then -1
    else if s[|s| - 1] == x then 1
    else
      var d := TopDistance(s[..|s| - 1], x);
      assert s == s[..|s| - 1] + [s[|s| - 1]];
      if d == -1 then -1 else d + 1
  }

  /** The distance is determined by the position of the topmost occurrence. */
  lemma TopDistanceAt<E>(s: seq<E>, x: E, k: nat)
    requires k < |s| && s[k] == x && x !in s[k + 1..]
    ensures TopDistance(s, x) == |s| - k
  {
    var d := TopDistance(s, x);
    assert x in s;
    assert forall m :: k < m < |s| ==> s[m] in s[k + 1..];
    assert forall m :: |s| - d < m < |s| ==> s[m] in s[|s| - d + 1..];
  }

  class MyStack<E(==)> {
    // Implementation: the list that holds the elements, bottom first.
    var stack: MyArrayList<E>

    // Public view: the elements from bottom to top, and the objects used.
    ghost var Contents: seq<E>
    ghost var Repr: set<object>

    /** The stack owns its list, and its contents are the list's. */
    ghost predicate Valid()
      reads this, Repr
      ensures Valid() ==> this in Repr
    {
      && this in Repr
      && stack in Repr
      && stack.Repr <= Repr
      && this !in stack.Repr
      && stack.Valid()
      && Contents == stack.Contents
    }

    /** A new, empty stack. */
    constructor ()
      ensures Valid() && fresh(Repr) && Contents == []
    {
      stack := new MyArrayList();
      Contents := [];
      new;
      Repr := {this} + stack.Repr;
    }

    /** Puts `toAdd` on top; a null element is refused. */
    method Push(toAdd: Option<E>) returns (r: Result<()>)
      requires Valid()
      modifies Repr
      ensures Valid() && fresh(Repr - old(Repr))
      ensures toAdd.None? ==> r == Err(NullPointer) && Contents == old(Contents)
      ensures toAdd.Some? ==> r == Ok(()) && Contents == old(Contents) + [toAdd.value]
    {
      if toAdd.None? {
        return Err(NullPointer);
      }
      var _ := stack.Add(toAdd);
      Contents := stack.Contents;
      Repr := Repr + stack.Repr;
      r := Ok(());
    }

    /** Removes and returns the top element. */
    method Pop() returns (r: Result<E>)
      requires Valid()
      modifies Repr
      ensures Valid() && Repr == old(Repr)
      ensures old(Contents) == [] ==> r == Err(EmptyStack) && Contents == []
      ensures old(Contents) != [] ==>
                r == Ok(old(Contents)[|old(Contents)| - 1]) && Contents == old(Contents)[..|old(Contents)| - 1]
    {
      if IsEmpty() {
        return Err(EmptyStack);
      }
      r := stack.RemoveAt(stack.Size() - 1);
      Contents := stack.Contents;
    }

    /** The top element, left in place. */
    method Peek() returns (r: Result<E>)
      requires Valid()
      ensures Contents == [] ==> r == Err(EmptyStack)
      ensures Contents != [] ==> r == Ok(Contents[|Contents| - 1])
    {
      if IsEmpty() {
        return Err(EmptyStack);
      }
      r := stack.Get(stack.Size() - 1);
    }

    /** Empties the stack. */
    method Clear()
      requires Valid()
      modifies Repr
      ensures Valid() && Repr == old(Repr) && Contents == []
    {
      stack.Clear();
      Contents := [];
    }

    /** Whether the stack holds no element. */
    function IsEmpty(): (b: bool)
      reads this, Repr
      requires Valid()
      ensures b <==> Contents == []
    {
      stack.Size() == 0
    }

    /** A fresh array holding the elements from the top down. */
    method ToArray() returns (r: array<Option<E>>)
      requires Valid()
      ensures fresh(r) && r[..] == Wrapped(Reverse(Contents))
    {
      r := new Option<E>[stack.Size()](_ => None);
      for i := 0 to stack.Size()
        modifies r
        invariant forall k :: 0 <= k < i ==> r[k] == Some(Contents[|Contents| - 1 - k])
      {
        var e := stack.Get(stack.Size() - 1 - i);
        r[i] := Some(e.value);
      }
    }

    /** Writes the elements from the top down into `holder`, or into a fresh
        array of length `size` when `holder` is too short; a longer holder
        gets a null at index `size`, and its later slots stay as they were. */
    method ToArrayInto(holder: Option<array<Option<E>>>) returns (r: Result<array<Option<E>>>)
      requires Valid()
      requires holder.Some? ==> holder.value !in Repr
      modifies if holder.Some? then {holder.value} else {}
      ensures holder.None? ==> r == Err(NullPointer)
      ensures holder.Some? ==> r.Ok? && r.value.Length >= |Contents|
                               && r.value[..|Contents|] == Wrapped(Reverse(Contents))
      ensures holder.Some? && holder.value.Length >= |Contents| ==> r == Ok(holder.value)
      ensures holder.Some? && holder.value.Length > |Contents| ==>
                r.value[|Contents|] == None
                && r.value[|Contents| + 1..] == old(holder.value[|Contents| + 1..])
      ensures holder.Some? && holder.value.Length < |Contents| ==>
                fresh(r.value) && r.value.Length == |Contents|
    {
      if holder.None? {
        return Err(NullPointer);
      }
      var target := holder.value;
      if target.Length < stack.Size() {
        target := new Option<E>[stack.Size()](_ => None);
      }
      ghost var initial := target[..];
      for i := 0 to stack.Size()
        modifies target
        invariant forall k :: 0 <= k < i ==> target[k] == Some(Contents[|Contents| - 1 - k])
        invariant forall k :: i <= k < target.Length ==> target[k] == initial[k]
      {
        var e := stack.Get(stack.Size() - 1 - i);
        target[i] := Some(e.value);
      }
      if target.Length > stack.Size() {
        target[stack.Size()] := None;
      }
      r := Ok(target);
    }

    /** Whether some element equals `toFind`. */
    method Contains(toFind: Option<E>) returns (r: Result<bool>)
      requires Valid()
      ensures toFind.None? ==> r == Err(NullPointer)
      ensures toFind.Some? ==> r == Ok(toFind.value in Contents)
    {
      if toFind.None? {
        return Err(NullPointer);
      }
      r := stack.Contains(toFind);
    }

    /** The 1-based distance of the topmost occurrence of `toFind` from the
        top, or -1 when there is none; scans from the top down. */
    method Search(toFind: Option<E>) returns (r: Result<int>)
      requires Valid()
      ensures toFind.None? ==> r == Err(NullPointer)
      ensures toFind.Some? ==> r == Ok(TopDistance(Contents, toFind.value))
    {
      if toFind.None? {
        return Err(NullPointer);
      }
      var x := toFind.value;
      var i := stack.Size() - 1;
      while i >= 0
        invariant -1 <= i < |Contents|
        invariant x !in Contents[i + 1..]
      {
        var e := stack.Get(i);
        if e.value == x {
          TopDistanceAt(Contents, x, i);
          return Ok(stack.Size() - i);
        }
        assert Contents[i..] == [Contents[i]] + Contents[i + 1..];
        i := i - 1;
      }
      assert Contents[0..] == Contents;
      r := Ok(-1);
    }

    /** An iterator from the top down. */
    method Iterator() returns (it: StackIterator<E>)
      requires Valid()
      ensures fresh(it) && it.list == stack && it.currentIndex == |Contents| - 1
      ensures it.Remaining() == Reverse(Contents)
    {
      it := new StackIterator(stack);
    }

    /** Whether `that` holds the same elements in the same order; a null
        `that` is refused. */
    method Equals(that: MyStack?<E>) returns (r: Result<bool>)
      requires Valid()
      requires that != null ==> that.Valid()
      ensures that == null ==> r == Err(NullPointer)
      ensures that != null ==> r == Ok(Contents == that.Contents)
    {
      if that == null {
        return Err(NullPointer);
      }
      if Size() != that.Size() {
        return Ok(false);
      }
      var thisIterator := Iterator();
      var thatIterator := that.Iterator();
      while thisIterator.HasNext() && thatIterator.HasNext()
        invariant thisIterator.list == stack && thatIterator.list == that.stack
        invariant -1 <= thisIterator.currentIndex < |Contents|
        invariant thatIterator.currentIndex == thisIterator.currentIndex
        invariant forall j :: thisIterator.currentIndex < j < |Contents| ==> Contents[j] == that.Contents[j]
        decreases thisIterator.currentIndex
      {
        ghost var k := thisIterator.currentIndex;
        var a := thisIterator.Next();
        var b := thatIterator.Next();
        if a.value != b.value {
          assert Contents[k] != that.Contents[k];
          return Ok(false);
        }
      }
      assert Contents == that.Contents;
      r := Ok(true);
    }

    /** The number of elements. */
    function Size(): (n: nat)
      reads this, Repr
      requires Valid()
      ensures n == |Contents|
    {
      stack.Size()
    }

    /** The stack is never reported as overflowing: it grows without bound. */
    function StackOverflow(): (b: bool)
      reads this, Repr
      requires Valid()
      ensures !b
    {
      false
    }
  }

  /** The iterator `MyStack.iterator()` returns: it holds an index into the
      stack's list, starting at the top, and moves down. */
  class StackIterator<E(==)> {
    const list: MyArrayList<E>
    var currentIndex: int

    constructor (list: MyArrayList<E>)
      requires list.Valid()
      ensures this.list == list && currentIndex == |list.Contents| - 1
    {
      this.list := list;
      currentIndex := list.Size() - 1;
    }

    /** The elements still to be produced, top first, as long as the list
        has not shrunk below the index. */
    ghost function Remaining(): seq<E>
      reads this, list, list.Repr
      requires list.Valid()
    {
      if -1 <= currentIndex < |list.Contents| then Reverse(list.Contents[..currentIndex + 1]) else []
    }

    /** Whether the index has not yet passed the bottom. */
    function HasNext(): (b: bool)
      reads this
      ensures b <==> currentIndex >= 0
    {
      currentIndex >= 0
    }

    /** The element at the index, which then moves down; once past the
        bottom, NoSuchElement. */
    method Next() returns (r: Result<E>)
      requires list.Valid()
      modifies this
      ensures old(currentIndex) < 0 ==> r == Err(NoSuchElement) && currentIndex == old(currentIndex)
      ensures 0 <= old(currentIndex) < |list.Contents| ==>
                r == Ok(list.Contents[old(currentIndex)]) && currentIndex == old(currentIndex) - 1
      ensures old(currentIndex) >= |list.Contents| ==>
                r == Err(IndexOutOfBounds) && currentIndex == old(currentIndex) - 1
    {
      if !HasNext() {
        return Err(NoSuchElement);
      }
      r := list.Get(currentIndex);
      currentIndex := currentIndex - 1;
    }
  }
}
