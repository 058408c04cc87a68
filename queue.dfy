/** The queue: a doubly linked list whose head is the front. Elements join
    at the tail and leave at the head. */
module Queue {
  import opened Common
  import opened LinkedList

  class MyQueue<E(==)> {
    // Implementation: the list that holds the elements, front first.
    var q: MyDLL<E>

    // Public view: the elements from front to back, and the objects used.
    ghost var Contents: seq<E>
    ghost var Repr: set<object>

    /** The queue owns its list, and its contents are the list's. */
    ghost predicate Valid()
      reads this, Repr
      ensures Valid() ==> this in Repr
    {
      && this in Repr
      && q in Repr
      && q.Repr <= Repr
      && this !in q.Repr
      && q.Valid()
      && Contents == q.Contents
    }

    /** A new, empty queue. */
    constructor ()
      ensures Valid() && fresh(Repr) && Contents == []
    {
      q := new MyDLL();
      Contents := [];
      new;
      Repr := {this} + q.Repr;
    }

    /** Adds `toAdd` at the back; a null element is refused. */
    method Enqueue(toAdd: Option<E>) returns (r: Result<()>)
      requires Valid()
      modifies Repr
      ensures Valid() && fresh(Repr - old(Repr))
      ensures toAdd.None? ==> r == Err(NullPointer) && Contents == old(Contents)
      ensures toAdd.Some? ==> r == Ok(()) && Contents == old(Contents) + [toAdd.value]
    {
      if toAdd.None? {
        return Err(NullPointer);
      }
      var _ := q.Add(toAdd);
      Contents := q.Contents;
      Repr := Repr + q.Repr;
      r := Ok(());
    }

    /** Removes and returns the front element. */
    method Dequeue() returns (r: Result<E>)
      requires Valid()
      modifies Repr
      ensures Valid() && Repr == old(Repr)
      ensures old(Contents) == [] ==> r == Err(EmptyQueue) && Contents == []
      ensures old(Contents) != [] ==> r == Ok(old(Contents)[0]) && Contents == old(Contents)[1..]
    {
      if IsEmpty() {
        return Err(EmptyQueue);
      }
      r := q.RemoveAt(0);
      Contents := q.Contents;
    }

    /** The front element, left in place. */
    method Peek() returns (r: Result<E>)
      requires Valid()
      ensures Contents == [] ==> r == Err(EmptyQueue)
      ensures Contents != [] ==> r == Ok(Contents[0])
    {
      if IsEmpty() {
        return Err(EmptyQueue);
      }
      r := q.Get(0);
    }

    /** Empties the queue. */
    method DequeueAll()
      requires Valid()
      modifies Repr
      ensures Valid() && Repr == old(Repr) && Contents == []
    {
      q.Clear();
      Contents := [];
    }

    /** Whether the queue holds no element. */
    function IsEmpty(): (b: bool)
      reads this, Repr
      requires Valid()
      ensures b <==> Contents == []
    {
      q.IsEmpty()
    }

    /** Whether some element equals `toFind`. */
    method Contains(toFind: Option<E>) returns (r: Result<bool>)
      requires Valid()
      ensures toFind.None? ==> r == Err(NullPointer)
      ensures toFind.Some? ==> r == Ok(toFind.value in Contents)
    {
      if toFind.None? {
        return Err(NullPointer);
      }
      r := q.Contains(toFind);
    }

    /** The 1-based position of the first occurrence of `toFind` from the
        front, or -1 when there is none. */
    method Search(toFind: Option<E>) returns (r: Result<int>)
      requires Valid()
      ensures toFind.None? ==> r == Err(NullPointer)
      ensures toFind.Some? ==> r == Ok(FirstPosition(Contents, toFind.value))
    {
      r := q.IndexOf(toFind);
    }

    /** An iterator from front to back. */
    method Iterator() returns (it: DLLIterator<E>)
      requires Valid()
      ensures fresh(it) && it.Valid() && it.Nodes == q.Nodes && it.Elements == Contents && it.position == 0
    {
      it := q.Iterator();
    }

    /** Whether `that` holds the same elements in the same order; a null
        `that` is simply unequal. */
    method Equals(that: MyQueue?<E>) returns (r: bool)
      requires Valid()
      requires that != null ==> that.Valid()
      ensures r <==> that != null && Contents == that.Contents
    {
      if that == null {
        return false;
      }
      if Size() != that.Size() {
        return false;
      }
      var thisIterator := Iterator();
      var thatIterator := that.Iterator();
      r := SameElements(thisIterator, thatIterator);
    }

    /** A fresh array holding the elements front to back. */
    method ToArray() returns (r: array<Option<E>>)
      requires Valid()
      ensures fresh(r) && r[..] == Wrapped(Contents)
    {
      r := q.ToArray();
    }

    /** Writes the elements front to back into `holder`, as the list does. */
    method ToArrayInto(holder: Option<array<Option<E>>>) returns (r: Result<array<Option<E>>>)
      requires Valid()
      requires holder.Some? ==> holder.value !in Repr
      modifies if holder.Some? then {holder.value} else {}
      ensures holder.None? ==> r == Err(NullPointer)
      ensures holder.Some? ==> r.Ok? && r.value.Length >= |Contents|
                               && r.value[..|Contents|] == Wrapped(Contents)
      ensures holder.Some? && holder.value.Length >= |Contents| ==> r == Ok(holder.value)
      ensures holder.Some? && holder.value.Length > |Contents| ==>
                r.value[|Contents|] == None
                && r.value[|Contents| + 1..] == old(holder.value[|Contents| + 1..])
      ensures holder.Some? && holder.value.Length < |Contents| ==>
                fresh(r.value) && r.value.Length == |Contents|
    {
      r := q.ToArrayInto(holder);
    }

    /** The element-by-element walk of `equals`: advances both iterators
        together and stops at the first pair that differs. */
    static method SameElements(mine: DLLIterator<E>, theirs: DLLIterator<E>) returns (r: bool)
      requires mine != theirs && mine.Valid() && theirs.Valid()
      requires mine.position == 0 && theirs.position == 0 && |mine.Elements| == |theirs.Elements|
      modifies mine, theirs
      ensures r <==> mine.Elements == theirs.Elements
    {
      while mine.HasNext() && theirs.HasNext()
        invariant mine.Valid() && theirs.Valid()
        invariant mine.position == theirs.position
        invariant forall m :: 0 <= m < mine.position ==> mine.Elements[m] == theirs.Elements[m]
        decreases |mine.Elements| - mine.position
      {
        var a := mine.Next();
        var b := theirs.Next();
        if a.value != b.value {
          return false;
        }
      }
      r := true;
    }

    /** The queue is never reported as full: it grows without bound. */
    function IsFull(): (b: bool)
      reads this, Repr
      requires Valid()
      ensures !b
    {
      false
    }

    /** The number of elements. */
    function Size(): (n: nat)
      reads this, Repr
      requires Valid()
      ensures n == |Contents|
    {
      q.Size()
    }
  }
}
