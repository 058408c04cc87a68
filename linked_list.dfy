/** The doubly linked list: nodes linked both ways between a head and a
    tail pointer. Indexed access walks from whichever end is nearer. */
module LinkedList {
  import opened Common

  /** One node: an element and the links to its neighbours. */
  class MyDLLNode<E> {
    var element: E
    var prev: MyDLLNode?<E>
    var next: MyDLLNode?<E>

    /** A node holding `elem` between `prev` and `next`. */
    constructor Linked(elem: E, prev: MyDLLNode?<E>, next: MyDLLNode?<E>)
      ensures element == elem && this.prev == prev && this.next == next
    {
      element := elem;
      this.prev := prev;
      this.next := next;
    }

    /** A node holding `elem` with no neighbours. */
    constructor (elem: E)
      ensures element == elem && prev == null && next == null
    {
      element := elem;
      prev := null;
      next := null;
    }

    function GetElement(): E
      reads this
    {
      element
    }

    function GetPrev(): MyDLLNode?<E>
      reads this
    {
      prev
    }

    function GetNext(): MyDLLNode?<E>
      reads this
    {
      next
    }

    /** Replaces the element; the links stay. */
    method SetElement(element: E)
      modifies this
      ensures this.element == element && GetElement() == element
      ensures prev == old(prev) && next == old(next)
    {
      this.element := element;
    }

    /** Replaces the back link only. */
    method SetPrev(prev: MyDLLNode?<E>)
      modifies this
      ensures this.prev == prev && GetPrev() == prev
      ensures element == old(element) && next == old(next)
    {
      this.prev := prev;
    }

    /** Replaces the forward link only. */
    method SetNext(next: MyDLLNode?<E>)
      modifies this
      ensures this.next == next && GetNext() == next
      ensures element == old(element) && prev == old(prev)
    {
      this.next := next;
    }
  }

  /** The 1-based position of the first occurrence of `x` in `s`, or -1
      when `x` does not occur. */
  function FirstPosition<E(==)>(s: seq<E>, x: E): (p: int)
    ensures x !in s <==> p == -1
    ensures x in s ==> 1 <= p <= |s| && s[p - 1] == x && x !in s[..p - 1]
  {
    if s == [] then -1
    else if s[0] == x then 1
    else
      var p := FirstPosition(s[1..], x);
      assert s == [s[0]] + s[1..];
      if p == -1 then -1 else p + 1
  }

  /** The position is determined by the first occurrence. */
  lemma FirstPositionAt<E>(s: seq<E>, x: E, k: nat)
    requires k < |s| && s[k] == x && x !in s[..k]
    ensures FirstPosition(s, x) == k + 1
  {
    var p := FirstPosition(s, x);
    assert x in s;
    assert forall m :: 0 <= m < k ==> s[m] in s[..k];
    assert forall m :: 0 <= m < p - 1 ==> s[m] in s[..p - 1];
  }

  /** No node occurs twice in `nodes`. */
  ghost predicate Distinct<E>(nodes: seq<MyDLLNode<E>>)
  {
    forall i, j :: 0 <= i < j < |nodes| ==> nodes[i] != nodes[j]
  }

  /** Splicing `node` in before position `index` of a chain, with the four
      links around it redirected and every other link kept, gives a chain. */
  lemma {:induction false} LinkedInsert<E>(before: seq<MyDLLNode<E>>, index: nat, node: MyDLLNode<E>)
    requires 0 < index < |before|
    requires Distinct(before) && node !in before
    requires before[0].prev == null && before[|before| - 1].next == null
    requires forall i :: 0 < i < |before| && i != index ==> before[i].prev == before[i - 1]
    requires forall i :: 0 <= i < |before| - 1 && i != index - 1 ==> before[i].next == before[i + 1]
    requires before[index - 1].next == node && node.prev == before[index - 1]
    requires node.next == before[index] && before[index].prev == node
    ensures var after := before[..index] + [node] + before[index..];
              && Distinct(after)
              && (|after| > 0 ==> after[0].prev == null && after[|after| - 1].next == null)
              && (forall i :: 0 < i < |after| ==> after[i].prev == after[i - 1])
              && (forall i :: 0 <= i < |after| - 1 ==> after[i].next == after[i + 1])
  {
    var after := before[..index] + [node] + before[index..];
    forall i | 0 < i < |after|
      ensures after[i].prev == after[i - 1]
    {
      if i < index {
        assert after[i] == before[i] && after[i - 1] == before[i - 1];
      } else if i > index + 1 {
        assert after[i] == before[i - 1] && after[i - 1] == before[i - 2];
      }
    }
    forall i | 0 <= i < |after| - 1
      ensures after[i].next == after[i + 1]
    {
      if i < index - 1 {
        assert after[i] == before[i] && after[i + 1] == before[i + 1];
      } else if i > index {
        assert after[i] == before[i - 1] && after[i + 1] == before[i];
      }
    }
    forall i, j | 0 <= i < j < |after|
      ensures after[i] != after[j]
    {
      if i != index && j != index {
        var i' := if i < index then i else i - 1;
        var j' := if j < index then j else j - 1;
        assert after[i] == before[i'] && after[j] == before[j'];
      }
    }
  }

  /** Cutting position `index` out of a chain, with its neighbours linked to
      each other and every other link kept, gives a chain. */
  lemma {:induction false} LinkedRemove<E>(before: seq<MyDLLNode<E>>, index: nat)
    requires index < |before| && Distinct(before)
    requires index != 0 ==> before[0].prev == null
    requires index != |before| - 1 ==> before[|before| - 1].next == null
    requires forall i :: 0 < i < |before| && i != index && i != index + 1 ==> before[i].prev == before[i - 1]
    requires forall i :: 0 <= i < |before| - 1 && i != index && i != index - 1 ==> before[i].next == before[i + 1]
    requires index + 1 < |before| ==> before[index + 1].prev == if index == 0 then null else before[index - 1]
    requires index > 0 ==> before[index - 1].next == if index + 1 < |before| then before[index + 1] else null
    ensures var after := before[..index] + before[index + 1..];
              && Distinct(after)
              && (|after| > 0 ==> after[0].prev == null && after[|after| - 1].next == null)
              && (forall i :: 0 < i < |after| ==> after[i].prev == after[i - 1])
              && (forall i :: 0 <= i < |after| - 1 ==> after[i].next == after[i + 1])
  {
    var after := before[..index] + before[index + 1..];
    forall i | 0 < i < |after|
      ensures after[i].prev == after[i - 1]
    {
      if i < index {
        assert after[i] == before[i] && after[i - 1] == before[i - 1];
      } else if i > index {
        assert after[i] == before[i + 1] && after[i - 1] == before[i];
      }
    }
    forall i | 0 <= i < |after| - 1
      ensures after[i].next == after[i + 1]
    {
      if i < index - 1 {
        assert after[i] == before[i] && after[i + 1] == before[i + 1];
      } else if i >= index {
        assert after[i] == before[i + 1] && after[i + 1] == before[i + 2];
      }
    }
    forall i, j | 0 <= i < j < |after|
      ensures after[i] != after[j]
    {
      var i' := if i < index then i else i + 1;
      var j' := if j < index then j else j + 1;
      assert after[i] == before[i'] && after[j] == before[j'];
    }
    if |after| > 0 {
      if index == 0 {
        assert after[0] == before[1];
      } else {
        assert after[0] == before[0];
      }
      if index == |before| - 1 {
        assert after[|after| - 1] == before[index - 1];
      } else {
        assert after[|after| - 1] == before[|before| - 1];
      }
    }
  }

  class MyDLL<E(==)> {
    // Implementation.
    var head: MyDLLNode?<E>
    var tail: MyDLLNode?<E>
    var size: nat

    // Public view: the nodes from head to tail, their elements, the objects used.
    ghost var Nodes: seq<MyDLLNode<E>>
    ghost var Contents: seq<E>
    ghost var Repr: set<object>

    /** The node chain from head to tail: head and tail are null exactly when
        the list is empty, each node's `next` is its successor and each
        node's `prev` its predecessor, and no node occurs twice. */
    ghost predicate Valid()
      reads this, Repr
      ensures Valid() ==> this in Repr
    {
      && this in Repr
      && (forall i :: 0 <= i < |Nodes| ==> Nodes[i] in Repr)
      && |Nodes| == size && |Contents| == size
      && (size == 0 <==> head == null)
      && (size == 0 <==> tail == null)
      && (size > 0 ==> head == Nodes[0] && tail == Nodes[size - 1])
      && (forall i :: 0 <= i < size ==> Nodes[i].element == Contents[i])
      && Distinct(Nodes)
      && (size > 0 ==> Nodes[0].prev == null && Nodes[size - 1].next == null)
      && (forall i :: 0 < i < size ==> Nodes[i].prev == Nodes[i - 1])
      && (forall i :: 0 <= i < size - 1 ==> Nodes[i].next == Nodes[i + 1])
    }

    /** A new, empty list. */
    constructor ()
      ensures Valid() && fresh(Repr) && Contents == []
    {
      head, tail, size := null, null, 0;
      Nodes, Contents := [], [];
      Repr := {this};
    }

    /** The number of elements. */
    function Size(): (n: nat)
      reads this, Repr
      requires Valid()
      ensures n == |Contents|
    {
      size
    }

    /** Whether the list holds no element. */
    function IsEmpty(): (b: bool)
      reads this, Repr
      requires Valid()
      ensures b <==> Contents == []
    {
      size == 0
    }

    /** Drops every node. */
    method Clear()
      requires Valid()
      modifies this
      ensures Valid() && Contents == [] && head == null && tail == null && Repr == {this}
    {
      head := null;
      tail := null;
      size := 0;
      Nodes, Contents := [], [];
      Repr := {this};
    }

    /** The node at `index`, reached from the head when `index < size / 2`
        and from the tail otherwise. */
    method GetNodeAt(index: int) returns (current: MyDLLNode<E>)
      requires Valid()
      requires 0 <= index < size
      ensures current == Nodes[index]
    {
      if index < size / 2 {
        current := head;
        for i := 0 to index
          invariant current == Nodes[i]
        {
          assert i < size - 1;
          assert Nodes[i].next == Nodes[i + 1];
          current := current.GetNext();
        }
      } else {
        current := tail;
        var i := size - 1;
        while i > index
          invariant index <= i <= size - 1
          invariant current == Nodes[i]
        {
          assert Nodes[i].prev == Nodes[i - 1];
          current := current.GetPrev();
          i := i - 1;
        }
      }
    }

    /** Links the unattached `newNode` in front of the head. */
    method LinkFirst(newNode: MyDLLNode<E>)
      requires Valid() && newNode !in Repr
      requires newNode.prev == null && newNode.next == null
      modifies Repr, newNode
      ensures Valid() && Repr == old(Repr) + {newNode}
      ensures Nodes == [newNode] + old(Nodes)
      ensures Contents == [newNode.element] + old(Contents)
      ensures newNode.element == old(newNode.element)
    {
      ghost var before := Nodes;
      if IsEmpty() {
        head := newNode;
        tail := newNode;
      } else {
        newNode.SetNext(head);
        head.SetPrev(newNode);
        head := newNode;
      }
      size := size + 1;
      Nodes := [newNode] + Nodes;
      Contents := [newNode.element] + Contents;
      Repr := Repr + {newNode};
      assert forall i :: 0 < i < size ==> Nodes[i] == before[i - 1];
    }

    /** Links the unattached `newNode` after the tail. */
    method LinkLast(newNode: MyDLLNode<E>)
      requires Valid() && newNode !in Repr
      requires newNode.prev == null && newNode.next == null
      modifies Repr, newNode
      ensures Valid() && Repr == old(Repr) + {newNode}
      ensures Nodes == old(Nodes) + [newNode]
      ensures Contents == old(Contents) + [newNode.element]
      ensures newNode.element == old(newNode.element)
    {
      ghost var before := Nodes;
      if IsEmpty() {
        head := newNode;
        tail := newNode;
      } else {
        tail.SetNext(newNode);
        newNode.SetPrev(tail);
        tail := newNode;
      }
      size := size + 1;
      Nodes := Nodes + [newNode];
      Contents := Contents + [newNode.element];
      Repr := Repr + {newNode};
      assert forall i :: 0 <= i < size - 1 ==> Nodes[i] == before[i];
    }

    /** Links the unattached `newNode` in front of the node at `index`,
        which is neither the head nor past the tail. */
    method LinkBefore(newNode: MyDLLNode<E>, index: nat)
      requires Valid() && newNode !in Repr
      requires 0 < index < size
      modifies Repr, newNode
      ensures Valid() && Repr == old(Repr) + {newNode}
      ensures Nodes == old(Nodes)[..index] + [newNode] + old(Nodes)[index..]
      ensures Contents == old(Contents)[..index] + [newNode.element] + old(Contents)[index..]
      ensures newNode.element == old(newNode.element)
    {
      ghost var before := Nodes;
      var current := GetNodeAt(index);
      assert current.prev == Nodes[index - 1];
      ghost var p := Nodes[index - 1];
      newNode.SetNext(current);
      newNode.SetPrev(current.GetPrev());
      if current.GetPrev() != null {
        current.GetPrev().SetNext(newNode);
      }
      current.SetPrev(newNode);
      size := size + 1;
      Nodes := Nodes[..index] + [newNode] + Nodes[index..];
      Contents := Contents[..index] + [newNode.element] + Contents[index..];
      Repr := Repr + {newNode};
      forall i | 0 <= i < |before| && i != index - 1 && i != index
        ensures before[i].prev == old(before[i].prev) && before[i].next == old(before[i].next)
      {
        assert before[i] != p && before[i] != current;
      }
      InsertedValid(before, old(Contents), index, newNode);
    }

    /** The state an insertion in the middle leaves behind is valid:
        `before` and `contents` describe the list before `node` was linked
        in front of position `index`. */
    lemma InsertedValid(before: seq<MyDLLNode<E>>, contents: seq<E>, index: nat, node: MyDLLNode<E>)
      requires 0 < index < |before| == |contents|
      requires Distinct(before) && node !in before
      requires before[0].prev == null && before[|before| - 1].next == null
      requires forall i :: 0 < i < |before| && i != index ==> before[i].prev == before[i - 1]
      requires forall i :: 0 <= i < |before| - 1 && i != index - 1 ==> before[i].next == before[i + 1]
      requires before[index - 1].next == node && node.prev == before[index - 1]
      requires node.next == before[index] && before[index].prev == node
      requires forall i :: 0 <= i < |before| ==> before[i].element == contents[i]
      requires forall i :: 0 <= i < |before| ==> before[i] in Repr
      requires this in Repr && node in Repr && size == |before| + 1
      requires Nodes == before[..index] + [node] + before[index..]
      requires Contents == contents[..index] + [node.element] + contents[index..]
      requires head == before[0] && tail == before[|before| - 1]
      ensures Valid()
    {
      LinkedInsert(before, index, node);
      assert forall i :: 0 <= i < index ==> Nodes[i] == before[i] && Contents[i] == contents[i];
      assert forall i :: index < i < size ==> Nodes[i] == before[i - 1] && Contents[i] == contents[i - 1];
    }

    /** Inserts at `index`. A null element is reported before a bad index;
        a failing call changes nothing. */
    method AddAt(index: int, toAdd: Option<E>) returns (r: Result<bool>)
      requires Valid()
      modifies Repr
      ensures Valid() && fresh(Repr - old(Repr))
      ensures toAdd.None? ==> r == Err(NullPointer)
      ensures toAdd.Some? && !(0 <= index <= old(size)) ==> r == Err(IndexOutOfBounds)
      ensures r.Err? ==> Contents == old(Contents) && Nodes == old(Nodes) && unchanged(old(Repr))
      ensures toAdd.Some? && 0 <= index <= old(size) ==>
                r == Ok(true) && Contents == old(Contents)[..index] + [toAdd.value] + old(Contents)[index..]
    {
      if toAdd.None? {
        return Err(NullPointer);
      }
      if index < 0 || index > size {
        return Err(IndexOutOfBounds);
      }
      var newNode := new MyDLLNode(toAdd.value);
      if index == 0 {
        LinkFirst(newNode);
      } else if index == size {
        LinkLast(newNode);
      } else {
        LinkBefore(newNode, index);
      }
      r := Ok(true);
    }

    /** Appends at the tail. */
    method Add(toAdd: Option<E>) returns (r: Result<bool>)
      requires Valid()
      modifies Repr
      ensures Valid() && fresh(Repr - old(Repr))
      ensures toAdd.None? ==> r == Err(NullPointer) && Contents == old(Contents) && unchanged(old(Repr))
      ensures toAdd.Some? ==> r == Ok(true) && Contents == old(Contents) + [toAdd.value]
    {
      if toAdd.None? {
        return Err(NullPointer);
      }
      var newNode := new MyDLLNode(toAdd.value);
      LinkLast(newNode);
      r := Ok(true);
    }

    /** Appends every element of `toAdd` in its iteration order; an empty
        argument yields false and changes nothing. */
    method AddAll(toAdd: Option<seq<E>>) returns (r: Result<bool>)
      requires Valid()
      modifies Repr
      ensures Valid() && fresh(Repr - old(Repr))
      ensures toAdd.None? ==> r == Err(NullPointer) && Contents == old(Contents)
      ensures toAdd == Some([]) ==> r == Ok(false) && Contents == old(Contents)
      ensures toAdd.Some? && toAdd.value != [] ==> r == Ok(true) && Contents == old(Contents) + toAdd.value
    {
      if toAdd.None? {
        return Err(NullPointer);
      }
      var elements := toAdd.value;
      if elements == [] {
        return Ok(false);
      }
      for i := 0 to |elements|
        invariant Valid() && fresh(Repr - old(Repr))
        invariant Contents == old(Contents) + elements[..i]
      {
        var _ := Add(Some(elements[i]));
        assert elements[..i + 1] == elements[..i] + [elements[i]];
      }
      assert elements[..|elements|] == elements;
      r := Ok(true);
    }

    /** The element at `index`. */
    method Get(index: int) returns (r: Result<E>)
      requires Valid()
      ensures 0 <= index < |Contents| ==> r == Ok(Contents[index])
      ensures !(0 <= index < |Contents|) ==> r == Err(IndexOutOfBounds)
    {
      if index < 0 || index >= size {
        return Err(IndexOutOfBounds);
      }
      var node := GetNodeAt(index);
      r := Ok(node.GetElement());
    }

    /** Detaches the node at position `index`: its neighbours are linked to
        each other, and head or tail move when it is an end node. The node
        keeps its own links. */
    method Unlink(toRemove: MyDLLNode<E>, ghost index: nat)
      requires Valid()
      requires index < size && toRemove == Nodes[index]
      modifies Repr
      ensures Valid() && Repr == old(Repr) - {toRemove}
      ensures Nodes == old(Nodes)[..index] + old(Nodes)[index + 1..]
      ensures Contents == old(Contents)[..index] + old(Contents)[index + 1..]
      ensures toRemove.element == old(toRemove.element)
    {
      assert toRemove.prev == if index == 0 then null else Nodes[index - 1];
      assert toRemove.next == if index == size - 1 then null else Nodes[index + 1];
      ghost var before := Nodes;
      if toRemove.GetPrev() != null {
        toRemove.GetPrev().SetNext(toRemove.GetNext());
      } else {
        head := toRemove.GetNext();
      }
      if toRemove.GetNext() != null {
        toRemove.GetNext().SetPrev(toRemove.GetPrev());
      } else {
        tail := toRemove.GetPrev();
      }
      size := size - 1;
      Nodes := Nodes[..index] + Nodes[index + 1..];
      Contents := Contents[..index] + Contents[index + 1..];
      Repr := Repr - {toRemove};
      forall i | 0 <= i < |before| && i != index - 1 && i != index + 1
        ensures before[i].prev == old(before[i].prev) && before[i].next == old(before[i].next)
      {
        assert i != index ==> before[i] != before[index];
        assert index > 0 ==> before[i] != before[index - 1];
        assert index + 1 < |before| ==> before[i] != before[index + 1];
      }
      RemovedValid(before, old(Contents), index);
    }

    /** The state a removal leaves behind is valid: `before` and
        `contents` describe the list before position `index` was cut out. */
    lemma RemovedValid(before: seq<MyDLLNode<E>>, contents: seq<E>, index: nat)
      requires index < |before| == |contents| && Distinct(before)
      requires index != 0 ==> before[0].prev == null
      requires index != |before| - 1 ==> before[|before| - 1].next == null
      requires forall i :: 0 < i < |before| && i != index && i != index + 1 ==> before[i].prev == before[i - 1]
      requires forall i :: 0 <= i < |before| - 1 && i != index && i != index - 1 ==> before[i].next == before[i + 1]
      requires index + 1 < |before| ==> before[index + 1].prev == if index == 0 then null else before[index - 1]
      requires index > 0 ==> before[index - 1].next == if index + 1 < |before| then before[index + 1] else null
      requires forall i :: 0 <= i < |before| ==> before[i].element == contents[i]
      requires forall i :: 0 <= i < |before| && i != index ==> before[i] in Repr
      requires this in Repr && size == |before| - 1
      requires Nodes == before[..index] + before[index + 1..]
      requires Contents == contents[..index] + contents[index + 1..]
      requires head == if index == 0 then (if |before| > 1 then before[1] else null) else before[0]
      requires tail == if index == |before| - 1 then (if index > 0 then before[index - 1] else null)
                       else before[|before| - 1]
      ensures Valid()
    {
      LinkedRemove(before, index);
      assert forall i :: 0 <= i < index ==> Nodes[i] == before[i] && Contents[i] == contents[i];
      assert forall i :: index <= i < size ==> Nodes[i] == before[i + 1] && Contents[i] == contents[i + 1];
    }

    /** Removes the element at `index` and returns it. */
    method RemoveAt(index: int) returns (r: Result<E>)
      requires Valid()
      modifies Repr
      ensures Valid() && Repr <= old(Repr)
      ensures !(0 <= index < old(size)) ==> r == Err(IndexOutOfBounds) && Contents == old(Contents)
      ensures 0 <= index < old(size) ==>
                && r == Ok(old(Contents)[index])
                && Contents == old(Contents)[..index] + old(Contents)[index + 1..]
                && Nodes == old(Nodes)[..index] + old(Nodes)[index + 1..]
                && Repr == old(Repr) - {old(Nodes)[index]}
    {
      if index < 0 || index >= size {
        return Err(IndexOutOfBounds);
      }
      var toRemove := GetNodeAt(index);
      Unlink(toRemove, index);
      r := Ok(toRemove.GetElement());
    }

    /** Removes the first node whose element equals `toRemove` and returns
        that element; when there is none, returns null and changes nothing. */
    method RemoveElement(toRemove: Option<E>) returns (r: Result<Option<E>>)
      requires Valid()
      modifies Repr
      ensures Valid() && Repr <= old(Repr)
      ensures toRemove.None? ==> r == Err(NullPointer) && Contents == old(Contents)
      ensures toRemove.Some? && toRemove.value !in old(Contents) ==>
                r == Ok(None) && Contents == old(Contents)
      ensures toRemove.Some? && toRemove.value in old(Contents) ==>
                && r == Ok(toRemove)
                && exists i :: 0 <= i < |old(Contents)| && old(Contents)[i] == toRemove.value
                               && toRemove.value !in old(Contents)[..i]
                               && Contents == old(Contents)[..i] + old(Contents)[i + 1..]
    {
      if toRemove.None? {
        return Err(NullPointer);
      }
      var x := toRemove.value;
      var current := head;
      ghost var i := 0;
      while current != null && current.GetElement() != x
        invariant 0 <= i <= size
        invariant current == if i < size then Nodes[i] else null
        invariant x !in Contents[..i]
        decreases size - i
      {
        assert Contents[..i + 1] == Contents[..i] + [Contents[i]];
        assert current.next == if i + 1 < size then Nodes[i + 1] else null;
        current := current.GetNext();
        i := i + 1;
      }
      if current == null {
        assert Contents[..size] == Contents;
        return Ok(None);
      }
      Unlink(current, i);
      r := Ok(Some(current.GetElement()));
    }

    /** Replaces the element at `index` and returns the one it held. A bad
        index is reported before a null element. */
    method Set(index: int, toChange: Option<E>) returns (r: Result<E>)
      requires Valid()
      modifies Repr
      ensures Valid() && Repr == old(Repr) && Nodes == old(Nodes)
      ensures !(0 <= index < |old(Contents)|) ==> r == Err(IndexOutOfBounds)
      ensures 0 <= index < |old(Contents)| && toChange.None? ==> r == Err(NullPointer)
      ensures r.Err? ==> Contents == old(Contents)
      ensures 0 <= index < |old(Contents)| && toChange.Some? ==>
                r == Ok(old(Contents)[index]) && Contents == old(Contents)[index := toChange.value]
    {
      if index < 0 || index >= size {
        return Err(IndexOutOfBounds);
      }
      if toChange.None? {
        return Err(NullPointer);
      }
      var node := GetNodeAt(index);
      var oldElement := node.GetElement();
      node.SetElement(toChange.value);
      Contents := Contents[index := toChange.value];
      r := Ok(oldElement);
    }

    /** Whether some element equals `toFind`. */
    method Contains(toFind: Option<E>) returns (r: Result<bool>)
      requires Valid()
      ensures toFind.None? ==> r == Err(NullPointer)
      ensures toFind.Some? ==> r == Ok(toFind.value in Contents)
    {
      if toFind.None? {
        return Err(NullPointer);
      }
      var current := head;
      ghost var i := 0;
      while current != null
        invariant 0 <= i <= size
        invariant current == if i < size then Nodes[i] else null
        invariant toFind.value !in Contents[..i]
        decreases size - i
      {
        if current.GetElement() == toFind.value {
          return Ok(true);
        }
        assert Contents[..i + 1] == Contents[..i] + [Contents[i]];
        assert current.next == if i + 1 < size then Nodes[i + 1] else null;
        current := current.GetNext();
        i := i + 1;
      }
      assert Contents[..size] == Contents;
      r := Ok(false);
    }

    /** The 1-based position of the first element equal to `toFind`, or -1
        when there is none. */
    method IndexOf(toFind: Option<E>) returns (r: Result<int>)
      requires Valid()
      ensures toFind.None? ==> r == Err(NullPointer)
      ensures toFind.Some? ==> r == Ok(FirstPosition(Contents, toFind.value))
    {
      if toFind.None? {
        return Err(NullPointer);
      }
      var current := head;
      var index := 1;
      while current != null
        invariant 1 <= index <= size + 1
        invariant current == if index <= size then Nodes[index - 1] else null
        invariant toFind.value !in Contents[..index - 1]
        decreases size + 1 - index
      {
        if current.GetElement() == toFind.value {
          FirstPositionAt(Contents, toFind.value, index - 1);
          return Ok(index);
        }
        assert Contents[..index] == Contents[..index - 1] + [Contents[index - 1]];
        assert current.next == if index < size then Nodes[index] else null;
        current := current.GetNext();
        index := index + 1;
      }
      assert Contents[..size] == Contents;
      r := Ok(-1);
    }

    /** Writes the elements head to tail into `toHold`, or into a fresh
        array of length `size` when `toHold` is too short; a longer holder
        gets a null at index `size`, and its later slots stay as they were. */
    method ToArrayInto(toHold: Option<array<Option<E>>>) returns (r: Result<array<Option<E>>>)
      requires Valid()
      requires toHold.Some? ==> toHold.value !in Repr
      modifies if toHold.Some? then {toHold.value} else {}
      ensures toHold.None? ==> r == Err(NullPointer)
      ensures toHold.Some? ==> r.Ok? && r.value.Length >= |Contents|
                               && r.value[..|Contents|] == Wrapped(Contents)
      ensures toHold.Some? && toHold.value.Length >= |Contents| ==> r == Ok(toHold.value)
      ensures toHold.Some? && toHold.value.Length > |Contents| ==>
                r.value[|Contents|] == None
                && r.value[|Contents| + 1..] == old(toHold.value[|Contents| + 1..])
      ensures toHold.Some? && toHold.value.Length < |Contents| ==>
                fresh(r.value) && r.value.Length == |Contents|
    {
      if toHold.None? {
        return Err(NullPointer);
      }
      var target := toHold.value;
      if target.Length < size {
        target := new Option<E>[size](_ => None);
      }
      ghost var initial := target[..];
      var current := head;
      var i := 0;
      while current != null
        modifies target
        invariant 0 <= i <= size
        invariant current == if i < size then Nodes[i] else null
        invariant forall k :: 0 <= k < i ==> target[k] == Some(Contents[k])
        invariant forall k :: i <= k < target.Length ==> target[k] == initial[k]
        decreases size - i
      {
        target[i] := Some(current.GetElement());
        assert current.next == if i + 1 < size then Nodes[i + 1] else null;
        i := i + 1;
        current := current.GetNext();
      }
      if target.Length > size {
        target[size] := None;
      }
      r := Ok(target);
    }

    /** A fresh array holding the elements head to tail. */
    method ToArray() returns (r: array<Option<E>>)
      requires Valid()
      ensures fresh(r) && r[..] == Wrapped(Contents)
    {
      r := new Option<E>[size](_ => None);
      var current := head;
      var i := 0;
      while current != null
        modifies r
        invariant 0 <= i <= size
        invariant current == if i < size then Nodes[i] else null
        invariant forall k :: 0 <= k < i ==> r[k] == Some(Contents[k])
        decreases size - i
      {
        r[i] := Some(current.GetElement());
        assert current.next == if i + 1 < size then Nodes[i + 1] else null;
        i := i + 1;
        current := current.GetNext();
      }
    }

    /** An iterator from the head. */
    method Iterator() returns (it: DLLIterator<E>)
      requires Valid()
      ensures fresh(it) && it.Valid() && it.Nodes == Nodes && it.Elements == Contents && it.position == 0
    {
      it := new DLLIterator(this);
    }
  }

  /** The iterator `MyDLL.iterator()` returns: it holds the next node to
      visit and follows `next` links. Its ghost view is the node chain and
      the elements the list had when the iterator was made. */
  class DLLIterator<E(==)> {
    var current: MyDLLNode?<E>
    ghost const Nodes: seq<MyDLLNode<E>>
    ghost const Elements: seq<E>
    ghost var position: nat

    /** While the unvisited nodes keep their elements and links, `current`
        is the node at `position` and the chain runs on to the tail. */
    ghost predicate Valid()
      reads this, Nodes
    {
      && position <= |Nodes| == |Elements|
      && current == (if position < |Nodes| then Nodes[position] else null)
      && (forall i :: position <= i < |Nodes| ==> Nodes[i].element == Elements[i])
      && (forall i :: position <= i < |Nodes| - 1 ==> Nodes[i].next == Nodes[i + 1])
      && (position < |Nodes| ==> Nodes[|Nodes| - 1].next == null)
    }

    /** The elements still to be produced, in order. */
    ghost function Remaining(): seq<E>
      reads this
      requires position <= |Elements|
    {
      Elements[position..]
    }

    constructor (list: MyDLL<E>)
      requires list.Valid()
      ensures Valid() && Nodes == list.Nodes && Elements == list.Contents && position == 0
    {
      current := list.head;
      Nodes := list.Nodes;
      Elements := list.Contents;
      position := 0;
    }

    /** Whether a node remains. */
    function HasNext(): (b: bool)
      reads this, Nodes
      requires Valid()
      ensures b <==> Remaining() != []
    {
      current != null
    }

    /** The next element, head to tail. */
    method Next() returns (r: Result<E>)
      requires Valid()
      modifies this
      ensures Valid()
      ensures old(position) == |Elements| ==> r == Err(NoSuchElement) && position == old(position)
      ensures old(position) < |Elements| ==> r == Ok(Elements[old(position)]) && position == old(position) + 1
    {
      if !HasNext() {
        return Err(NoSuchElement);
      }
      var element := current.GetElement();
      current := current.GetNext();
      position := position + 1;
      r := Ok(element);
    }
  }
}
