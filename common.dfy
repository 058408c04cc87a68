/** Values shared by every container: Java's nullable references and the
    exceptions the library throws, turned into data. */
module Common {

  /** A Java reference that may be null: `None` stands for `null`. */
  datatype Option<T> = None | Some(value: T)

  /** The exceptions the containers throw. */
  datatype Fault =
    | NullPointer       // java.lang.NullPointerException
    | IndexOutOfBounds  // java.lang.IndexOutOfBoundsException
    | EmptyStack        // java.util.EmptyStackException
    | EmptyQueue        // exceptions.EmptyQueueException
    | NoSuchElement     // java.util.NoSuchElementException

  /** The outcome of a call that either returns a value or throws. */
  datatype Result<T> = Ok(value: T) | Err(fault: Fault)

  /** The elements of `s`, each wrapped as a non-null reference. */
  function Wrapped<E>(s: seq<E>): (r: seq<Option<E>>)
    ensures |r| == |s|
    ensures forall i :: 0 <= i < |s| ==> r[i] == Some(s[i])
  {
    seq(|s|, i requires 0 <= i < |s| => Some(s[i]))
  }

  /** `s` read backwards. */
  function Reverse<E>(s: seq<E>): (r: seq<E>)
    ensures |r| == |s|
    ensures forall i :: 0 <= i < |s| ==> r[i] == s[|s| - 1 - i]
  {
    seq(|s|, i requires 0 <= i < |s| => s[|s| - 1 - i])
  }

  /** Strictly ascending order: each number below every later one. */
  predicate Increasing(s: seq<int>)
  {
    forall i, j :: 0 <= i < j < |s| ==> s[i] < s[j]
  }
}
