/** The value view of the binary search tree: the shape a `BSTree` holds,
    and the recursive operations its methods carry out on that shape. */
module TreeModel {

  import opened Common

  datatype Tree = Empty | Node(left: Tree, value: int, right: Tree)

  /** The elements stored anywhere in `t`. */
  function Elements(t: Tree): set<int>
  {
    match t
    case Empty => {}
    case Node(l, v, r) => Elements(l) + {v} + Elements(r)
  }

  /** The number of nodes. */
  function Size(t: Tree): nat
  {
    match t
    case Empty => 0
    case Node(l, _, r) => Size(l) + 1 + Size(r)
  }

  /** The height counted in nodes: an empty tree has height 0 and a single
      node height 1. */
  function Height(t: Tree): nat
  {
    match t
    case Empty => 0
    case Node(l, _, r) => 1 + Max2(Height(l), Height(r))
  }

  function Max2(a: nat, b: nat): (m: nat)
    ensures m >= a && m >= b && (m == a || m == b)
  {
    if a >= b then a else b
  }

  /** Every element of the left subtree is smaller than the node and every
      element of the right subtree larger, at every node. */
  predicate IsBST(t: Tree)
  {
    match t
    case Empty => true
    case Node(l, v, r) =>
      && IsBST(l) && IsBST(r)
      && (forall x :: x in Elements(l) ==> x < v)
      && (forall x :: x in Elements(r) ==> v < x)
  }

  /** Left subtree, node, right subtree. */
  function Inorder(t: Tree): (s: seq<int>)
    ensures |s| == Size(t)
  {
    match t
    case Empty => []
    case Node(l, v, r) => Inorder(l) + [v] + Inorder(r)
  }

  /** Node, left subtree, right subtree. */
  function Preorder(t: Tree): (s: seq<int>)
    ensures |s| == Size(t)
  {
    match t
    case Empty => []
    case Node(l, v, r) => [v] + Preorder(l) + Preorder(r)
  }

  /** Left subtree, right subtree, node. */
  function Postorder(t: Tree): (s: seq<int>)
    ensures |s| == Size(t)
  {
    match t
    case Empty => []
    case Node(l, v, r) => Postorder(l) + Postorder(r) + [v]
  }

  /** The descent of `searchRecursive`: stop at an equal element, go left
      when `x` is smaller, right otherwise. */
  function Contains(t: Tree, x: int): bool
  {
    match t
    case Empty => false
    case Node(l, v, r) =>
      if v == x then true
      else if x < v then Contains(l, x)
      else Contains(r, x)
  }

  /** The insertion of `addRecursive`: a new leaf where the descent falls
      off the tree, and no change when an equal element is met. */
  function Insert(t: Tree, x: int): Tree
  {
    match t
    case Empty => Node(Empty, x, Empty)
    case Node(l, v, r) =>
      if x < v then Node(Insert(l, x), v, r)
      else if x > v then Node(l, v, Insert(r, x))
      else t
  }

  /** The element of the leftmost node. */
  function Min(t: Tree): int
    requires t.Node?
  {
    if t.left.Empty? then t.value else Min(t.left)
  }

  /** The element of the rightmost node. */
  function Max(t: Tree): int
    requires t.Node?
  {
    if t.right.Empty? then t.value else Max(t.right)
  }

  /** `removeMinNode`: the leftmost node is replaced by its right subtree. */
  function RemoveMin(t: Tree): Tree
    requires t.Node?
  {
    if t.left.Empty? then t.right else Node(RemoveMin(t.left), t.value, t.right)
  }

  /** `removeMaxNode`: the rightmost node is replaced by its left subtree. */
  function RemoveMax(t: Tree): Tree
    requires t.Node?
  {
    if t.right.Empty? then t.left else Node(t.left, t.value, RemoveMax(t.right))
  }

  lemma {:induction false} IncreasingAppend(a: seq<int>, v: int, b: seq<int>)
    requires Increasing(a) && Increasing(b)
    requires forall i :: 0 <= i < |a| ==> a[i] < v
    requires forall j :: 0 <= j < |b| ==> v < b[j]
    ensures Increasing(a + [v] + b)
  {
    var s := a + [v] + b;
    forall i, j | 0 <= i < j < |s|
      ensures s[i] < s[j]
    {
      if j < |a| {
      } else if j == |a| {
      } else if i < |a| {
        assert a[i] < v < b[j - |a| - 1];
      } else if i == |a| {
        assert s[j] == b[j - |a| - 1];
      } else {
        assert s[i] == b[i - |a| - 1] && s[j] == b[j - |a| - 1];
      }
    }
  }

  /** The three traversals visit exactly the tree's elements. */
  lemma TraversalElements(t: Tree)
    ensures forall x :: x in Inorder(t) <==> x in Elements(t)
    ensures forall x :: x in Preorder(t) <==> x in Elements(t)
    ensures forall x :: x in Postorder(t) <==> x in Elements(t)
  {
    InorderElements(t);
    PreorderElements(t);
    PostorderElements(t);
  }

  lemma {:induction false} InorderElements(t: Tree)
    ensures forall x :: x in Inorder(t) <==> x in Elements(t)
  {
    match t
    case Empty =>
    case Node(l, v, r) =>
      InorderElements(l);
      InorderElements(r);
      assert Inorder(t) == Inorder(l) + [v] + Inorder(r);
  }

  lemma {:induction false} PreorderElements(t: Tree)
    ensures forall x :: x in Preorder(t) <==> x in Elements(t)
  {
    match t
    case Empty =>
    case Node(l, v, r) =>
      PreorderElements(l);
      PreorderElements(r);
      assert Preorder(t) == [v] + Preorder(l) + Preorder(r);
  }

  lemma {:induction false} PostorderElements(t: Tree)
    ensures forall x :: x in Postorder(t) <==> x in Elements(t)
  {
    match t
    case Empty =>
    case Node(l, v, r) =>
      PostorderElements(l);
      PostorderElements(r);
      assert Postorder(t) == Postorder(l) + Postorder(r) + [v];
  }

  /** In a search tree the inorder sequence is strictly ascending, so it
      lists each element exactly once. */
  lemma {:induction false} InorderIncreasing(t: Tree)
    requires IsBST(t)
    ensures Increasing(Inorder(t))
  {
    match t
    case Empty =>
    case Node(l, v, r) =>
      InorderIncreasing(l);
      InorderIncreasing(r);
      InorderElements(l);
      InorderElements(r);
      forall i | 0 <= i < |Inorder(l)|
        ensures Inorder(l)[i] < v
      {
        assert Inorder(l)[i] in Elements(l);
      }
      forall j | 0 <= j < |Inorder(r)|
        ensures v < Inorder(r)[j]
      {
        assert Inorder(r)[j] in Elements(r);
      }
      IncreasingAppend(Inorder(l), v, Inorder(r));
  }

  /** In a search tree there are as many nodes as distinct elements. */
  lemma {:induction false} SizeIsCardinality(t: Tree)
    requires IsBST(t)
    ensures Size(t) == |Elements(t)|
  {
    match t
    case Empty =>
    case Node(l, v, r) =>
      SizeIsCardinality(l);
      SizeIsCardinality(r);
      assert v !in Elements(l) && v !in Elements(r);
      assert Elements(l) !! Elements(r) by {
        forall x | x in Elements(l) ensures x !in Elements(r) {
          assert x < v;
        }
      }
      assert |Elements(l) + Elements(r)| == |Elements(l)| + |Elements(r)|;
      assert Elements(t) == (Elements(l) + Elements(r)) + {v};
  }

  /** The descent finds `x` exactly when `x` is in a search tree. */
  lemma {:induction false} ContainsCorrect(t: Tree, x: int)
    requires IsBST(t)
    ensures Contains(t, x) <==> x in Elements(t)
  {
    match t
    case Empty =>
    case Node(l, v, r) =>
      if x < v {
        ContainsCorrect(l, x);
        assert x !in Elements(r);
      } else if x > v {
        ContainsCorrect(r, x);
        assert x !in Elements(l);
      }
  }

  /** Insertion keeps the ordering, adds `x` to the elements, and adds a
      node exactly when `x` was absent; inserting a present element
      changes nothing. */
  lemma {:induction false} InsertCorrect(t: Tree, x: int)
    requires IsBST(t)
    ensures IsBST(Insert(t, x))
    ensures Elements(Insert(t, x)) == Elements(t) + {x}
    ensures Size(Insert(t, x)) == if x in Elements(t) then Size(t) else Size(t) + 1
    ensures x in Elements(t) ==> Insert(t, x) == t
  {
    match t
    case Empty =>
    case Node(l, v, r) =>
      if x < v {
        InsertCorrect(l, x);
        assert x !in Elements(r);
      } else if x > v {
        InsertCorrect(r, x);
        assert x !in Elements(l);
      }
  }

  /** The leftmost element is the least one. */
  lemma {:induction false} MinCorrect(t: Tree)
    requires t.Node? && IsBST(t)
    ensures Min(t) in Elements(t)
    ensures forall y :: y in Elements(t) ==> Min(t) <= y
    ensures Min(t) == Inorder(t)[0]
  {
    if t.left.Node? {
      MinCorrect(t.left);
    }
  }

  /** The rightmost element is the greatest one. */
  lemma {:induction false} MaxCorrect(t: Tree)
    requires t.Node? && IsBST(t)
    ensures Max(t) in Elements(t)
    ensures forall y :: y in Elements(t) ==> y <= Max(t)
    ensures Max(t) == Inorder(t)[|Inorder(t)| - 1]
  {
    if t.right.Node? {
      MaxCorrect(t.right);
    }
  }

  /** Removing the leftmost node keeps the ordering, takes away exactly the
      least element and drops the first element of the inorder sequence. */
  lemma {:induction false} RemoveMinCorrect(t: Tree)
    requires t.Node? && IsBST(t)
    ensures IsBST(RemoveMin(t))
    ensures Elements(RemoveMin(t)) == Elements(t) - {Min(t)}
    ensures Size(RemoveMin(t)) == Size(t) - 1
    ensures Inorder(RemoveMin(t)) == Inorder(t)[1..]
  {
    MinCorrect(t);
    if t.left.Empty? {
      assert t.value !in Elements(t.right);
      assert Inorder(t) == [t.value] + Inorder(t.right);
    } else {
      RemoveMinCorrect(t.left);
      MinCorrect(t.left);
      assert Min(t) !in Elements(t.right);
      assert Inorder(t)[1..] == Inorder(t.left)[1..] + [t.value] + Inorder(t.right);
    }
  }

  /** Removing the rightmost node keeps the ordering, takes away exactly the
      greatest element and drops the last element of the inorder sequence. */
  lemma {:induction false} RemoveMaxCorrect(t: Tree)
    requires t.Node? && IsBST(t)
    ensures IsBST(RemoveMax(t))
    ensures Elements(RemoveMax(t)) == Elements(t) - {Max(t)}
    ensures Size(RemoveMax(t)) == Size(t) - 1
    ensures Inorder(RemoveMax(t)) == Inorder(t)[..Size(t) - 1]
  {
    MaxCorrect(t);
    if t.right.Empty? {
      assert t.value !in Elements(t.left);
      assert Inorder(t) == Inorder(t.left) + [t.value];
    } else {
      RemoveMaxCorrect(t.right);
      MaxCorrect(t.right);
      assert Max(t) !in Elements(t.left);
      assert Inorder(t)[..Size(t) - 1] == Inorder(t.left) + [t.value] + Inorder(t.right)[..Size(t.right) - 1];
    }
  }

  function Pow2(n: nat): (p: nat)
    ensures p >= 1
  {
    if n == 0 then 1 else 2 * Pow2(n - 1)
  }

  lemma {:induction false} Pow2Monotone(a: nat, b: nat)
    requires a <= b
    ensures Pow2(a) <= Pow2(b)
  {
    if a < b {
      Pow2Monotone(a, b - 1);
    }
  }

  /** A tree of height h has at least h and fewer than 2^h nodes. */
  lemma {:induction false} HeightBounds(t: Tree)
    ensures Height(t) <= Size(t) < Pow2(Height(t))
  {
    match t
    case Empty =>
    case Node(l, _, r) =>
      HeightBounds(l);
      HeightBounds(r);
      Pow2Monotone(Height(l), Height(t) - 1);
      Pow2Monotone(Height(r), Height(t) - 1);
  }

  /** Inserting the elements of `xs` one after another, left to right. */
  function InsertAll(t: Tree, xs: seq<int>): Tree
    decreases |xs|
  {
    if xs == [] then t else InsertAll(Insert(t, xs[0]), xs[1..])
  }

  /** Building a tree by insertion always gives a search tree holding
      exactly the inserted elements. */
  lemma {:induction false} InsertAllCorrect(t: Tree, xs: seq<int>)
    requires IsBST(t)
    ensures IsBST(InsertAll(t, xs))
    ensures Elements(InsertAll(t, xs)) == Elements(t) + (set x | x in xs)
    decreases |xs|
  {
    if xs != [] {
      InsertCorrect(t, xs[0]);
      InsertAllCorrect(Insert(t, xs[0]), xs[1..]);
      assert (set x | x in xs) == {xs[0]} + (set x | x in xs[1..]);
    }
  }

  /** The elements `removeMin` returns when called until the tree is empty. */
  function DrainMin(t: Tree): seq<int>
    requires IsBST(t)
    decreases Size(t)
  {
    if t.Empty? then []
    else
      RemoveMinCorrect(t);
      [Min(t)] + DrainMin(RemoveMin(t))
  }

  /** The elements `removeMax` returns when called until the tree is empty. */
  function DrainMax(t: Tree): seq<int>
    requires IsBST(t)
    decreases Size(t)
  {
    if t.Empty? then []
    else
      RemoveMaxCorrect(t);
      [Max(t)] + DrainMax(RemoveMax(t))
  }

  /** Repeated `removeMin` yields the inorder sequence, hence strictly
      ascending elements and every element once. */
  lemma {:induction false} DrainMinAscending(t: Tree)
    requires IsBST(t)
    ensures DrainMin(t) == Inorder(t)
    ensures Increasing(DrainMin(t))
    decreases Size(t)
  {
    if t.Node? {
      RemoveMinCorrect(t);
      MinCorrect(t);
      DrainMinAscending(RemoveMin(t));
      assert Inorder(t) == [Inorder(t)[0]] + Inorder(t)[1..];
    }
    InorderIncreasing(t);
  }

  /** Repeated `removeMax` yields the inorder sequence backwards. */
  lemma {:induction false} DrainMaxReversed(t: Tree)
    requires IsBST(t)
    ensures |DrainMax(t)| == Size(t)
    ensures forall i :: 0 <= i < Size(t) ==> DrainMax(t)[i] == Inorder(t)[Size(t) - 1 - i]
    decreases Size(t)
  {
    if t.Node? {
      RemoveMaxCorrect(t);
      MaxCorrect(t);
      var rest := RemoveMax(t);
      DrainMaxReversed(rest);
      var d, s, n := DrainMax(t), Inorder(t), Size(t);
      var d', s' := DrainMax(rest), Inorder(rest);
      assert d == [Max(t)] + d';
      assert s' == s[..n - 1];
      forall i | 0 <= i < n ensures d[i] == s[n - 1 - i] {
        if i > 0 {
          assert d[i] == d'[i - 1] == s'[n - 1 - i];
        }
      }
    }
  }

  /** Hence repeated `removeMax` yields strictly descending elements. */
  lemma DrainMaxDescending(t: Tree)
    requires IsBST(t)
    ensures forall i, j :: 0 <= i < j < |DrainMax(t)| ==> DrainMax(t)[i] > DrainMax(t)[j]
  {
    DrainMaxReversed(t);
    InorderIncreasing(t);
    var n := Size(t);
    forall i, j | 0 <= i < j < |DrainMax(t)|
      ensures DrainMax(t)[i] > DrainMax(t)[j]
    {
      assert Inorder(t)[n - 1 - j] < Inorder(t)[n - 1 - i];
    }
  }
}
