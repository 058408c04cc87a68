/** The unbalanced binary search tree: linked nodes under a root pointer,
    with recursive insertion, search and removal of the extremes, and three
    traversal iterators. Every node carries, as ghost state, the objects of
    its subtree and the `TreeModel.Tree` value that subtree stands for. */
module BST {
  import opened Common
  import opened TreeModel

  /** One node: an element and links to the two subtrees. */
  class BSTreeNode {
    var element: int
    var left: BSTreeNode?
    var right: BSTreeNode?

    ghost var Repr: set<object>
    ghost var Model: Tree

    /** The subtrees are valid, disjoint, do not contain this node, and the
        model is this node over the subtrees' models. */
    ghost predicate Valid()
      reads this, Repr
      decreases Repr
    {
      && this in Repr
      && (left != null ==>
            left in Repr && left.Repr <= Repr && this !in left.Repr && left.Valid())
      && (right != null ==>
            right in Repr && right.Repr <= Repr && this !in right.Repr && right.Valid())
      && (left != null && right != null ==> left.Repr !! right.Repr)
      && Model == Node(ModelOf(left), element, ModelOf(right))
    }

    /** A leaf holding `element`. */
    constructor (element: int)
      ensures Valid() && Repr == {this}
      ensures this.element == element && left == null && right == null
      ensures Model == Node(Empty, element, Empty)
    {
      this.element := element;
      left := null;
      right := null;
      Repr := {this};
      Model := Node(Empty, element, Empty);
    }

    function GetElement(): int
      reads this
    {
      element
    }

    function GetLeft(): BSTreeNode?
      reads this
    {
      left
    }

    function GetRight(): BSTreeNode?
      reads this
    {
      right
    }

    /** Replaces the element; both links stay. */
    method SetElement(element: int)
      modifies this
      ensures this.element == element && GetElement() == element
      ensures left == old(left) && right == old(right)
      ensures Repr == old(Repr) && Model == old(Model)
    {
      this.element := element;
    }

    /** Replaces the left link only. */
    method SetLeft(left: BSTreeNode?)
      modifies this
      ensures this.left == left && GetLeft() == left
      ensures element == old(element) && right == old(right)
      ensures Repr == old(Repr) && Model == old(Model)
    {
      this.left := left;
    }

    /** Replaces the right link only. */
    method SetRight(right: BSTreeNode?)
      modifies this
      ensures this.right == right && GetRight() == right
      ensures element == old(element) && left == old(left)
      ensures Repr == old(Repr) && Model == old(Model)
    {
      this.right := right;
    }
  }

  /** The tree a possibly-null subtree pointer stands for. */
  ghost function ModelOf(n: BSTreeNode?): Tree
    reads n
  {
    if n == null then Empty else n.Model
  }

  /** The objects of a possibly-null subtree. */
  ghost function ReprOf(n: BSTreeNode?): set<object>
    reads n
  {
    if n == null then {} else n.Repr
  }

  /** The height in nodes of the subtree at `node`, computed as
      `calculateHeight` does. */
  function CalculateHeight(node: BSTreeNode?): (h: nat)
    requires node != null ==> node.Valid()
    reads if node == null then {} else node.Repr
    ensures h == Height(ModelOf(node))
    decreases if node == null then {} else node.Repr
  {
    if node == null then 0
    else 1 + Max2(CalculateHeight(node.left), CalculateHeight(node.right))
  }

  /** `searchRecursive`: the node whose element equals `entry` on the search
      path from `node`, or null when the path runs off the tree. */
  function SearchRecursive(node: BSTreeNode?, entry: int): (r: BSTreeNode?)
    requires node != null ==> node.Valid()
    reads if node == null then {} else node.Repr
    ensures r != null <==> Contains(ModelOf(node), entry)
    ensures r != null ==> node != null && r in node.Repr && r.element == entry
    decreases if node == null then {} else node.Repr
  {
    if node == null || node.element == entry then node
    else if entry < node.element then SearchRecursive(node.left, entry)
    else SearchRecursive(node.right, entry)
  }

  class BSTree {
    var root: BSTreeNode?
    var size: int

    // Public view: the tree value and the objects the tree uses.
    ghost var Model: Tree
    ghost var Repr: set<object>

    /** The root's subtree is the model, the model is a search tree, and
        `size` counts its nodes. */
    ghost predicate Valid()
      reads this, Repr
      ensures Valid() ==> this in Repr
    {
      && this in Repr
      && (root != null ==>
            root in Repr && root.Repr <= Repr && this !in root.Repr && root.Valid())
      && Model == ModelOf(root)
      && IsBST(Model)
      && size == TreeModel.Size(Model)
    }

    /** An empty tree. */
    constructor ()
      ensures Valid() && fresh(Repr) && Model == Empty
    {
      root := null;
      size := 0;
      Model := Empty;
      Repr := {this};
    }

    /** The root node; an empty tree has none and reports a null pointer. */
    method GetRoot() returns (r: Result<BSTreeNode>)
      requires Valid()
      ensures Model == Empty ==> r == Err(NullPointer)
      ensures Model != Empty ==> r.Ok? && r.value.Model == Model && r.value.element == Model.value
    {
      if root == null {
        return Err(NullPointer);
      }
      r := Ok(root);
    }

    /** The height of the tree in nodes (0 when empty). */
    function GetHeight(): (h: nat)
      reads this, Repr
      requires Valid()
      ensures h == Height(Model)
      ensures h <= TreeModel.Size(Model) < Pow2(h)
    {
      HeightBounds(Model);
      CalculateHeight(root)
    }

    /** The number of elements. */
    function Size(): (n: nat)
      reads this, Repr
      requires Valid()
      ensures n == |Elements(Model)|
    {
      SizeIsCardinality(Model);
      size
    }

    /** Whether the tree holds no element. */
    function IsEmpty(): (b: bool)
      reads this, Repr
      requires Valid()
      ensures b <==> Elements(Model) == {}
    {
      assert Model.Node? ==> Model.value in Elements(Model);
      size == 0
    }

    /** Drops every node. */
    method Clear()
      requires Valid()
      modifies this
      ensures Valid() && Model == Empty && fresh(Repr - old(Repr))
    {
      root := null;
      size := 0;
      Model := Empty;
      Repr := {this};
    }

    /** Whether `entry` is in the tree; a null entry is refused. */
    method Contains(entry: Option<int>) returns (r: Result<bool>)
      requires Valid()
      ensures entry.None? ==> r == Err(NullPointer)
      ensures entry.Some? ==> r == Ok(entry.value in Elements(Model))
    {
      if entry.None? {
        return Err(NullPointer);
      }
      var found := Search(entry);
      r := Ok(found.value != null);
    }

    /** The node holding `entry`, or null when there is none; a null entry
        is refused. */
    method Search(entry: Option<int>) returns (r: Result<BSTreeNode?>)
      requires Valid()
      ensures entry.None? ==> r == Err(NullPointer)
      ensures entry.Some? ==> r.Ok? && (r.value != null <==> entry.value in Elements(Model))
      ensures entry.Some? && r.value != null ==> r.value in Repr && r.value.element == entry.value
    {
      if entry.None? {
        return Err(NullPointer);
      }
      ContainsCorrect(Model, entry.value);
      r := Ok(SearchRecursive(root, entry.value));
    }

    /** Inserts `newEntry` as a new leaf unless an equal element is already
        there; a null entry is refused. */
    method Add(newEntry: Option<int>) returns (r: Result<bool>)
      requires Valid()
      modifies Repr
      ensures Valid() && fresh(Repr - old(Repr))
      ensures newEntry.None? ==> r == Err(NullPointer) && Model == old(Model)
      ensures newEntry.Some? ==>
                r == Ok(newEntry.value !in Elements(old(Model)))
                && Model == Insert(old(Model), newEntry.value)
    {
      if newEntry.None? {
        return Err(NullPointer);
      }
      var x := newEntry.value;
      InsertCorrect(Model, x);
      ContainsCorrect(Model, x);
      if root == null {
        root := new BSTreeNode(x);
        size := size + 1;
        Model := root.Model;
        Repr := Repr + root.Repr;
        return Ok(true);
      }
      var added := AddRecursive(root, x);
      Model := root.Model;
      Repr := Repr + root.Repr;
      r := Ok(added);
    }

    /** Descends from `node` and hangs a new leaf where the search path
        ends; an equal element stops the descent with no change. */
    method AddRecursive(node: BSTreeNode, x: int) returns (added: bool)
      requires node.Valid() && this !in node.Repr
      modifies this, node.Repr
      ensures node.Valid() && node.Model == Insert(old(node.Model), x)
      ensures fresh(node.Repr - old(node.Repr)) && this !in node.Repr
      ensures added <==> !TreeModel.Contains(old(node.Model), x)
      ensures size == if added then old(size) + 1 else old(size)
      ensures root == old(root) && Model == old(Model) && Repr == old(Repr)
      decreases node.Repr, 1
    {
      if x < node.element {
        added := AddLeft(node, x);
      } else if x > node.element {
        added := AddRight(node, x);
      } else {
        added := false;
      }
    }

    /** The branch of `addRecursive` for an element below the node's:
        a new left leaf, or the descent into the left subtree. */
    method AddLeft(node: BSTreeNode, x: int) returns (added: bool)
      requires x < node.element
      requires node.Valid() && this !in node.Repr
      modifies this, node.Repr
      ensures node.Valid() && node.Model == Insert(old(node.Model), x)
      ensures fresh(node.Repr - old(node.Repr)) && this !in node.Repr
      ensures added <==> !TreeModel.Contains(old(node.Model), x)
      ensures size == if added then old(size) + 1 else old(size)
      ensures root == old(root) && Model == old(Model) && Repr == old(Repr)
      decreases node.Repr, 0
    {
      if node.left == null {
        var leaf := new BSTreeNode(x);
        node.SetLeft(leaf);
        size := size + 1;
        added := true;
      } else {
        added := AddRecursive(node.left, x);
      }
      node.Repr := node.Repr + node.left.Repr;
      node.Model := Node(node.left.Model, node.element, ModelOf(node.right));
    }

    /** The branch of `addRecursive` for an element above the node's:
        a new right leaf, or the descent into the right subtree. */
    method AddRight(node: BSTreeNode, x: int) returns (added: bool)
      requires x > node.element
      requires node.Valid() && this !in node.Repr
      modifies this, node.Repr
      ensures node.Valid() && node.Model == Insert(old(node.Model), x)
      ensures fresh(node.Repr - old(node.Repr)) && this !in node.Repr
      ensures added <==> !TreeModel.Contains(old(node.Model), x)
      ensures size == if added then old(size) + 1 else old(size)
      ensures root == old(root) && Model == old(Model) && Repr == old(Repr)
      decreases node.Repr, 0
    {
      if node.right == null {
        var leaf := new BSTreeNode(x);
        node.SetRight(leaf);
        size := size + 1;
        added := true;
      } else {
        added := AddRecursive(node.right, x);
      }
      node.Repr := node.Repr + node.right.Repr;
      node.Model := Node(ModelOf(node.left), node.element, node.right.Model);
    }

    /** Removes the node holding the least element and returns it; an empty
        tree gives null. */
    method RemoveMin() returns (r: BSTreeNode?)
      requires Valid()
      modifies Repr
      ensures Valid() && Repr == old(Repr)
      ensures old(Model) == Empty ==> r == null && Model == Empty
      ensures old(Model) != Empty ==>
                r != null && r.element == Min(old(Model)) && Model == TreeModel.RemoveMin(old(Model))
    {
      if root == null {
        return null;
      }
      var minNode := FindMin(root);
      RemoveMinCorrect(Model);
      root := RemoveMinNode(root);
      Model := ModelOf(root);
      r := minNode;
    }

    /** The leftmost node of the subtree at `node`. */
    static method FindMin(node: BSTreeNode) returns (m: BSTreeNode)
      requires node.Valid()
      ensures m in node.Repr && m.left == null && m.element == Min(node.Model)
    {
      m := node;
      while m.left != null
        invariant m in node.Repr && m.Repr <= node.Repr && m.Valid()
        invariant Min(m.Model) == Min(node.Model)
        decreases m.Repr
      {
        m := m.left;
      }
    }

    /** Unlinks the leftmost node of the subtree at `node` and returns the
        subtree's new root. */
    method RemoveMinNode(node: BSTreeNode) returns (r: BSTreeNode?)
      requires node.Valid() && this !in node.Repr
      modifies this, node.Repr
      ensures ModelOf(r) == TreeModel.RemoveMin(old(node.Model))
      ensures r != null ==> r.Valid() && r.Repr <= old(node.Repr)
      ensures forall n: BSTreeNode :: n in old(node.Repr) ==> n.element == old(n.element)
      ensures size == old(size) - 1
      ensures root == old(root) && Model == old(Model) && Repr == old(Repr)
      decreases node.Repr
    {
      if node.left == null {
        size := size - 1;
        return node.right;
      }
      var newLeft := RemoveMinNode(node.left);
      node.SetLeft(newLeft);
      node.Model := Node(ModelOf(newLeft), node.element, ModelOf(node.right));
      r := node;
    }

    /** Removes the node holding the greatest element and returns it; an
        empty tree gives null. */
    method RemoveMax() returns (r: BSTreeNode?)
      requires Valid()
      modifies Repr
      ensures Valid() && Repr == old(Repr)
      ensures old(Model) == Empty ==> r == null && Model == Empty
      ensures old(Model) != Empty ==>
                r != null && r.element == Max(old(Model)) && Model == TreeModel.RemoveMax(old(Model))
    {
      if root == null {
        return null;
      }
      var maxNode := FindMax(root);
      RemoveMaxCorrect(Model);
      root := RemoveMaxNode(root);
      Model := ModelOf(root);
      r := maxNode;
    }

    /** The rightmost node of the subtree at `node`. */
    static method FindMax(node: BSTreeNode) returns (m: BSTreeNode)
      requires node.Valid()
      ensures m in node.Repr && m.right == null && m.element == Max(node.Model)
    {
      m := node;
      while m.right != null
        invariant m in node.Repr && m.Repr <= node.Repr && m.Valid()
        invariant Max(m.Model) == Max(node.Model)
        decreases m.Repr
      {
        m := m.right;
      }
    }

    /** Unlinks the rightmost node of the subtree at `node` and returns the
        subtree's new root. */
    method RemoveMaxNode(node: BSTreeNode) returns (r: BSTreeNode?)
      requires node.Valid() && this !in node.Repr
      modifies this, node.Repr
      ensures ModelOf(r) == TreeModel.RemoveMax(old(node.Model))
      ensures r != null ==> r.Valid() && r.Repr <= old(node.Repr)
      ensures forall n: BSTreeNode :: n in old(node.Repr) ==> n.element == old(n.element)
      ensures size == old(size) - 1
      ensures root == old(root) && Model == old(Model) && Repr == old(Repr)
      decreases node.Repr
    {
      if node.right == null {
        size := size - 1;
        return node.left;
      }
      var newRight := RemoveMaxNode(node.right);
      node.SetRight(newRight);
      node.Model := Node(ModelOf(node.left), node.element, ModelOf(newRight));
      r := node;
    }

    /** An iterator over the elements in ascending order. */
    method InorderIterator() returns (it: InorderIterator)
      requires Valid()
      ensures fresh(it) && it.Valid() && it.Remaining() == Inorder(Model)
    {
      it := new InorderIterator(this);
    }

    /** An iterator over the elements node first, then left, then right. */
    method PreorderIterator() returns (it: PreorderIterator)
      requires Valid()
      ensures fresh(it) && it.elements == Preorder(Model) && it.current == 0
    {
      it := new PreorderIterator(this);
    }

    /** An iterator over the elements left, then right, then node. */
    method PostorderIterator() returns (it: PostorderIterator)
      requires Valid()
      ensures fresh(it) && it.elements == Postorder(Model) && it.current == 0
    {
      it := new PostorderIterator(this);
    }
  }

  /** The elements an inorder walk still owes for a stacked node: the node
      itself, then its right subtree. */
  function Owed(t: Tree): seq<int>
  {
    match t
    case Empty => []
    case Node(_, v, r) => [v] + Inorder(r)
  }

  /** What the stack of pending nodes stands for, top (last) first. */
  ghost function Pending(stack: seq<BSTreeNode>): seq<int>
    reads stack
  {
    if stack == [] then []
    else Owed(stack[|stack| - 1].Model) + Pending(stack[..|stack| - 1])
  }

  lemma PendingPush(stack: seq<BSTreeNode>, n: BSTreeNode)
    ensures Pending(stack + [n]) == Owed(n.Model) + Pending(stack)
  {
    assert (stack + [n])[..|stack|] == stack;
  }

  /** Appending three pieces one after another appends their concatenation. */
  lemma Regroup<T>(s: seq<T>, a: seq<T>, b: seq<T>, c: seq<T>)
    ensures s + a + b + c == s + (a + b + c)
  {
  }

  /** Inorder of a node splits into its left subtree, then what is owed for
      the node once the left subtree is done. */
  lemma InorderStep(t: Tree, rest: seq<int>)
    requires t.Node?
    ensures Inorder(t.left) + (Owed(t) + rest) == Inorder(t) + rest
  {
    var l, v, r := Inorder(t.left), [t.value], Inorder(t.right);
    assert Owed(t) == v + r;
    assert Inorder(t) == l + v + r;
    Regroup(l, v, r, rest);
  }

  /** The lazy inorder iterator: a stack of nodes whose left subtrees have
      already been visited or pushed. */
  class InorderIterator {
    var stack: seq<BSTreeNode>
    ghost const Footprint: set<object>

    /** Every stacked node is a valid subtree of the tree walked. */
    ghost predicate Valid()
      reads this, Footprint
    {
      && this !in Footprint
      && forall i :: 0 <= i < |stack| ==>
           stack[i] in Footprint && stack[i].Repr <= Footprint && stack[i].Valid()
    }

    /** The elements still to be produced, in order. */
    ghost function Remaining(): seq<int>
      reads this, stack
    {
      Pending(stack)
    }

    /** Starts at the root's leftmost path. */
    constructor (tree: BSTree)
      requires tree.Valid()
      ensures Valid() && Footprint == tree.Repr && Remaining() == Inorder(tree.Model)
    {
      stack := [];
      Footprint := tree.Repr;
      new;
      PushLeftPath(tree.root);
    }

    /** Pushes `start` and then each left child below it. */
    method PushLeftPath(start: BSTreeNode?)
      requires Valid()
      requires start != null ==> start in Footprint && start.Repr <= Footprint && start.Valid()
      modifies this
      ensures Valid() && Remaining() == Inorder(ModelOf(start)) + old(Remaining())
    {
      var current := start;
      ghost var goal := Inorder(ModelOf(start)) + Remaining();
      while current != null
        invariant Valid()
        invariant current != null ==>
                    current in Footprint && current.Repr <= Footprint && current.Valid()
        invariant Inorder(ModelOf(current)) + Remaining() == goal
        decreases ReprOf(current)
      {
        ghost var rest := Remaining();
        ghost var t := current.Model;
        InorderStep(t, rest);
        assert ModelOf(current.left) == t.left;
        Push(current);
        current := current.left;
      }
    }

    /** `Stack.push`: `node` goes on top. */
    method Push(node: BSTreeNode)
      requires Valid() && node in Footprint && node.Repr <= Footprint && node.Valid()
      modifies this
      ensures Valid() && Remaining() == Owed(node.Model) + old(Remaining())
      ensures stack == old(stack) + [node]
    {
      PendingPush(stack, node);
      stack := stack + [node];
    }

    /** `Stack.pop`: the top node comes off. */
    method Pop() returns (node: BSTreeNode)
      requires Valid() && stack != []
      modifies this
      ensures Valid() && stack == old(stack)[..|old(stack)| - 1] && node == old(stack)[|old(stack)| - 1]
      ensures node.right != null ==>
                node.right in Footprint && node.right.Repr <= Footprint && node.right.Valid()
      ensures old(Remaining()) == [node.element] + (Inorder(ModelOf(node.right)) + Remaining())
    {
      node := stack[|stack| - 1];
      stack := stack[..|stack| - 1];
      assert Owed(node.Model) == [node.element] + Inorder(ModelOf(node.right));
    }

    /** Whether an element remains. */
    function HasNext(): (b: bool)
      reads this, Footprint
      requires Valid()
      ensures b <==> Remaining() != []
    {
      stack != []
    }

    /** Pops the next node, then pushes the left path of its right subtree.
        There is no check for an empty stack, so popping reports the
        stack's own emptiness. */
    method Next() returns (r: Result<int>)
      requires Valid()
      modifies this
      ensures Valid()
      ensures old(Remaining()) == [] ==> r == Err(EmptyStack) && Remaining() == []
      ensures old(Remaining()) != [] ==> r == Ok(old(Remaining())[0]) && Remaining() == old(Remaining())[1..]
    {
      if stack == [] {
        return Err(EmptyStack);
      }
      var node := Pop();
      var result := node.element;
      if node.right != null {
        PushLeftPath(node.right);
      }
      r := Ok(result);
    }
  }

  /** The preorder iterator: the whole walk is taken when it is made. */
  class PreorderIterator {
    var elements: seq<int>
    var current: nat

    constructor (tree: BSTree)
      requires tree.Valid()
      ensures elements == Preorder(tree.Model) && current == 0
    {
      elements := [];
      current := 0;
      new;
      PreorderTraversal(tree.root);
    }

    /** Appends node, left subtree, right subtree. */
    method PreorderTraversal(node: BSTreeNode?)
      requires node != null ==> node.Valid() && this !in node.Repr
      modifies this
      ensures elements == old(elements) + Preorder(ModelOf(node)) && current == old(current)
      decreases ReprOf(node)
    {
      if node != null {
        ghost var before := elements;
        ghost var l, r := ModelOf(node.left), ModelOf(node.right);
        assert ModelOf(node) == Node(l, node.element, r);
        elements := elements + [node.element];
        PreorderTraversal(node.left);
        PreorderTraversal(node.right);
        Regroup(before, [node.element], Preorder(l), Preorder(r));
      }
    }

    function HasNext(): (b: bool)
      reads this
      ensures b <==> current < |elements|
    {
      current < |elements|
    }

    /** The next element of the walk. */
    method Next() returns (r: Result<int>)
      modifies this
      ensures elements == old(elements)
      ensures old(current) >= |elements| ==> r == Err(NoSuchElement) && current == old(current)
      ensures old(current) < |elements| ==> r == Ok(elements[old(current)]) && current == old(current) + 1
    {
      if !HasNext() {
        return Err(NoSuchElement);
      }
      r := Ok(elements[current]);
      current := current + 1;
    }
  }

  /** The postorder iterator: the whole walk is taken when it is made. */
  class PostorderIterator {
    var elements: seq<int>
    var current: nat

    constructor (tree: BSTree)
      requires tree.Valid()
      ensures elements == Postorder(tree.Model) && current == 0
    {
      elements := [];
      current := 0;
      new;
      PostorderTraversal(tree.root);
    }

    /** Appends left subtree, right subtree, node. */
    method PostorderTraversal(node: BSTreeNode?)
      requires node != null ==> node.Valid() && this !in node.Repr
      modifies this
      ensures elements == old(elements) + Postorder(ModelOf(node)) && current == old(current)
      decreases ReprOf(node)
    {
      if node != null {
        ghost var before := elements;
        ghost var l, r := ModelOf(node.left), ModelOf(node.right);
        assert ModelOf(node) == Node(l, node.element, r);
        PostorderTraversal(node.left);
        PostorderTraversal(node.right);
        elements := elements + [node.element];
        Regroup(before, Postorder(l), Postorder(r), [node.element]);
      }
    }

    function HasNext(): (b: bool)
      reads this
      ensures b <==> current < |elements|
    {
      current < |elements|
    }

    /** The next element of the walk. */
    method Next() returns (r: Result<int>)
      modifies this
      ensures elements == old(elements)
      ensures old(current) >= |elements| ==> r == Err(NoSuchElement) && current == old(current)
      ensures old(current) < |elements| ==> r == Ok(elements[old(current)]) && current == old(current) + 1
    {
      if !HasNext() {
        return Err(NoSuchElement);
      }
      r := Ok(elements[current]);
      current := current + 1;
    }
  }
}
