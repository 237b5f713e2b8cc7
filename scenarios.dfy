/**
 * The walks and counts the repository's unit tests look at, derived from the
 * contracts of `BinaryTree` and `TreeIterator` alone. Values are the numbers of
 * the cars the tests store.
 */
module Scenarios {
  import opened Errors
  import opened Shape
  import opened BinaryTreeImpl

  /** addElement of a key the tree does not hold yet. */
  method AddFresh(tree: BinaryTree<int>, k: int, v: int)
    requires tree.Linked() && k !in Keys(tree.shape)
    modifies tree
    ensures tree.Linked() && tree.shape == Insert(old(tree.shape), k, v, old(|tree.nodes|))
    ensures |tree.nodes| == old(|tree.nodes|) + 1
  {
    var _ := tree.AddElement(Some(k), v);
  }

  /** The tree of keys 1, 2, 3, 0, inserted in that order. */
  function FourCarsTree(): Tree<int> {
    Node(Node(Empty, 3, 0, 4, Empty), 0, 1, 1, Node(Empty, 1, 2, 2, Node(Empty, 2, 3, 3, Empty)))
  }

  method FourCars() returns (tree: BinaryTree<int>)
    ensures fresh(tree) && tree.Linked() && tree.shape == FourCarsTree()
  {
    tree := new BinaryTree<int>();
    AddFresh(tree, 1, 1);
    assert tree.shape == Node(Empty, 0, 1, 1, Empty);
    AddFresh(tree, 2, 2);
    assert tree.shape == Node(Empty, 0, 1, 1, Node(Empty, 1, 2, 2, Empty));
    AddFresh(tree, 3, 3);
    assert tree.shape == Node(Empty, 0, 1, 1, Node(Empty, 1, 2, 2, Node(Empty, 2, 3, 3, Empty)));
    AddFresh(tree, 0, 4);
  }

  lemma FourCarsWalk()
    ensures Inorder(FourCarsTree()) == [Cell(0, 3, 4), Cell(1, 0, 1), Cell(2, 1, 2), Cell(3, 2, 3)]
  {
  }

  /** Keys 1, 2, 3, 0 inserted in that order are handed out as 0, 1, 2, 3. */
  method InsertAndWalk() returns (walk: seq<int>)
    ensures walk == [4, 1, 2, 3]
  {
    var tree := FourCars();
    FourCarsWalk();
    var it := tree.Iterator();
    var a := it.Next();
    var b := it.Next();
    var c := it.Next();
    var d := it.Next();
    walk := [a.value, b.value, c.value, d.value];
  }

  /** The tree of keys 1, 2, 5, 0, 4, inserted in that order. */
  function FiveCarsTree(): Tree<int> {
    Node(Node(Empty, 3, 0, 4, Empty), 0, 1, 1, Node(Empty, 1, 2, 2, Node(Node(Empty, 4, 4, 5, Empty), 2, 5, 3, Empty)))
  }

  method FiveCars() returns (tree: BinaryTree<int>)
    ensures fresh(tree) && tree.Linked() && tree.shape == FiveCarsTree()
  {
    tree := new BinaryTree<int>();
    AddFresh(tree, 1, 1);
    assert tree.shape == Node(Empty, 0, 1, 1, Empty);
    AddFresh(tree, 2, 2);
    assert tree.shape == Node(Empty, 0, 1, 1, Node(Empty, 1, 2, 2, Empty));
    AddFresh(tree, 5, 3);
    assert tree.shape == Node(Empty, 0, 1, 1, Node(Empty, 1, 2, 2, Node(Empty, 2, 5, 3, Empty)));
    AddFresh(tree, 0, 4);
    assert tree.shape == Node(Node(Empty, 3, 0, 4, Empty), 0, 1, 1, Node(Empty, 1, 2, 2, Node(Empty, 2, 5, 3, Empty)));
    AddFresh(tree, 4, 5);
  }

  /** The values along a walk. */
  function Values(s: seq<Cell<int>>): (vs: seq<int>)
    ensures |vs| == |s| && forall i :: 0 <= i < |s| ==> vs[i] == s[i].value
  {
    if s == [] then [] else [s[0].value] + Values(s[1..])
  }

  /** The whole walk of a tree, taken with `HasNext` and `Next`. */
  method Walk(tree: BinaryTree<int>) returns (walk: seq<int>)
    requires tree.Linked()
    ensures walk == Values(Inorder(tree.shape))
  {
    var it := tree.Iterator();
    walk := [];
    while it.HasNext()
      invariant it.Valid() && it.tree == tree && |walk| == |it.done|
      invariant forall i :: 0 <= i < |walk| ==> walk[i] == it.done[i].value
      decreases |it.rest|
    {
      var r := it.Next();
      walk := walk + [r.value];
    }
    assert it.done == Inorder(tree.shape);
  }

  /** The tree of keys 1, 2, 5, 0, 4 without 2: the node holding 4 has taken its place. */
  function WithoutTwo(): Tree<int> {
    Node(Node(Empty, 3, 0, 4, Empty), 0, 1, 1, Node(Empty, 4, 4, 5, Node(Empty, 2, 5, 3, Empty)))
  }

  /** The tree of keys 1, 2, 5, 0, 4 without 2 and then without 0. */
  function WithoutZero(): Tree<int> {
    Node(Empty, 0, 1, 1, Node(Empty, 4, 4, 5, Node(Empty, 2, 5, 3, Empty)))
  }

  lemma FiveCarsWalk()
    ensures Inorder(FiveCarsTree()) == [Cell(0, 3, 4), Cell(1, 0, 1), Cell(2, 1, 2), Cell(4, 4, 5), Cell(5, 2, 3)]
    ensures Values(Inorder(FiveCarsTree())) == [4, 1, 2, 5, 3]
    ensures 2 in Keys(FiveCarsTree()) && Delete(FiveCarsTree(), 2) == WithoutTwo()
    ensures !LastRemoval(FiveCarsTree(), 2) && !StaleRemoval(FiveCarsTree(), 2)
  {
    assert Inorder(FiveCarsTree()) == [Cell(0, 3, 4), Cell(1, 0, 1), Cell(2, 1, 2), Cell(4, 4, 5), Cell(5, 2, 3)];
  }

  lemma WithoutTwoWalk()
    ensures Inorder(WithoutTwo()) == [Cell(0, 3, 4), Cell(1, 0, 1), Cell(4, 4, 5), Cell(5, 2, 3)]
    ensures Values(Inorder(WithoutTwo())) == [4, 1, 5, 3]
    ensures 0 in Keys(WithoutTwo()) && Delete(WithoutTwo(), 0) == WithoutZero() && !StaleRemoval(WithoutTwo(), 0)
  {
    assert Inorder(WithoutTwo()) == [Cell(0, 3, 4), Cell(1, 0, 1), Cell(4, 4, 5), Cell(5, 2, 3)];
  }

  lemma WithoutZeroWalk()
    ensures Values(Inorder(WithoutZero())) == [1, 5, 3]
  {
    assert Inorder(WithoutZero()) == [Cell(1, 0, 1), Cell(4, 4, 5), Cell(5, 2, 3)];
  }

  /** Keys 1, 2, 5, 0, 4 walk as 0, 1, 2, 4, 5; without 2 as 0, 1, 4, 5; then without 0 as 1, 4, 5. */
  method RemoveAndWalk() returns (first: seq<int>, second: seq<int>, third: seq<int>)
    ensures first == [4, 1, 2, 5, 3] && second == [4, 1, 5, 3] && third == [1, 5, 3]
  {
    var tree := FiveCars();
    FiveCarsWalk();
    WithoutTwoWalk();
    WithoutZeroWalk();
    first := Walk(tree);
    var _ := tree.RemoveElement(Some(2));
    second := Walk(tree);
    var _ := tree.RemoveElement(Some(0));
    third := Walk(tree);
  }

  /** Keys 1, 2, 5, 0, 4 leave two leaves, 0 and 4. */
  method CountLeaves() returns (count: nat)
    ensures count == 2
  {
    var tree := FiveCars();
    var t := tree.shape;
    assert LeafKeys(t) == {0, 4} by {
      assert Keys(t) == {0, 1, 2, 4, 5};
      forall k ensures k in LeafKeys(t) <==> k == 0 || k == 4 {
      }
    }
    count := tree.GetCountOfLeaves();
  }

  /** A null key, a second insertion of a key and the removal of an absent key are refused. */
  method Refusals() returns (nullKey: Result<()>, twice: Result<()>, absent: Result<()>)
    ensures nullKey == Fail(NullKey) && twice == Fail(ElementAlreadyExists) && absent == Fail(ElementDoesNotExist)
  {
    var tree := new BinaryTree<int>();
    nullKey := tree.AddElement(None, 300);
    var _ := tree.AddElement(Some(3), 5);
    twice := tree.AddElement(Some(3), 10);
    var ladas := new BinaryTree<int>();
    var _ := ladas.AddElement(Some(10), 10);
    absent := ladas.RemoveElement(Some(12));
  }
  /** The first three steps of a walk over `FiveCarsTree`: keys 0, 1 and 2. */
  method FirstThree(it: TreeIterator<int>) returns (vals: seq<int>)
    requires it.Valid() && it.done == [] && it.rest == Inorder(FiveCarsTree())
    modifies it
    ensures it.Valid() && it.live && vals == [4, 1, 2]
    ensures it.done == [Cell(0, 3, 4), Cell(1, 0, 1), Cell(2, 1, 2)] && it.rest == [Cell(4, 4, 5), Cell(5, 2, 3)]
  {
    FiveCarsWalk();
    var a := it.Next();
    var b := it.Next();
    var c := it.Next();
    vals := [a.value, b.value, c.value];
  }

  /**
   * Removing through the iterator the key it handed out last, 2, which has a right
   * subtree: its successor moves into its place and the walk goes on from there.
   */
  method RemoveWhileWalking() returns (walk: seq<int>, removed: Result<()>, after: seq<int>)
    ensures walk == [4, 1, 2, 5, 3] && removed == Ok(()) && after == [4, 1, 5, 3]
  {
    var tree := FiveCars();
    var it := tree.Iterator();
    var first := FirstThree(it);
    var last;
    removed, last := RemoveThenFinish(it);
    walk := first + last;
    WithoutTwoWalk();
    after := Walk(tree);
  }

  /** After keys 0, 1 and 2 of `FiveCarsTree`: remove 2, then the walk yields keys 4 and 5. */
  method RemoveThenFinish(it: TreeIterator<int>) returns (removed: Result<()>, vals: seq<int>)
    requires it.Valid() && it.live && it.tree.shape == FiveCarsTree()
    requires it.done == [Cell(0, 3, 4), Cell(1, 0, 1), Cell(2, 1, 2)] && it.rest == [Cell(4, 4, 5), Cell(5, 2, 3)]
    modifies it, it.tree
    ensures removed == Ok(()) && vals == [5, 3] && it.tree.Linked() && it.tree.shape == WithoutTwo()
  {
    FiveCarsWalk();
    removed := it.Remove();
    var d := it.Next();
    var e := it.Next();
    vals := [d.value, e.value];
  }

  /** The iterator's remove before any next fails on the null node and changes nothing. */
  method RemoveBeforeNext() returns (r: Result<()>, walk: seq<int>)
    ensures r == Fail(NullPointer) && walk == [4, 1, 2, 5, 3]
  {
    var tree := FiveCars();
    FiveCarsWalk();
    var it := tree.Iterator();
    r := it.Remove();
    walk := Walk(tree);
  }

  /** Removing the only key fails on the null root, and leaves the tree empty. */
  method RemoveLast() returns (r: Result<()>, empty: bool)
    ensures r == Fail(NullPointer) && empty
  {
    var tree := new BinaryTree<int>();
    var _ := tree.AddElement(Some(7), 7);
    assert tree.shape == Node(Empty, 0, 7, 7, Empty);
    r := tree.RemoveElement(Some(7));
    empty := tree.root.Nil?;
  }

  /**
   * Keys 3, 2, 1 form a left chain. Removing 2 hooks 1 under 3, but the parent
   * link of 1 still names the removed node.
   */
  method RemoveLeftChainMiddle() returns (r: Result<()>, staleParent: Link)
    ensures r == Ok(()) && staleParent == Ptr(1)
  {
    var tree := new BinaryTree<int>();
    var _ := tree.AddElement(Some(3), 3);
    var _ := tree.AddElement(Some(2), 2);
    var _ := tree.AddElement(Some(1), 1);
    assert tree.shape == Node(Node(Node(Empty, 2, 1, 1, Empty), 1, 2, 2, Empty), 0, 3, 3, Empty);
    r := tree.RemoveElement(Some(2));
    staleParent := tree.nodes[2].parent;
  }
}
