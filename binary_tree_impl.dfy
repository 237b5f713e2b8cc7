/**
 * The unbalanced binary search tree `BinaryTreeImpl` and its iterator. Nodes
 * are cells of `nodes`; `root` and the cells' links are updated in place as in
 * the Java code. The ghost field `shape` is the tree the cells realise.
 */
module BinaryTreeImpl {
  import opened Errors
  import opened Shape
  import opened Arena
  import opened Removal

  /** Removing the node holding `k` takes the branch that sets `root` to null and then dereferences it. */
  ghost predicate LastRemoval<V>(t: Tree<V>, k: int) {
    t.Node? && t.key == k && t.left.Empty? && t.right.Empty?
  }

  /**
   * Removing the node holding `k` takes the branch that hooks its left child to
   * its parent without resetting the child's parent link.
   */
  ghost predicate StaleRemoval<V>(t: Tree<V>, k: int) {
    !AtRoot(t, k) && Find(t, k).Node? && Find(t, k).right.Empty? && Find(t, k).left.Node?
  }

  class BinaryTree<V> {
    var root: Link
    var nodes: seq<NodeRec<V>>
    ghost var shape: Tree<V>

    /** The cells realise an ordered tree of distinct cells, reached from `root` through left and right links. */
    ghost predicate Valid()
      reads this
    {
      Ordered(shape) && Distinct(shape) && root == Root(shape) && Shaped(shape, nodes) &&
      (forall i :: i in Ids(shape) ==> i < |nodes|)
    }

    /** In addition every parent link is the inverse of a left or right link. */
    ghost predicate Linked()
      reads this
    {
      Valid() && Parents(shape, nodes, Nil)
    }

    constructor ()
      ensures Linked() && root == Nil && nodes == [] && shape == Empty
    {
      root := Nil;
      nodes := [];
      shape := Empty;
    }

    /** addElement(key, element): a null key is refused before any change. */
    method AddElement(key: Option<int>, v: V) returns (r: Result<()>)
      requires Valid()
      modifies this
      ensures Valid() && (old(Linked()) ==> Linked())
      ensures key.None? ==> r == Fail(NullKey) && unchanged(this)
      ensures key.Some? && key.value in old(Keys(shape)) ==> r == Fail(ElementAlreadyExists) && root == old(root) && nodes == old(nodes) && shape == old(shape)
      ensures key.Some? && key.value !in old(Keys(shape)) ==>
                r == Ok(()) &&
                shape == Insert(old(shape), key.value, v, old(|nodes|)) &&
                nodes == Attached(old(nodes), ParentLink(old(shape), key.value, Nil), key.value, v) &&
                root == (if old(root).Nil? then Ptr(old(|nodes|)) else old(root))
    {
      if key.None? {
        return Fail(NullKey);
      }
      var k := key.value;
      ghost var t, n := shape, nodes;
      FindHolds(t, k);
      ParentInside(t, k, Nil);
      r := AddAt(k, v, root, shape, Nil);
      if r.Ok? {
        FindKey(t, k);
        AttachShaped(t, k, v, n);
        InsertOrdered(t, k, v, |n|);
        InsertDistinct(t, k, v, |n|);
        shape := Insert(t, k, v, |n|);
      }
    }

    /**
     * The private addElement(key, value, base): descends from `base`, the top of
     * `sub`, and attaches a new leaf at the empty slot it reaches; `up` is the node
     * above `base`.
     */
    method AddAt(k: int, v: V, base: Link, ghost sub: Tree<V>, ghost up: Link) returns (r: Result<()>)
      requires Shaped(sub, nodes) && Ordered(sub) && base == Root(sub)
      requires base.Nil? ==> up.Nil? && root.Nil?
      requires up.Ptr? ==> up.id < |nodes|
      requires !AtRoot(sub, k) ==> ParentLink(sub, k, up).Ptr? && ParentLink(sub, k, up).id < |nodes|
      modifies this
      ensures shape == old(shape)
      ensures k in Keys(sub) ==> r == Fail(ElementAlreadyExists) && nodes == old(nodes) && root == old(root)
      ensures k !in Keys(sub) ==>
                r == Ok(()) &&
                nodes == Attached(old(nodes), ParentLink(sub, k, up), k, v) &&
                root == (if base.Nil? then Ptr(old(|nodes|)) else old(root))
      decreases sub
    {
      if base.Nil? {
        root := Ptr(|nodes|);
        nodes := nodes + [NodeRec(k, v, Nil, Nil, Nil)];
        return Ok(());
      }
      var b := nodes[base.id];
      if k > b.key {
        assert k !in Keys(sub.left) && k != sub.key;
        assert k in Keys(sub) <==> k in Keys(sub.right);
        if b.right.Nil? {
          var rightNode := |nodes|;
          nodes := nodes + [NodeRec(k, v, Nil, Nil, base)];
          nodes := nodes[base.id := nodes[base.id].(right := Ptr(rightNode))];
          r := Ok(());
        } else {
          r := AddAt(k, v, b.right, sub.right, base);
        }
      } else {
        if k == b.key {
          return Fail(ElementAlreadyExists);
        }
        assert k !in Keys(sub.right);
        assert k in Keys(sub) <==> k in Keys(sub.left);
        if b.left.Nil? {
          var leftNode := |nodes|;
          nodes := nodes + [NodeRec(k, v, Nil, Nil, base)];
          nodes := nodes[base.id := nodes[base.id].(left := Ptr(leftNode))];
          r := Ok(());
        } else {
          r := AddAt(k, v, b.left, sub.left, base);
        }
      }
    }

    /** getElement(key): the node holding `key`, or the exception the descent from `root` ends in. */
    function GetElement(key: Option<int>): (r: Result<nat>)
      reads this
      requires Valid()
      ensures r.Ok? <==> key.Some? && key.value in Keys(shape)
      ensures r.Ok? ==> Find(shape, key.value).Node? && r.value == Find(shape, key.value).id && r.value < |nodes| && nodes[r.value].key == key.value
      ensures r.Fail? ==> r.error == (if shape.Node? && key.None? then NullKey else ElementDoesNotExist)
    {
      if key.Some? then
        FindKey(shape, key.value);
        GetElementAt(nodes, key, root, shape)
      else
        GetElementAt(nodes, key, root, shape)
    }

    /**
     * The private getElement(key, currentNode): the null-node check comes before
     * the null-key check; the last branch cannot be reached, as keys are totally ordered.
     */
    static function GetElementAt(nodes: seq<NodeRec<V>>, key: Option<int>, currentNode: Link, ghost sub: Tree<V>): (r: Result<nat>)
      requires Shaped(sub, nodes) && currentNode == Root(sub)
      ensures r.Ok? <==> key.Some? && Find(sub, key.value).Node?
      ensures r.Ok? ==> Find(sub, key.value).Node? && r.value == Find(sub, key.value).id &&
                        r.value < |nodes| && nodes[r.value].key == key.value
      ensures r.Fail? ==> r.error == (if sub.Node? && key.None? then NullKey else ElementDoesNotExist)
      decreases sub
    {
      if currentNode.Nil? then Fail(ElementDoesNotExist)
      else if key.None? then Fail(NullKey)
      else
        var node := nodes[currentNode.id];
        if key.value == node.key then Ok(currentNode.id)
        else if key.value > node.key then GetElementAt(nodes, key, node.right, sub.right)
        else if key.value < node.key then GetElementAt(nodes, key, node.left, sub.left)
        else assert false; Fail(ImpossibleBinaryTree)
    }

    /**
     * The private removeElement(Node): unlinks `nodeToRemove`; a null reference
     * fails on its first dereference. The node's parent is read from its parent
     * link, so the parent links must be in place. The last node cannot be
     * removed without failing, and lifting a left child below the top leaves
     * that child's parent link naming the removed node.
     */
    method RemoveNode(nodeToRemove: Link) returns (r: Result<()>)
      requires Linked()
      requires nodeToRemove.Ptr? ==> nodeToRemove.id in Ids(shape)
      modifies this
      ensures nodeToRemove.Nil? ==> r == Fail(NullPointer) && unchanged(this)
      ensures nodeToRemove.Ptr? ==>
                var k := old(nodes[nodeToRemove.id].key);
                Valid() && |nodes| == old(|nodes|) && shape == Delete(old(shape), k) &&
                r == (if LastRemoval(old(shape), k) then Fail(NullPointer) else Ok(())) &&
                (Linked() <==> !StaleRemoval(old(shape), k))
      ensures nodeToRemove.Ptr? && StaleRemoval(old(shape), old(nodes[nodeToRemove.id].key)) ==>
                var k := old(nodes[nodeToRemove.id].key);
                var lifted := Find(old(shape), k).left;
                lifted.id < |nodes| && nodes[lifted.id].parent == nodeToRemove &&
                Parents(shape, SetParentOf(nodes, Ptr(lifted.id), ParentLink(old(shape), k, Nil)), Nil)
    {
      if nodeToRemove.Nil? {
        return Fail(NullPointer);
      }
      var x := nodeToRemove.id;
      ghost var k := nodes[x].key;
      IdFind(shape, nodes, x);
      FindHolds(shape, k);
      ParentOf(shape, nodes, k);
      ShapedFind(shape, nodes, k);
      var nodeToRemoveParent := nodes[x].parent;
      if nodes[x].right.Nil? {
        r := LiftLeftChild(x, nodeToRemoveParent, k);
      } else {
        ghost var n := nodes;
        ghost var right := Find(shape, k).right;
        ParentsFind(shape, nodes, k, Nil);
        FindSub(shape, k);
        var minNode := DetachSuccessor(x, right);
        SpliceSuccessor(x, minNode, nodeToRemoveParent, k, n);
        r := Ok(());
      }
    }

    /** The first branch of removeElement(Node): without a right child, the left child takes the node's place. */
    method LiftLeftChild(x: nat, nodeToRemoveParent: Link, ghost k: int) returns (r: Result<()>)
      requires Linked() && Find(shape, k).Node? && Find(shape, k).key == k && Find(shape, k).id == x
      requires x < |nodes| && nodes[x].right.Nil? && nodeToRemoveParent == ParentLink(shape, k, Nil)
      modifies this
      ensures Valid() && |nodes| == old(|nodes|) && shape == Delete(old(shape), k)
      ensures r == (if LastRemoval(old(shape), k) then Fail(NullPointer) else Ok(()))
      ensures Linked() <==> !StaleRemoval(old(shape), k)
      ensures StaleRemoval(old(shape), k) ==>
                var lifted := Find(old(shape), k).left;
                lifted.id < |nodes| && nodes[lifted.id].parent == Ptr(x) &&
                Parents(shape, SetParentOf(nodes, Ptr(lifted.id), ParentLink(old(shape), k, Nil)), Nil)
    {
      ghost var t, n := shape, nodes;
      FindHolds(t, k);
      ParentInside(t, k, Nil);
      ShapedFind(t, n, k);
      DeleteOrdered(t, k);
      DeleteDistinct(t, k);
      var newNode := nodes[x].left;
      if nodeToRemoveParent.Nil? {
        root := nodes[x].left;
        if root.Nil? {
          LiftLeft(t, k, n, nodes);
          shape := Delete(t, k);
          return Fail(NullPointer);
        }
        nodes := SetParentOf(nodes, root, Nil);
      } else {
        nodes := ReplaceChild(nodes, nodeToRemoveParent, x, newNode);
      }
      LiftLeft(t, k, n, nodes);
      shape := Delete(t, k);
      r := Ok(());
    }

    /**
     * The second half of the second branch of removeElement(Node): once the leftmost
     * node of the right subtree is unlinked (from the cells `n`), it takes the
     * removed node's place, parent and children.
     */
    method SpliceSuccessor(x: nat, minNode: Link, nodeToRemoveParent: Link, ghost k: int, ghost n: seq<NodeRec<V>>)
      requires Ordered(shape) && Distinct(shape) && Shaped(shape, n) && Parents(shape, n, Nil)
      requires root == Root(shape) && forall i :: i in Ids(shape) ==> i < |n|
      requires Find(shape, k).Node? && Find(shape, k).key == k && Find(shape, k).id == x && Find(shape, k).right.Node?
      requires Detached(Find(shape, k).right, x, n, nodes) && minNode == Ptr(Min(Find(shape, k).right).id)
      requires nodeToRemoveParent == ParentLink(shape, k, Nil)
      modifies this
      ensures Linked() && |nodes| == |n| && shape == Delete(old(shape), k)
    {
      ghost var t, xt, n1 := shape, Find(shape, k), nodes;
      var m := minNode.id;
      FindHolds(t, k);
      ParentInside(t, k, Nil);
      DeleteOrdered(t, k);
      DeleteDistinct(t, k);
      var nodeToRemoveRightChild := nodes[x].right;
      var nodeToRemoveLeftChild := nodes[x].left;
      // the successor takes over the removed node's parent and both children
      nodes := nodes[m := nodes[m].(parent := nodeToRemoveParent, right := nodeToRemoveRightChild, left := nodeToRemoveLeftChild)];
      ghost var na := nodes;
      if nodeToRemoveParent.Ptr? {
        nodes := ReplaceChild(nodes, nodeToRemoveParent, x, minNode);
      } else {
        root := minNode;
      }
      ghost var nb := nodes;
      nodes := SetParentOf(nodes, nodeToRemoveLeftChild, minNode);
      ghost var nc := nodes;
      nodes := SetParentOf(nodes, nodeToRemoveRightChild, minNode);
      SpliceMin(t, k, x, m, n, n1, na, nb, nc, nodes);
      shape := Delete(t, k);
    }

    /**
     * The first half of that branch: the leftmost node of `r`, the right subtree of
     * the node in cell `x`, is unlinked; its right subtree moves up into its slot.
     */
    method DetachSuccessor(x: nat, ghost r: Tree<V>) returns (minNode: Link)
      requires r.Node? && Shaped(r, nodes) && Parents(r, nodes, Ptr(x)) && Ordered(r) && Distinct(r)
      requires x < |nodes| && x !in Ids(r) && nodes[x].right == Ptr(r.id)
      requires forall j :: j in Keys(r) ==> nodes[x].key < j
      modifies this
      ensures minNode == Ptr(Min(r).id) && root == old(root) && shape == old(shape)
      ensures Detached(r, x, old(nodes), nodes)
    {
      ghost var n := nodes;
      var nodeToRemove := Ptr(x);
      minNode := GetMin(nodes[x].right, r);
      var m := minNode.id;
      MinParent(r, n, x);
      var minNodeParent := nodes[m].parent;
      var mp := minNodeParent.id;
      if nodes[mp].right == minNode {
        nodes := nodes[mp := nodes[mp].(right := Nil)];
      } else {
        nodes := nodes[mp := nodes[mp].(left := Nil)];
      }
      ghost var n0 := nodes;
      if minNodeParent != nodeToRemove {
        nodes := nodes[mp := nodes[mp].(left := nodes[m].right)];
        nodes := SetParentOf(nodes, nodes[m].right, minNodeParent);
      } else {
        nodes := nodes[x := nodes[x].(right := nodes[m].right)];
        nodes := SetParentOf(nodes, nodes[m].right, nodeToRemove);
      }
      DetachMin(r, x, m, mp, n, n0, if mp != x then n0[mp := n0[mp].(left := n0[m].right)] else n0[x := n0[x].(right := n0[m].right)], nodes);
    }

    /** removeElement(key): looks the key up, then unlinks its node. */
    method RemoveElement(key: Option<int>) returns (r: Result<()>)
      requires Linked()
      modifies this
      ensures key.None? || key.value !in old(Keys(shape)) ==>
                unchanged(this) && r == Fail(if key.None? && old(shape).Node? then NullKey else ElementDoesNotExist)
      ensures key.Some? && key.value in old(Keys(shape)) ==>
                Valid() && Keys(shape) == old(Keys(shape)) - {key.value} &&
                |Inorder(shape)| == |old(Inorder(shape))| - 1 &&
                r == (if LastRemoval(old(shape), key.value) then Fail(NullPointer) else Ok(())) &&
                (Linked() <==> !StaleRemoval(old(shape), key.value))
      ensures key.Some? && StaleRemoval(old(shape), key.value) ==>
                var lifted := Find(old(shape), key.value).left;
                lifted.id < |nodes| && nodes[lifted.id].parent == Ptr(Find(old(shape), key.value).id) &&
                Parents(shape, SetParentOf(nodes, Ptr(lifted.id), ParentLink(old(shape), key.value, Nil)), Nil)
      // present or not, the tree left is the removal of the key
      ensures key.Some? ==> shape == Delete(old(shape), key.value)
    {
      ghost var t := shape;
      var nodeToRemove := GetElement(key);
      if nodeToRemove.Fail? {
        if key.Some? {
          DeleteAbsent(t, key.value);
        }
        return Fail(nodeToRemove.error);
      }
      FindSub(t, key.value);
      r := RemoveNode(Ptr(nodeToRemove.value));
      DeleteKeys(t, key.value);
      DeleteInorder(t, key.value);
    }

    /** iterator(): a walk from the smallest key. */
    method Iterator() returns (it: TreeIterator<V>)
      requires Valid()
      ensures fresh(it) && it.tree == this && it.Walking() && it.current.Nil? && !it.live
      ensures it.done == [] && it.rest == Inorder(shape)
    {
      it := new TreeIterator(this);
    }

    /** getMin(root): follows left links from `base`, the top of `sub`, to its leftmost node. */
    method GetMin(base: Link, ghost sub: Tree<V>) returns (m: Link)
      requires Shaped(sub, nodes) && base == Root(sub)
      ensures sub.Empty? ==> m.Nil?
      ensures sub.Node? ==> m == Ptr(Min(sub).id) && m.id < |nodes| && nodes[m.id].left.Nil?
      ensures sub.Node? && Ordered(sub) ==> forall j :: j in Keys(sub) ==> nodes[m.id].key <= j
    {
      if base.Nil? {
        return Nil;
      }
      m := base;
      ghost var s := sub;
      while nodes[m.id].left.Ptr?
        invariant s.Node? && Shaped(s, nodes) && m == Ptr(s.id) && Min(s) == Min(sub)
        decreases s
      {
        m := nodes[m.id].left;
        s := s.left;
      }
      if Ordered(sub) {
        MinOrdered(sub);
      }
    }

    /** getCountOfLeaves(): the number of nodes without children. */
    function GetCountOfLeaves(): (c: nat)
      reads this
      requires Valid()
      ensures c == |LeafKeys(shape)|
      ensures c <= |Inorder(shape)|
    {
      LeafKeysBound(shape);
      CountLeavesAt(root, shape)
    }

    /** The private getCountOfLeaves(root), on the subtree `sub` whose top is `current`. */
    function CountLeavesAt(current: Link, ghost sub: Tree<V>): (c: nat)
      reads this
      requires Shaped(sub, nodes) && Ordered(sub) && current == Root(sub)
      ensures c == |LeafKeys(sub)|
      decreases sub
    {
      if current.Nil? then 0
      else
        var countOfLeftLeaves := if nodes[current.id].left.Ptr? then CountLeavesAt(nodes[current.id].left, sub.left) else 0;
        var countOfRightLeaves := if nodes[current.id].right.Ptr? then CountLeavesAt(nodes[current.id].right, sub.right) else 0;
        LeafKeysSplit(sub);
        if nodes[current.id].left.Nil? && nodes[current.id].right.Nil? then 1
        else countOfRightLeaves + countOfLeftLeaves
    }
  }
  /**
   * TreeIterator, the in-order walk over a tree. `next` is the node the next call
   * of `Next` hands out and `current` the node it handed out last; the ghost
   * fields split the walk into the cells handed out (`done`) and those to come
   * (`rest`), and `live` says that `current` is the last of `done`.
   */
  class TreeIterator<V> {
    const tree: BinaryTree<V>
    var next: Link
    var current: Link
    ghost var done: seq<Cell<V>>
    ghost var rest: seq<Cell<V>>
    ghost var live: bool

    /** The walk is the tree's in-order sequence, `next` points at the first cell to come. */
    ghost predicate Walking()
      reads this, tree
    {
      tree.Valid() && Inorder(tree.shape) == done + rest &&
      next == (if rest == [] then Nil else Ptr(rest[0].id)) &&
      (live ==> done != [] && current == Ptr(done[|done| - 1].id))
    }

    /** `Next` climbs parent links, so these must be in place. */
    ghost predicate Valid()
      reads this, tree
    {
      Walking() && tree.Linked()
    }

    /** TreeIterator(): starts at the leftmost node. */
    constructor (tree: BinaryTree<V>)
      requires tree.Valid()
      ensures this.tree == tree && Walking() && current.Nil? && !live
      ensures done == [] && rest == Inorder(tree.shape)
    {
      var first := tree.GetMin(tree.root, tree.shape);
      this.tree := tree;
      next := first;
      current := Nil;
      done := [];
      rest := Inorder(tree.shape);
      live := false;
      new;
      if tree.shape.Node? {
        MinInorder(tree.shape);
      }
    }

    /** hasNext(): whether cells are left to hand out. */
    function HasNext(): (b: bool)
      reads this, tree
      requires Walking()
      ensures b <==> rest != []
    {
      next.Ptr?
    }

    /**
     * next(): hands out the value of the next cell in key order. The successor is
     * the leftmost node of the right subtree if there is one, otherwise the first
     * node above reached from its left side.
     */
    method Next() returns (r: Result<V>)
      requires Valid()
      modifies this
      ensures Valid()
      ensures old(rest) == [] ==> r == Fail(NoSuchElement) && unchanged(this)
      ensures old(rest) != [] ==>
                r == Ok(old(rest)[0].value) && current == Ptr(old(rest)[0].id) && live &&
                done == old(done) + [old(rest)[0]] && rest == old(rest)[1..]
      ensures old(rest) != [] ==> forall c :: c in old(done) ==> c.key < old(rest)[0].key
    {
      if !HasNext() {
        return Fail(NoSuchElement);
      }
      ghost var t, n := tree.shape, tree.nodes;
      ghost var c := rest[0];
      Successors(t, done, rest);
      ShapedFind(t, n, c.key);
      OrderedIffAscending(t);
      assert done + rest == done + [c] + rest[1..];
      AscendingSplit(done, c, rest[1..]);
      current := next;
      next := SuccessorOf(next, c.key);
      r := Ok(tree.nodes[current.id].value);
      done := done + [c];
      rest := rest[1..];
      live := true;
    }

    /**
     * The walk inside next(): from the node with key `k`, down the right subtree to its
     * leftmost node, or else up the parent links until the walk leaves a left child.
     * It yields the in-order successor of `k`, or null after the last node.
     */
    method SuccessorOf(from: Link, ghost k: int) returns (nx: Link)
      requires tree.Linked() && Find(tree.shape, k).Node? && from == Ptr(Find(tree.shape, k).id)
      ensures var after := Inorder(Find(tree.shape, k).right) + After(tree.shape, k);
              nx == if after == [] then Nil else Ptr(after[0].id)
    {
      ghost var t, n := tree.shape, tree.nodes;
      FindHolds(t, k);
      ShapedFind(t, n, k);
      nx := from;
      if tree.nodes[nx.id].right.Ptr? {
        ghost var right := Find(t, k).right;
        nx := tree.nodes[nx.id].right;
        ghost var s := right;
        while tree.nodes[nx.id].left.Ptr?
          invariant s.Node? && Shaped(s, n) && nx == Ptr(s.id) && Min(s) == Min(right)
          decreases s
        {
          nx := tree.nodes[nx.id].left;
          s := s.left;
        }
        MinInorder(right);
      } else {
        ghost var y := k;
        while true
          invariant Find(t, y).Node? && Find(t, y).key == y && nx == Ptr(Find(t, y).id)
          invariant After(t, k) == After(t, y)
          decreases |Inorder(t)| - |Inorder(Find(t, y))|
        {
          ghost var pk := UpStep(t, n, y);
          if tree.nodes[nx.id].parent.Nil? {
            nx := Nil;
            break;
          }
          if tree.nodes[tree.nodes[nx.id].parent.id].left == nx {
            AfterLeftChild(t, y, pk);
            nx := tree.nodes[nx.id].parent;
            break;
          }
          AfterRightChild(t, y, pk);
          nx := tree.nodes[nx.id].parent;
          y := pk;
        }
      }
    }

    /**
     * remove(): removes `current`, the node handed out last, through the private
     * removeElement(Node). Before the first call of `Next` that is null and fails;
     * `current` is never cleared, so the walk goes on from `next`.
     */
    method Remove() returns (r: Result<()>)
      requires Valid() && (current.Ptr? ==> live)
      modifies this, tree
      ensures old(current).Nil? ==> r == Fail(NullPointer) && unchanged(this) && unchanged(tree)
      ensures old(current).Ptr? ==>
                var c := old(done)[|old(done)| - 1];
                Walking() && current == old(current) && !live &&
                done == old(done)[..|old(done)| - 1] && rest == old(rest) &&
                tree.shape == Delete(old(tree.shape), c.key) &&
                r == (if LastRemoval(old(tree.shape), c.key) then Fail(NullPointer) else Ok(())) &&
                (Valid() <==> !StaleRemoval(old(tree.shape), c.key))
    {
      ghost var t, n := tree.shape, tree.nodes;
      if current.Nil? {
        r := tree.RemoveNode(current);
        return;
      }
      ghost var c := done[|done| - 1];
      ghost var before := done[..|done| - 1];
      assert done == before + [c];
      assert Inorder(t) == before + [c] + rest;
      InorderMembers(t);
      assert c in Inorder(t);
      FindCell(t, c);
      ShapedFind(t, n, c.key);
      DeleteWalk(t, before, c, rest);
      r := tree.RemoveNode(current);
      done := before;
      live := false;
    }
  }
}
