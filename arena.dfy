/**
 * The node objects of the tree, held as cells of a sequence: a Java reference
 * to a node is the index of its cell. This module says when the cells realise
 * a shape (module Shape) and how the shape survives updates to the cells.
 */
module Arena {
  import opened Shape

  /** One Java `Node`: its key and value and its three links. */
  datatype NodeRec<V> = NodeRec(key: int, value: V, left: Link, right: Link, parent: Link)

  /** The cells of `t` hold its keys and values, and their left and right links point at its subtrees. */
  ghost predicate Shaped<V>(t: Tree<V>, n: seq<NodeRec<V>>) {
    match t
    case Empty => true
    case Node(l, id, k, v, r) =>
      id < |n| && n[id].key == k && n[id].value == v && n[id].left == Root(l) && n[id].right == Root(r) &&
      Shaped(l, n) && Shaped(r, n)
  }

  /** Every cell of `t` links back to the node above it; `up` is the node above `t`. */
  ghost predicate Parents<V>(t: Tree<V>, n: seq<NodeRec<V>>, up: Link) {
    match t
    case Empty => true
    case Node(l, id, _, _, r) =>
      id < |n| && n[id].parent == up && Parents(l, n, Ptr(id)) && Parents(r, n, Ptr(id))
  }

  /** Two cells agree on all but the parent link. */
  ghost predicate Same<V>(a: NodeRec<V>, b: NodeRec<V>) {
    a.key == b.key && a.value == b.value && a.left == b.left && a.right == b.right
  }

  /** `rec` with the child link on the side where `k` belongs set to `lnk`. */
  function Relink<V>(rec: NodeRec<V>, k: int, lnk: Link): (r: NodeRec<V>)
    ensures Same(r, rec) <==> (if k > rec.key then rec.right == lnk else rec.left == lnk)
    ensures r.parent == rec.parent
  {
    if k > rec.key then rec.(right := lnk) else rec.(left := lnk)
  }

  /**
   * The cells after a new childless node for `k` is created in the next free
   * cell with parent `p`, and `p` is made to point at it.
   */
  function Attached<V>(n: seq<NodeRec<V>>, p: Link, k: int, v: V): (m: seq<NodeRec<V>>)
    ensures |m| == |n| + 1 && m[|n|] == NodeRec(k, v, Nil, Nil, p)
    ensures forall i :: 0 <= i < |n| && Ptr(i) != p ==> m[i] == n[i]
    ensures p.Ptr? && p.id < |n| ==> m[p.id] == Relink(n[p.id], k, Ptr(|n|))
  {
    var m := n + [NodeRec(k, v, Nil, Nil, p)];
    if p.Ptr? && p.id < |n| then m[p.id := Relink(n[p.id], k, Ptr(|n|))] else m
  }

  /** `if (null != c) c.setParent(p)`: the cell `c` names, if any, links up to `p`. */
  function SetParentOf<V>(n: seq<NodeRec<V>>, c: Link, p: Link): (m: seq<NodeRec<V>>)
    ensures |m| == |n|
    ensures forall i :: 0 <= i < |n| && Ptr(i) != c ==> m[i] == n[i]
    ensures c.Ptr? && c.id < |n| ==> Same(m[c.id], n[c.id]) && m[c.id].parent == p
  {
    if c.Ptr? && c.id < |n| then n[c.id := n[c.id].(parent := p)] else n
  }

  /**
   * The parent `p` of node `x`, if there is one, takes `c` in the slot that
   * held `x`: the right slot when it holds `x`, the left slot otherwise.
   */
  function ReplaceChild<V>(n: seq<NodeRec<V>>, p: Link, x: nat, c: Link): (m: seq<NodeRec<V>>)
    ensures |m| == |n|
    ensures forall i :: 0 <= i < |n| && Ptr(i) != p ==> m[i] == n[i]
    ensures p.Ptr? && p.id < |n| ==> m[p.id].parent == n[p.id].parent
  {
    if p.Ptr? && p.id < |n| then
      if n[p.id].right == Ptr(x) then n[p.id := n[p.id].(right := c)] else n[p.id := n[p.id].(left := c)]
    else n
  }

  // ---------------------------------------------------------------------------
  // Frames
  // ---------------------------------------------------------------------------

  lemma {:induction false} ShapedBounds<V>(t: Tree<V>, n: seq<NodeRec<V>>)
    requires Shaped(t, n)
    ensures forall i :: i in Ids(t) ==> i < |n|
  {
    match t
    case Empty =>
    case Node(l, _, _, _, r) =>
      ShapedBounds(l, n); ShapedBounds(r, n);
  }

  /** The shape only depends on the cells of its nodes, and not on their parent links. */
  lemma {:induction false} ShapedFrame<V>(t: Tree<V>, n: seq<NodeRec<V>>, n': seq<NodeRec<V>>)
    requires Shaped(t, n)
    requires forall i :: i in Ids(t) ==> i < |n| && i < |n'| && Same(n'[i], n[i])
    ensures Shaped(t, n')
  {
    match t
    case Empty =>
    case Node(l, _, _, _, r) =>
      ShapedFrame(l, n, n'); ShapedFrame(r, n, n');
  }

  /** The parent links only depend on the parent links of the cells of the nodes. */
  lemma {:induction false} ParentsFrame<V>(t: Tree<V>, n: seq<NodeRec<V>>, n': seq<NodeRec<V>>, up: Link)
    requires Parents(t, n, up)
    requires forall i :: i in Ids(t) ==> i < |n| && i < |n'| && n'[i].parent == n[i].parent
    ensures Parents(t, n', up)
  {
    match t
    case Empty =>
    case Node(l, id, _, _, r) =>
      ParentsFrame(l, n, n', Ptr(id)); ParentsFrame(r, n, n', Ptr(id));
  }

  /** Moving a subtree under another node takes resetting the parent link of its top node only. */
  lemma ParentsTop<V>(t: Tree<V>, n: seq<NodeRec<V>>, n': seq<NodeRec<V>>, up: Link, up': Link)
    requires Parents(t, n, up) && Distinct(t)
    requires t.Node? ==> t.id < |n'| && n'[t.id].parent == up'
    requires forall i :: i in Ids(t) && (t.Node? ==> i != t.id) ==> i < |n| && i < |n'| && n'[i].parent == n[i].parent
    ensures Parents(t, n', up')
  {
    if t.Node? {
      assert Ids(t) == Ids(t.left) + {t.id} + Ids(t.right);
      ParentsFrame(t.left, n, n', Ptr(t.id));
      ParentsFrame(t.right, n, n', Ptr(t.id));
    }
  }

  /** The position of any descent is realised by the same cells. */
  lemma {:induction false} ShapedFind<V>(t: Tree<V>, n: seq<NodeRec<V>>, k: int)
    requires Shaped(t, n)
    ensures Shaped(Find(t, k), n)
  {
    match t
    case Empty =>
    case Node(l, _, nk, _, r) =>
      if k > nk { ShapedFind(r, n, k); } else if k < nk { ShapedFind(l, n, k); }
  }

  /** The top cell of the position of a descent links back to the node above that position. */
  lemma {:induction false} ParentsFind<V>(t: Tree<V>, n: seq<NodeRec<V>>, k: int, up: Link)
    requires Parents(t, n, up)
    ensures Parents(Find(t, k), n, ParentLink(t, k, up))
  {
    match t
    case Empty =>
    case Node(l, id, nk, _, r) =>
      if k > nk { ParentsFind(r, n, k, Ptr(id)); } else if k < nk { ParentsFind(l, n, k, Ptr(id)); }
  }

  /** Whatever replaced a position must link back to the node above that position. */
  lemma {:induction false} ParentsReplaced<V>(t: Tree<V>, k: int, s: Tree<V>, n: seq<NodeRec<V>>, up: Link)
    requires Parents(ReplaceAt(t, k, s), n, up)
    ensures Parents(s, n, ParentLink(t, k, up))
  {
    match t
    case Empty =>
    case Node(l, id, nk, _, r) =>
      if k > nk { ParentsReplaced(r, k, s, n, Ptr(id)); } else if k < nk { ParentsReplaced(l, k, s, n, Ptr(id)); }
  }

  /** A cell that is a node of an ordered tree is found by a descent for its own key. */
  lemma {:induction false} IdFind<V>(t: Tree<V>, n: seq<NodeRec<V>>, x: nat)
    requires Shaped(t, n) && Ordered(t) && x in Ids(t)
    ensures x < |n| && Find(t, n[x].key).Node? && Find(t, n[x].key).id == x
  {
    match t
    case Empty =>
    case Node(l, id, nk, _, r) =>
      if x != id {
        if x in Ids(l) {
          IdFind(l, n, x);
          FindHolds(l, n[x].key);
        } else {
          IdFind(r, n, x);
          FindHolds(r, n[x].key);
        }
      }
  }

  /** With distinct cells, a node's right link never points at its left child, nor the other way round. */
  lemma ChildSlots<V>(t: Tree<V>, n: seq<NodeRec<V>>)
    requires Shaped(t, n) && Distinct(t) && t.Node?
    ensures t.left.Node? ==> n[t.id].left == Ptr(t.left.id) && n[t.id].right != Ptr(t.left.id)
    ensures t.right.Node? ==> n[t.id].right == Ptr(t.right.id) && n[t.id].left != Ptr(t.right.id)
  {
  }

  /** The cell of `p` now points, on the side of `k`, at `lnk`, and is otherwise as before. */
  ghost predicate Relinked<V>(n: seq<NodeRec<V>>, n': seq<NodeRec<V>>, p: Link, k: int, lnk: Link) {
    p.Ptr? && p.id < |n| && p.id < |n'| && Same(n'[p.id], Relink(n[p.id], k, lnk))
  }

  // ---------------------------------------------------------------------------
  // Replacing the subtree at a position
  // ---------------------------------------------------------------------------

  /**
   * The cells realise the tree with a position replaced when they realise the
   * replacement, the node above the position points at the replacement, and the
   * other cells outside the position are as before.
   */
  lemma {:induction false} ReplaceShaped<V>(t: Tree<V>, k: int, s: Tree<V>, n: seq<NodeRec<V>>, n': seq<NodeRec<V>>, up: Link)
    requires Shaped(t, n) && Distinct(t) && Shaped(s, n')
    requires forall i :: i in Ids(t) && i !in Ids(Find(t, k)) && Ptr(i) != ParentLink(t, k, up) ==>
               i < |n| && i < |n'| && Same(n'[i], n[i])
    requires !AtRoot(t, k) ==> Relinked(n, n', ParentLink(t, k, up), k, Root(s))
    ensures Shaped(ReplaceAt(t, k, s), n')
    decreases t, 1
  {
    if !AtRoot(t, k) {
      ReplaceShapedBelow(t, k, s, n, n', up);
    }
  }

  /** The step of the above for a position strictly below the top. */
  lemma {:induction false} ReplaceShapedBelow<V>(t: Tree<V>, k: int, s: Tree<V>, n: seq<NodeRec<V>>, n': seq<NodeRec<V>>, up: Link)
    requires t.Node? && t.key != k
    requires Shaped(t, n) && Distinct(t) && Shaped(s, n')
    requires forall i :: i in Ids(t) && i !in Ids(Find(t, k)) && Ptr(i) != ParentLink(t, k, up) ==>
               i < |n| && i < |n'| && Same(n'[i], n[i])
    requires Relinked(n, n', ParentLink(t, k, up), k, Root(s))
    ensures Shaped(ReplaceAt(t, k, s), n')
    decreases t, 0
  {
    var c, o := if k > t.key then t.right else t.left, if k > t.key then t.left else t.right;
    assert Find(t, k) == Find(c, k) && ParentLink(t, k, up) == ParentLink(c, k, Ptr(t.id));
    FindSub(c, k);
    ParentInside(c, k, Ptr(t.id));
    if AtRoot(c, k) {
      assert ReplaceAt(c, k, s) == s;
    } else {
      assert t.id in Ids(t) && t.id !in Ids(Find(t, k));
      assert Same(n'[t.id], n[t.id]) && Root(ReplaceAt(c, k, s)) == Root(c);
    }
    ReplaceShaped(c, k, s, n, n', Ptr(t.id));
    ShapedFrame(o, n, n');
  }

  /** The same for the parent links: the replacement links back to the node above the position. */
  lemma {:induction false} ReplaceParents<V>(t: Tree<V>, k: int, s: Tree<V>, n: seq<NodeRec<V>>, n': seq<NodeRec<V>>, up: Link)
    requires Parents(t, n, up) && Distinct(t) && Parents(s, n', ParentLink(t, k, up))
    requires forall i :: i in Ids(t) && i !in Ids(Find(t, k)) ==> i < |n| && i < |n'| && n'[i].parent == n[i].parent
    ensures Parents(ReplaceAt(t, k, s), n', up)
  {
    match t
    case Empty =>
    case Node(l, id, nk, v, r) =>
      if k != nk {
        var c := if k > nk then r else l;
        FindSub(c, k);
        ReplaceParents(c, k, s, n, n', Ptr(id));
        ParentsFrame(if k > nk then l else r, n, n', Ptr(id));
      }
  }

  /** Attaching a new leaf at the empty slot of a descent realises the insertion, parent links included. */
  lemma AttachShaped<V>(t: Tree<V>, k: int, v: V, n: seq<NodeRec<V>>)
    requires Shaped(t, n) && Distinct(t) && Find(t, k).Empty?
    ensures Shaped(Insert(t, k, v, |n|), Attached(n, ParentLink(t, k, Nil), k, v))
    ensures Parents(t, n, Nil) ==> Parents(Insert(t, k, v, |n|), Attached(n, ParentLink(t, k, Nil), k, v), Nil)
  {
    var p := ParentLink(t, k, Nil);
    var m := Attached(n, p, k, v);
    ShapedBounds(t, n);
    ParentInside(t, k, Nil);
    ReplaceShaped(t, k, Node(Empty, |n|, k, v, Empty), n, m, Nil);
    if Parents(t, n, Nil) {
      ReplaceParents(t, k, Node(Empty, |n|, k, v, Empty), n, m, Nil);
    }
  }

  /** With the parent links in place, a node links up to the node above its position. */
  lemma ParentOf<V>(t: Tree<V>, n: seq<NodeRec<V>>, k: int)
    requires Parents(t, n, Nil) && Find(t, k).Node?
    ensures Find(t, k).id < |n| && n[Find(t, k).id].parent == ParentLink(t, k, Nil)
  {
    ParentsFind(t, n, k, Nil);
  }

  /**
   * The node above the position of a stored key below the top: it is a cell
   * outside that position, and its right slot holds the position exactly when
   * the key is larger than its own.
   */
  lemma SlotOf<V>(t: Tree<V>, n: seq<NodeRec<V>>, k: int)
    requires Shaped(t, n) && Ordered(t) && Distinct(t) && Find(t, k).Node? && !AtRoot(t, k)
    ensures ParentLink(t, k, Nil).Ptr? && ParentLink(t, k, Nil).id < |n|
    ensures ParentLink(t, k, Nil).id in Ids(t) && ParentLink(t, k, Nil).id !in Ids(Find(t, k))
    ensures var p := ParentLink(t, k, Nil).id;
      (n[p].right == Ptr(Find(t, k).id) <==> k > n[p].key) &&
      (k < n[p].key ==> n[p].left == Ptr(Find(t, k).id)) && k != n[p].key
  {
    FindHolds(t, k);
    var pk := ParentChild(t, k, Nil);
    ShapedFind(t, n, pk);
    FindSub(t, pk);
    ChildSlots(Find(t, pk), n);
    ShapedBounds(t, n);
    ParentOutside(t, k, Nil);
  }
  /**
   * One step up from the node holding `k`: its parent link is null exactly at the
   * top; otherwise it names the node holding `pk`, whose left link points back
   * exactly when `k` is the smaller key.
   */
  lemma {:induction false} UpStep<V>(t: Tree<V>, n: seq<NodeRec<V>>, k: int) returns (pk: int)
    requires Ordered(t) && Distinct(t) && Shaped(t, n) && Parents(t, n, Nil) && Find(t, k).Node?
    ensures Find(t, k).id < |n| && Find(t, k).key == k
    ensures n[Find(t, k).id].parent.Nil? <==> AtRoot(t, k)
    ensures n[Find(t, k).id].parent.Ptr? ==>
              Find(t, pk).Node? && Find(t, pk).key == pk && n[Find(t, k).id].parent == Ptr(Find(t, pk).id) &&
              Find(t, pk).id < |n| && |Inorder(Find(t, k))| < |Inorder(Find(t, pk))| && |Inorder(Find(t, pk))| <= |Inorder(t)| &&
              (n[Find(t, pk).id].left == Ptr(Find(t, k).id) <==> k < pk) &&
              (k < pk ==> Find(t, pk).left.Node? && Find(t, pk).left.key == k) &&
              (pk < k ==> Find(t, pk).right.Node? && Find(t, pk).right.key == k)
  {
    ParentOf(t, n, k);
    ParentInside(t, k, Nil);
    FindHolds(t, k);
    pk := k;
    if !AtRoot(t, k) {
      pk := ParentChild(t, k, Nil);
      ShapedFind(t, n, pk);
      FindSub(t, pk);
      ChildSlots(Find(t, pk), n);
    }
  }
}
