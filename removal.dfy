/**
 * How the link updates of `removeElement(Node)` realise the removal `Delete`
 * of module Shape on the node cells, in its two cases: a node without a right
 * child makes way for its left child; a node with one is replaced by the
 * leftmost node of its right subtree, which is first unlinked from its own place.
 */
module Removal {
  import opened Shape
  import opened Arena

  /**
   * No right child: the left child takes the node's slot in its parent, or
   * becomes the top (its parent link then cleared). Below the top the left
   * child keeps its parent link to the removed node, so the parent links hold
   * afterwards exactly when there is no left child to lift or the node was the top.
   */
  lemma {:induction false} LiftLeft<V>(t: Tree<V>, k: int, n: seq<NodeRec<V>>, n': seq<NodeRec<V>>)
    requires Ordered(t) && Distinct(t) && Shaped(t, n) && Parents(t, n, Nil)
    requires Find(t, k).Node? && Find(t, k).right.Empty?
    requires n' == if AtRoot(t, k) then SetParentOf(n, Root(Find(t, k).left), Nil)
                   else ReplaceChild(n, ParentLink(t, k, Nil), Find(t, k).id, Root(Find(t, k).left))
    ensures Shaped(Delete(t, k), n')
    ensures Parents(Delete(t, k), n', Nil) <==> AtRoot(t, k) || Find(t, k).left.Empty?
    ensures !AtRoot(t, k) && Find(t, k).left.Node? ==>
              Find(t, k).left.id < |n'| && n'[Find(t, k).left.id].parent == Ptr(Find(t, k).id)
    ensures !AtRoot(t, k) && Find(t, k).left.Node? ==>
              Parents(Delete(t, k), SetParentOf(n', Root(Find(t, k).left), ParentLink(t, k, Nil)), Nil)
  {
    var x := Find(t, k);
    var l := x.left;
    var p := ParentLink(t, k, Nil);
    ShapedFind(t, n, k);
    ParentsFind(t, n, k, Nil);
    FindSub(t, k);
    ShapedBounds(t, n);
    assert Ids(x) == Ids(l) + {x.id};
    if AtRoot(t, k) {
      ParentInside(t, k, Nil);
      assert Delete(t, k) == l;
      ShapedFrame(l, n, n');
      ParentsTop(l, n, n', Ptr(x.id), Nil);
    } else {
      SlotOf(t, n, k);
      ShapedFrame(l, n, n');
      assert Same(n'[p.id], Relink(n[p.id], k, Root(l)));
      ReplaceShaped(t, k, l, n, n', Nil);
      if l.Empty? {
        ReplaceParents(t, k, l, n, n', Nil);
      } else {
        assert n'[l.id] == n[l.id];
        if Parents(Delete(t, k), n', Nil) {
          ParentsReplaced(t, k, l, n', Nil);
          assert false;
        }
        LiftedParent(t, k, n, n');
      }
    }
  }

  /** Below the top, the lifted left child's parent link is the only one out of place. */
  lemma {:induction false} LiftedParent<V>(t: Tree<V>, k: int, n: seq<NodeRec<V>>, n': seq<NodeRec<V>>)
    requires Ordered(t) && Distinct(t) && Shaped(t, n) && Parents(t, n, Nil)
    requires Find(t, k).Node? && Find(t, k).right.Empty? && Find(t, k).left.Node? && !AtRoot(t, k)
    requires n' == ReplaceChild(n, ParentLink(t, k, Nil), Find(t, k).id, Root(Find(t, k).left))
    ensures Parents(Delete(t, k), SetParentOf(n', Root(Find(t, k).left), ParentLink(t, k, Nil)), Nil)
  {
    var x := Find(t, k);
    var l := x.left;
    var p := ParentLink(t, k, Nil);
    var n'' := SetParentOf(n', Root(l), p);
    ParentsFind(t, n, k, Nil);
    FindSub(t, k);
    ShapedBounds(t, n);
    SlotOf(t, n, k);
    assert Ids(x) == Ids(l) + {x.id} && Distinct(l) && p.id !in Ids(x);
    ParentsTop(l, n, n'', Ptr(x.id), p);
    assert Delete(t, k) == ReplaceAt(t, k, l);
    ReplaceParents(t, k, l, n, n'', Nil);
  }

  /**
   * The cells `n1` realise `r` less its leftmost node below `x`, parent links
   * included; they differ from `n` only in the right link of `x` and in cells of `r`,
   * and the leftmost node's own cell is untouched.
   */
  ghost predicate Detached<V>(r: Tree<V>, x: nat, n: seq<NodeRec<V>>, n1: seq<NodeRec<V>>)
    requires r.Node?
  {
    Shaped(RemoveMin(r), n1) && Parents(RemoveMin(r), n1, Ptr(x)) &&
    Distinct(RemoveMin(r)) && Ids(RemoveMin(r)) == Ids(r) - {Min(r).id} &&
    |n1| == |n| && x < |n| && Min(r).id < |n| &&
    n1[x] == n[x].(right := Root(RemoveMin(r))) && n1[Min(r).id] == n[Min(r).id] &&
    (forall i :: 0 <= i < |n| && i != x && i !in Ids(r) ==> n1[i] == n[i])
  }

  /**
   * The first step with a right subtree `r` below node `x`: its leftmost node
   * `m` is unlinked, the slot of its parent `mp` that held it (the right slot
   * of `x` when `m` is the top of `r`, a left slot otherwise) now holds the
   * right subtree of `m`, whose top links back to `mp`. Afterwards the cells
   * realise `RemoveMin(r)` below `x`, parent links included; `m` is untouched.
   */
  lemma {:induction false} DetachMin<V>(r: Tree<V>, x: nat, m: nat, mp: nat,
                     n: seq<NodeRec<V>>, n0: seq<NodeRec<V>>, n0': seq<NodeRec<V>>, n1: seq<NodeRec<V>>)
    requires r.Node? && Shaped(r, n) && Parents(r, n, Ptr(x)) && Ordered(r) && Distinct(r)
    requires x < |n| && x !in Ids(r) && n[x].right == Ptr(r.id)
    requires forall j :: j in Keys(r) ==> n[x].key < j
    requires m == Min(r).id && Ptr(mp) == ParentLink(r, Min(r).key, Ptr(x)) && mp < |n| && m < |n|
    requires n0 == if n[mp].right == Ptr(m) then n[mp := n[mp].(right := Nil)] else n[mp := n[mp].(left := Nil)]
    requires n0' == if mp != x then n0[mp := n0[mp].(left := n0[m].right)] else n0[x := n0[x].(right := n0[m].right)]
    requires n1 == SetParentOf(n0', n0'[m].right, Ptr(mp))
    ensures Shaped(RemoveMin(r), n1) && Parents(RemoveMin(r), n1, Ptr(x))
    ensures Distinct(RemoveMin(r)) && Ids(RemoveMin(r)) == Ids(r) - {m}
    ensures |n1| == |n| && n1[x] == n[x].(right := Root(RemoveMin(r))) && n1[m] == n[m]
    ensures forall i :: 0 <= i < |n| && i != x && i !in Ids(r) ==> n1[i] == n[i]
  {
    var mk := Min(r).key;
    MinSlot(r, x, m, mp, n);
    DetachCells(n, x, m, mp, mk, n0, n0', n1);
    DetachShape(r, x, m, mp, n, n1);
    DetachRest(r, x, m, mp, n, n1);
  }

  /** Where the leftmost node `m` of `r` hangs: the right slot of `x` when it is the top of `r`, else a left slot. */
  lemma {:induction false} MinSlot<V>(r: Tree<V>, x: nat, m: nat, mp: nat, n: seq<NodeRec<V>>)
    requires r.Node? && Shaped(r, n) && Ordered(r) && Distinct(r)
    requires x < |n| && x !in Ids(r) && n[x].right == Ptr(r.id)
    requires forall j :: j in Keys(r) ==> n[x].key < j
    requires m == Min(r).id && Ptr(mp) == ParentLink(r, Min(r).key, Ptr(x)) && mp < |n|
    ensures m != mp && mp !in Ids(Min(r))
    ensures mp == x ==> n[x].right == Ptr(m) && Min(r).key > n[x].key
    ensures mp != x ==> n[mp].right != Ptr(m) && Min(r).key < n[mp].key
  {
    var mk := Min(r).key;
    MinOrdered(r);
    MinInorder(r);
    ParentInside(r, mk, Ptr(x));
    ShapedFind(r, n, mk);
    if AtRoot(r, mk) {
      assert mp == x && Min(r) == r;
    } else {
      ParentOutside(r, mk, Ptr(x));
      var pk := ParentChild(r, mk, Ptr(x));
      ShapedFind(r, n, pk);
      FindSub(r, pk);
      ChildSlots(Find(r, pk), n);
      assert mk in Keys(r) && pk in Keys(r);
      assert mk < pk;
    }
  }

  /** The link updates of the first step, summed up: one slot of `mp` relinked, one parent link set. */
  lemma {:induction false} DetachCells<V>(n: seq<NodeRec<V>>, x: nat, m: nat, mp: nat, mk: int,
                       n0: seq<NodeRec<V>>, n0': seq<NodeRec<V>>, n1: seq<NodeRec<V>>)
    requires mp < |n| && m < |n| && m != mp && x < |n|
    requires mp == x ==> n[x].right == Ptr(m) && mk > n[x].key
    requires mp != x ==> n[mp].right != Ptr(m) && mk < n[mp].key
    requires n0 == if n[mp].right == Ptr(m) then n[mp := n[mp].(right := Nil)] else n[mp := n[mp].(left := Nil)]
    requires n0' == if mp != x then n0[mp := n0[mp].(left := n0[m].right)] else n0[x := n0[x].(right := n0[m].right)]
    requires n1 == SetParentOf(n0', n0'[m].right, Ptr(mp))
    ensures n1 == SetParentOf(n[mp := Relink(n[mp], mk, n[m].right)], n[m].right, Ptr(mp))
  {
    assert n0'[m] == n[m];
    assert n0' == n[mp := Relink(n[mp], mk, n[m].right)];
  }

  /** The first step on the cells, in the summed-up form: the links realise `RemoveMin(r)`. */
  lemma {:induction false} DetachShape<V>(r: Tree<V>, x: nat, m: nat, mp: nat, n: seq<NodeRec<V>>, n1: seq<NodeRec<V>>)
    requires r.Node? && Shaped(r, n) && Parents(r, n, Ptr(x)) && Ordered(r) && Distinct(r)
    requires x < |n| && x !in Ids(r) && n[x].right == Ptr(r.id)
    requires forall j :: j in Keys(r) ==> n[x].key < j
    requires m == Min(r).id && Ptr(mp) == ParentLink(r, Min(r).key, Ptr(x)) && mp < |n| && m < |n|
    requires n1 == SetParentOf(n[mp := Relink(n[mp], Min(r).key, n[m].right)], n[m].right, Ptr(mp))
    ensures Shaped(RemoveMin(r), n1) && Parents(RemoveMin(r), n1, Ptr(x))
  {
    var mt := Min(r);
    var mk := mt.key;
    MinOrdered(r);
    ShapedFind(r, n, mk);
    ParentsFind(r, n, mk, Ptr(x));
    FindSub(r, mk);
    ParentInside(r, mk, Ptr(x));
    assert Ids(mt) == {m} + Ids(mt.right);
    if !AtRoot(r, mk) {
      ParentOutside(r, mk, Ptr(x));
    }
    assert mp !in Ids(mt);
    DetachFrame(r, x, m, mp, n, n1);
    ShapedFrame(mt.right, n, n1);
    ParentsTop(mt.right, n, n1, Ptr(m), Ptr(mp));
    ReplaceShaped(r, mk, mt.right, n, n1, Ptr(x));
    ReplaceParents(r, mk, mt.right, n, n1, Ptr(x));
  }

  /** The first step on the cells: which nodes remain, and which cells change. */
  lemma {:induction false} DetachRest<V>(r: Tree<V>, x: nat, m: nat, mp: nat, n: seq<NodeRec<V>>, n1: seq<NodeRec<V>>)
    requires r.Node? && Shaped(r, n) && Parents(r, n, Ptr(x)) && Ordered(r) && Distinct(r)
    requires x < |n| && x !in Ids(r) && n[x].right == Ptr(r.id)
    requires forall j :: j in Keys(r) ==> n[x].key < j
    requires m == Min(r).id && Ptr(mp) == ParentLink(r, Min(r).key, Ptr(x)) && mp < |n| && m < |n|
    requires n1 == SetParentOf(n[mp := Relink(n[mp], Min(r).key, n[m].right)], n[m].right, Ptr(mp))
    ensures Distinct(RemoveMin(r)) && Ids(RemoveMin(r)) == Ids(r) - {m}
    ensures |n1| == |n| && n1[x] == n[x].(right := Root(RemoveMin(r))) && n1[m] == n[m]
    ensures forall i :: 0 <= i < |n| && i != x && i !in Ids(r) ==> n1[i] == n[i]
  {
    var mk := Min(r).key;
    MinOrdered(r);
    MinDistinct(r);
    MinInorder(r);
    ParentInside(r, mk, Ptr(x));
    if !AtRoot(r, mk) {
      ParentOutside(r, mk, Ptr(x));
    }
    FindSub(r, mk);
    DetachFrame(r, x, m, mp, n, n1);
    assert n[m].right.Ptr? ==> n[m].right.id in Ids(r);
    if AtRoot(r, mk) {
      assert n1[x] == n[x].(right := n[m].right);
    } else {
      assert mp in Ids(r) && x != mp;
      assert n1[x] == n[x];
    }
  }

  /** Which cells the first step leaves alone. */
  lemma {:induction false} DetachFrame<V>(r: Tree<V>, x: nat, m: nat, mp: nat, n: seq<NodeRec<V>>, n1: seq<NodeRec<V>>)
    requires r.Node? && Shaped(r, n) && Distinct(r) && Ordered(r)
    requires m == Min(r).id && mp < |n| && m < |n| && mp !in Ids(Min(r))
    requires n1 == SetParentOf(n[mp := Relink(n[mp], Min(r).key, n[m].right)], n[m].right, Ptr(mp))
    ensures |n1| == |n| && n1[m] == n[m] && Same(n1[mp], Relink(n[mp], Min(r).key, n[m].right))
    ensures forall i :: 0 <= i < |n| && i != mp && Ptr(i) != n[m].right ==> n1[i] == n[i]
    ensures forall i :: i in Ids(Min(r)) ==> i < |n| && Same(n1[i], n[i]) && (Ptr(i) != n[m].right ==> n1[i].parent == n[i].parent)
    ensures forall i :: i in Ids(r) && i !in Ids(Min(r)) ==> i < |n| && (i != mp ==> Same(n1[i], n[i])) && n1[i].parent == n[i].parent
    ensures n[m].right.Ptr? ==> n[m].right.id in Ids(Min(r)) && n1[n[m].right.id].parent == Ptr(mp)
  {
    MinOrdered(r);
    ShapedFind(r, n, Min(r).key);
    FindSub(r, Min(r).key);
    ShapedBounds(r, n);
  }

  /**
   * The second step: the unlinked leftmost node `m` takes the place of node
   * `x`, keeping the left subtree of `x` and what is left of its right
   * subtree; the parent of `x` (or the top) points at `m`, and both subtrees
   * link back to `m`. Afterwards the cells realise the removal, parent links included.
   */
  lemma {:induction false} SpliceMin<V>(t: Tree<V>, k: int, x: nat, m: nat, n: seq<NodeRec<V>>, n1: seq<NodeRec<V>>,
                     na: seq<NodeRec<V>>, nb: seq<NodeRec<V>>, nc: seq<NodeRec<V>>, n2: seq<NodeRec<V>>)
    requires Ordered(t) && Distinct(t) && Shaped(t, n) && Parents(t, n, Nil)
    requires Find(t, k).Node? && Find(t, k).right.Node?
    requires x == Find(t, k).id && m == Min(Find(t, k).right).id && x < |n| && m < |n|
    requires Detached(Find(t, k).right, x, n, n1)
    requires na == n1[m := n1[m].(parent := ParentLink(t, k, Nil), right := n1[x].right, left := n1[x].left)]
    requires nb == ReplaceChild(na, ParentLink(t, k, Nil), x, Ptr(m))
    requires nc == SetParentOf(nb, n1[x].left, Ptr(m))
    requires n2 == SetParentOf(nc, n1[x].right, Ptr(m))
    ensures Shaped(Delete(t, k), n2) && Parents(Delete(t, k), n2, Nil)
    ensures Root(Delete(t, k)) == if AtRoot(t, k) then Ptr(m) else Root(t)
  {
    var xt := Find(t, k);
    var p := ParentLink(t, k, Nil);
    ShapedFind(t, n, k);
    FindSub(t, k);
    ShapedBounds(t, n);
    assert Ids(xt) == Ids(xt.left) + {x} + Ids(xt.right);
    MinInorder(xt.right);
    if !AtRoot(t, k) {
      SlotOf(t, n, k);
    } else {
      ParentInside(t, k, Nil);
    }
    SpliceCells(n1, na, nb, nc, n2, x, m, p, n1[x].left, n1[x].right);
    SpliceShape(t, k, x, m, p, n1[x].left, n1[x].right, n, n1, n2);
    if AtRoot(t, k) {
      assert t == xt && Delete(t, k) == Splice(xt);
    }
  }

  /** The link updates of the second step, cell by cell. */
  lemma {:induction false} SpliceCells<V>(n1: seq<NodeRec<V>>, na: seq<NodeRec<V>>, nb: seq<NodeRec<V>>, nc: seq<NodeRec<V>>, n2: seq<NodeRec<V>>,
                       x: nat, m: nat, p: Link, lc: Link, rc: Link)
    requires x < |n1| && m < |n1| && lc == n1[x].left && rc == n1[x].right
    requires Ptr(m) != p && Ptr(m) != lc && Ptr(m) != rc && (p.Ptr? ==> p != lc && p != rc) && (lc.Ptr? ==> lc != rc)
    requires na == n1[m := n1[m].(parent := p, right := rc, left := lc)]
    requires nb == ReplaceChild(na, p, x, Ptr(m))
    requires nc == SetParentOf(nb, lc, Ptr(m))
    requires n2 == SetParentOf(nc, rc, Ptr(m))
    ensures Relinked(n1, n2, x, m, p, lc, rc)
  {
  }

  /**
   * The cells `n2` are `n1` with `m` put in the place of `x`: `m` takes the
   * children `lc`, `rc` and the parent `p` of `x`, the parent's child link and
   * the children's parent links now name `m`, and no other cell changes.
   */
  ghost predicate Relinked<V>(n1: seq<NodeRec<V>>, n2: seq<NodeRec<V>>, x: nat, m: nat, p: Link, lc: Link, rc: Link)
  {
    |n2| == |n1| && m < |n1| && n2[m] == NodeRec(n1[m].key, n1[m].value, lc, rc, p) &&
    (p.Ptr? && p.id < |n1| ==>
       n2[p.id] == if n1[p.id].right == Ptr(x) then n1[p.id].(right := Ptr(m)) else n1[p.id].(left := Ptr(m))) &&
    (lc.Ptr? && lc.id < |n1| ==> Same(n2[lc.id], n1[lc.id]) && n2[lc.id].parent == Ptr(m)) &&
    (rc.Ptr? && rc.id < |n1| ==> Same(n2[rc.id], n1[rc.id]) && n2[rc.id].parent == Ptr(m)) &&
    (forall i :: 0 <= i < |n1| && i != m && Ptr(i) !in {p, lc, rc} ==> n2[i] == n1[i])
  }

  /**
   * The state of the second step of a removal of key `k` from `t` with a right
   * subtree: the cells `n1` hold that subtree less its leftmost node `m`
   * (`Detached`), and `n2` are `n1` with `m` relinked into the place of `x`.
   */
  ghost predicate Spliced<V>(t: Tree<V>, k: int, x: nat, m: nat, p: Link, lc: Link, rc: Link,
                             n: seq<NodeRec<V>>, n1: seq<NodeRec<V>>, n2: seq<NodeRec<V>>)
  {
    Ordered(t) && Distinct(t) && Shaped(t, n) && Parents(t, n, Nil) &&
    Find(t, k).Node? && Find(t, k).right.Node? &&
    x == Find(t, k).id && m == Min(Find(t, k).right).id &&
    Detached(Find(t, k).right, x, n, n1) &&
    p == ParentLink(t, k, Nil) && lc == n1[x].left && rc == n1[x].right &&
    Relinked(n1, n2, x, m, p, lc, rc)
  }

  /** The second step on the cells: outside the removed node's subtree nothing but the parent's child link changes. */
  lemma {:induction false} SpliceShape<V>(t: Tree<V>, k: int, x: nat, m: nat, p: Link, lc: Link, rc: Link,
                       n: seq<NodeRec<V>>, n1: seq<NodeRec<V>>, n2: seq<NodeRec<V>>)
    requires Spliced(t, k, x, m, p, lc, rc, n, n1, n2)
    ensures Shaped(Delete(t, k), n2) && Parents(Delete(t, k), n2, Nil)
  {
    var xt := Find(t, k);
    ShapedFind(t, n, k);
    FindSub(t, k);
    ShapedBounds(t, n);
    MinInorder(xt.right);
    assert Ids(xt) == Ids(xt.left) + {x} + Ids(xt.right);
    assert m in Ids(xt) && lc == Root(xt.left) && rc == Root(RemoveMin(xt.right));
    if !AtRoot(t, k) {
      SlotOf(t, n, k);
      assert n1[p.id] == n[p.id];
    } else {
      ParentInside(t, k, Nil);
    }
    SpliceLocal(t, k, x, m, p, lc, rc, n, n1, n2);
    forall i | i in Ids(t) && i !in Ids(xt)
      ensures i < |n| && i < |n2| && (Ptr(i) != p ==> Same(n2[i], n[i])) && n2[i].parent == n[i].parent
    {
      assert n1[i] == n[i];
    }
    ReplaceShaped(t, k, Splice(xt), n, n2, Nil);
    ReplaceParents(t, k, Splice(xt), n, n2, Nil);
  }

  /** The second step on the cells of the removed node's subtree: they realise its splice, linked up to `p`. */
  lemma {:induction false} SpliceLocal<V>(t: Tree<V>, k: int, x: nat, m: nat, p: Link, lc: Link, rc: Link,
                       n: seq<NodeRec<V>>, n1: seq<NodeRec<V>>, n2: seq<NodeRec<V>>)
    requires Spliced(t, k, x, m, p, lc, rc, n, n1, n2)
    ensures Shaped(Splice(Find(t, k)), n2) && Parents(Splice(Find(t, k)), n2, p)
  {
    var xt := Find(t, k);
    var l, r := xt.left, xt.right;
    var r1 := RemoveMin(r);
    var mt := Min(r);
    var s := Node(l, m, mt.key, mt.value, r1);
    ShapedFind(t, n, k);
    ParentsFind(t, n, k, Nil);
    FindSub(t, k);
    ShapedBounds(t, n);
    MinOrdered(r);
    MinInorder(r);
    ShapedFind(r, n, mt.key);
    assert Ids(xt) == Ids(l) + {x} + Ids(r);
    assert m in Ids(r);
    assert n1[x].left == Root(l) && n1[x].right == Root(r1);
    if !AtRoot(t, k) {
      ParentOutside(t, k, Nil);
    }
    assert n2[m] == NodeRec(mt.key, mt.value, Root(l), Root(r1), p);
    forall i | i in Ids(l) ensures i < |n| && i < |n2| && Same(n2[i], n[i]) && (Ptr(i) != Root(l) ==> n2[i].parent == n[i].parent) {
      assert n1[i] == n[i];
    }
    forall i | i in Ids(r1) ensures i < |n1| && i < |n2| && Same(n2[i], n1[i]) && (Ptr(i) != Root(r1) ==> n2[i].parent == n1[i].parent) {
    }
    ShapedFrame(l, n, n2);
    ShapedFrame(r1, n1, n2);
    ParentsTop(l, n, n2, Ptr(x), Ptr(m));
    ParentsTop(r1, n1, n2, Ptr(x), Ptr(m));
    assert Splice(xt) == s;
  }

  /** With the parent links in place, the leftmost node of `r` links up to `x` or to a node of `r`. */
  lemma {:induction false} MinParent<V>(r: Tree<V>, n: seq<NodeRec<V>>, x: nat)
    requires r.Node? && Shaped(r, n) && Parents(r, n, Ptr(x)) && Ordered(r) && x < |n|
    ensures Min(r).id < |n| && n[Min(r).id].parent == ParentLink(r, Min(r).key, Ptr(x))
    ensures ParentLink(r, Min(r).key, Ptr(x)).Ptr? && ParentLink(r, Min(r).key, Ptr(x)).id < |n|
  {
    MinOrdered(r);
    ParentsFind(r, n, Min(r).key, Ptr(x));
    ParentInside(r, Min(r).key, Ptr(x));
    ShapedBounds(r, n);
  }
}
