/**
 * The abstract shape of the tree: which node sits where, with its key and value.
 * The link structure of the implementation is checked against this shape
 * (module Arena); everything the tree promises is stated and proved on it here.
 */
module Shape {

  /** A node reference: Java's `null` or the index of a node cell. */
  datatype Link = Nil | Ptr(id: nat)

  /** A subtree: `id` names the node cell that holds `key` and `value`. */
  datatype Tree<V> = Empty | Node(left: Tree<V>, id: nat, key: int, value: V, right: Tree<V>)

  /** One stored pair as an in-order walk meets it: the key, the node cell holding it, the value. */
  datatype Cell<V> = Cell(key: int, id: nat, value: V)

  /** The cell of the top node of a subtree. */
  function Top<V>(t: Tree<V>): Cell<V>
    requires t.Node?
  {
    Cell(t.key, t.id, t.value)
  }

  function Root<V>(t: Tree<V>): Link {
    if t.Empty? then Nil else Ptr(t.id)
  }

  function Keys<V>(t: Tree<V>): set<int> {
    match t
    case Empty => {}
    case Node(l, _, k, _, r) => Keys(l) + {k} + Keys(r)
  }

  function Ids<V>(t: Tree<V>): set<nat> {
    match t
    case Empty => {}
    case Node(l, id, _, _, r) => Ids(l) + {id} + Ids(r)
  }

  /** The stored pairs, with their nodes, in the order an in-order walk visits them. */
  function Inorder<V>(t: Tree<V>): seq<Cell<V>> {
    match t
    case Empty => []
    case Node(l, id, k, v, r) => Inorder(l) + [Cell(k, id, v)] + Inorder(r)
  }

  /** Binary-search-tree order: left keys strictly smaller, right keys strictly larger. */
  ghost predicate Ordered<V>(t: Tree<V>) {
    match t
    case Empty => true
    case Node(l, _, k, _, r) =>
      (forall j :: j in Keys(l) ==> j < k) && (forall j :: j in Keys(r) ==> k < j) &&
      Ordered(l) && Ordered(r)
  }

  /** No node cell occurs twice in the tree. */
  ghost predicate Distinct<V>(t: Tree<V>) {
    match t
    case Empty => true
    case Node(l, id, _, _, r) =>
      id !in Ids(l) && id !in Ids(r) && Ids(l) !! Ids(r) && Distinct(l) && Distinct(r)
  }

  /** Keys strictly ascend along the sequence. */
  ghost predicate Ascending<V>(s: seq<Cell<V>>) {
    forall i, j :: 0 <= i < j < |s| ==> s[i].key < s[j].key
  }

  /** The descent for `k` stops at the top of `t`. */
  predicate AtRoot<V>(t: Tree<V>, k: int) {
    t.Empty? || t.key == k
  }

  /**
   * The subtree a descent for `k` stops at: the node holding `k`, or the
   * empty slot where `k` would be attached.
   */
  function Find<V>(t: Tree<V>, k: int): Tree<V> {
    match t
    case Empty => Empty
    case Node(l, _, nk, _, r) =>
      if k == nk then t else if k > nk then Find(r, k) else Find(l, k)
  }

  /** The node above the position `Find(t, k)`; `up` is the node above `t`. */
  function ParentLink<V>(t: Tree<V>, k: int, up: Link): Link {
    match t
    case Empty => up
    case Node(l, id, nk, _, r) =>
      if k == nk then up else if k > nk then ParentLink(r, k, Ptr(id)) else ParentLink(l, k, Ptr(id))
  }

  /** `t` with the subtree at position `Find(t, k)` replaced by `s`. */
  function ReplaceAt<V>(t: Tree<V>, k: int, s: Tree<V>): Tree<V> {
    match t
    case Empty => s
    case Node(l, id, nk, v, r) =>
      if k == nk then s
      else if k > nk then Node(l, id, nk, v, ReplaceAt(r, k, s))
      else Node(ReplaceAt(l, k, s), id, nk, v, r)
  }

  /** The in-order walk up to position `Find(t, k)`. */
  function Before<V>(t: Tree<V>, k: int): seq<Cell<V>> {
    match t
    case Empty => []
    case Node(l, id, nk, v, r) =>
      if k == nk then [] else if k > nk then Inorder(l) + [Cell(nk, id, v)] + Before(r, k) else Before(l, k)
  }

  /** The in-order walk after position `Find(t, k)`. */
  function After<V>(t: Tree<V>, k: int): seq<Cell<V>> {
    match t
    case Empty => []
    case Node(l, id, nk, v, r) =>
      if k == nk then [] else if k > nk then After(r, k) else After(l, k) + [Cell(nk, id, v)] + Inorder(r)
  }

  /** Insertion: a new leaf in node cell `n` takes the empty slot the descent for `k` reaches. */
  function Insert<V>(t: Tree<V>, k: int, v: V, n: nat): Tree<V> {
    ReplaceAt(t, k, Node(Empty, n, k, v, Empty))
  }

  /** The leftmost subtree of `t`, whose top node holds the least key. */
  function Min<V>(t: Tree<V>): (m: Tree<V>)
    requires t.Node?
    ensures m.Node? && m.left.Empty?
  {
    if t.left.Empty? then t else Min(t.left)
  }

  /** `t` with its leftmost node unlinked; that node's right subtree moves up into its slot. */
  function RemoveMin<V>(t: Tree<V>): Tree<V>
    requires t.Node?
  {
    if t.left.Empty? then t.right else Node(RemoveMin(t.left), t.id, t.key, t.value, t.right)
  }

  /**
   * A node's subtree once the node itself is taken out: the left subtree when
   * there is no right one; otherwise the leftmost node of the right subtree moves
   * into the node's place, keeping both subtrees.
   */
  function Splice<V>(t: Tree<V>): Tree<V> {
    match t
    case Empty => Empty
    case Node(l, _, _, _, r) =>
      if r.Empty? then l else Node(l, Min(r).id, Min(r).key, Min(r).value, RemoveMin(r))
  }

  /** Removal of the node holding `k`. */
  function Delete<V>(t: Tree<V>, k: int): Tree<V> {
    ReplaceAt(t, k, Splice(Find(t, k)))
  }

  /** The keys whose node has neither a left nor a right child. */
  ghost function LeafKeys<V>(t: Tree<V>): set<int> {
    set k | k in Keys(t) && Find(t, k).Node? && Find(t, k).left.Empty? && Find(t, k).right.Empty?
  }

  // ---------------------------------------------------------------------------
  // Keys, cells and order
  // ---------------------------------------------------------------------------

  lemma {:induction false} InorderMembers<V>(t: Tree<V>)
    ensures forall x :: x in Inorder(t) ==> x.key in Keys(t) && x.id in Ids(t)
    ensures forall j :: j in Keys(t) ==> exists x :: x in Inorder(t) && x.key == j
  {
    match t
    case Empty =>
    case Node(l, id, k, v, r) =>
      InorderMembers(l); InorderMembers(r);
      assert Cell(k, id, v) in Inorder(t);
  }

  /** Ascending is closed under taking a slice. */
  lemma AscendingSlice<V>(s: seq<Cell<V>>, i: nat, j: nat)
    requires Ascending(s) && i <= j <= |s|
    ensures Ascending(s[i..j])
  {
    forall a, b | 0 <= a < b < j - i ensures s[i..j][a].key < s[i..j][b].key {
      assert s[i..j][a] == s[i + a] && s[i..j][b] == s[i + b];
    }
  }

  lemma AscendingSplit<V>(a: seq<Cell<V>>, c: Cell<V>, b: seq<Cell<V>>)
    requires Ascending(a + [c] + b)
    ensures Ascending(a) && Ascending(b)
    ensures forall x :: x in a ==> x.key < c.key
    ensures forall x :: x in b ==> c.key < x.key
  {
    var s := a + [c] + b;
    assert a == s[..|a|] && b == s[|a| + 1..];
    AscendingSlice(s, 0, |a|);
    AscendingSlice(s, |a| + 1, |s|);
    forall x | x in a ensures x.key < c.key {
      var i :| 0 <= i < |a| && a[i] == x;
      assert s[i] == x && s[|a|] == c;
    }
    forall x | x in b ensures c.key < x.key {
      var i :| 0 <= i < |b| && b[i] == x;
      assert s[|a| + 1 + i] == x && s[|a|] == c;
    }
  }

  lemma AscendingJoin<V>(a: seq<Cell<V>>, c: Cell<V>, b: seq<Cell<V>>)
    requires Ascending(a) && Ascending(b)
    requires forall x :: x in a ==> x.key < c.key
    requires forall x :: x in b ==> c.key < x.key
    ensures Ascending(a + [c] + b)
  {
    var s := a + [c] + b;
    forall i, j | 0 <= i < j < |s| ensures s[i].key < s[j].key {
      if j < |a| {
        assert s[i] == a[i] && s[j] == a[j];
      } else if i < |a| {
        assert s[i] == a[i] && a[i] in a;
        if j > |a| { assert s[j] == b[j - |a| - 1] && b[j - |a| - 1] in b; }
      } else if i == |a| {
        assert s[j] == b[j - |a| - 1] && b[j - |a| - 1] in b;
      } else {
        assert s[i] == b[i - |a| - 1] && s[j] == b[j - |a| - 1];
      }
    }
  }

  /** The search-tree order holds exactly when the keys of the in-order walk strictly ascend. */
  lemma {:induction false} OrderedIffAscending<V>(t: Tree<V>)
    ensures Ordered(t) <==> Ascending(Inorder(t))
  {
    match t
    case Empty =>
    case Node(l, id, k, v, r) =>
      OrderedIffAscending(l); OrderedIffAscending(r);
      InorderMembers(l); InorderMembers(r);
      if Ascending(Inorder(t)) {
        AscendingSplit(Inorder(l), Cell(k, id, v), Inorder(r));
      }
      if Ordered(t) {
        AscendingJoin(Inorder(l), Cell(k, id, v), Inorder(r));
      }
  }

  /** In a strictly ascending sequence a key determines its position. */
  lemma AscendingPosition<V>(a: seq<Cell<V>>, c: Cell<V>, b: seq<Cell<V>>, a': seq<Cell<V>>, c': Cell<V>, b': seq<Cell<V>>)
    requires Ascending(a + [c] + b) && a + [c] + b == a' + [c'] + b' && c.key == c'.key
    ensures a == a' && c == c' && b == b'
  {
    var s := a + [c] + b;
    assert s[|a|] == c && s[|a'|] == c';
    if |a| < |a'| || |a'| < |a| {
      assert false;
    }
    assert a == s[..|a|] && a' == s[..|a'|];
    assert b == s[|a| + 1..] && b' == s[|a'| + 1..];
  }

  // ---------------------------------------------------------------------------
  // The descent
  // ---------------------------------------------------------------------------

  /** A position of the descent is a subtree: its keys, cells, order and distinctness carry over. */
  lemma {:induction false} FindSub<V>(t: Tree<V>, k: int)
    ensures Keys(Find(t, k)) <= Keys(t) && Ids(Find(t, k)) <= Ids(t)
    ensures |Inorder(Find(t, k))| <= |Inorder(t)|
    ensures Ordered(t) ==> Ordered(Find(t, k))
    ensures Distinct(t) ==> Distinct(Find(t, k))
  {
    match t
    case Empty =>
    case Node(l, _, nk, _, r) =>
      if k > nk {
        FindSub(r, k);
      } else if k < nk {
        FindSub(l, k);
      }
  }

  /** A descent that stops at a node stops at the node holding the key sought. */
  lemma {:induction false} FindHolds<V>(t: Tree<V>, k: int)
    ensures Find(t, k).Node? ==> Find(t, k).key == k && k in Keys(t)
  {
    match t
    case Empty =>
    case Node(l, _, nk, _, r) =>
      if k > nk { FindHolds(r, k); } else if k < nk { FindHolds(l, k); }
  }

  /** In an ordered tree the descent for `k` reaches a node exactly when `k` is stored, and that node holds `k`. */
  lemma {:induction false} FindKey<V>(t: Tree<V>, k: int)
    requires Ordered(t)
    ensures Find(t, k).Node? <==> k in Keys(t)
    ensures k in Keys(t) ==> Find(t, k).key == k
  {
    match t
    case Empty =>
    case Node(l, _, nk, _, r) =>
      if k > nk {
        FindKey(r, k);
        assert k !in Keys(l);
      } else if k < nk {
        FindKey(l, k);
        assert k !in Keys(r);
      }
  }

  /** The descent for the key of a cell of the walk reaches that cell's node. */
  lemma {:induction false} FindCell<V>(t: Tree<V>, x: Cell<V>)
    requires Ordered(t) && x in Inorder(t)
    ensures Find(t, x.key).Node?
    ensures Find(t, x.key).key == x.key && Find(t, x.key).id == x.id && Find(t, x.key).value == x.value
  {
    match t
    case Empty =>
    case Node(l, id, k, v, r) =>
      InorderMembers(l); InorderMembers(r);
      if x in Inorder(l) {
        FindCell(l, x);
      } else if x in Inorder(r) {
        FindCell(r, x);
      }
  }

  /** A descent for a key inside a position passes through that position. */
  lemma {:induction false} FindWithin<V>(t: Tree<V>, k: int, j: int)
    requires Ordered(t) && j in Keys(Find(t, k))
    ensures Find(t, j) == Find(Find(t, k), j)
  {
    match t
    case Empty =>
    case Node(l, _, nk, _, r) =>
      if k > nk {
        FindSub(r, k);
        FindWithin(r, k, j);
      } else if k < nk {
        FindSub(l, k);
        FindWithin(l, k, j);
      }
  }

  lemma {:induction false} FindReplaced<V>(t: Tree<V>, k: int)
    ensures ReplaceAt(t, k, Find(t, k)) == t
  {
    match t
    case Empty =>
    case Node(l, _, nk, _, r) =>
      if k > nk {
        FindReplaced(r, k);
      } else if k < nk {
        FindReplaced(l, k);
      }
  }

  /** The node above a position below the top is a node of the tree. */
  lemma {:induction false} ParentInside<V>(t: Tree<V>, k: int, up: Link)
    ensures AtRoot(t, k) ==> ParentLink(t, k, up) == up
    ensures !AtRoot(t, k) ==> ParentLink(t, k, up).Ptr? && ParentLink(t, k, up).id in Ids(t)
  {
    match t
    case Empty =>
    case Node(l, id, nk, _, r) =>
      if k > nk {
        ParentInside(r, k, Ptr(id));
      } else if k < nk {
        ParentInside(l, k, Ptr(id));
      }
  }

  /** The node above a position below the top lies outside that position. */
  lemma {:induction false} ParentOutside<V>(t: Tree<V>, k: int, up: Link)
    requires Distinct(t) && !AtRoot(t, k)
    ensures ParentLink(t, k, up).Ptr? && ParentLink(t, k, up).id !in Ids(Find(t, k))
  {
    var l, id, nk, r := t.left, t.id, t.key, t.right;
    var c := if k > nk then r else l;
    FindSub(c, k);
    if !AtRoot(c, k) {
      ParentOutside(c, k, Ptr(id));
    }
  }

  // ---------------------------------------------------------------------------
  // Replacing the subtree at a position
  // ---------------------------------------------------------------------------

  /** Replacing a position changes the in-order walk only between what comes before and after it. */
  lemma {:induction false} ReplaceInorder<V>(t: Tree<V>, k: int, s: Tree<V>)
    ensures Inorder(ReplaceAt(t, k, s)) == Before(t, k) + Inorder(s) + After(t, k)
  {
    match t
    case Empty =>
    case Node(l, id, nk, v, r) =>
      if k > nk {
        ReplaceInorder(r, k, s);
        Regroup3(Inorder(l) + [Cell(nk, id, v)], Before(r, k), Inorder(s), After(r, k));
      } else if k < nk {
        ReplaceInorder(l, k, s);
        Regroup3(Before(l, k), Inorder(s), After(l, k), [Cell(nk, id, v)] + Inorder(r));
      }
  }

  lemma Regroup3<T>(a: seq<T>, b: seq<T>, c: seq<T>, d: seq<T>)
    ensures a + (b + c + d) == (a + b) + c + d
    ensures (a + b + c) + d == a + b + (c + d)
  {
  }

  /** The walk splits around any position. */
  lemma InorderAround<V>(t: Tree<V>, k: int)
    ensures Inorder(t) == Before(t, k) + Inorder(Find(t, k)) + After(t, k)
  {
    FindReplaced(t, k);
    ReplaceInorder(t, k, Find(t, k));
  }

  /** Every key before a position is smaller than `k`, every key after it larger. */
  lemma {:induction false} BeforeAfterBounds<V>(t: Tree<V>, k: int)
    requires Ordered(t)
    ensures forall x :: x in Before(t, k) ==> x.key < k
    ensures forall x :: x in After(t, k) ==> k < x.key
  {
    match t
    case Empty =>
    case Node(l, _, nk, _, r) =>
      InorderMembers(l); InorderMembers(r);
      if k > nk {
        BeforeAfterBounds(r, k);
      } else if k < nk {
        BeforeAfterBounds(l, k);
      }
  }

  /** Replacing a position swaps its node cells for those of the replacement. */
  lemma {:induction false} ReplaceIds<V>(t: Tree<V>, k: int, s: Tree<V>)
    requires Distinct(t)
    ensures Ids(ReplaceAt(t, k, s)) == (Ids(t) - Ids(Find(t, k))) + Ids(s)
  {
    match t
    case Empty =>
    case Node(l, id, nk, v, r) =>
      if k > nk {
        FindSub(r, k);
        ReplaceIds(r, k, s);
        SetMinusRight(Ids(l), id, Ids(r), Ids(Find(r, k)), Ids(s));
      } else if k < nk {
        FindSub(l, k);
        ReplaceIds(l, k, s);
        SetMinusRight(Ids(r), id, Ids(l), Ids(Find(l, k)), Ids(s));
      }
  }

  /** Taking out part `d` of `c` from `a + {x} + c`, and adding `e`, only touches `c`. */
  lemma SetMinusRight(a: set<nat>, x: nat, c: set<nat>, d: set<nat>, e: set<nat>)
    requires d <= c && a !! c && x !in c
    ensures (a + {x} + c) - d + e == a + {x} + (c - d + e)
    ensures (c + {x} + a) - d + e == (c - d + e) + {x} + a
  {
  }

  /** A replacement with distinct cells, none of them used elsewhere in the tree, keeps the cells distinct. */
  lemma {:induction false} ReplaceDistinct<V>(t: Tree<V>, k: int, s: Tree<V>)
    requires Distinct(t) && Distinct(s) && Ids(s) !! (Ids(t) - Ids(Find(t, k)))
    ensures Distinct(ReplaceAt(t, k, s))
  {
    match t
    case Empty =>
    case Node(l, id, nk, v, r) =>
      if k > nk {
        FindSub(r, k);
        ReplaceIds(r, k, s);
        ReplaceDistinct(r, k, s);
      } else if k < nk {
        FindSub(l, k);
        ReplaceIds(l, k, s);
        ReplaceDistinct(l, k, s);
      }
  }

  // ---------------------------------------------------------------------------
  // The leftmost node
  // ---------------------------------------------------------------------------

  /** The leftmost node comes first in the walk; unlinking it leaves the rest of the walk. */
  lemma {:induction false} MinInorder<V>(t: Tree<V>)
    requires t.Node?
    ensures Inorder(t) == [Top(Min(t))] + Inorder(RemoveMin(t))
    ensures Keys(t) == Keys(RemoveMin(t)) + {Min(t).key}
    ensures Ids(t) == Ids(RemoveMin(t)) + {Min(t).id}
  {
    if t.left.Node? {
      MinInorder(t.left);
    }
  }

  /** The leftmost node holds the least key; unlinking it is replacing its position by its right subtree. */
  lemma {:induction false} MinOrdered<V>(t: Tree<V>)
    requires t.Node? && Ordered(t)
    ensures forall j :: j in Keys(t) ==> Min(t).key <= j
    ensures Ordered(RemoveMin(t)) && Min(t).key !in Keys(RemoveMin(t))
    ensures Find(t, Min(t).key) == Min(t)
    ensures ReplaceAt(t, Min(t).key, Min(t).right) == RemoveMin(t)
  {
    MinInorder(t);
    if t.left.Node? {
      MinOrdered(t.left);
      MinInorder(t.left);
      assert Min(t).key in Keys(t.left);
    }
  }

  lemma {:induction false} MinDistinct<V>(t: Tree<V>)
    requires t.Node? && Distinct(t)
    ensures Distinct(RemoveMin(t)) && Min(t).id !in Ids(RemoveMin(t))
  {
    MinInorder(t);
    if t.left.Node? {
      MinDistinct(t.left);
      MinInorder(t.left);
    }
  }


  /** The keys of a stretch of the walk. */
  ghost function KeysOf<V>(s: seq<Cell<V>>): set<int> {
    set x | x in s :: x.key
  }

  lemma KeysOfJoin<V>(a: seq<Cell<V>>, b: seq<Cell<V>>)
    ensures KeysOf(a + b) == KeysOf(a) + KeysOf(b)
  {
    assert forall x :: x in a + b <==> x in a || x in b;
  }

  /** The keys of a tree are the keys its walk meets. */
  lemma {:induction false} InorderKeys<V>(t: Tree<V>)
    ensures Keys(t) == KeysOf(Inorder(t))
  {
    match t
    case Empty =>
    case Node(l, id, k, v, r) =>
      InorderKeys(l); InorderKeys(r);
      KeysOfJoin(Inorder(l), [Cell(k, id, v)]);
      KeysOfJoin(Inorder(l) + [Cell(k, id, v)], Inorder(r));
      assert KeysOf([Cell(k, id, v)]) == {k};
  }

  /** Dropping one element keeps a sequence ascending. */
  lemma AscendingDrop<V>(a: seq<Cell<V>>, c: Cell<V>, b: seq<Cell<V>>)
    requires Ascending(a + [c] + b)
    ensures Ascending(a + b)
  {
    var s := a + [c] + b;
    forall i, j | 0 <= i < j < |a + b| ensures (a + b)[i].key < (a + b)[j].key {
      var i' := if i < |a| then i else i + 1;
      var j' := if j < |a| then j else j + 1;
      assert (a + b)[i] == s[i'] && (a + b)[j] == s[j'];
    }
  }

  // ---------------------------------------------------------------------------
  // Insertion
  // ---------------------------------------------------------------------------

  /** A fresh key goes between the keys below it and those above it: exactly one pair is added. */
  lemma {:induction false} InsertInorder<V>(t: Tree<V>, k: int, v: V, n: nat)
    requires Ordered(t) && k !in Keys(t)
    ensures Find(t, k).Empty?
    ensures Inorder(t) == Before(t, k) + After(t, k)
    ensures Inorder(Insert(t, k, v, n)) == Before(t, k) + [Cell(k, n, v)] + After(t, k)
    ensures |Inorder(Insert(t, k, v, n))| == |Inorder(t)| + 1
  {
    var a, b, s := Before(t, k), After(t, k), Node(Empty, n, k, v, Empty);
    FindKey(t, k);
    InorderAround(t, k);
    assert Inorder(Find(t, k)) == [] && Inorder(s) == [Cell(k, n, v)];
    ReplaceInorder(t, k, s);
  }

  lemma {:induction false} InsertKeys<V>(t: Tree<V>, k: int, v: V, n: nat)
    requires Ordered(t) && k !in Keys(t)
    ensures Keys(Insert(t, k, v, n)) == Keys(t) + {k}
  {
    var a, b, c := Before(t, k), After(t, k), Cell(k, n, v);
    InsertInorder(t, k, v, n);
    InorderKeys(t); InorderKeys(Insert(t, k, v, n));
    KeysOfJoin(a, b); KeysOfJoin(a, [c]); KeysOfJoin(a + [c], b);
    assert KeysOf([c]) == {k};
  }

  /** Insertion of a fresh key keeps the search-tree order. */
  lemma InsertOrdered<V>(t: Tree<V>, k: int, v: V, n: nat)
    requires Ordered(t) && k !in Keys(t)
    ensures Ordered(Insert(t, k, v, n))
  {
    var a, b := Before(t, k), After(t, k);
    InsertInorder(t, k, v, n);
    OrderedIffAscending(t);
    OrderedIffAscending(Insert(t, k, v, n));
    BeforeAfterBounds(t, k);
    assert a == (a + b)[..|a|] && b == (a + b)[|a|..];
    AscendingSlice(a + b, 0, |a|);
    AscendingSlice(a + b, |a|, |a + b|);
    AscendingJoin(a, Cell(k, n, v), b);
  }

  /** Insertion in a fresh node cell keeps the cells distinct and adds exactly that cell. */
  lemma {:induction false} InsertDistinct<V>(t: Tree<V>, k: int, v: V, n: nat)
    requires Ordered(t) && Distinct(t) && k !in Keys(t) && n !in Ids(t)
    ensures Distinct(Insert(t, k, v, n)) && Ids(Insert(t, k, v, n)) == Ids(t) + {n}
  {
    FindKey(t, k);
    ReplaceIds(t, k, Node(Empty, n, k, v, Empty));
    ReplaceDistinct(t, k, Node(Empty, n, k, v, Empty));
  }


  // ---------------------------------------------------------------------------
  // Removal
  // ---------------------------------------------------------------------------

  /** Taking out the top node of a subtree leaves the walks of both its subtrees, in order. */
  lemma SpliceInorder<V>(x: Tree<V>)
    requires x.Node?
    ensures Inorder(Splice(x)) == Inorder(x.left) + Inorder(x.right)
    ensures Keys(Splice(x)) == Keys(x.left) + Keys(x.right)
    ensures Ids(Splice(x)) == Ids(x.left) + Ids(x.right)
  {
    if x.right.Node? {
      MinInorder(x.right);
    }
  }

  lemma SpliceDistinct<V>(x: Tree<V>)
    requires x.Node? && Distinct(x)
    ensures Distinct(Splice(x)) && Ids(Splice(x)) == Ids(x) - {x.id}
  {
    SpliceInorder(x);
    if x.right.Node? {
      MinDistinct(x.right);
      MinInorder(x.right);
      assert Min(x.right).id in Ids(x.right);
    }
  }

  /** The walk up to the node holding `k`, and the walk after it. */
  ghost function Below<V>(t: Tree<V>, k: int): seq<Cell<V>> {
    Before(t, k) + (if Find(t, k).Node? then Inorder(Find(t, k).left) else [])
  }

  ghost function Above<V>(t: Tree<V>, k: int): seq<Cell<V>> {
    (if Find(t, k).Node? then Inorder(Find(t, k).right) else []) + After(t, k)
  }

  lemma Regroup<T>(b: seq<T>, l: seq<T>, c: T, r: seq<T>, a: seq<T>)
    ensures (b + l) + [c] + (r + a) == b + (l + [c] + r) + a
    ensures (b + l) + (r + a) == b + (l + r) + a
  {
  }

  /** Removing a stored key drops exactly its pair from the walk. */
  lemma DeleteInorder<V>(t: Tree<V>, k: int)
    requires Ordered(t) && k in Keys(t)
    ensures Find(t, k).Node? && Find(t, k).key == k
    ensures Inorder(t) == Below(t, k) + [Top(Find(t, k))] + Above(t, k)
    ensures Inorder(Delete(t, k)) == Below(t, k) + Above(t, k)
    ensures |Inorder(Delete(t, k))| == |Inorder(t)| - 1
  {
    var x := Find(t, k);
    FindKey(t, k);
    var b, a, l, r := Before(t, k), After(t, k), Inorder(x.left), Inorder(x.right);
    assert Below(t, k) == b + l && Above(t, k) == r + a;
    InorderAround(t, k);
    assert Inorder(x) == l + [Top(x)] + r;
    SpliceInorder(x);
    ReplaceInorder(t, k, Splice(x));
    Regroup(b, l, Top(x), r, a);
  }

  /** The walk after a removal is the walk before it, less the removed pair, wherever the walk is split around it. */
  lemma DeleteWalk<V>(t: Tree<V>, a: seq<Cell<V>>, c: Cell<V>, b: seq<Cell<V>>)
    requires Ordered(t) && Inorder(t) == a + [c] + b
    ensures c.key in Keys(t) && Inorder(Delete(t, c.key)) == a + b
  {
    InorderMembers(t);
    assert c in Inorder(t);
    DeleteInorder(t, c.key);
    OrderedIffAscending(t);
    AscendingPosition(a, c, b, Below(t, c.key), Top(Find(t, c.key)), Above(t, c.key));
  }

  lemma KeysOfDrop<V>(a: seq<Cell<V>>, c: Cell<V>, b: seq<Cell<V>>)
    requires forall x :: x in a ==> x.key < c.key
    requires forall x :: x in b ==> c.key < x.key
    ensures KeysOf(a + b) == KeysOf(a + [c] + b) - {c.key}
  {
    KeysOfJoin(a, b); KeysOfJoin(a, [c]); KeysOfJoin(a + [c], b);
    assert KeysOf([c]) == {c.key};
  }

  lemma DeleteKeys<V>(t: Tree<V>, k: int)
    requires Ordered(t) && k in Keys(t)
    ensures Keys(Delete(t, k)) == Keys(t) - {k}
  {
    DeleteInorder(t, k);
    var a, b, c := Below(t, k), Above(t, k), Top(Find(t, k));
    InorderKeys(t); InorderKeys(Delete(t, k));
    OrderedIffAscending(t);
    AscendingSplit(a, c, b);
    KeysOfDrop(a, c, b);
  }

  /** Removal keeps the search-tree order. */
  lemma DeleteOrdered<V>(t: Tree<V>, k: int)
    requires Ordered(t) && k in Keys(t)
    ensures Ordered(Delete(t, k))
  {
    DeleteInorder(t, k);
    OrderedIffAscending(t);
    OrderedIffAscending(Delete(t, k));
    AscendingDrop(Below(t, k), Top(Find(t, k)), Above(t, k));
  }

  /** Removal frees exactly the removed node's cell and keeps the others distinct. */
  lemma DeleteDistinct<V>(t: Tree<V>, k: int)
    requires Ordered(t) && Distinct(t) && k in Keys(t)
    ensures Find(t, k).Node?
    ensures Distinct(Delete(t, k)) && Ids(Delete(t, k)) == Ids(t) - {Find(t, k).id}
  {
    var x := Find(t, k);
    FindKey(t, k);
    FindSub(t, k);
    SpliceDistinct(x);
    ReplaceIds(t, k, Splice(x));
    ReplaceDistinct(t, k, Splice(x));
  }

  /** Removing a key that is not stored changes nothing. */
  lemma {:induction false} DeleteAbsent<V>(t: Tree<V>, k: int)
    requires Ordered(t) && k !in Keys(t)
    ensures Delete(t, k) == t
  {
    FindKey(t, k);
    FindReplaced(t, k);
  }


  // ---------------------------------------------------------------------------
  // Walking the tree in order
  // ---------------------------------------------------------------------------

  /** A nonempty rest of the walk starts at a node; after that node come its right subtree and what follows its position. */
  lemma Successors<V>(t: Tree<V>, seen: seq<Cell<V>>, rest: seq<Cell<V>>)
    requires Ordered(t) && Inorder(t) == seen + rest && rest != []
    ensures rest[0].key in Keys(t) && Find(t, rest[0].key).Node? && Top(Find(t, rest[0].key)) == rest[0]
    ensures rest[1..] == Inorder(Find(t, rest[0].key).right) + After(t, rest[0].key)
  {
    var c := rest[0];
    assert seen + rest == seen + [c] + rest[1..];
    DeleteWalk(t, seen, c, rest[1..]);
    DeleteInorder(t, c.key);
    OrderedIffAscending(t);
    AscendingPosition(seen, c, rest[1..], Below(t, c.key), Top(Find(t, c.key)), Above(t, c.key));
  }

  /** The node above the node holding `k`, with `k` at the top of its left or of its right subtree. */
  lemma {:induction false} ParentChild<V>(t: Tree<V>, k: int, up: Link) returns (pk: int)
    requires Ordered(t) && k in Keys(t) && !AtRoot(t, k)
    ensures pk in Keys(t) && Find(t, pk).Node? && Find(t, pk).key == pk
    ensures ParentLink(t, k, up) == Ptr(Find(t, pk).id)
    ensures |Inorder(Find(t, k))| < |Inorder(Find(t, pk))|
    ensures k < pk ==> Find(t, pk).left == Find(t, k)
    ensures pk < k ==> Find(t, pk).right == Find(t, k)
    ensures k != pk
  {
    var l, id, nk, v, r := t.left, t.id, t.key, t.value, t.right;
    if k < nk {
      assert k in Keys(l);
      if AtRoot(l, k) {
        pk := nk;
      } else {
        pk := ParentChild(l, k, Ptr(id));
        FindSub(l, pk);
      }
    } else {
      assert k in Keys(r);
      if AtRoot(r, k) {
        pk := nk;
      } else {
        pk := ParentChild(r, k, Ptr(id));
        FindSub(r, pk);
      }
    }
  }

  /** A node's leaves are the leaves of its two subtrees, or the node itself when it has no child. */
  lemma LeafKeysSplit<V>(t: Tree<V>)
    requires t.Node? && Ordered(t)
    ensures t.left.Empty? && t.right.Empty? ==> LeafKeys(t) == {t.key}
    ensures !(t.left.Empty? && t.right.Empty?) ==> LeafKeys(t) == LeafKeys(t.left) + LeafKeys(t.right)
    ensures LeafKeys(t.left) !! LeafKeys(t.right)
  {
    var l, nk, r := t.left, t.key, t.right;
    forall j | j in LeafKeys(l) ensures j < nk {}
    forall j | j in LeafKeys(r) ensures nk < j {}
    forall j ensures j in LeafKeys(t) <==> (if l.Empty? && r.Empty? then j == nk else j in LeafKeys(l) || j in LeafKeys(r)) {
      if j < nk {
        assert j in Keys(t) <==> j in Keys(l);
      } else if nk < j {
        assert j in Keys(t) <==> j in Keys(r);
      }
    }
  }

  /** After a left child the walk goes on with its parent, the parent's right subtree and what follows the parent. */
  lemma {:induction false} AfterLeftChild<V>(t: Tree<V>, k: int, pk: int)
    requires Ordered(t) && Find(t, pk).Node? && Find(t, pk).key == pk
    requires Find(t, pk).left.Node? && Find(t, pk).left.key == k
    ensures After(t, k) == [Top(Find(t, pk))] + Inorder(Find(t, pk).right) + After(t, pk)
  {
    var l, nk, r := t.left, t.key, t.right;
    if pk < nk {
      FindSub(l, pk);
      assert k in Keys(Find(l, pk)) && k < pk;
      AfterLeftChild(l, k, pk);
      assert Find(t, pk) == Find(l, pk) && k < nk;
      assert After(t, k) == After(l, k) + [Top(t)] + Inorder(r) && After(t, pk) == After(l, pk) + [Top(t)] + Inorder(r);
    } else if nk < pk {
      FindSub(r, pk);
      assert k in Keys(Find(r, pk)) && k in Keys(r);
      AfterLeftChild(r, k, pk);
      assert Find(t, pk) == Find(r, pk) && nk < k;
      assert After(t, k) == After(r, k) && After(t, pk) == After(r, pk);
    } else {
      assert Find(t, pk) == t && l.key == k && k in Keys(l) && k < nk;
      assert After(l, k) == [] && After(t, pk) == [];
      assert After(t, k) == After(l, k) + [Top(t)] + Inorder(r);
    }
  }

  /** After a right child the walk goes on with what follows its parent. */
  lemma {:induction false} AfterRightChild<V>(t: Tree<V>, k: int, pk: int)
    requires Ordered(t) && Find(t, pk).Node? && Find(t, pk).key == pk
    requires Find(t, pk).right.Node? && Find(t, pk).right.key == k
    ensures After(t, k) == After(t, pk)
  {
    var l, nk, r := t.left, t.key, t.right;
    if pk < nk {
      FindSub(l, pk);
      assert k in Keys(Find(l, pk)) && k in Keys(l);
      AfterRightChild(l, k, pk);
      assert Find(t, pk) == Find(l, pk) && k < nk;
      assert After(t, k) == After(l, k) + [Top(t)] + Inorder(r) && After(t, pk) == After(l, pk) + [Top(t)] + Inorder(r);
    } else if nk < pk {
      FindSub(r, pk);
      assert k in Keys(Find(r, pk)) && pk < k;
      AfterRightChild(r, k, pk);
      assert Find(t, pk) == Find(r, pk) && nk < k;
      assert After(t, k) == After(r, k) && After(t, pk) == After(r, pk);
    } else {
      assert Find(t, pk) == t && r.key == k && k in Keys(r) && nk < k;
      assert After(r, k) == [] && After(t, pk) == [];
      assert After(t, k) == After(r, k);
    }
  }

  /** There are no more leaves than nodes. */
  lemma {:induction false} LeafKeysBound<V>(t: Tree<V>)
    requires Ordered(t)
    ensures |LeafKeys(t)| <= |Inorder(t)|
  {
    if t.Node? {
      LeafKeysSplit(t);
      LeafKeysBound(t.left);
      LeafKeysBound(t.right);
    }
  }
}
