# BinaryTreeImpl in Dafny

A model of `BinaryTreeImpl`, an unbalanced binary search tree with parent links and
an in-order iterator. It maps unique keys to values. The model proves what each of its
operations does to the tree:

- `addElement` (public and private overloads) attaches a new leaf;
- `getElement` looks a key up;
- `removeElement(Node)` unlinks a node, and `removeElement(K)` looks it up first;
- `getCountOfLeaves` and `getMin`;
- `TreeIterator` (constructor, `hasNext`, `next`, `remove`).

Modules:

- `Errors`: the exceptions the code throws, as values (`Error`); `Result<T>`, the
  outcome of a call that either returns or throws; and `Option<T>`, a key that may be null.
- `Shape`: the abstract tree `Tree<V>` (`Empty | Node(left, id, key, value, right)`,
  where `id` names the node's cell). It also holds:
  - pure operations on it: descent `Find`, `Insert`, `Min`/`RemoveMin`, `Splice`, `Delete`;
  - views of it: `Inorder`, `Keys`, `Ids`, `LeafKeys`, and `Before`/`After`, the cells
    on either side of a key;
  - lemmas on how these fit together.
- `Arena`: the Java nodes are records `NodeRec(key, value, left, right, parent)` in a
  sequence of cells, and a node reference is a `Link` (`Nil` or `Ptr(id)`). It holds:
  - `Shaped(t, n)`: the cells `n`, followed through left and right links, realise `t`;
  - `Parents(t, n, up)`: every parent link is the inverse of a child link;
  - the cell updates the code performs, and lemmas about them.
- `Removal`: lemmas showing that the link updates of `removeElement(Node)` realise
  `Delete`, in both of its cases. When the node has no right child, its left child is
  lifted. When it has one, the leftmost node of the right subtree is first unlinked and
  then spliced into the removed node's place.
- `BinaryTreeImpl`: the classes.
  - `BinaryTree` holds `root` and the cells `nodes`, updated in place as the Java code
    does. A ghost `shape` is the tree they realise. `Valid()` says the cells realise an
    ordered tree; `Linked()` adds that the parent links are in place.
  - `TreeIterator` keeps `next` and `current` as the Java iterator does. The ghost
    fields `done` and `rest` split the in-order walk.
- `Scenarios`: the repository's unit tests, stated as methods whose contracts give the
  walks, counts and errors the tests assert. Further scenarios show the behaviours listed below.

Keys are `int`. The Java `null` key is `Option.None`.

### Behaviour of the code as written

The model follows the code, not the cleaner description of what it should do. Four
places differ from a textbook tree; each is stated in a contract or a verified assertion:

1. **Removing the last remaining node.** `removeElement(Node)` sets `root` to null and
   then calls `setParent` on it. The model ends that call in `Fail(NullPointer)`, and the
   tree is left empty (`LastRemoval`, scenario `RemoveLast`).
2. **Stale parent link.** A node below the top that has a left child but no right child
   is removed by hooking the left child into its parent's slot. The child's own parent
   link is never updated, so it still names the removed node. The tree stays ordered and
   reachable, but `Linked()` no longer holds (`StaleRemoval`, scenario
   `RemoveLeftChainMiddle`). A walk that later climbs through that child follows the
   stale link back to the removed node (BinaryTreeImpl.java:133-145). On the chain
   3, 2, 1 with 2 removed, a new iterator yields 1, then the removed key 2, and then
   stops without ever yielding 3. `Next` requires `Linked()`, which excludes this state,
   so the model does not walk such a tree.
3. **`remove()` before `next()`.** The iterator's `current` is null, and the removal
   fails on its first dereference (scenario `RemoveBeforeNext`).
4. **Unreachable branch.** The `ImpossibleBinaryTreeException` branch of the private
   `getElement` cannot be reached, because integer keys are totally ordered.

A textbook version would restore the parent links exactly after every removal, and
would refuse a null key before any lookup. The code does neither:

- the parent links are not restored in case 2;
- on an empty tree, the null-node check of `getElement` comes before the null-key
  check, so removing a null key from an empty tree reports a missing element.

The model follows the code in both places.

## Model

| member | source | states |
|---|---|---|
| BinaryTreeImpl.BinaryTree.constructor | src/main/java/com/noveogroup/tree/BinaryTreeImpl.java:12 | a new tree has no root and no nodes, and its (empty) parent links are in place |
| BinaryTreeImpl.BinaryTree.AddElement | src/main/java/com/noveogroup/tree/BinaryTreeImpl.java:155-161 | a null key fails with NullKey and changes nothing; a present key fails with ElementAlreadyExists and changes nothing; otherwise the tree becomes `Insert` of the key (a new leaf), one cell holding key, value and its parent is appended, ordering and parent links are kept, and `root` changes only when the tree was empty |
| BinaryTreeImpl.BinaryTree.AddAt | src/main/java/com/noveogroup/tree/BinaryTreeImpl.java:163-191 | the descent from `base` either finds the key (ElementAlreadyExists, no change) or appends a leaf whose parent is the node above the empty slot reached, and links it into that slot |
| BinaryTreeImpl.BinaryTree.GetElement | src/main/java/com/noveogroup/tree/BinaryTreeImpl.java:193-195 | succeeds exactly when the key is non-null and stored, returning the cell that holds it; otherwise NullKey (null key, non-empty tree) or ElementDoesNotExist |
| BinaryTreeImpl.BinaryTree.GetElementAt | src/main/java/com/noveogroup/tree/BinaryTreeImpl.java:197-218 | the recursive descent finds the node holding the key exactly when the abstract descent `Find` does; the null-node check precedes the null-key check, and the ImpossibleBinaryTree branch cannot be reached |
| BinaryTreeImpl.BinaryTree.RemoveNode | src/main/java/com/noveogroup/tree/BinaryTreeImpl.java:220-283 | a null node fails with NullPointer and changes nothing; otherwise the tree becomes `Delete` of the node's key and stays ordered. The call fails with NullPointer exactly when it removes the last node. Parent links stay in place exactly when the removal is not a left-child lift below the top; in that case the lifted child's parent still names the removed node, and every other parent link is in place |
| BinaryTreeImpl.BinaryTree.LiftLeftChild | src/main/java/com/noveogroup/tree/BinaryTreeImpl.java:223-235 | no right child: the left child takes the node's slot or becomes the root; the result is `Delete`, with the NullPointer outcome above; a stale parent link is left exactly in a lift below the top, and it is then the only parent link out of place |
| BinaryTreeImpl.BinaryTree.DetachSuccessor | src/main/java/com/noveogroup/tree/BinaryTreeImpl.java:237-256 | returns the leftmost node of the right subtree and unlinks it: the cells then realise `RemoveMin` of that subtree, parent links included, and only the removed node's right link and cells inside the subtree change |
| BinaryTreeImpl.BinaryTree.SpliceSuccessor | src/main/java/com/noveogroup/tree/BinaryTreeImpl.java:258-281 | the unlinked successor takes the removed node's parent, children and slot (or the root); afterwards the cells realise `Delete` with every parent link in place |
| BinaryTreeImpl.BinaryTree.RemoveElement | src/main/java/com/noveogroup/tree/BinaryTreeImpl.java:291-294 | a null or absent key fails (NullKey or ElementDoesNotExist) with no change; a present key is removed: keys lose exactly that key, the walk is one shorter, the tree is `Delete`, with the NullPointer and stale-parent outcomes of `RemoveNode`. Present or not, the tree left is `Delete` of the key. The tree's parent links must all be in place beforehand |
| BinaryTreeImpl.BinaryTree.Iterator | src/main/java/com/noveogroup/tree/BinaryTreeImpl.java:14-17 | a fresh iterator over this tree, with nothing handed out yet and the whole in-order walk to come |
| BinaryTreeImpl.BinaryTree.GetMin | src/main/java/com/noveogroup/tree/BinaryTreeImpl.java:325-335 | null for an empty subtree; otherwise the leftmost node, which has no left child and holds the smallest key of the subtree |
| BinaryTreeImpl.BinaryTree.GetCountOfLeaves | src/main/java/com/noveogroup/tree/BinaryTreeImpl.java:296-298 | the number of keys whose node has no children, at most the number of nodes |
| BinaryTreeImpl.BinaryTree.CountLeavesAt | src/main/java/com/noveogroup/tree/BinaryTreeImpl.java:300-323 | the recursive count on a subtree equals the number of its leaves |
| BinaryTreeImpl.TreeIterator.constructor | src/main/java/com/noveogroup/tree/BinaryTreeImpl.java:101-103 | `next` is the leftmost node, i.e. the first cell of the in-order walk (null for an empty tree); `current` is null |
| BinaryTreeImpl.TreeIterator.HasNext | src/main/java/com/noveogroup/tree/BinaryTreeImpl.java:110-113 | true exactly when cells of the walk are left |
| BinaryTreeImpl.TreeIterator.Next | src/main/java/com/noveogroup/tree/BinaryTreeImpl.java:115-146 | with nothing left: NoSuchElement and no change. Otherwise it hands out the value of the next cell in key order, which becomes `current`, and moves the walk one cell on; every key handed out before is smaller |
| BinaryTreeImpl.TreeIterator.SuccessorOf | src/main/java/com/noveogroup/tree/BinaryTreeImpl.java:123-145 | the walk down the right subtree, or up the parent links, ends at the in-order successor of the node (the first cell of its right subtree, else the first cell after its subtree), or null after the last |
| BinaryTreeImpl.TreeIterator.Remove | src/main/java/com/noveogroup/tree/BinaryTreeImpl.java:105-108 | before any `next`, NullPointer and no change; otherwise it removes the cell handed out last, leaving the walk to come unchanged; the iterator's `Valid()`, which `Next` requires, holds afterwards exactly when the removal leaves no stale parent link |
| Shape.InsertInorder | src/main/java/com/noveogroup/tree/BinaryTreeImpl.java:163-191 | insertion puts the new cell between the cells before and after its key in the walk, which grows by one |
| Shape.InsertKeys | src/main/java/com/noveogroup/tree/BinaryTreeImpl.java:163-191 | insertion adds exactly the new key |
| Shape.InsertOrdered | src/main/java/com/noveogroup/tree/BinaryTreeImpl.java:163-191 | insertion keeps the search-tree order |
| Shape.InsertDistinct | src/main/java/com/noveogroup/tree/BinaryTreeImpl.java:168-189 | insertion of a fresh cell keeps cells distinct and adds exactly that cell |
| Shape.DeleteInorder | src/main/java/com/noveogroup/tree/BinaryTreeImpl.java:220-283 | removal drops exactly the removed key's cell from the walk, keeping the rest in order |
| Shape.DeleteKeys | src/main/java/com/noveogroup/tree/BinaryTreeImpl.java:220-283 | removal removes exactly that key |
| Shape.DeleteOrdered | src/main/java/com/noveogroup/tree/BinaryTreeImpl.java:220-283 | removal keeps the search-tree order |
| Shape.DeleteDistinct | src/main/java/com/noveogroup/tree/BinaryTreeImpl.java:220-283 | removal keeps cells distinct and drops exactly the removed node's cell |
| Shape.DeleteAbsent | src/main/java/com/noveogroup/tree/BinaryTreeImpl.java:198-200 | removing a key that is not stored leaves the tree as it is |
| Shape.DeleteWalk | src/main/java/com/noveogroup/tree/BinaryTreeImpl.java:105-108 | removing a cell that sits between `a` and `b` in the walk leaves the walk `a + b` |
| Shape.SpliceInorder | src/main/java/com/noveogroup/tree/BinaryTreeImpl.java:258-281 | replacing a node by its successor leaves the walk of its two subtrees, their keys and their cells |
| Shape.MinInorder | src/main/java/com/noveogroup/tree/BinaryTreeImpl.java:325-335 | the leftmost node is the first cell of the walk, followed by the walk of the tree without it |
| Shape.MinOrdered | src/main/java/com/noveogroup/tree/BinaryTreeImpl.java:325-335 | the leftmost node holds the smallest key, and unlinking it keeps the order |
| Shape.OrderedIffAscending | src/main/java/com/noveogroup/tree/BinaryTreeImpl.java:115-146 | a tree is a search tree exactly when its in-order walk has strictly ascending keys |
| Shape.Successors | src/main/java/com/noveogroup/tree/BinaryTreeImpl.java:121-128 | the cell after a node in the walk is the first cell of its right subtree, else the first cell after its subtree |
| Shape.AfterLeftChild | src/main/java/com/noveogroup/tree/BinaryTreeImpl.java:138-141 | after a left child comes its parent, then the parent's right subtree, then what follows the parent |
| Shape.AfterRightChild | src/main/java/com/noveogroup/tree/BinaryTreeImpl.java:143 | after a right child's subtree comes what follows its parent |
| Shape.LeafKeysSplit | src/main/java/com/noveogroup/tree/BinaryTreeImpl.java:305-322 | the leaves of a node are itself when it has no child, else the leaves of its two subtrees, which are disjoint |
| Shape.LeafKeysBound | src/main/java/com/noveogroup/tree/BinaryTreeImpl.java:296-298 | there are at most as many leaves as nodes |
| Removal.LiftLeft | src/main/java/com/noveogroup/tree/BinaryTreeImpl.java:223-235 | the lift realises `Delete` on the cells. Parent links stay in place exactly when the node was the top or had no left child; otherwise the lifted child's parent names the removed node |
| Removal.DetachMin | src/main/java/com/noveogroup/tree/BinaryTreeImpl.java:237-256 | unlinking the leftmost node realises `RemoveMin` on the cells, parent links included, and changes only the cells named |
| Removal.SpliceMin | src/main/java/com/noveogroup/tree/BinaryTreeImpl.java:258-281 | the splice realises `Delete` on the cells, parent links included, and its top is the successor exactly when the removed node was the top |
| Arena.AttachShaped | src/main/java/com/noveogroup/tree/BinaryTreeImpl.java:168-189 | appending a leaf and linking it into the empty slot of the descent realises `Insert`, and keeps parent links in place |
| Arena.UpStep | src/main/java/com/noveogroup/tree/BinaryTreeImpl.java:133-143 | a node's parent link is null exactly at the top; otherwise it names the node above it, whose left link points back exactly when the key is smaller |
| Scenarios.InsertAndWalk | src/test/java/com/noveogroup/tree/BinaryTreeImplTest.java:14-32 | keys 1, 2, 3, 0 are walked as cars 4, 1, 2, 3 |
| Scenarios.Refusals | src/test/java/com/noveogroup/tree/BinaryTreeImplTest.java:34-52 | a null key, a duplicate key and the removal of an absent key fail with NullKey, ElementAlreadyExists and ElementDoesNotExist |
| Scenarios.RemoveAndWalk | src/test/java/com/noveogroup/tree/BinaryTreeImplTest.java:54-92 | keys 1, 2, 5, 0, 4 are walked as 4, 1, 2, 5, 3; without key 2 as 4, 1, 5, 3; and then without key 0 as 1, 5, 3 |
| Scenarios.CountLeaves | src/test/java/com/noveogroup/tree/BinaryTreeImplTest.java:94-110 | that tree has two leaves |
| Scenarios.Walk | src/main/java/com/noveogroup/tree/BinaryTreeImpl.java:110-146 | a `hasNext`/`next` loop yields the values of the in-order walk |
| Scenarios.RemoveWhileWalking | src/main/java/com/noveogroup/tree/BinaryTreeImpl.java:105-108 | removing key 2 through the iterator right after it is handed out succeeds; the walk goes on with 5, 3, and the tree is walked afterwards as 4, 1, 5, 3 |
| Scenarios.RemoveBeforeNext | src/main/java/com/noveogroup/tree/BinaryTreeImpl.java:99-108 | `remove` before `next` fails with NullPointer and the walk is unchanged |
| Scenarios.RemoveLast | src/main/java/com/noveogroup/tree/BinaryTreeImpl.java:226-228 | removing the only key fails with NullPointer and leaves no root |
| Scenarios.RemoveLeftChainMiddle | src/main/java/com/noveogroup/tree/BinaryTreeImpl.java:229-235 | removing the middle of a left chain succeeds, but the lifted node's parent link still names the removed node |

## Left out

- Serialization (`writeObject`/`readObject`, BinaryTreeImpl.java:19-27) and the
  `Serializable` markers: they are stream I/O. The leaf count they write is modelled
  by `GetCountOfLeaves`.
- `Node.compareTo` and the generic `Comparable` key type: keys are `int`, compared with
  `<`, `==` and `>`.
- The null-key check of the `Node` constructor (BinaryTreeImpl.java:37-40) and of the
  private `addElement` (BinaryTreeImpl.java:164-166): no null key reaches either,
  because the public `addElement` refuses it first.
- The `Car` model classes and the `BinaryTree` interface: values are a type parameter,
  and the interface only declares the operations above.
- BinaryTreeImpl.BinaryTree.GetCountOfLeaves: the result is an unbounded `nat`. Java's
  32-bit `int` would overflow only at 2^31 leaves, that is about 2^32 nodes, a heap of
  some hundreds of gigabytes.
- BinaryTreeImpl.TreeIterator.Remove: a second `remove()` without a `next()` in between
  is excluded by its precondition. The Java code would try to unlink the already removed
  node again.
- BinaryTreeImpl.TreeIterator.Remove: its precondition `Valid()` includes `Linked`, so
  removal through an iterator of a tree that already carries a stale parent link is not
  modelled. The Java outcome there is the one described for `RemoveElement` below.
- BinaryTreeImpl.TreeIterator.Next: it requires all parent links to be in place
  (`Linked`). Walking on after a removal that left a stale parent link is not modelled.
  The Java iterator does go on correctly after such a removal made through it, for
  instance: keys 3, 2, 1; `next` twice; `remove` of 2; `next` yields 3. The stale link
  lies in the part of the tree already walked, and no later successor step reads it.
  Walking after a removal made another way is not modelled either, and there the Java
  iterator goes wrong: on the chain 3, 2, 1 with 2 removed by `removeElement`, a new
  iterator yields 1, climbs through the stale link to the removed node and yields 2,
  then climbs from 2 to 3, finds 3 parentless and stops, so 3 is never yielded.
- BinaryTreeImpl.BinaryTree.RemoveElement: it requires `Linked`, so removal from a tree
  that already carries a stale parent link is not modelled. The Java code accepts such
  a tree, and a removal there can fail silently. Example: build the chain 3, 2, 1, then
  remove 2 (which leaves 1's parent link naming 2), then remove 1. The code reads 1's
  parent as the removed node 2 and clears 2's left slot instead of 3's. It returns
  normally, and key 1 stays in the tree under 3.
- BinaryTreeImpl.BinaryTree.RemoveNode: it requires the parent links to be in place,
  because it reads the removed node's parent from its parent link. It also requires the
  node to be one of the tree's nodes, which holds for every caller in the code.
- Removed nodes stay in the cell sequence, unreachable from `root`. Java collects such a
  node only once nothing refers to it: after a left-child lift below the top the lifted
  child's stale parent link still refers to the removed node, as does an iterator's
  `current` after `remove()`, so Java keeps the node while either reference exists.
- Concurrent use: the code has no synchronisation, and the model is sequential.
