/** The AVL tree of module2/pract4/pract4_3/phonebook.c as a value: what the
    in-place routines of AvlHeap compute, and what that keeps. */
module AvlTree {
  import opened Contacts
  import opened Sequences

  /** A tree node of the program. */
  class Node {
    var data: Contact
    var left: Node?
    var right: Node?
    var height: int

    constructor (data: Contact)
      ensures this.data == data && left == null && right == null && height == 1
    {
      this.data := data;
      left, right, height := null, null, 1;
    }
  }

  /** A contact together with the key it had when it entered the tree. */
  datatype Item = Item(contact: Contact, key: Key)

  /** The value of a (sub)tree: which node sits where, and what it holds. */
  datatype Tree = Leaf | Branch(node: Node, left: Tree, item: Item, right: Tree, height: int)

  // ----- Readers -----

  function Max(a: int, b: int): int {
    if a > b then a else b
  }

  /** get_height: the height cached in the root node. */
  function H(t: Tree): int {
    if t.Leaf? then 0 else t.height
  }

  /** get_balance */
  function Balance(t: Tree): int {
    if t.Leaf? then 0 else H(t.left) - H(t.right)
  }

  /** A node after update_height. */
  function Mk(node: Node, left: Tree, item: Item, right: Tree): Tree {
    Branch(node, left, item, right, 1 + Max(H(left), H(right)))
  }

  function Items(t: Tree): seq<Item> {
    if t.Leaf? then [] else Items(t.left) + [t.item] + Items(t.right)
  }

  ghost function Nodes(t: Tree): set<Node> {
    if t.Leaf? then {} else Nodes(t.left) + {t.node} + Nodes(t.right)
  }

  /** min_value_node: the item at the end of the left spine. */
  function MinItem(t: Tree): Item
    requires t.Branch?
  {
    if t.left.Leaf? then t.item else MinItem(t.left)
  }

  // ----- Writers -----

  function RotateRight(t: Tree): Tree
    requires t.Branch? && t.left.Branch?
  {
    Mk(t.left.node, t.left.left, t.left.item, Mk(t.node, t.left.right, t.item, t.right))
  }

  function RotateLeft(t: Tree): Tree
    requires t.Branch? && t.right.Branch?
  {
    Mk(t.right.node, Mk(t.node, t.left, t.item, t.right.left), t.right.item, t.right.right)
  }

  /** The four rotation cases of avl_insert, chosen by comparing keys. A case
      whose grandchild is missing cannot be reached (InsertKeepsShape). */
  function FixInsert(t: Tree, key: Key): Tree
    requires t.Branch?
  {
    if Balance(t) > 1 && t.left.Branch? && Before(key, t.left.item.key) then
      RotateRight(t)
    else if Balance(t) < -1 && t.right.Branch? && CompareKeys(key, t.right.item.key) > 0 then
      RotateLeft(t)
    else if Balance(t) > 1 && t.left.Branch? && t.left.right.Branch? && CompareKeys(key, t.left.item.key) > 0 then
      RotateRight(t.(left := RotateLeft(t.left)))
    else if Balance(t) < -1 && t.right.Branch? && t.right.left.Branch? && Before(key, t.right.item.key) then
      RotateLeft(t.(right := RotateRight(t.right)))
    else t
  }

  /** avl_insert; the node n is the one malloc would return. */
  function Insert(t: Tree, n: Node, item: Item): Tree {
    if t.Leaf? then Branch(n, Leaf, item, Leaf, 1)
    else
      var cmp := CompareKeys(item.key, t.item.key);
      if cmp < 0 then FixInsert(Mk(t.node, Insert(t.left, n, item), t.item, t.right), item.key)
      else if cmp > 0 then FixInsert(Mk(t.node, t.left, t.item, Insert(t.right, n, item)), item.key)
      else t
  }

  /** The four rotation cases of avl_delete, chosen by the children's balance. */
  function FixDelete(t: Tree): Tree
    requires t.Branch?
  {
    if Balance(t) > 1 && t.left.Branch? && Balance(t.left) >= 0 then
      RotateRight(t)
    else if Balance(t) > 1 && t.left.Branch? && t.left.right.Branch? && Balance(t.left) < 0 then
      RotateRight(t.(left := RotateLeft(t.left)))
    else if Balance(t) < -1 && t.right.Branch? && Balance(t.right) <= 0 then
      RotateLeft(t)
    else if Balance(t) < -1 && t.right.Branch? && t.right.left.Branch? && Balance(t.right) > 0 then
      RotateLeft(t.(right := RotateRight(t.right)))
    else t
  }

  /** The branch of avl_delete that found the contact. With one child, the
      child's fields are copied into the root and the child is freed; with two,
      the root takes over the least contact of the right subtree. */
  function DeleteRoot(t: Tree): Tree
    requires t.Branch?
    decreases t, 0
  {
    if t.left.Leaf? && t.right.Leaf? then Leaf
    else if t.right.Leaf? then FixDelete(Mk(t.node, t.left.left, t.left.item, t.left.right))
    else if t.left.Leaf? then FixDelete(Mk(t.node, t.right.left, t.right.item, t.right.right))
    else
      var least := MinItem(t.right);
      FixDelete(Mk(t.node, t.left, least, Delete(t.right, least.key)))
  }

  /** avl_delete */
  function Delete(t: Tree, key: Key): Tree
    decreases t, 1
  {
    if t.Leaf? then Leaf
    else
      var cmp := CompareKeys(key, t.item.key);
      if cmp < 0 then FixDelete(Mk(t.node, Delete(t.left, key), t.item, t.right))
      else if cmp > 0 then FixDelete(Mk(t.node, t.left, t.item, Delete(t.right, key)))
      else DeleteRoot(t)
  }

  // ----- Invariants -----

  /** The height by definition, not the cached one. */
  function TrueHeight(t: Tree): nat {
    if t.Leaf? then 0 else 1 + Max(TrueHeight(t.left), TrueHeight(t.right))
  }

  /** Every cached height is the true one. */
  ghost predicate ExactHeights(t: Tree) {
    t.Branch? ==> t.height == TrueHeight(t) && ExactHeights(t.left) && ExactHeights(t.right)
  }

  ghost predicate Balanced(t: Tree) {
    t.Branch? ==>
      && -1 <= TrueHeight(t.left) - TrueHeight(t.right) <= 1
      && Balanced(t.left) && Balanced(t.right)
  }

  ghost predicate Shape(t: Tree) {
    ExactHeights(t) && Balanced(t)
  }

  /** Strictly increasing keys. */
  ghost predicate Sorted(s: seq<Item>) {
    forall i, j :: 0 <= i < j < |s| ==> Before(s[i].key, s[j].key)
  }

  /** No node occurs twice in the tree. */
  ghost predicate Unshared(t: Tree) {
    t.Branch? ==>
      && t.node !in Nodes(t.left) && t.node !in Nodes(t.right) && Nodes(t.left) !! Nodes(t.right)
      && Unshared(t.left) && Unshared(t.right)
  }

  ghost predicate Avl(t: Tree) {
    Shape(t) && Sorted(Items(t)) && Unshared(t)
  }

  // ----- Rotations keep the contents -----

  lemma {:induction false} RotateRightKeeps(t: Tree)
    requires t.Branch? && t.left.Branch?
    ensures Items(RotateRight(t)) == Items(t)
    ensures Nodes(RotateRight(t)) == Nodes(t)
    ensures Unshared(t) ==> Unshared(RotateRight(t))
  {
    var x, r := t.left, RotateRight(t);
    assert Items(x) == Items(x.left) + [x.item] + Items(x.right);
    assert Items(r.right) == Items(x.right) + [t.item] + Items(t.right);
    assert Nodes(x) == Nodes(x.left) + {x.node} + Nodes(x.right);
    assert Nodes(r.right) == Nodes(x.right) + {t.node} + Nodes(t.right);
    if Unshared(t) {
      assert Unshared(x);
      assert Unshared(r.right);
    }
  }

  lemma {:induction false} RotateLeftKeeps(t: Tree)
    requires t.Branch? && t.right.Branch?
    ensures Items(RotateLeft(t)) == Items(t)
    ensures Nodes(RotateLeft(t)) == Nodes(t)
    ensures Unshared(t) ==> Unshared(RotateLeft(t))
  {
    var y, r := t.right, RotateLeft(t);
    assert Items(y) == Items(y.left) + [y.item] + Items(y.right);
    assert Items(r.left) == Items(t.left) + [t.item] + Items(y.left);
    assert Nodes(y) == Nodes(y.left) + {y.node} + Nodes(y.right);
    assert Nodes(r.left) == Nodes(t.left) + {t.node} + Nodes(y.left);
    if Unshared(t) {
      assert Unshared(y);
      assert Unshared(r.left);
    }
  }

  lemma {:induction false} FixInsertKeeps(t: Tree, key: Key)
    requires t.Branch?
    ensures Items(FixInsert(t, key)) == Items(t)
    ensures Nodes(FixInsert(t, key)) == Nodes(t)
    ensures Unshared(t) ==> Unshared(FixInsert(t, key))
  {
    RotationsKeep(t);
  }

  lemma {:induction false} FixDeleteKeeps(t: Tree)
    requires t.Branch?
    ensures Items(FixDelete(t)) == Items(t)
    ensures Nodes(FixDelete(t)) == Nodes(t)
    ensures Unshared(t) ==> Unshared(FixDelete(t))
  {
    RotationsKeep(t);
  }

  ghost predicate SameContents(t: Tree, t': Tree) {
    Items(t') == Items(t) && Nodes(t') == Nodes(t) && (Unshared(t) ==> Unshared(t'))
  }

  /** Each of the four rotation cases keeps the contents, whenever it can run. */
  lemma {:induction false} RotationsKeep(t: Tree)
    requires t.Branch?
    ensures t.left.Branch? ==> SameContents(t, RotateRight(t))
    ensures t.right.Branch? ==> SameContents(t, RotateLeft(t))
    ensures t.left.Branch? && t.left.right.Branch? ==> SameContents(t, RotateRight(t.(left := RotateLeft(t.left))))
    ensures t.right.Branch? && t.right.left.Branch? ==> SameContents(t, RotateLeft(t.(right := RotateRight(t.right))))
  {
    if t.left.Branch? {
      RotateRightKeeps(t);
      if t.left.right.Branch? {
        RotateLeftKeeps(t.left);
        RotateRightKeeps(t.(left := RotateLeft(t.left)));
      }
    }
    if t.right.Branch? {
      RotateLeftKeeps(t);
      if t.right.left.Branch? {
        RotateRightKeeps(t.right);
        RotateLeftKeeps(t.(right := RotateRight(t.right)));
      }
    }
  }

  // ----- Shape -----

  lemma {:induction false} MkShape(node: Node, l: Tree, item: Item, r: Tree)
    requires Shape(l) && Shape(r)
    ensures H(l) == TrueHeight(l) && H(r) == TrueHeight(r)
    ensures H(Mk(node, l, item, r)) == TrueHeight(Mk(node, l, item, r)) == 1 + Max(H(l), H(r))
    ensures -1 <= H(l) - H(r) <= 1 ==> Shape(Mk(node, l, item, r))
  {
  }

  /** A single rotation mends a left-heavy node whose left child does not lean right. */
  lemma {:induction false} RotateRightShape(t: Tree)
    requires t.Branch? && t.left.Branch? && Shape(t.left) && Shape(t.right)
    requires H(t.left) == H(t.right) + 2 && Balance(t.left) >= 0
    ensures Shape(RotateRight(t))
    ensures H(RotateRight(t)) == H(t.left) + (if Balance(t.left) == 0 then 1 else 0)
  {
    var x := t.left;
    MkShape(x.node, x.left, x.item, x.right);
    MkShape(t.node, x.right, t.item, t.right);
    MkShape(x.node, x.left, x.item, Mk(t.node, x.right, t.item, t.right));
  }

  /** A double rotation mends a left-heavy node whose left child leans right. */
  lemma {:induction false} RotateLeftRightShape(t: Tree)
    requires t.Branch? && t.left.Branch? && Shape(t.left) && Shape(t.right)
    requires H(t.left) == H(t.right) + 2 && Balance(t.left) < 0
    ensures t.left.right.Branch?
    ensures Shape(RotateRight(t.(left := RotateLeft(t.left))))
    ensures H(RotateRight(t.(left := RotateLeft(t.left)))) == H(t.left)
  {
    var x, y := t.left, t.left.right;
    MkShape(x.node, x.left, x.item, x.right);
    assert H(y) == H(x.left) + 1 && Shape(y) && TrueHeight(y) == H(y) && H(y) >= 1;
    MkShape(y.node, y.left, y.item, y.right);
    MkShape(x.node, x.left, x.item, y.left);
    MkShape(t.node, y.right, t.item, t.right);
    MkShape(y.node, Mk(x.node, x.left, x.item, y.left), y.item, Mk(t.node, y.right, t.item, t.right));
  }

  lemma {:induction false} RotateLeftShape(t: Tree)
    requires t.Branch? && t.right.Branch? && Shape(t.left) && Shape(t.right)
    requires H(t.right) == H(t.left) + 2 && Balance(t.right) <= 0
    ensures Shape(RotateLeft(t))
    ensures H(RotateLeft(t)) == H(t.right) + (if Balance(t.right) == 0 then 1 else 0)
  {
    var y := t.right;
    MkShape(y.node, y.left, y.item, y.right);
    MkShape(t.node, t.left, t.item, y.left);
    MkShape(y.node, Mk(t.node, t.left, t.item, y.left), y.item, y.right);
  }

  lemma {:induction false} RotateRightLeftShape(t: Tree)
    requires t.Branch? && t.right.Branch? && Shape(t.left) && Shape(t.right)
    requires H(t.right) == H(t.left) + 2 && Balance(t.right) > 0
    ensures t.right.left.Branch?
    ensures Shape(RotateLeft(t.(right := RotateRight(t.right))))
    ensures H(RotateLeft(t.(right := RotateRight(t.right)))) == H(t.right)
  {
    var y, x := t.right, t.right.left;
    MkShape(y.node, y.left, y.item, y.right);
    assert H(x) == H(y.right) + 1 && Shape(x) && TrueHeight(x) == H(x) && H(x) >= 1;
    MkShape(x.node, x.left, x.item, x.right);
    MkShape(y.node, x.right, y.item, y.right);
    MkShape(t.node, t.left, t.item, x.left);
    MkShape(x.node, Mk(t.node, t.left, t.item, x.left), x.item, Mk(y.node, x.right, y.item, y.right));
  }

  /** Which way a tree leans after an insertion that made it grow. */
  ghost predicate LeansTo(t: Tree, key: Key) {
    t.Branch? && -1 <= Balance(t) <= 1 &&
    var cmp := CompareKeys(key, t.item.key);
    (cmp < 0 && Balance(t) == 1) || (cmp > 0 && Balance(t) == -1)
  }

  /** The comparison of keys picks the rotation that fits the imbalance. */
  lemma {:induction false} FixInsertShape(t: Tree, key: Key)
    requires t.Branch? && Shape(t.left) && Shape(t.right)
    requires t.height == 1 + Max(H(t.left), H(t.right))
    requires -2 <= Balance(t) <= 2
    requires Balance(t) == 2 ==> LeansTo(t.left, key)
    requires Balance(t) == -2 ==> LeansTo(t.right, key)
    ensures Shape(FixInsert(t, key))
    ensures H(FixInsert(t, key)) == if -1 <= Balance(t) <= 1 then t.height else t.height - 1
    ensures -1 <= Balance(t) <= 1 ==> FixInsert(t, key) == t
  {
    MkShape(t.node, t.left, t.item, t.right);
    if Balance(t) == 2 {
      if Balance(t.left) == 1 { RotateRightShape(t); } else { RotateLeftRightShape(t); }
    } else if Balance(t) == -2 {
      if Balance(t.right) == -1 { RotateLeftShape(t); } else { RotateRightLeftShape(t); }
    }
  }

  /** A node whose left or right subtree was replaced by one the insertion left. */
  ghost predicate GrownFrom(was: Tree, now: Tree, key: Key) {
    && Shape(now) && H(was) <= H(now) <= H(was) + 1
    && (was.Branch? && H(now) > H(was) ==> LeansTo(now, key))
  }

  lemma {:induction false} FixAfterLeft(t: Tree, l: Tree, key: Key)
    requires t.Branch? && Shape(t) && GrownFrom(t.left, l, key) && Before(key, t.item.key)
    ensures GrownFrom(t, FixInsert(Mk(t.node, l, t.item, t.right), key), key)
  {
    MkShape(t.node, t.left, t.item, t.right);
    FixInsertShape(Mk(t.node, l, t.item, t.right), key);
  }

  lemma {:induction false} FixAfterRight(t: Tree, r: Tree, key: Key)
    requires t.Branch? && Shape(t) && GrownFrom(t.right, r, key) && CompareKeys(key, t.item.key) > 0
    ensures GrownFrom(t, FixInsert(Mk(t.node, t.left, t.item, r), key), key)
  {
    MkShape(t.node, t.left, t.item, t.right);
    FixInsertShape(Mk(t.node, t.left, t.item, r), key);
  }

  /** Insertion keeps every cached height exact and every node balanced, and
      grows the height by at most one. A tree that grew leans to the side the
      key went to, so the next node up picks the right rotation. */
  lemma {:induction false} InsertKeepsShape(t: Tree, n: Node, item: Item)
    requires Shape(t)
    ensures Shape(Insert(t, n, item))
    ensures H(t) <= H(Insert(t, n, item)) <= H(t) + 1
    ensures t.Branch? && H(Insert(t, n, item)) > H(t) ==> LeansTo(Insert(t, n, item), item.key)
  {
    if t.Branch? {
      var cmp := CompareKeys(item.key, t.item.key);
      if cmp < 0 {
        InsertKeepsShape(t.left, n, item);
        FixAfterLeft(t, Insert(t.left, n, item), item.key);
      } else if cmp > 0 {
        InsertKeepsShape(t.right, n, item);
        FixAfterRight(t, Insert(t.right, n, item), item.key);
      }
    }
  }

  /** Rebalancing after one subtree lost a level. */
  lemma {:induction false} FixDeleteShape(t: Tree)
    requires t.Branch? && Shape(t.left) && Shape(t.right)
    requires t.height == 1 + Max(H(t.left), H(t.right))
    requires -2 <= Balance(t) <= 2
    ensures Shape(FixDelete(t))
    ensures t.height - 1 <= H(FixDelete(t)) <= t.height
    ensures -1 <= Balance(t) <= 1 ==> FixDelete(t) == t
  {
    MkShape(t.node, t.left, t.item, t.right);
    if Balance(t) == 2 {
      if Balance(t.left) >= 0 { RotateRightShape(t); } else { RotateLeftRightShape(t); }
    } else if Balance(t) == -2 {
      if Balance(t.right) <= 0 { RotateLeftShape(t); } else { RotateRightLeftShape(t); }
    }
  }

  lemma {:induction false} DeleteRootKeepsShape(t: Tree)
    requires t.Branch? && Shape(t)
    ensures Shape(DeleteRoot(t))
    ensures H(t) - 1 <= H(DeleteRoot(t)) <= H(t)
    decreases t, 0
  {
    if t.left.Leaf? && t.right.Leaf? {
    } else if t.right.Leaf? {
      FixDeleteShape(Mk(t.node, t.left.left, t.left.item, t.left.right));
    } else if t.left.Leaf? {
      FixDeleteShape(Mk(t.node, t.right.left, t.right.item, t.right.right));
    } else {
      var least := MinItem(t.right);
      DeleteKeepsShape(t.right, least.key);
      FixDeleteShape(Mk(t.node, t.left, least, Delete(t.right, least.key)));
    }
  }

  /** Deletion keeps heights exact and nodes balanced, and lowers the height by
      at most one. */
  lemma {:induction false} DeleteKeepsShape(t: Tree, key: Key)
    requires Shape(t)
    ensures Shape(Delete(t, key))
    ensures H(t) - 1 <= H(Delete(t, key)) <= H(t)
    decreases t, 1
  {
    if t.Branch? {
      var cmp := CompareKeys(key, t.item.key);
      if cmp < 0 {
        DeleteKeepsShape(t.left, key);
        FixDeleteShape(Mk(t.node, Delete(t.left, key), t.item, t.right));
      } else if cmp > 0 {
        DeleteKeepsShape(t.right, key);
        FixDeleteShape(Mk(t.node, t.left, t.item, Delete(t.right, key)));
      } else {
        DeleteRootKeepsShape(t);
      }
    }
  }

  // ----- In-order contents -----

  lemma {:induction false} SortedParts(a: seq<Item>, x: Item, b: seq<Item>)
    ensures Sorted(a + [x] + b) ==>
      && Sorted(a) && Sorted(b)
      && (forall i :: 0 <= i < |a| ==> Before(a[i].key, x.key))
      && (forall i :: 0 <= i < |b| ==> Before(x.key, b[i].key))
  {
    var s := a + [x] + b;
    if Sorted(s) {
      assert forall i :: 0 <= i < |a| ==> a[i] == s[i];
      assert forall i :: 0 <= i < |b| ==> b[i] == s[|a| + 1 + i];
      assert s[|a|] == x;
    }
  }

  predicate IsAt(s: seq<Item>, key: Key, i: int) {
    0 <= i < |s| && s[i].key == key
  }

  ghost predicate HasKey(s: seq<Item>, key: Key) {
    exists i :: IsAt(s, key, i)
  }

  /** The only place where an item with this key can enter a sorted sequence. */
  ghost predicate IsPlace(s: seq<Item>, key: Key, p: int) {
    && 0 <= p <= |s|
    && (forall i :: 0 <= i < p ==> Before(s[i].key, key))
    && (forall i :: p <= i < |s| ==> Before(key, s[i].key))
  }

  /** An item at its place in a sorted sequence keeps it sorted. */
  lemma {:induction false} PlacedIsSorted(s: seq<Item>, item: Item, p: int)
    requires Sorted(s) && IsPlace(s, item.key, p)
    ensures Sorted(Spliced(s, item, p))
  {
    var r := Spliced(s, item, p);
    forall i, j | 0 <= i < j < |r| ensures Before(r[i].key, r[j].key) {
      assert r[i] == if i < p then s[i] else if i == p then item else s[i - 1];
      assert r[j] == if j < p then s[j] else if j == p then item else s[j - 1];
    }
  }

  /** A key a sorted sequence lacks has a place in it. */
  lemma {:induction false} PlaceExists(s: seq<Item>, key: Key) returns (p: int)
    requires Sorted(s) && !HasKey(s, key)
    ensures IsPlace(s, key, p)
  {
    p := 0;
    while p < |s| && Before(s[p].key, key)
      invariant 0 <= p <= |s|
      invariant forall i :: 0 <= i < p ==> Before(s[i].key, key)
    {
      p := p + 1;
    }
    if p < |s| {
      assert !IsAt(s, key, p);
      CompareZero(s[p].key, key);
      CompareFlip(s[p].key, key);
      forall i | p <= i < |s| ensures Before(key, s[i].key) {
        if p < i { BeforeTransitive(key, s[p].key, s[i].key); }
      }
    }
  }

  /** A place in a + [x] + b is a place in a or in b, on the side the
      comparison with x says. */
  lemma {:induction false} PlaceInPart(a: seq<Item>, x: Item, b: seq<Item>, key: Key, p: int)
    requires IsPlace(a + [x] + b, key, p)
    ensures p <= |a| ==> CompareKeys(key, x.key) < 0 && IsPlace(a, key, p)
    ensures p > |a| ==> CompareKeys(key, x.key) > 0 && IsPlace(b, key, p - |a| - 1)
  {
    var s := a + [x] + b;
    assert s[|a|] == x;
    CompareFlip(key, x.key);
    assert forall i :: 0 <= i < |a| ==> a[i] == s[i];
    assert forall i :: 0 <= i < |b| ==> b[i] == s[|a| + 1 + i];
  }

  lemma {:induction false} SplicedInPart(a: seq<Item>, x: Item, b: seq<Item>, item: Item, p: int)
    requires 0 <= p <= |a| + 1 + |b|
    ensures Spliced(a + [x] + b, item, p) ==
      if p <= |a| then Spliced(a, item, p) + [x] + b else a + [x] + Spliced(b, item, p - |a| - 1)
  {
  }

  /** Insertion puts the item at its place in the in-order sequence and moves
      nothing else. */
  lemma {:induction false} InsertItems(t: Tree, n: Node, item: Item, p: int)
    requires IsPlace(Items(t), item.key, p)
    ensures Items(Insert(t, n, item)) == Spliced(Items(t), item, p)
  {
    if t.Branch? {
      var a, b := Items(t.left), Items(t.right);
      PlaceInPart(a, t.item, b, item.key, p);
      SplicedInPart(a, t.item, b, item, p);
      if p <= |a| {
        InsertItems(t.left, n, item, p);
        FixInsertKeeps(Mk(t.node, Insert(t.left, n, item), t.item, t.right), item.key);
      } else {
        InsertItems(t.right, n, item, p - |a| - 1);
        FixInsertKeeps(Mk(t.node, t.left, t.item, Insert(t.right, n, item)), item.key);
      }
    }
  }

  /** The tree gains exactly the new node. */
  lemma {:induction false} InsertNodes(t: Tree, n: Node, item: Item, p: int)
    requires IsPlace(Items(t), item.key, p)
    ensures Nodes(Insert(t, n, item)) == Nodes(t) + {n}
    ensures Unshared(t) && n !in Nodes(t) ==> Unshared(Insert(t, n, item))
  {
    if t.Branch? {
      var a, b := Items(t.left), Items(t.right);
      PlaceInPart(a, t.item, b, item.key, p);
      if p <= |a| {
        InsertNodes(t.left, n, item, p);
        FixInsertKeeps(Mk(t.node, Insert(t.left, n, item), t.item, t.right), item.key);
      } else {
        InsertNodes(t.right, n, item, p - |a| - 1);
        FixInsertKeeps(Mk(t.node, t.left, t.item, Insert(t.right, n, item)), item.key);
      }
    }
  }

  /** Insertion of a key the tree holds changes nothing. */
  lemma {:induction false} InsertPresent(t: Tree, n: Node, item: Item)
    requires Shape(t) && Sorted(Items(t)) && HasKey(Items(t), item.key)
    ensures Insert(t, n, item) == t
  {
    var s := Items(t);
    var i :| IsAt(s, item.key, i);
    var a, b := Items(t.left), Items(t.right);
    SortedParts(a, t.item, b);
    MkShape(t.node, t.left, t.item, t.right);
    if i < |a| {
      assert IsAt(a, item.key, i);
      InsertPresent(t.left, n, item);
      FixInsertShape(t, item.key);
    } else if i == |a| {
      CompareZero(item.key, t.item.key);
    } else {
      assert IsAt(b, item.key, i - |a| - 1);
      CompareFlip(t.item.key, item.key);
      InsertPresent(t.right, n, item);
      FixInsertShape(t, item.key);
    }
  }

  lemma {:induction false} MinItemIsFirst(t: Tree)
    requires t.Branch?
    ensures Items(t) != [] && MinItem(t) == Items(t)[0]
  {
    if t.left.Branch? { MinItemIsFirst(t.left); }
  }

  /** The node avl_delete hands to free: the empty set when it frees none. */
  ghost function Freed(t: Tree, key: Key): set<Node> {
    if t.Leaf? then {}
    else
      var cmp := CompareKeys(key, t.item.key);
      if cmp < 0 then Freed(t.left, key)
      else if cmp > 0 then Freed(t.right, key)
      else if t.left.Leaf? && t.right.Leaf? then {t.node}
      else if t.right.Leaf? then {t.left.node}
      else if t.left.Leaf? then {t.right.node}
      else Freed(t.right, MinItem(t.right).key)
  }

  /** The index of a key in a sorted a + [x] + b tells which way the
      comparison with x goes. */
  lemma {:induction false} IndexInPart(a: seq<Item>, x: Item, b: seq<Item>, key: Key, i: int)
    requires Sorted(a + [x] + b) && IsAt(a + [x] + b, key, i)
    ensures Sorted(a) && Sorted(b)
    ensures i < |a| ==> CompareKeys(key, x.key) < 0 && IsAt(a, key, i)
    ensures i == |a| ==> CompareKeys(key, x.key) == 0 && x.key == key
    ensures i > |a| ==> CompareKeys(key, x.key) > 0 && IsAt(b, key, i - |a| - 1)
    ensures Without(a + [x] + b, i) ==
      if i < |a| then Without(a, i) + [x] + b
      else if i == |a| then a + b
      else a + [x] + Without(b, i - |a| - 1)
  {
    SortedParts(a, x, b);
    CompareZero(key, x.key);
    CompareFlip(key, x.key);
  }

  /** Deletion takes exactly the item with the key out of the in-order sequence. */
  lemma {:induction false} DeleteItems(t: Tree, key: Key, i: int)
    requires Sorted(Items(t)) && IsAt(Items(t), key, i)
    ensures Items(Delete(t, key)) == Without(Items(t), i)
    decreases t, 1
  {
    var a, b := Items(t.left), Items(t.right);
    IndexInPart(a, t.item, b, key, i);
    if i < |a| {
      DeleteItems(t.left, key, i);
      FixDeleteKeeps(Mk(t.node, Delete(t.left, key), t.item, t.right));
    } else if i > |a| {
      DeleteItems(t.right, key, i - |a| - 1);
      FixDeleteKeeps(Mk(t.node, t.left, t.item, Delete(t.right, key)));
    } else {
      DeleteRootItems(t);
    }
  }

  lemma {:induction false} Rejoined(a: seq<Item>, b: seq<Item>)
    requires b != []
    ensures a + [b[0]] + Without(b, 0) == a + b
  {
  }

  lemma {:induction false} DeleteRootItems(t: Tree)
    requires t.Branch? && Sorted(Items(t.right))
    ensures Items(DeleteRoot(t)) == Items(t.left) + Items(t.right)
    decreases t, 0
  {
    if t.left.Branch? && t.right.Branch? {
      var least, b := MinItem(t.right), Items(t.right);
      MinItemIsFirst(t.right);
      DeleteItems(t.right, least.key, 0);
      var m := Mk(t.node, t.left, least, Delete(t.right, least.key));
      FixDeleteKeeps(m);
      Rejoined(Items(t.left), b);
    } else {
      CopyChildKeeps(t);
    }
  }

  /** The child that is copied into its parent leaves its items there. */
  lemma {:induction false} CopyChildKeeps(t: Tree)
    requires t.Branch? && (t.left.Leaf? || t.right.Leaf?)
    ensures Items(DeleteRoot(t)) == Items(t.left) + Items(t.right)
  {
    if t.left.Branch? {
      FixDeleteKeeps(Mk(t.node, t.left.left, t.left.item, t.left.right));
    } else if t.right.Branch? {
      FixDeleteKeeps(Mk(t.node, t.right.left, t.right.item, t.right.right));
    }
  }

  /** The tree loses exactly one node, the one it frees. */
  ghost predicate LosesOne(t: Tree, t': Tree, freed: set<Node>) {
    && |freed| == 1 && freed <= Nodes(t)
    && Nodes(t') == Nodes(t) - freed
    && Unshared(t')
  }

  lemma {:induction false} DeleteNodes(t: Tree, key: Key, i: int)
    requires Sorted(Items(t)) && Unshared(t) && IsAt(Items(t), key, i)
    ensures LosesOne(t, Delete(t, key), Freed(t, key))
    decreases t, 1
  {
    var a, b := Items(t.left), Items(t.right);
    IndexInPart(a, t.item, b, key, i);
    if i < |a| {
      DeleteNodes(t.left, key, i);
      LeftFrees(t, Delete(t.left, key), Freed(t.left, key));
    } else if i > |a| {
      DeleteNodes(t.right, key, i - |a| - 1);
      SuccessorFrees(t, t.item, Delete(t.right, key), Freed(t.right, key));
    } else {
      DeleteRootNodes(t, key);
    }
  }

  lemma {:induction false} DeleteRootNodes(t: Tree, key: Key)
    requires t.Branch? && Sorted(Items(t.right)) && Unshared(t) && CompareKeys(key, t.item.key) == 0
    ensures LosesOne(t, DeleteRoot(t), Freed(t, key))
    decreases t, 0
  {
    if t.left.Branch? && t.right.Branch? {
      var least := MinItem(t.right);
      MinItemIsFirst(t.right);
      DeleteNodes(t.right, least.key, 0);
      SuccessorFrees(t, least, Delete(t.right, least.key), Freed(t.right, least.key));
    } else if t.left.Branch? {
      OnlyChild(t, t.left);
      CopyChildFrees(t, t.left);
    } else if t.right.Branch? {
      OnlyChild(t, t.right);
      CopyChildFrees(t, t.right);
    }
  }

  lemma {:induction false} LeftFrees(t: Tree, left: Tree, freed: set<Node>)
    requires t.Branch? && Unshared(t) && LosesOne(t.left, left, freed)
    ensures LosesOne(t, FixDelete(Mk(t.node, left, t.item, t.right)), freed)
  {
    FixDeleteKeeps(Mk(t.node, left, t.item, t.right));
  }

  lemma {:induction false} SuccessorFrees(t: Tree, item: Item, right: Tree, freed: set<Node>)
    requires t.Branch? && Unshared(t) && LosesOne(t.right, right, freed)
    ensures LosesOne(t, FixDelete(Mk(t.node, t.left, item, right)), freed)
  {
    FixDeleteKeeps(Mk(t.node, t.left, item, right));
  }

  lemma {:induction false} OnlyChild(t: Tree, child: Tree)
    requires t.Branch? && Unshared(t)
    requires (t.right.Leaf? && child == t.left) || (t.left.Leaf? && child == t.right)
    ensures Unshared(child) && t.node !in Nodes(child) && Nodes(t) == {t.node} + Nodes(child)
  {
  }

  /** Of the two nodes of a parent and its only child, the child's goes. */
  lemma {:induction false} CopyChildFrees(t: Tree, child: Tree)
    requires child.Branch? && Unshared(child) && t.Branch?
    requires t.node !in Nodes(child) && Nodes(t) == {t.node} + Nodes(child)
    ensures LosesOne(t, FixDelete(Mk(t.node, child.left, child.item, child.right)), {child.node})
  {
    var m := Mk(t.node, child.left, child.item, child.right);
    assert Nodes(m) == Nodes(child.left) + {t.node} + Nodes(child.right);
    assert Unshared(m);
    FixDeleteKeeps(m);
  }

  /** A key missing from a + [x] + b is missing from its parts. */
  lemma {:induction false} AbsentInParts(a: seq<Item>, x: Item, b: seq<Item>, key: Key)
    requires !HasKey(a + [x] + b, key)
    ensures !HasKey(a, key) && !HasKey(b, key) && CompareKeys(key, x.key) != 0
  {
    var s := a + [x] + b;
    CompareZero(key, x.key);
    assert !IsAt(s, key, |a|);
    assert forall i :: IsAt(a, key, i) ==> IsAt(s, key, i);
    assert forall i :: IsAt(b, key, i) ==> IsAt(s, key, |a| + 1 + i);
  }

  /** Deletion of a key the tree lacks changes nothing and frees nothing. */
  lemma {:induction false} DeleteAbsent(t: Tree, key: Key)
    requires Shape(t) && !HasKey(Items(t), key)
    ensures Delete(t, key) == t && Freed(t, key) == {}
  {
    if t.Branch? {
      AbsentInParts(Items(t.left), t.item, Items(t.right), key);
      MkShape(t.node, t.left, t.item, t.right);
      DeleteAbsent(t.left, key);
      DeleteAbsent(t.right, key);
      FixDeleteShape(t);
    }
  }

  /** The comparison with the middle item tells which part to search. */
  lemma {:induction false} HasKeyInParts(a: seq<Item>, x: Item, b: seq<Item>, key: Key)
    requires Sorted(a + [x] + b)
    ensures CompareKeys(key, x.key) < 0 ==> (HasKey(a + [x] + b, key) <==> HasKey(a, key))
    ensures CompareKeys(key, x.key) > 0 ==> (HasKey(a + [x] + b, key) <==> HasKey(b, key))
  {
    if HasKey(a + [x] + b, key) {
      var i :| IsAt(a + [x] + b, key, i);
      IndexInPart(a, x, b, key, i);
    } else {
      AbsentInParts(a, x, b, key);
    }
  }

  /** Insertion, whether or not the key is there already, adds no other node
      and no other item. */
  ghost predicate Grown(t: Tree, t': Tree, n: Node, item: Item) {
    && Unshared(t')
    && Nodes(t') <= Nodes(t) + {n}
    && (HasKey(Items(t), item.key) ==> Nodes(t') <= Nodes(t))
    && (forall it :: it in Items(t') ==> it in Items(t) || it == item)
  }

  lemma {:induction false} InsertGrows(t: Tree, n: Node, item: Item)
    requires Shape(t) && Sorted(Items(t)) && Unshared(t)
    requires !HasKey(Items(t), item.key) ==> n !in Nodes(t)
    ensures Grown(t, Insert(t, n, item), n, item)
  {
    if HasKey(Items(t), item.key) {
      InsertPresent(t, n, item);
    } else {
      var p := PlaceExists(Items(t), item.key);
      InsertItems(t, n, item, p);
      InsertNodes(t, n, item, p);
    }
  }

  /** A tree one insertion may have unbalanced at the root. */
  ghost predicate ReadyToFix(m: Tree, key: Key) {
    && m.Branch? && Shape(m.left) && Shape(m.right) && m.height == 1 + Max(H(m.left), H(m.right))
    && -2 <= Balance(m) <= 2
    && (Balance(m) == 2 ==> LeansTo(m.left, key))
    && (Balance(m) == -2 ==> LeansTo(m.right, key))
  }

  /** What the recursive call on the left leaves behind, not yet rebalanced. */
  lemma {:induction false} InsertLeftStep(t: Tree, n: Node, item: Item)
    requires t.Branch? && Shape(t) && Sorted(Items(t)) && Unshared(t) && Before(item.key, t.item.key)
    requires !HasKey(Items(t), item.key) ==> n !in Nodes(t)
    ensures ReadyToFix(Mk(t.node, Insert(t.left, n, item), t.item, t.right), item.key)
    ensures Grown(t, Mk(t.node, Insert(t.left, n, item), t.item, t.right), n, item)
  {
    SortedParts(Items(t.left), t.item, Items(t.right));
    HasKeyInParts(Items(t.left), t.item, Items(t.right), item.key);
    MkShape(t.node, t.left, t.item, t.right);
    InsertKeepsShape(t.left, n, item);
    InsertGrows(t.left, n, item);
  }

  lemma {:induction false} InsertRightStep(t: Tree, n: Node, item: Item)
    requires t.Branch? && Shape(t) && Sorted(Items(t)) && Unshared(t) && CompareKeys(item.key, t.item.key) > 0
    requires !HasKey(Items(t), item.key) ==> n !in Nodes(t)
    ensures ReadyToFix(Mk(t.node, t.left, t.item, Insert(t.right, n, item)), item.key)
    ensures Grown(t, Mk(t.node, t.left, t.item, Insert(t.right, n, item)), n, item)
  {
    SortedParts(Items(t.left), t.item, Items(t.right));
    HasKeyInParts(Items(t.left), t.item, Items(t.right), item.key);
    MkShape(t.node, t.left, t.item, t.right);
    InsertKeepsShape(t.right, n, item);
    InsertGrows(t.right, n, item);
  }

  /** What the recursive call of insertion needs to know of its subtree, and what
      its caller needs to know of the result. */
  lemma {:induction false} SubtreeOfInsert(t: Tree, key: Key)
    requires t.Branch? && Sorted(Items(t))
    ensures Sorted(Items(t.left)) && Sorted(Items(t.right))
    ensures forall it :: it in Items(t.left) || it in Items(t.right) ==> it in Items(t)
    ensures Before(key, t.item.key) ==> (HasKey(Items(t.left), key) <==> HasKey(Items(t), key))
    ensures CompareKeys(key, t.item.key) > 0 ==> (HasKey(Items(t.right), key) <==> HasKey(Items(t), key))
  {
    SortedParts(Items(t.left), t.item, Items(t.right));
    HasKeyInParts(Items(t.left), t.item, Items(t.right), key);
  }

  lemma {:induction false} InsertedApart(t: Tree, n: Node, item: Item)
    requires t.Branch? && Shape(t) && Sorted(Items(t)) && Unshared(t)
    requires !HasKey(Items(t), item.key) ==> n !in Nodes(t)
    ensures Before(item.key, t.item.key) ==> t.node !in Nodes(Insert(t.left, n, item))
    ensures CompareKeys(item.key, t.item.key) > 0 ==> t.node !in Nodes(Insert(t.right, n, item))
  {
    if Before(item.key, t.item.key) {
      InsertLeftStep(t, n, item);
    } else if CompareKeys(item.key, t.item.key) > 0 {
      InsertRightStep(t, n, item);
    }
  }

  /** A tree one deletion may have unbalanced at the root, made of the nodes of t. */
  ghost predicate DeletedBelow(t: Tree, m: Tree) {
    && m.Branch? && Shape(m.left) && Shape(m.right) && m.height == 1 + Max(H(m.left), H(m.right))
    && -2 <= Balance(m) <= 2
    && Unshared(m) && Nodes(m) <= Nodes(t)
  }

  /** Deletion, whether or not the key is there, adds no node. */
  lemma {:induction false} DeleteShrinks(t: Tree, key: Key)
    requires Shape(t) && Sorted(Items(t)) && Unshared(t)
    ensures Unshared(Delete(t, key)) && Nodes(Delete(t, key)) <= Nodes(t)
  {
    if HasKey(Items(t), key) {
      var i :| IsAt(Items(t), key, i);
      DeleteNodes(t, key, i);
    } else {
      DeleteAbsent(t, key);
    }
  }

  lemma {:induction false} DeleteLeftStep(t: Tree, key: Key)
    requires t.Branch? && Shape(t) && Sorted(Items(t)) && Unshared(t)
    ensures DeletedBelow(t, Mk(t.node, Delete(t.left, key), t.item, t.right))
  {
    SortedParts(Items(t.left), t.item, Items(t.right));
    MkShape(t.node, t.left, t.item, t.right);
    DeleteKeepsShape(t.left, key);
    DeleteShrinks(t.left, key);
    MkShape(t.node, Delete(t.left, key), t.item, t.right);
  }

  lemma {:induction false} DeleteRightStep(t: Tree, item: Item, key: Key)
    requires t.Branch? && Shape(t) && Sorted(Items(t)) && Unshared(t)
    ensures DeletedBelow(t, Mk(t.node, t.left, item, Delete(t.right, key)))
  {
    SortedParts(Items(t.left), t.item, Items(t.right));
    MkShape(t.node, t.left, t.item, t.right);
    DeleteKeepsShape(t.right, key);
    DeleteShrinks(t.right, key);
    MkShape(t.node, t.left, item, Delete(t.right, key));
  }

  lemma {:induction false} SuccessorPart(t: Tree)
    requires t.Branch? && t.right.Branch? && Shape(t) && Sorted(Items(t)) && Unshared(t)
    ensures Sorted(Items(t.right)) && MinItem(t.right) in Items(t.right)
    ensures forall it :: it in Items(t.right) ==> it in Items(t)
    ensures Nodes(Delete(t.right, MinItem(t.right).key)) <= Nodes(t.right)
  {
    SortedParts(Items(t.left), t.item, Items(t.right));
    MinItemIsFirst(t.right);
    DeleteShrinks(t.right, MinItem(t.right).key);
  }

  lemma {:induction false} SuccessorStep(t: Tree)
    requires t.Branch? && t.right.Branch? && Shape(t) && Sorted(Items(t)) && Unshared(t)
    ensures DeletedBelow(t, Mk(t.node, t.left, MinItem(t.right), Delete(t.right, MinItem(t.right).key)))
  {
    SortedParts(Items(t.left), t.item, Items(t.right));
    DeleteRightStep(t, MinItem(t.right), MinItem(t.right).key);
  }

  /** The root after it took over the fields of its only child. */
  lemma {:induction false} CopyChildStep(t: Tree, child: Tree)
    requires t.Branch? && Shape(t) && Unshared(t)
    requires (t.right.Leaf? && child == t.left) || (t.left.Leaf? && child == t.right)
    requires child.Branch?
    ensures DeletedBelow(t, Mk(t.node, child.left, child.item, child.right))
    ensures t.node != child.node && Nodes(child.left) !! {t.node, child.node} && Nodes(child.right) !! {t.node, child.node}
  {
    MkShape(child.node, child.left, child.item, child.right);
  }

  // ----- Main results -----

  /** Inserting a contact not yet present into any valid AVL tree gives a valid
      AVL tree with exactly that contact and that node added. */
  lemma {:induction false} InsertIsCorrect(t: Tree, n: Node, item: Item) returns (p: int)
    requires Avl(t) && n !in Nodes(t) && !HasKey(Items(t), item.key)
    ensures Avl(Insert(t, n, item))
    ensures IsPlace(Items(t), item.key, p)
    ensures Items(Insert(t, n, item)) == Items(t)[..p] + [item] + Items(t)[p..]
    ensures Nodes(Insert(t, n, item)) == Nodes(t) + {n}
    ensures TrueHeight(t) <= TrueHeight(Insert(t, n, item)) <= TrueHeight(t) + 1
  {
    p := PlaceExists(Items(t), item.key);
    InsertKeepsShape(t, n, item);
    InsertItems(t, n, item, p);
    InsertNodes(t, n, item, p);
    PlacedIsSorted(Items(t), item, p);
  }

  lemma {:induction false} SortedWithout(s: seq<Item>, i: int)
    requires Sorted(s) && 0 <= i < |s|
    ensures Sorted(Without(s, i))
  {
    var r := Without(s, i);
    assert forall k :: 0 <= k < |r| ==> r[k] == if k < i then s[k] else s[k + 1];
  }

  /** Deleting the contact at any index of any valid AVL tree gives a valid AVL
      tree without exactly that contact, at most one level lower; exactly one
      node is freed, and it is no longer reachable. */
  lemma {:induction false} DeleteIsCorrect(t: Tree, key: Key, i: int)
    requires Avl(t) && IsAt(Items(t), key, i)
    ensures Avl(Delete(t, key))
    ensures Items(Delete(t, key)) == Items(t)[..i] + Items(t)[i + 1..]
    ensures LosesOne(t, Delete(t, key), Freed(t, key))
    ensures TrueHeight(t) - 1 <= TrueHeight(Delete(t, key)) <= TrueHeight(t)
  {
    DeleteKeepsShape(t, key);
    DeleteItems(t, key, i);
    DeleteNodes(t, key, i);
    SortedWithout(Items(t), i);
  }

  // ----- Size and depth -----

  function Fib(n: nat): nat {
    if n < 2 then n else Fib(n - 1) + Fib(n - 2)
  }

  function Pow2(n: nat): nat {
    if n == 0 then 1 else 2 * Pow2(n - 1)
  }

  /** A balanced tree of height h holds at least Fib(h + 2) - 1 contacts. */
  lemma {:induction false} BalancedIsFull(t: Tree)
    requires Balanced(t)
    ensures |Items(t)| + 1 >= Fib(TrueHeight(t) + 2)
  {
    if t.Branch? {
      BalancedIsFull(t.left);
      BalancedIsFull(t.right);
      FibStep(TrueHeight(t.left), TrueHeight(t.right));
    }
  }

  lemma {:induction false} FibStep(l: nat, r: nat)
    requires -1 <= l - r <= 1
    ensures Fib(3 + Max(l, r)) <= Fib(l + 2) + Fib(r + 2)
  {
    var m := if l > r then l else r;
    FibGrows(m + 1);
    assert Fib(m + 3) == Fib(m + 2) + Fib(m + 1);
  }

  lemma {:induction false} FibGrows(n: nat)
    ensures Fib(n) <= Fib(n + 1)
    ensures Pow2(n / 2) <= Fib(n + 2)
  {
    if n >= 2 {
      FibGrows(n - 1);
      FibGrows(n - 2);
      assert Fib(n + 2) == Fib(n + 1) + Fib(n) && Fib(n + 1) == Fib(n) + Fib(n - 1);
      assert n / 2 == (n - 2) / 2 + 1;
    }
  }

  /** Nested calls of avl_insert, the outermost one included. */
  function InsertDepth(t: Tree, key: Key): nat {
    if t.Leaf? then 1
    else
      var cmp := CompareKeys(key, t.item.key);
      1 + if cmp < 0 then InsertDepth(t.left, key) else if cmp > 0 then InsertDepth(t.right, key) else 0
  }

  /** Nested calls of avl_delete, the search for the successor included. */
  function DeleteDepth(t: Tree, key: Key): nat {
    if t.Leaf? then 1
    else
      var cmp := CompareKeys(key, t.item.key);
      1 + if cmp < 0 then DeleteDepth(t.left, key)
          else if cmp > 0 then DeleteDepth(t.right, key)
          else if t.left.Leaf? || t.right.Leaf? then 0
          else DeleteDepth(t.right, MinItem(t.right).key)
  }

  lemma {:induction false} DepthBelowHeight(t: Tree, key: Key)
    ensures InsertDepth(t, key) <= TrueHeight(t) + 1
    ensures DeleteDepth(t, key) <= TrueHeight(t) + 1
    decreases t
  {
    if t.Branch? {
      DepthBelowHeight(t.left, key);
      DepthBelowHeight(t.right, key);
      if t.right.Branch? { DepthBelowHeight(t.right, MinItem(t.right).key); }
    }
  }

  /** Recursion in insert and delete is logarithmic in the number of contacts:
      2^((depth - 1) / 2) <= contacts + 1. */
  lemma {:induction false} DepthIsLogarithmic(t: Tree, key: Key)
    requires Balanced(t)
    ensures Pow2((InsertDepth(t, key) - 1) / 2) <= |Items(t)| + 1
    ensures Pow2((DeleteDepth(t, key) - 1) / 2) <= |Items(t)| + 1
  {
    DepthBelowHeight(t, key);
    BalancedIsFull(t);
    FibGrows(TrueHeight(t));
    Pow2Grows((InsertDepth(t, key) - 1) / 2, TrueHeight(t) / 2);
    Pow2Grows((DeleteDepth(t, key) - 1) / 2, TrueHeight(t) / 2);
  }

  lemma {:induction false} Pow2Grows(m: nat, n: nat)
    requires m <= n
    ensures Pow2(m) <= Pow2(n)
  {
    if m < n { Pow2Grows(m, n - 1); }
  }
}
