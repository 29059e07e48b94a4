/** The recursive routines of module2/pract4/pract4_3/phonebook.c that rewrite
    AVL nodes in place. Each is proved to compute the tree function of the
    AvlTree module on the nodes it is given, whatever else is in the heap. */
module AvlHeap {
  import opened Contacts
  import opened AvlTree

  /** The pointer to the root of t. */
  function Root(t: Tree): Node? {
    if t.Leaf? then null else t.node
  }

  /** The heap holds the tree t: same links, same contacts, same cached heights. */
  ghost predicate Rep(t: Tree)
    reads Nodes(t)
  {
    t.Branch? ==>
      && t.node.left == Root(t.left) && t.node.right == Root(t.right)
      && t.node.height == t.height
      && t.node.data == t.item.contact
      && Rep(t.left) && Rep(t.right)
  }

  /** Every contact still has the key it entered with. */
  ghost predicate Current(s: seq<Item>)
    reads set item | item in s :: item.contact
  {
    forall item :: item in s ==> item.contact.KeyNow() == item.key
  }

  lemma CurrentParts(t: Tree)
    requires t.Branch? && Current(Items(t))
    ensures Current(Items(t.left)) && Current(Items(t.right)) && t.item.contact.KeyNow() == t.item.key
  {
    assert t.item in Items(t);
    assert forall item :: item in Items(t.left) || item in Items(t.right) ==> item in Items(t);
  }

  /** Values only mention objects that exist. */
  lemma NodesExist(t: Tree) returns (nodes: set<Node>)
    ensures nodes == Nodes(t)
  {
    nodes := Nodes(t);
  }

  lemma ItemsExist(t: Tree) returns (items: seq<Item>)
    ensures items == Items(t)
  {
    items := Items(t);
  }

  /** get_height */
  function GetHeight(n: Node?): int
    reads n
  {
    if n == null then 0 else n.height
  }

  /** get_balance */
  function GetBalance(n: Node?): int
    reads n, if n == null then {} else {n.left, n.right}
  {
    if n == null then 0 else GetHeight(n.left) - GetHeight(n.right)
  }

  lemma BalanceAt(t: Tree)
    requires Rep(t)
    ensures GetHeight(Root(t)) == H(t) && GetBalance(Root(t)) == Balance(t)
  {
    if t.Branch? {
      assert Rep(t.left) && Rep(t.right);
    }
  }

  /** The value update_height stores in the node. */
  function NewHeight(n: Node): int
    reads n, n.left, n.right
  {
    1 + Max(GetHeight(n.left), GetHeight(n.right))
  }

  /** rotate_right */
  method RotateRightAt(y: Node, ghost t: Tree) returns (x: Node)
    requires t.Branch? && t.left.Branch? && y == t.node && Rep(t) && Unshared(t)
    modifies y, y.left
    ensures x == Root(RotateRight(t)) && Rep(RotateRight(t))
  {
    ghost var _ := NodesExist(t);
    x := y.left;
    assert Unshared(t.left) && Rep(t.left);
    var t2 := x.right;
    x.right := y;
    y.left := t2;
    y.height := NewHeight(y);
    assert Rep(t.left.left) && Rep(t.left.right) && Rep(t.right);
    assert Rep(RotateRight(t).right);
    x.height := NewHeight(x);
  }

  /** rotate_left */
  method RotateLeftAt(x: Node, ghost t: Tree) returns (y: Node)
    requires t.Branch? && t.right.Branch? && x == t.node && Rep(t) && Unshared(t)
    modifies x, x.right
    ensures y == Root(RotateLeft(t)) && Rep(RotateLeft(t))
  {
    ghost var _ := NodesExist(t);
    y := x.right;
    assert Unshared(t.right) && Rep(t.right);
    var t2 := y.left;
    y.left := x;
    x.right := t2;
    x.height := NewHeight(x);
    assert Rep(t.left) && Rep(t.right.left) && Rep(t.right.right);
    assert Rep(RotateLeft(t).left);
    y.height := NewHeight(y);
  }

  /** node->left = l, and then update_height(node); m is the tree that gives. */
  method SetLeft(node: Node, l: Node?, ghost m: Tree)
    requires m.Branch? && node == m.node && m == Mk(m.node, m.left, m.item, m.right)
    requires node.data == m.item.contact && node.right == Root(m.right) && l == Root(m.left)
    requires Rep(m.left) && Rep(m.right) && node !in Nodes(m.left) && node !in Nodes(m.right)
    modifies node`left, node`height
    ensures Rep(m)
  {
    node.left := l;
    node.height := NewHeight(node);
    assert Rep(m.left) && Rep(m.right);
  }

  /** node->right = r, and then update_height(node). */
  method SetRight(node: Node, r: Node?, ghost m: Tree)
    requires m.Branch? && node == m.node && m == Mk(m.node, m.left, m.item, m.right)
    requires node.data == m.item.contact && node.left == Root(m.left) && r == Root(m.right)
    requires Rep(m.left) && Rep(m.right) && node !in Nodes(m.left) && node !in Nodes(m.right)
    modifies node`right, node`height
    ensures Rep(m)
  {
    node.right := r;
    node.height := NewHeight(node);
    assert Rep(m.left) && Rep(m.right);
  }

  /** The double rotation of the left-right case. */
  method RotateLeftRightAt(node: Node, ghost t: Tree) returns (r: Node)
    requires t.Branch? && t.left.Branch? && t.left.right.Branch?
    requires node == t.node && Rep(t) && Unshared(t)
    modifies Nodes(t)
    ensures r == Root(RotateRight(t.(left := RotateLeft(t.left)))) && Rep(RotateRight(t.(left := RotateLeft(t.left))))
  {
    ghost var _ := NodesExist(t);
    RotateLeftKeeps(t.left);
    assert node.left != node;
    var l := RotateLeftAt(node.left, t.left);
    assert Rep(t.right);
    node.left := l;
    assert Rep(t.right) && Rep(RotateLeft(t.left));
    r := RotateRightAt(node, t.(left := RotateLeft(t.left)));
  }

  /** The double rotation of the right-left case. */
  method RotateRightLeftAt(node: Node, ghost t: Tree) returns (r: Node)
    requires t.Branch? && t.right.Branch? && t.right.left.Branch?
    requires node == t.node && Rep(t) && Unshared(t)
    modifies Nodes(t)
    ensures r == Root(RotateLeft(t.(right := RotateRight(t.right)))) && Rep(RotateLeft(t.(right := RotateRight(t.right))))
  {
    ghost var _ := NodesExist(t);
    RotateRightKeeps(t.right);
    assert node.right != node;
    var rr := RotateRightAt(node.right, t.right);
    assert Rep(t.left);
    node.right := rr;
    assert Rep(t.left) && Rep(RotateRight(t.right));
    r := RotateLeftAt(node, t.(right := RotateRight(t.right)));
  }

  /** The end of avl_insert, from the balance on. */
  method RebalanceAfterInsert(node: Node, data: Contact, ghost t: Tree) returns (r: Node)
    requires ReadyToFix(t, data.KeyNow())
    requires node == t.node && Rep(t) && Unshared(t) && Current(Items(t))
    modifies Nodes(t)
    ensures r == Root(FixInsert(t, data.KeyNow())) && Rep(FixInsert(t, data.KeyNow()))
  {
    var balance := GetBalance(node);
    MkShape(t.node, t.left, t.item, t.right);
    if balance > 1 {
      assert t.left.item in Items(t);
    } else if balance < -1 {
      assert t.right.item in Items(t);
    }
    if balance > 1 && ContactCompare(data, node.left.data) < 0 {
      r := RotateRightAt(node, t);
      return;
    }
    if balance < -1 && ContactCompare(data, node.right.data) > 0 {
      r := RotateLeftAt(node, t);
      return;
    }
    if balance > 1 && ContactCompare(data, node.left.data) > 0 {
      RotateLeftRightShape(t);
      r := RotateLeftRightAt(node, t);
      return;
    }
    if balance < -1 && ContactCompare(data, node.right.data) < 0 {
      RotateRightLeftShape(t);
      r := RotateRightLeftAt(node, t);
      return;
    }
    r := node;
  }

  /** avl_insert. The ghost n is the node malloc returned, if the call got that
      far; depth counts the nested calls, this one included. */
  method AvlInsert(node: Node?, data: Contact, ghost t: Tree)
    returns (r: Node, ghost n: Node, ghost depth: nat)
    requires node == Root(t) && Rep(t) && Unshared(t) && Shape(t)
    requires Sorted(Items(t)) && Current(Items(t))
    modifies Nodes(t)
    ensures !HasKey(Items(t), data.KeyNow()) ==> fresh(n)
    ensures var t' := Insert(t, n, Item(data, data.KeyNow())); r == Root(t') && Rep(t')
    ensures depth == InsertDepth(t, data.KeyNow())
    decreases t, 2
  {
    if node == null {
      r := new Node(data);
      n, depth := r, 1;
      return;
    }
    assert t.item in Items(t);
    var cmp := ContactCompare(data, node.data);
    if cmp < 0 {
      r, n, depth := AvlInsertLeft(node, data, t);
    } else if cmp > 0 {
      r, n, depth := AvlInsertRight(node, data, t);
    } else {
      CompareZero(data.KeyNow(), t.item.key);
      assert IsAt(Items(t), t.item.key, |Items(t.left)|);
      r, n, depth := node, node, 0;
    }
    depth := depth + 1;
  }

  /** The case cmp < 0 of avl_insert. */
  method AvlInsertLeft(node: Node, data: Contact, ghost t: Tree)
    returns (r: Node, ghost n: Node, ghost depth: nat)
    requires t.Branch? && node == t.node && Rep(t) && Unshared(t) && Shape(t)
    requires Sorted(Items(t)) && Current(Items(t)) && Before(data.KeyNow(), t.item.key)
    modifies Nodes(t)
    ensures !HasKey(Items(t), data.KeyNow()) ==> fresh(n)
    ensures var t' := Insert(t, n, Item(data, data.KeyNow())); r == Root(t') && Rep(t')
    ensures depth == InsertDepth(t.left, data.KeyNow())
    decreases t, 1
  {
    ghost var _ := NodesExist(t);
    ghost var _ := ItemsExist(t);
    ghost var item := Item(data, data.KeyNow());
    n, depth := GrowLeft(node, data, t);
    assert Current(Items(t));
    InsertLeftStep(t, n, item);
    r := RebalanceAfterInsert(node, data, Mk(t.node, Insert(t.left, n, item), t.item, t.right));
  }

  /** Its part before the balance is looked at. */
  method GrowLeft(node: Node, data: Contact, ghost t: Tree) returns (ghost n: Node, ghost depth: nat)
    requires t.Branch? && node == t.node && Rep(t) && Unshared(t) && Shape(t)
    requires Sorted(Items(t)) && Current(Items(t)) && Before(data.KeyNow(), t.item.key)
    modifies Nodes(t)
    ensures !HasKey(Items(t), data.KeyNow()) ==> fresh(n)
    ensures Rep(Mk(t.node, Insert(t.left, n, Item(data, data.KeyNow())), t.item, t.right))
    ensures depth == InsertDepth(t.left, data.KeyNow())
    decreases t, 0
  {
    ghost var _ := NodesExist(t);
    ghost var item := Item(data, data.KeyNow());
    SubtreeOfInsert(t, item.key);
    var l;
    l, n, depth := AvlInsert(node.left, data, t.left);
    InsertedApart(t, n, item);
    SetLeft(node, l, Mk(t.node, Insert(t.left, n, item), t.item, t.right));
  }

  /** The case cmp > 0 of avl_insert. */
  method AvlInsertRight(node: Node, data: Contact, ghost t: Tree)
    returns (r: Node, ghost n: Node, ghost depth: nat)
    requires t.Branch? && node == t.node && Rep(t) && Unshared(t) && Shape(t)
    requires Sorted(Items(t)) && Current(Items(t)) && CompareKeys(data.KeyNow(), t.item.key) > 0
    modifies Nodes(t)
    ensures !HasKey(Items(t), data.KeyNow()) ==> fresh(n)
    ensures var t' := Insert(t, n, Item(data, data.KeyNow())); r == Root(t') && Rep(t')
    ensures depth == InsertDepth(t.right, data.KeyNow())
    decreases t, 1
  {
    ghost var _ := NodesExist(t);
    ghost var _ := ItemsExist(t);
    ghost var item := Item(data, data.KeyNow());
    n, depth := GrowRight(node, data, t);
    assert Current(Items(t));
    InsertRightStep(t, n, item);
    r := RebalanceAfterInsert(node, data, Mk(t.node, t.left, t.item, Insert(t.right, n, item)));
  }

  /** Its part before the balance is looked at. */
  method GrowRight(node: Node, data: Contact, ghost t: Tree) returns (ghost n: Node, ghost depth: nat)
    requires t.Branch? && node == t.node && Rep(t) && Unshared(t) && Shape(t)
    requires Sorted(Items(t)) && Current(Items(t)) && CompareKeys(data.KeyNow(), t.item.key) > 0
    modifies Nodes(t)
    ensures !HasKey(Items(t), data.KeyNow()) ==> fresh(n)
    ensures Rep(Mk(t.node, t.left, t.item, Insert(t.right, n, Item(data, data.KeyNow()))))
    ensures depth == InsertDepth(t.right, data.KeyNow())
    decreases t, 0
  {
    ghost var _ := NodesExist(t);
    ghost var item := Item(data, data.KeyNow());
    SubtreeOfInsert(t, item.key);
    var rr;
    rr, n, depth := AvlInsert(node.right, data, t.right);
    InsertedApart(t, n, item);
    SetRight(node, rr, Mk(t.node, t.left, t.item, Insert(t.right, n, item)));
  }

  /** min_value_node */
  method MinValueNode(node: Node, ghost t: Tree) returns (current: Node)
    requires t.Branch? && node == t.node && Rep(t)
    ensures current.data == MinItem(t).contact
  {
    current := node;
    ghost var rest := t;
    while current.left != null
      invariant rest.Branch? && current == rest.node && Rep(rest)
      invariant MinItem(rest) == MinItem(t)
      decreases rest
    {
      current := current.left;
      rest := rest.left;
    }
  }

  /** The end of avl_delete, from the balance on. */
  method RebalanceAfterDelete(root: Node, ghost t: Tree, ghost m: Tree) returns (r: Node)
    requires DeletedBelow(t, m) && root == m.node && Rep(m)
    modifies Nodes(m)
    ensures r == Root(FixDelete(m)) && Rep(FixDelete(m))
  {
    var balance := GetBalance(root);
    MkShape(m.node, m.left, m.item, m.right);
    BalanceAt(m.left);
    BalanceAt(m.right);
    if balance > 1 && GetBalance(root.left) >= 0 {
      r := RotateRightAt(root, m);
      return;
    }
    if balance > 1 && GetBalance(root.left) < 0 {
      RotateLeftRightShape(m);
      r := RotateLeftRightAt(root, m);
      return;
    }
    if balance < -1 && GetBalance(root.right) <= 0 {
      r := RotateLeftAt(root, m);
      return;
    }
    if balance < -1 && GetBalance(root.right) > 0 {
      RotateRightLeftShape(m);
      r := RotateRightLeftAt(root, m);
      return;
    }
    r := root;
  }

  /** avl_delete. The ghost freed holds the node handed to free, if any; depth
      counts the nested calls, this one included. */
  method AvlDelete(root: Node?, data: Contact, ghost t: Tree)
    returns (r: Node?, ghost freed: set<Node>, ghost depth: nat)
    requires root == Root(t) && Rep(t) && Unshared(t) && Shape(t)
    requires Sorted(Items(t)) && Current(Items(t))
    modifies Nodes(t)
    ensures var t' := Delete(t, data.KeyNow()); r == Root(t') && Rep(t')
    ensures freed == Freed(t, data.KeyNow())
    ensures depth == DeleteDepth(t, data.KeyNow())
    decreases t, 3
  {
    if root == null {
      r, freed, depth := null, {}, 1;
      return;
    }
    assert t.item in Items(t);
    var cmp := ContactCompare(data, root.data);
    if cmp < 0 {
      r, freed, depth := AvlDeleteLeft(root, data, t);
    } else if cmp > 0 {
      r, freed, depth := AvlDeleteRight(root, data, t);
    } else {
      r, freed, depth := AvlDeleteRoot(root, data, t);
    }
    depth := depth + 1;
  }

  /** The case cmp < 0 of avl_delete. */
  method AvlDeleteLeft(root: Node, data: Contact, ghost t: Tree)
    returns (r: Node?, ghost freed: set<Node>, ghost depth: nat)
    requires t.Branch? && root == t.node && Rep(t) && Unshared(t) && Shape(t)
    requires Sorted(Items(t)) && Current(Items(t)) && Before(data.KeyNow(), t.item.key)
    modifies Nodes(t)
    ensures var t' := Delete(t, data.KeyNow()); r == Root(t') && Rep(t')
    ensures freed == Freed(t, data.KeyNow())
    ensures depth == DeleteDepth(t.left, data.KeyNow())
    decreases t, 1
  {
    ghost var _ := NodesExist(t);
    SortedParts(Items(t.left), t.item, Items(t.right));
    DeleteLeftStep(t, data.KeyNow());
    ghost var m := Mk(t.node, Delete(t.left, data.KeyNow()), t.item, t.right);
    var l;
    l, freed, depth := AvlDelete(root.left, data, t.left);
    SetLeft(root, l, m);
    r := RebalanceAfterDelete(root, t, m);
  }

  /** The case cmp > 0 of avl_delete. */
  method AvlDeleteRight(root: Node, data: Contact, ghost t: Tree)
    returns (r: Node?, ghost freed: set<Node>, ghost depth: nat)
    requires t.Branch? && root == t.node && Rep(t) && Unshared(t) && Shape(t)
    requires Sorted(Items(t)) && Current(Items(t)) && CompareKeys(data.KeyNow(), t.item.key) > 0
    modifies Nodes(t)
    ensures var t' := Delete(t, data.KeyNow()); r == Root(t') && Rep(t')
    ensures freed == Freed(t, data.KeyNow())
    ensures depth == DeleteDepth(t.right, data.KeyNow())
    decreases t, 1
  {
    ghost var _ := NodesExist(t);
    SortedParts(Items(t.left), t.item, Items(t.right));
    DeleteRightStep(t, t.item, data.KeyNow());
    ghost var m := Mk(t.node, t.left, t.item, Delete(t.right, data.KeyNow()));
    var rr;
    rr, freed, depth := AvlDelete(root.right, data, t.right);
    SetRight(root, rr, m);
    r := RebalanceAfterDelete(root, t, m);
  }

  /** The case cmp == 0 of avl_delete. */
  method AvlDeleteRoot(root: Node, data: Contact, ghost t: Tree)
    returns (r: Node?, ghost freed: set<Node>, ghost depth: nat)
    requires t.Branch? && root == t.node && Rep(t) && Unshared(t) && Shape(t)
    requires Sorted(Items(t)) && Current(Items(t)) && CompareKeys(data.KeyNow(), t.item.key) == 0
    modifies Nodes(t)
    ensures var t' := Delete(t, data.KeyNow()); r == Root(t') && Rep(t')
    ensures freed == Freed(t, data.KeyNow())
    ensures depth == if t.left.Leaf? || t.right.Leaf? then 0 else DeleteDepth(t.right, MinItem(t.right).key)
    decreases t, 2
  {
    depth := 0;
    if root.left == null || root.right == null {
      var temp := if root.left != null then root.left else root.right;
      if temp == null {
        r, freed := null, {root};
      } else {
        r := CopyChild(root, temp, t, if root.left != null then t.left else t.right);
        freed := {temp};
      }
    } else {
      r, freed, depth := AvlDeleteTwoChildren(root, t);
    }
  }

  /** *root = *temp, temp being the only child, and the rebalancing. */
  method CopyChild(root: Node, temp: Node, ghost t: Tree, ghost child: Tree) returns (r: Node)
    requires t.Branch? && root == t.node && Rep(t) && Unshared(t) && Shape(t)
    requires (t.right.Leaf? && child == t.left) || (t.left.Leaf? && child == t.right)
    requires child.Branch? && temp == child.node
    modifies Nodes(t)
    ensures var t' := FixDelete(Mk(t.node, child.left, child.item, child.right)); r == Root(t') && Rep(t')
  {
    ghost var _ := NodesExist(t);
    CopyChildStep(t, child);
    ghost var m := Mk(t.node, child.left, child.item, child.right);
    root.data, root.left, root.right, root.height := temp.data, temp.left, temp.right, temp.height;
    root.height := NewHeight(root);
    assert Rep(m.left) && Rep(m.right);
    r := RebalanceAfterDelete(root, t, m);
  }

  /** The case of two children: the root takes over the least contact of its
      right subtree, which is then deleted there. */
  method AvlDeleteTwoChildren(root: Node, ghost t: Tree)
    returns (r: Node, ghost freed: set<Node>, ghost depth: nat)
    requires t.Branch? && t.left.Branch? && t.right.Branch?
    requires root == t.node && Rep(t) && Unshared(t) && Shape(t)
    requires Sorted(Items(t)) && Current(Items(t))
    modifies Nodes(t)
    ensures r == Root(DeleteRoot(t)) && Rep(DeleteRoot(t))
    ensures freed == Freed(t.right, MinItem(t.right).key)
    ensures depth == DeleteDepth(t.right, MinItem(t.right).key)
    decreases t, 1
  {
    ghost var m := Mk(t.node, t.left, MinItem(t.right), Delete(t.right, MinItem(t.right).key));
    SuccessorStep(t);
    freed, depth := TakeSuccessor(root, t);
    r := RebalanceAfterDelete(root, t, m);
  }

  /** The part of it before the balance is looked at. */
  method TakeSuccessor(root: Node, ghost t: Tree) returns (ghost freed: set<Node>, ghost depth: nat)
    requires t.Branch? && t.right.Branch?
    requires root == t.node && Rep(t) && Unshared(t) && Shape(t)
    requires Sorted(Items(t)) && Current(Items(t))
    modifies Nodes(t)
    ensures Rep(Mk(t.node, t.left, MinItem(t.right), Delete(t.right, MinItem(t.right).key)))
    ensures freed == Freed(t.right, MinItem(t.right).key)
    ensures depth == DeleteDepth(t.right, MinItem(t.right).key)
    decreases t, 0
  {
    ghost var _ := NodesExist(t);
    ghost var least := MinItem(t.right);
    SuccessorPart(t);
    TakeData(root, t);
    var rr;
    rr, freed, depth := AvlDelete(root.right, root.data, t.right);
    SetRight(root, rr, Mk(t.node, t.left, least, Delete(t.right, least.key)));
  }

  /** root->data = temp->data, temp being the least node of the right subtree. */
  method TakeData(root: Node, ghost t: Tree)
    requires t.Branch? && t.right.Branch? && root == t.node && Rep(t) && Unshared(t)
    requires Current(Items(t.right)) && MinItem(t.right) in Items(t.right)
    modifies root`data
    ensures root.data == MinItem(t.right).contact && root.data.KeyNow() == MinItem(t.right).key
    ensures Rep(t.left) && Rep(t.right) && Current(Items(t.right))
  {
    ghost var _ := NodesExist(t);
    ghost var _ := ItemsExist(t.right);
    var temp := MinValueNode(root.right, t.right);
    root.data := temp.data;
    assert Rep(t.left) && Rep(t.right);
    assert Current(Items(t.right));
  }
}
