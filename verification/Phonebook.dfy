/** The contact list of module2/pract4/pract4_3/phonebook.c: the operations a
    user can run on the AVL tree, and what every run of them keeps. */
module Phonebook {
  import opened Contacts
  import opened AvlTree
  import opened AvlHeap
  import opened Sequences

  // ----- The list as a value -----

  /** The compared field a menu choice 1, 2 or 3 edits. */
  datatype Field = LastName | FirstName | MiddleName

  function Edited(key: Key, field: Field, text: Text): Key {
    match field
    case LastName => key.(last := text)
    case FirstName => key.(first := text)
    case MiddleName => key.(middle := text)
  }

  /** An edit changes the field chosen and no other. */
  lemma EditedFields(key: Key, field: Field, text: Text)
    ensures Edited(key, field, text).last == if field == LastName then text else key.last
    ensures Edited(key, field, text).first == if field == FirstName then text else key.first
    ensures Edited(key, field, text).middle == if field == MiddleName then text else key.middle
    ensures Edited(key, field, text).addr == key.addr
  {
  }

  /** One user operation; node is the node malloc returns to it. */
  datatype Op =
    | Add(item: Item, node: Node)
    | RemoveAt(index: int)
    | EditAt(index: int, field: Field, text: Text, node: Node)

  /** root and count */
  datatype Book = Book(tree: Tree, count: int)

  function Step(b: Book, op: Op): Book {
    match op
    case Add(item, node) => Book(Insert(b.tree, node, item), b.count + 1)
    case RemoveAt(i) =>
      if 0 <= i < b.count && i < |Items(b.tree)| then Book(Delete(b.tree, Items(b.tree)[i].key), b.count - 1) else b
    case EditAt(i, field, text, node) =>
      if 0 <= i < b.count && i < |Items(b.tree)| then
        var item := Items(b.tree)[i];
        Book(Insert(Delete(b.tree, item.key), node, Item(item.contact, Edited(item.key, field, text))), b.count)
      else b
  }

  /** What malloc guarantees of the memory it hands out: a new contact has an
      address no listed contact has, a new node is not in the tree. */
  ghost predicate Legal(b: Book, op: Op) {
    match op
    case Add(item, node) => node !in Nodes(b.tree) && forall it :: it in Items(b.tree) ==> it.key.addr != item.key.addr
    case RemoveAt(_) => true
    case EditAt(i, _, _, node) =>
      0 <= i < |Items(b.tree)| ==> node !in Nodes(Delete(b.tree, Items(b.tree)[i].key))
  }

  function Run(b: Book, ops: seq<Op>): Book
    decreases |ops|
  {
    if ops == [] then b else Run(Step(b, ops[0]), ops[1..])
  }

  ghost predicate LegalRun(b: Book, ops: seq<Op>)
    decreases |ops|
  {
    ops != [] ==> Legal(b, ops[0]) && LegalRun(Step(b, ops[0]), ops[1..])
  }

  // ----- The simple form: a sorted sequence -----

  function InsertSorted(s: seq<Item>, item: Item): seq<Item> {
    if s == [] || Before(item.key, s[0].key) then [item] + s else [s[0]] + InsertSorted(s[1..], item)
  }

  function SortedStep(s: seq<Item>, op: Op): seq<Item> {
    match op
    case Add(item, _) => InsertSorted(s, item)
    case RemoveAt(i) => if 0 <= i < |s| then s[..i] + s[i + 1..] else s
    case EditAt(i, field, text, _) =>
      if 0 <= i < |s| then
        InsertSorted(s[..i] + s[i + 1..], Item(s[i].contact, Edited(s[i].key, field, text)))
      else s
  }

  function SortedRun(s: seq<Item>, ops: seq<Op>): seq<Item>
    decreases |ops|
  {
    if ops == [] then s else SortedRun(SortedStep(s, ops[0]), ops[1..])
  }

  /** No two contacts share an address. */
  ghost predicate DistinctAddrs(s: seq<Item>) {
    forall i, j :: 0 <= i < j < |s| ==> s[i].key.addr != s[j].key.addr
  }

  ghost predicate Consistent(b: Book) {
    Avl(b.tree) && DistinctAddrs(Items(b.tree)) && b.count == |Items(b.tree)|
  }

  lemma {:induction false} InsertSortedAtPlace(s: seq<Item>, item: Item, p: int)
    requires IsPlace(s, item.key, p)
    ensures InsertSorted(s, item) == Spliced(s, item, p)
  {
    if s != [] {
      CompareFlip(item.key, s[0].key);
      if p > 0 {
        assert forall i :: 0 <= i < |s[1..]| ==> s[1..][i] == s[i + 1];
        InsertSortedAtPlace(s[1..], item, p - 1);
      }
    }
  }

  lemma {:induction false} NewAddrIsNewKey(s: seq<Item>, key: Key)
    requires forall it :: it in s ==> it.key.addr != key.addr
    ensures !HasKey(s, key)
  {
  }

  lemma {:induction false} DistinctSpliced(s: seq<Item>, item: Item, p: int)
    requires DistinctAddrs(s) && 0 <= p <= |s|
    requires forall it :: it in s ==> it.key.addr != item.key.addr
    ensures DistinctAddrs(Spliced(s, item, p))
  {
    SplicedAt(s, item, p);
  }

  lemma {:induction false} DistinctWithout(s: seq<Item>, i: int)
    requires DistinctAddrs(s) && 0 <= i < |s|
    ensures DistinctAddrs(Without(s, i))
    ensures forall it :: it in Without(s, i) ==> it in s && it.key.addr != s[i].key.addr
  {
    WithoutAt(s, i);
  }

  /** Insertion of a contact with a new address into a consistent list. */
  lemma {:induction false} AddStep(t: Tree, item: Item, node: Node)
    requires Avl(t) && DistinctAddrs(Items(t)) && node !in Nodes(t)
    requires forall it :: it in Items(t) ==> it.key.addr != item.key.addr
    ensures !HasKey(Items(t), item.key)
    ensures var t' := Insert(t, node, item);
      && Avl(t') && DistinctAddrs(Items(t'))
      && Items(t') == InsertSorted(Items(t), item)
      && |Items(t')| == |Items(t)| + 1
      && forall it :: it in Items(t') ==> it in Items(t) || it == item
  {
    NewAddrIsNewKey(Items(t), item.key);
    var p := InsertIsCorrect(t, node, item);
    InsertSortedAtPlace(Items(t), item, p);
    DistinctSpliced(Items(t), item, p);
  }

  /** Deletion of the contact at an index of a consistent list. */
  lemma {:induction false} RemoveStep(t: Tree, i: int)
    requires Avl(t) && DistinctAddrs(Items(t)) && 0 <= i < |Items(t)|
    ensures var t' := Delete(t, Items(t)[i].key);
      && Avl(t') && DistinctAddrs(Items(t'))
      && Items(t') == Items(t)[..i] + Items(t)[i + 1..]
      && Nodes(t') <= Nodes(t)
      && forall it :: it in Items(t') ==> it in Items(t) && it.key.addr != Items(t)[i].key.addr
  {
    DeleteIsCorrect(t, Items(t)[i].key, i);
    DistinctWithout(Items(t), i);
  }

  /** Every operation keeps the list consistent and does to the in-order
      sequence what it would do to a sorted sequence. */
  lemma {:induction false} StepRefines(b: Book, op: Op)
    requires Consistent(b) && Legal(b, op)
    ensures Consistent(Step(b, op))
    ensures Items(Step(b, op).tree) == SortedStep(Items(b.tree), op)
  {
    match op
    case Add(item, node) =>
      AddStep(b.tree, item, node);
    case RemoveAt(i) =>
      if 0 <= i < b.count {
        RemoveStep(b.tree, i);
      }
    case EditAt(i, field, text, node) =>
      if 0 <= i < b.count {
        EditStep(b.tree, i, field, text, node);
      }
  }

  lemma {:induction false} EditStep(t: Tree, i: int, field: Field, text: Text, node: Node)
    requires Avl(t) && DistinctAddrs(Items(t)) && 0 <= i < |Items(t)|
    requires node !in Nodes(Delete(t, Items(t)[i].key))
    ensures var item := Items(t)[i];
      var t' := Insert(Delete(t, item.key), node, Item(item.contact, Edited(item.key, field, text)));
      && Avl(t') && DistinctAddrs(Items(t')) && |Items(t')| == |Items(t)|
      && Items(t') == InsertSorted(Items(t)[..i] + Items(t)[i + 1..], Item(item.contact, Edited(item.key, field, text)))
  {
    RemoveStep(t, i);
    var item := Items(t)[i];
    AddStep(Delete(t, item.key), Item(item.contact, Edited(item.key, field, text)), node);
  }

  /** The book after an edit whose new tree is t. */
  lemma {:induction false} EditedBook(b: Book, i: int, field: Field, text: Text, node: Node, t: Tree)
    requires Consistent(b) && 0 <= i < b.count && node !in Nodes(Delete(b.tree, Items(b.tree)[i].key))
    requires var item := Items(b.tree)[i];
      t == Insert(Delete(b.tree, item.key), node, Item(item.contact, Edited(item.key, field, text)))
    ensures Step(b, EditAt(i, field, text, node)) == Book(t, b.count)
    ensures Consistent(Book(t, b.count)) && Items(t) == SortedStep(Items(b.tree), EditAt(i, field, text, node))
  {
    StepRefines(b, EditAt(i, field, text, node));
  }

  lemma {:induction false} RunRefinesFrom(b: Book, ops: seq<Op>)
    requires Consistent(b) && LegalRun(b, ops)
    ensures Consistent(Run(b, ops))
    ensures Items(Run(b, ops).tree) == SortedRun(Items(b.tree), ops)
    decreases |ops|
  {
    if ops != [] {
      StepRefines(b, ops[0]);
      RunRefinesFrom(Step(b, ops[0]), ops[1..]);
    }
  }

  lemma SortedIsByName(s: seq<Item>)
    requires Sorted(s)
    ensures forall i, j :: 0 <= i < j < |s| ==> ByName(s[i].key, s[j].key)
  {
    forall i, j | 0 <= i < j < |s| ensures ByName(s[i].key, s[j].key) {
      BeforeIsByName(s[i].key, s[j].key);
    }
  }

  /** Over every run of add, edit and remove from the empty list: the tree is a
      valid AVL tree, the contacts are in the order of their names, the list is the sorted sequence that the same operations
      build, count is its length, and the tree is no deeper than the number of
      contacts allows. */
  lemma {:induction false} EveryRunRefines(ops: seq<Op>)
    requires LegalRun(Book(Leaf, 0), ops)
    ensures var b := Run(Book(Leaf, 0), ops);
      && Avl(b.tree)
      && Items(b.tree) == SortedRun([], ops)
      && b.count == |SortedRun([], ops)|
      && (forall i, j :: 0 <= i < j < |Items(b.tree)| ==> ByName(Items(b.tree)[i].key, Items(b.tree)[j].key))
      && DistinctAddrs(Items(b.tree))
      && |Items(b.tree)| + 1 >= Fib(TrueHeight(b.tree) + 2)
  {
    RunRefinesFrom(Book(Leaf, 0), ops);
    BalancedIsFull(Run(Book(Leaf, 0), ops).tree);
    SortedIsByName(Items(Run(Book(Leaf, 0), ops).tree));
  }

  // ----- The list in the heap -----

  /** The index and contact of one line of output. */
  datatype Line = Line(index: int, contact: Contact)

  function Numbered(s: seq<Item>, from: int): seq<Line> {
    seq(|s|, k requires 0 <= k < |s| => Line(from + k, s[k].contact))
  }

  /** strstr(text, query) != NULL */
  predicate Occurs(query: Text, text: Text) {
    |query| <= |text| && (query <= text || Occurs(query, text[1..]))
  }

  predicate StandsAt(query: Text, text: Text, k: nat) {
    k + |query| <= |text| && text[k..k + |query|] == query
  }

  ghost predicate Contains(text: Text, query: Text) {
    exists k :: StandsAt(query, text, k)
  }

  /** The query occurs if it stands at some position. */
  lemma {:induction false} OccursSomewhere(query: Text, text: Text)
    ensures Occurs(query, text) <==> Contains(text, query)
    decreases |text|
  {
    if |query| <= |text| {
      if query <= text {
        assert StandsAt(query, text, 0);
      } else {
        OccursSomewhere(query, text[1..]);
        if k: nat :| StandsAt(query, text[1..], k) {
          assert text[k + 1..k + 1 + |query|] == text[1..][k..k + |query|];
          assert StandsAt(query, text, k + 1);
        }
        if k: nat :| StandsAt(query, text, k) {
          assert k > 0;
          assert text[1..][k - 1..k - 1 + |query|] == text[k..k + |query|];
          assert StandsAt(query, text[1..], k - 1);
        }
      }
    }
  }

  predicate Matches(key: Key, query: Text) {
    Occurs(query, key.last) || Occurs(query, key.first)
  }

  function FoundOne(item: Item, index: int, query: Text): seq<Line> {
    if Matches(item.key, query) then [Line(index, item.contact)] else []
  }

  /** The lines of s whose contact matches the query, s starting at an index. */
  function Found(s: seq<Item>, from: int, query: Text): seq<Line> {
    if s == [] then [] else FoundOne(s[0], from, query) + Found(s[1..], from + 1, query)
  }

  lemma {:induction false} FoundParts(a: seq<Item>, x: Item, b: seq<Item>, from: int, query: Text)
    ensures Found(a + [x] + b, from, query) ==
      Found(a, from, query) + FoundOne(x, from + |a|, query) + Found(b, from + |a| + 1, query)
    decreases |a|
  {
    var s := a + [x] + b;
    if a == [] {
      assert s[0] == x && s[1..] == b;
    } else {
      assert s[0] == a[0] && s[1..] == a[1..] + [x] + b;
      FoundParts(a[1..], x, b, from + 1, query);
      LinesRegrouped(FoundOne(a[0], from, query), Found(a[1..], from + 1, query),
        FoundOne(x, from + |a|, query), Found(b, from + |a| + 1, query));
    }
  }

  lemma LinesRegrouped(a: seq<Line>, b: seq<Line>, c: seq<Line>, d: seq<Line>)
    ensures a + (b + c + d) == a + b + c + d
  {
  }

  lemma MatchesIfContains(key: Key, query: Text)
    ensures Matches(key, query) <==> Contains(key.last, query) || Contains(key.first, query)
  {
    OccursSomewhere(query, key.last);
    OccursSomewhere(query, key.first);
  }

  lemma {:induction false} FoundLines(s: seq<Item>, from: int, query: Text, line: Line)
    ensures line in Found(s, from, query) <==>
      && from <= line.index < from + |s|
      && line.contact == s[line.index - from].contact
      && Matches(s[line.index - from].key, query)
    decreases |s|
  {
    if s != [] {
      FoundLines(s[1..], from + 1, query, line);
      var head, rest := FoundOne(s[0], from, query), Found(s[1..], from + 1, query);
      assert line in head + rest <==> line in head || line in rest;
      if line.index > from {
        assert line.index < from + |s| ==> s[1..][line.index - (from + 1)] == s[line.index - from];
      }
    }
  }

  /** What find_contacts prints is exactly the contacts whose last or first name
      contains the query, each under the index that get_contact_by_index answers
      it for. */
  lemma FoundExactly(s: seq<Item>, from: int, query: Text, line: Line)
    ensures line in Found(s, from, query) <==>
      && from <= line.index < from + |s|
      && line.contact == s[line.index - from].contact
      && (Contains(s[line.index - from].key.last, query) || Contains(s[line.index - from].key.first, query))
  {
    FoundLines(s, from, query, line);
    if from <= line.index < from + |s| {
      MatchesIfContains(s[line.index - from].key, query);
    }
  }

  /** root points to the tree t, and no key in it is out of date. */
  ghost predicate Holds(root: Node?, t: Tree)
    reads Nodes(t), set item | item in Items(t) :: item.contact
  {
    root == Root(t) && Rep(t) && Current(Items(t))
  }

  /** list->root = avl_insert(list->root, c), c being new to the tree. */
  method Link(root: Node?, c: Contact, ghost t: Tree) returns (r: Node, ghost n: Node)
    requires Holds(root, t) && Avl(t) && DistinctAddrs(Items(t))
    requires forall item :: item in Items(t) ==> item.key.addr != c.addr
    modifies Nodes(t)
    ensures fresh(n) && n !in Nodes(t)
    ensures Holds(r, Insert(t, n, Item(c, c.KeyNow())))
  {
    ghost var _ := NodesExist(t);
    ghost var _ := ItemsExist(t);
    NewAddrIsNewKey(Items(t), c.KeyNow());
    ghost var depth;
    r, n, depth := AvlInsert(root, c, t);
    AddStep(t, Item(c, c.KeyNow()), n);
    assert Current(Items(t));
  }

  /** list->root = avl_delete(list->root, c), c being listed at index i. */
  method Unlink(root: Node?, c: Contact, ghost t: Tree, ghost i: int) returns (r: Node?, ghost freed: set<Node>)
    requires Holds(root, t) && Avl(t) && DistinctAddrs(Items(t))
    requires 0 <= i < |Items(t)| && c == Items(t)[i].contact
    modifies Nodes(t)
    ensures Holds(r, Delete(t, Items(t)[i].key)) && freed == Freed(t, Items(t)[i].key)
  {
    ghost var _ := NodesExist(t);
    ghost var _ := ItemsExist(t);
    assert Items(t)[i] in Items(t);
    ghost var depth;
    r, freed, depth := AvlDelete(root, c, t);
    RemoveStep(t, i);
    assert Current(Items(t));
  }

  /** The line of edit_contact_flow that reads the new text into the contact. */
  method SetField(c: Contact, field: Field, text: Text)
    modifies c
    ensures c.KeyNow() == Edited(old(c.KeyNow()), field, text)
    ensures c.lastName == if field == LastName then text else old(c.lastName)
    ensures c.firstName == if field == FirstName then text else old(c.firstName)
    ensures c.middleName == if field == MiddleName then text else old(c.middleName)
  {
    match field {
      case LastName => c.lastName := text;
      case FirstName => c.firstName := text;
      case MiddleName => c.middleName := text;
    }
  }

  /** The rename of edit_contact_flow: the contact leaves the tree, its field is
      rewritten, the contact goes back in. */
  method Rename(root: Node?, c: Contact, field: Field, text: Text, ghost t: Tree, ghost i: int)
    returns (r: Node, ghost n: Node)
    requires Holds(root, t) && Avl(t) && DistinctAddrs(Items(t))
    requires 0 <= i < |Items(t)| && c == Items(t)[i].contact
    modifies Nodes(t), c
    ensures fresh(n) && n !in Nodes(Delete(t, Items(t)[i].key))
    ensures c.KeyNow() == Edited(Items(t)[i].key, field, text)
    ensures Holds(r, Insert(Delete(t, Items(t)[i].key), n, Item(c, c.KeyNow())))
  {
    ghost var t1 := Delete(t, Items(t)[i].key);
    ghost var _ := NodesExist(t1);
    ghost var _ := ItemsExist(t1);
    assert Items(t)[i] in Items(t);
    RemoveStep(t, i);
    var root', freed := Unlink(root, c, t, i);
    SetField(c, field, text);
    assert Rep(t1);
    assert Current(Items(t1));
    r, n := Link(root', c, t1);
  }

  class ContactList {
    var root: Node?
    var count: int
    ghost var tree: Tree

    /** contactlist_init */
    constructor ()
      ensures Valid() && Contents() == []
    {
      root, count, tree := null, 0, Leaf;
    }

    ghost predicate Valid()
      reads this, Nodes(tree), set item | item in Items(tree) :: item.contact
    {
      Holds(root, tree) && Consistent(Book(tree, count))
    }

    ghost function Contents(): seq<Item>
      reads this
    {
      Items(tree)
    }

    /** avl_insert_auto: c is a contact malloc has just returned. */
    method Insert(c: Contact) returns (ghost n: Node)
      requires Valid() && forall item :: item in Contents() ==> item.key.addr != c.addr
      modifies this, Nodes(tree)
      ensures Valid() && fresh(n)
      ensures Book(tree, count) == Step(old(Book(tree, count)), Add(Item(c, c.KeyNow()), n))
      ensures Contents() == InsertSorted(old(Contents()), Item(c, c.KeyNow())) && count == old(count) + 1
    {
      ghost var t := tree;
      var r;
      r, n := Link(root, c, t);
      ghost var t' := AvlTree.Insert(t, n, Item(c, c.KeyNow()));
      StepRefines(Book(t, count), Add(Item(c, c.KeyNow()), n));
      Adopt(r, count + 1, t');
    }

    /** get_contact_by_index */
    method GetByIndex(index: int) returns (c: Contact?)
      requires Valid()
      ensures Valid()
      ensures c == if 0 <= index < count then Contents()[index].contact else null
    {
      if index < 0 || index >= count {
        return null;
      }
      ghost var _ := NodesExist(tree);
      ghost var _ := ItemsExist(tree);
      var current;
      current, c := GetByIndexHelper(root, index, 0, null, tree);
    }

    /** contactlist_remove. The ghost freed holds the tree node that was freed. */
    method Remove(index: int) returns (ghost freed: set<Node>)
      requires Valid()
      modifies this, Nodes(tree)
      ensures Valid() && Book(tree, count) == Step(old(Book(tree, count)), RemoveAt(index))
      ensures Contents() == SortedStep(old(Contents()), RemoveAt(index))
      ensures Contents() == if 0 <= index < old(count) then Without(old(Contents()), index) else old(Contents())
      ensures freed == if 0 <= index < old(count) then Freed(old(tree), old(Contents())[index].key) else {}
    {
      var c := GetByIndex(index);
      if c == null {
        return {};
      }
      ghost var t := tree;
      ghost var t' := Delete(t, Items(t)[index].key);
      StepRefines(Book(t, count), RemoveAt(index));
      var r;
      r, freed := Unlink(root, c, t, index);
      Adopt(r, count - 1, t');
    }

    /** One round of edit_contact_flow with a menu choice 1, 2 or 3. */
    method Edit(index: int, field: Field, text: Text) returns (ghost n: Node?)
      requires Valid()
      modifies this, Nodes(tree)
      modifies if 0 <= index < count && index < |Contents()| then {Contents()[index].contact} else {}
      ensures Valid()
      ensures 0 <= index < count ==>
        && n != null && fresh(n)
        && Book(tree, count) == Step(old(Book(tree, count)), EditAt(index, field, text, n))
        && Contents() == SortedStep(old(Contents()), EditAt(index, field, text, n))
        && old(Contents())[index].contact.KeyNow() == Edited(old(Contents())[index].key, field, text)
      ensures 0 <= index < count ==>
        var c := old(Contents())[index].contact;
        && c.lastName == (if field == LastName then text else old(Contents())[index].key.last)
        && c.firstName == (if field == FirstName then text else old(Contents())[index].key.first)
        && c.middleName == (if field == MiddleName then text else old(Contents())[index].key.middle)
      ensures !(0 <= index < count) ==> Book(tree, count) == old(Book(tree, count))
    {
      var c := GetByIndex(index);
      if c == null {
        return null;
      }
      EditedFields(Contents()[index].key, field, text);
      n := EditListed(c, index, field, text);
    }

    /** The round, once the contact is at hand. */
    method EditListed(c: Contact, ghost index: int, field: Field, text: Text) returns (ghost n: Node)
      requires Valid() && 0 <= index < count && c == Contents()[index].contact
      modifies this, Nodes(tree), c
      ensures Valid() && fresh(n)
      ensures Book(tree, count) == Step(old(Book(tree, count)), EditAt(index, field, text, n))
      ensures Contents() == SortedStep(old(Contents()), EditAt(index, field, text, n))
      ensures c.KeyNow() == Edited(old(Contents())[index].key, field, text)
    {
      ghost var t, item := tree, Items(tree)[index];
      var r;
      r, n := Rename(root, c, field, text, t, index);
      ghost var t' := AvlTree.Insert(Delete(t, item.key), n, Item(c, c.KeyNow()));
      EditedBook(Book(t, count), index, field, text, n, t');
      Adopt(r, count, t');
    }

    /** list->root = r, and list->count. */
    method Adopt(r: Node?, count: int, ghost t: Tree)
      requires Holds(r, t) && Consistent(Book(t, count))
      modifies this
      ensures Valid() && tree == t && this.count == count
    {
      ghost var _ := NodesExist(t);
      ghost var _ := ItemsExist(t);
      root, this.count, tree := r, count, t;
    }

    /** list_contacts, without the drawing of the tree. */
    method List() returns (lines: seq<Line>)
      requires Valid()
      ensures lines == Numbered(Contents(), 0) && |lines| == count
      ensures forall k :: 0 <= k < count ==> lines[k] == Line(k, Contents()[k].contact)
    {
      var index;
      index, lines := ListHelper(root, 0, tree);
    }

    /** find_contacts_flow */
    method Find(query: Text) returns (lines: seq<Line>)
      requires Valid()
      ensures lines == Found(Contents(), 0, query)
    {
      var index;
      index, lines := FindHelper(root, query, 0, tree);
    }
  }

  /** get_by_index_helper */
  method GetByIndexHelper(root: Node?, target: int, current: int, result: Contact?, ghost t: Tree)
    returns (current': int, result': Contact?)
    requires root == Root(t) && Rep(t)
    ensures result != null ==> current' == current && result' == result
    ensures result == null && current <= target < current + |Items(t)| ==>
      current' == target && result' == Items(t)[target - current].contact
    ensures result == null && !(current <= target < current + |Items(t)|) ==>
      current' == current + |Items(t)| && result' == null
    decreases t
  {
    current', result' := current, result;
    if root == null || result != null {
      return;
    }
    ghost var _ := NodesExist(t);
    current', result' := GetByIndexHelper(root.left, target, current', result', t.left);
    if result' != null {
      return;
    }
    if current' == target {
      result' := root.data;
      return;
    }
    current' := current' + 1;
    current', result' := GetByIndexHelper(root.right, target, current', result', t.right);
  }

  /** list_contacts_helper; lines is what this call prints. */
  method ListHelper(root: Node?, index: int, ghost t: Tree) returns (index': int, lines: seq<Line>)
    requires root == Root(t) && Rep(t)
    ensures index' == index + |Items(t)| && lines == Numbered(Items(t), index)
    decreases t
  {
    if root == null {
      return index, [];
    }
    ghost var _ := NodesExist(t);
    var before, after;
    index', before := ListHelper(root.left, index, t.left);
    var line := Line(index', root.data);
    index' := index' + 1;
    index', after := ListHelper(root.right, index', t.right);
    lines := before + [line] + after;
  }

  /** find_contacts_helper; lines is what this call prints. */
  method FindHelper(root: Node?, query: Text, index: int, ghost t: Tree) returns (index': int, lines: seq<Line>)
    requires root == Root(t) && Rep(t) && Current(Items(t))
    ensures index' == index + |Items(t)| && lines == Found(Items(t), index, query)
    decreases t
  {
    if root == null {
      return index, [];
    }
    ghost var _ := NodesExist(t);
    ghost var _ := ItemsExist(t);
    CurrentParts(t);
    var before, after;
    index', before := FindHelper(root.left, query, index, t.left);
    assert Current(Items(t));
    CurrentParts(t);
    var line := if Matches(root.data.KeyNow(), query) then [Line(index', root.data)] else [];
    index' := index' + 1;
    index', after := FindHelper(root.right, query, index', t.right);
    lines := before + line + after;
    FoundInBranch(t, index, query, before, line, after);
  }

  /** What a call of find_contacts_helper prints is what its two calls print,
      with the line of the node's own contact between them. */
  lemma FoundInBranch(t: Tree, index: int, query: Text, before: seq<Line>, line: seq<Line>, after: seq<Line>)
    requires t.Branch? && before == Found(Items(t.left), index, query)
    requires line == FoundOne(t.item, index + |Items(t.left)|, query)
    requires after == Found(Items(t.right), index + |Items(t.left)| + 1, query)
    ensures before + line + after == Found(Items(t), index, query)
  {
    FoundParts(Items(t.left), t.item, Items(t.right), index, query);
  }
}
