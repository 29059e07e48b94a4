/** The priority queue of module2/pract4/pract4_2/priorityqueue.c: a singly
    linked list spliced through a pointer to a link. */
module PriorityQueue {
  import opened Sequences

  /** A queue entry. Priority and data never change; fields of freed entries are
      not looked at. */
  class Entry {
    const priority: int
    const data: string
    var next: Entry?

    constructor (priority: int, data: string)
      ensures this.priority == priority && this.data == data && next == null
    {
      this.priority, this.data, next := priority, data, null;
    }
  }

  // ----- The queue as a sequence -----

  ghost predicate Sorted(q: seq<Entry>) {
    forall i, j :: 0 <= i < j < |q| ==> q[i].priority <= q[j].priority
  }

  /** Index of the first entry of a greater priority. */
  function Place(q: seq<Entry>, priority: int): (p: nat)
    ensures p <= |q|
    ensures forall i :: 0 <= i < p ==> q[i].priority <= priority
    ensures p < |q| ==> q[p].priority > priority
  {
    if q == [] || q[0].priority > priority then 0 else 1 + Place(q[1..], priority)
  }

  lemma PlaceIs(q: seq<Entry>, priority: int, i: nat)
    requires i <= |q| && forall k :: 0 <= k < i ==> q[k].priority <= priority
    requires i < |q| ==> q[i].priority > priority
    ensures Place(q, priority) == i
  {
  }

  function Inserted(q: seq<Entry>, e: Entry): seq<Entry> {
    Spliced(q, e, Place(q, e.priority))
  }

  /** What remove_entry and popEntry look for; no data stands for any data. */
  predicate Matches(e: Entry, priority: int, data: Option<string>) {
    e.priority == priority && (data == None || e.data == data.value)
  }

  /** Index of the first match; the length if there is none. */
  function FirstMatch(q: seq<Entry>, priority: int, data: Option<string>): (m: nat)
    ensures m <= |q|
    ensures forall i :: 0 <= i < m ==> !Matches(q[i], priority, data)
    ensures m < |q| ==> Matches(q[m], priority, data)
  {
    if q == [] || Matches(q[0], priority, data) then 0 else 1 + FirstMatch(q[1..], priority, data)
  }

  function RemovedFirst(q: seq<Entry>, priority: int, data: Option<string>): seq<Entry> {
    if q == [] then []
    else if Matches(q[0], priority, data) then q[1..]
    else [q[0]] + RemovedFirst(q[1..], priority, data)
  }

  /** Removal takes out the first match and nothing else. */
  lemma {:induction false} RemovedFirstIsAt(q: seq<Entry>, priority: int, data: Option<string>)
    ensures var m := FirstMatch(q, priority, data);
      RemovedFirst(q, priority, data) == if m < |q| then Without(q, m) else q
  {
    if q != [] {
      var head, tail := q[0], q[1..];
      assert q == [head] + tail;
      if Matches(head, priority, data) {
        assert Without(q, 0) == tail;
      } else {
        RemovedFirstIsAt(tail, priority, data);
        var m := FirstMatch(tail, priority, data);
        assert FirstMatch(q, priority, data) == m + 1;
        if m < |tail| { WithoutOfCons(head, tail, m); }
      }
    }
  }

  /** Removal in terms of the fields: what goes is the earliest entry with the
      priority and, if any is asked for, the data. */
  lemma RemovedByField(q: seq<Entry>, priority: int, data: Option<string>)
    ensures var m, r := FirstMatch(q, priority, data), RemovedFirst(q, priority, data);
      if m == |q| then
        && r == q
        && forall e :: e in q ==> !(e.priority == priority && (data.Some? ==> e.data == data.value))
      else
        && (q[m].priority == priority && (data.Some? ==> q[m].data == data.value)) && q[m] in q
        && exists k ::
             && 0 <= k < |q| && q[k] == q[m] && r == Without(q, k)
             && forall i :: 0 <= i < k ==> !(q[i].priority == priority && (data.Some? ==> q[i].data == data.value))
  {
    RemovedFirstIsAt(q, priority, data);
  }

  function Only(e: Entry, k: int): seq<Entry> {
    if e.priority == k then [e] else []
  }

  /** The entries of one priority, in the order of the sequence. */
  function OfPriority(s: seq<Entry>, k: int): seq<Entry> {
    if s == [] then [] else Only(s[0], k) + OfPriority(s[1..], k)
  }

  /** q is the stable sort of s: ordered by priority, and within a priority in
      the order of s. */
  ghost predicate IsStableSortOf(q: seq<Entry>, s: seq<Entry>) {
    Sorted(q) && forall k :: OfPriority(q, k) == OfPriority(s, k)
  }

  lemma {:induction false} OfPriorityConcat(a: seq<Entry>, b: seq<Entry>, k: int)
    ensures OfPriority(a + b, k) == OfPriority(a, k) + OfPriority(b, k)
  {
    if a == [] {
      assert a + b == b;
    } else {
      assert (a + b)[1..] == a[1..] + b;
      OfPriorityConcat(a[1..], b, k);
      var only, x, y := Only(a[0], k), OfPriority(a[1..], k), OfPriority(b, k);
      assert only + (x + y) == only + x + y;
    }
  }

  lemma OfPriorityTail(s: seq<Entry>, k: int)
    requires s != []
    ensures OfPriority(s[1..], k) == if s[0].priority == k then OfPriority(s, k)[1..] else OfPriority(s, k)
  {
  }

  lemma {:induction false} NoneOfPriority(s: seq<Entry>, k: int)
    requires forall i :: 0 <= i < |s| ==> s[i].priority != k
    ensures OfPriority(s, k) == []
  {
    if s != [] { NoneOfPriority(s[1..], k); }
  }

  /** There is only one stable sort of a sequence. */
  lemma {:induction false} StableSortIsUnique(q: seq<Entry>, r: seq<Entry>)
    requires Sorted(q) && Sorted(r) && forall k :: OfPriority(q, k) == OfPriority(r, k)
    ensures q == r
  {
    if q == [] || r == [] {
      assert q != [] ==> OfPriority(q, q[0].priority) != [];
      assert r != [] ==> OfPriority(r, r[0].priority) != [];
    } else {
      var k0 := q[0].priority;
      HeadIsLeast(q, r);
      HeadIsLeast(r, q);
      assert OfPriority(q, k0)[0] == q[0] && OfPriority(r, k0)[0] == r[0];
      forall k ensures OfPriority(q[1..], k) == OfPriority(r[1..], k) {
        OfPriorityTail(q, k);
        OfPriorityTail(r, k);
      }
      StableSortIsUnique(q[1..], r[1..]);
      assert q == [q[0]] + q[1..] && r == [r[0]] + r[1..];
    }
  }

  lemma {:induction false} HeadIsLeast(q: seq<Entry>, r: seq<Entry>)
    requires Sorted(r) && q != [] && r != [] && OfPriority(q, q[0].priority) == OfPriority(r, q[0].priority)
    ensures r[0].priority <= q[0].priority
  {
    if r[0].priority > q[0].priority {
      forall i | 0 <= i < |r| ensures r[i].priority != q[0].priority {
        if i > 0 { assert r[0].priority <= r[i].priority; }
      }
      NoneOfPriority(r, q[0].priority);
    }
  }

  lemma InsertedIsSorted(q: seq<Entry>, e: Entry)
    requires Sorted(q)
    ensures Sorted(Inserted(q, e))
  {
    var p, r := Place(q, e.priority), Inserted(q, e);
    forall i, j | 0 <= i < j < |r| ensures r[i].priority <= r[j].priority {
      assert r[i] == if i < p then q[i] else if i == p then e else q[i - 1];
      assert r[j] == if j < p then q[j] else if j == p then e else q[j - 1];
      if p < j { assert q[p].priority <= q[j - 1].priority; }
    }
  }

  lemma FirstOfItsPriority(q: seq<Entry>, i: nat)
    requires i < |q| && forall k :: 0 <= k < i ==> q[k].priority != q[i].priority
    ensures OfPriority(q, q[i].priority) != [] && OfPriority(q, q[i].priority)[0] == q[i]
  {
    assert q == q[..i] + q[i..];
    OfPriorityConcat(q[..i], q[i..], q[i].priority);
    NoneOfPriority(q[..i], q[i].priority);
  }

  /** Insertion into the stable sort of what arrived before gives the stable sort
      with the new arrival last. */
  lemma InsertKeepsStableSort(q: seq<Entry>, arrived: seq<Entry>, e: Entry)
    requires IsStableSortOf(q, arrived)
    ensures IsStableSortOf(Inserted(q, e), arrived + [e])
  {
    var r := Inserted(q, e);
    InsertedIsSorted(q, e);
    forall k ensures OfPriority(r, k) == OfPriority(arrived + [e], k) {
      InsertedOfPriority(q, e, k);
      OfPriorityConcat(arrived, [e], k);
      OfPriorityOne(e, k);
      assert OfPriority(q, k) == OfPriority(arrived, k);
    }
  }

  lemma InsertedOfPriority(q: seq<Entry>, e: Entry, k: int)
    requires Sorted(q)
    ensures OfPriority(Inserted(q, e), k) == OfPriority(q, k) + Only(e, k)
  {
    var p := Place(q, e.priority);
    forall i | p <= i < |q| ensures q[i].priority > e.priority {
      if p < i { assert q[p].priority <= q[i].priority; }
    }
    assert q[..p] + q[p..] == q;
    OfPriorityConcat(q[..p], q[p..], k);
    OfPriorityAround(q[..p], e, q[p..], k);
  }

  lemma OfPriorityAround(a: seq<Entry>, e: Entry, b: seq<Entry>, k: int)
    requires forall i :: 0 <= i < |b| ==> b[i].priority > e.priority
    ensures OfPriority(a + [e] + b, k) == OfPriority(a, k) + OfPriority(b, k) + Only(e, k)
  {
    OfPriorityConcat(a + [e], b, k);
    OfPriorityConcat(a, [e], k);
    OfPriorityOne(e, k);
    if k == e.priority { NoneOfPriority(b, k); }
    assert Only(e, k) == [] || OfPriority(b, k) == [];
    EmptySwaps(OfPriority(a, k), Only(e, k), OfPriority(b, k));
  }

  lemma EmptySwaps<T>(x: seq<T>, y: seq<T>, z: seq<T>)
    requires y == [] || z == []
    ensures x + y + z == x + z + y
  {
  }

  lemma OfPriorityOne(e: Entry, k: int)
    ensures OfPriority([e], k) == Only(e, k)
  {
    assert [e][0] == e && [e][1..] == [];
  }

  /** Removing the first match commutes with picking out a priority. */
  lemma {:induction false} RemoveFirstOfPriority(s: seq<Entry>, priority: int, data: Option<string>, k: int)
    ensures OfPriority(RemovedFirst(s, priority, data), k) ==
      if k == priority then RemovedFirst(OfPriority(s, k), priority, data) else OfPriority(s, k)
  {
    if s != [] {
      var head, rest := s[0], OfPriority(s[1..], k);
      OfPriorityTail(s, k);
      assert ([head] + rest)[0] == head && ([head] + rest)[1..] == rest;
      if !Matches(head, priority, data) {
        var kept := RemovedFirst(s[1..], priority, data);
        RemoveFirstOfPriority(s[1..], priority, data, k);
        assert ([head] + kept)[0] == head && ([head] + kept)[1..] == kept;
      }
    }
  }

  lemma RemovedIsSorted(q: seq<Entry>, m: nat)
    requires Sorted(q) && m < |q|
    ensures Sorted(Without(q, m))
  {
    WithoutAt(q, m);
  }

  /** Removal from the stable sort removes the earliest matching arrival. */
  lemma RemoveKeepsStableSort(q: seq<Entry>, arrived: seq<Entry>, priority: int, data: Option<string>)
    requires IsStableSortOf(q, arrived)
    ensures IsStableSortOf(RemovedFirst(q, priority, data), RemovedFirst(arrived, priority, data))
  {
    forall k ensures OfPriority(RemovedFirst(q, priority, data), k) == OfPriority(RemovedFirst(arrived, priority, data), k) {
      RemoveFirstOfPriority(q, priority, data, k);
      RemoveFirstOfPriority(arrived, priority, data, k);
      assert OfPriority(q, k) == OfPriority(arrived, k);
    }
    var m := FirstMatch(q, priority, data);
    RemovedFirstIsAt(q, priority, data);
    if m < |q| { RemovedIsSorted(q, m); }
  }

  // ----- Every run -----

  datatype Op = Insert(entry: Entry) | Remove(priority: int, data: Option<string>)

  function QueueStep(q: seq<Entry>, op: Op): seq<Entry> {
    match op
    case Insert(e) => Inserted(q, e)
    case Remove(priority, data) => RemovedFirst(q, priority, data)
  }

  /** The same operation on a list of arrivals: a new one goes last, a removal
      takes the earliest match. */
  function ArrivalStep(s: seq<Entry>, op: Op): seq<Entry> {
    match op
    case Insert(e) => s + [e]
    case Remove(priority, data) => RemovedFirst(s, priority, data)
  }

  function QueueRun(q: seq<Entry>, ops: seq<Op>): seq<Entry>
    decreases |ops|
  {
    if ops == [] then q else QueueRun(QueueStep(q, ops[0]), ops[1..])
  }

  function ArrivalRun(s: seq<Entry>, ops: seq<Op>): seq<Entry>
    decreases |ops|
  {
    if ops == [] then s else ArrivalRun(ArrivalStep(s, ops[0]), ops[1..])
  }

  /** Over every run the queue is the stable sort of what was inserted and not
      removed. */
  lemma {:induction false} AlwaysStableSort(q: seq<Entry>, s: seq<Entry>, ops: seq<Op>)
    requires IsStableSortOf(q, s)
    ensures IsStableSortOf(QueueRun(q, ops), ArrivalRun(s, ops))
    decreases |ops|
  {
    if ops != [] {
      match ops[0] {
        case Insert(e) => InsertKeepsStableSort(q, s, e);
        case Remove(priority, data) => RemoveKeepsStableSort(q, s, priority, data);
      }
      AlwaysStableSort(QueueStep(q, ops[0]), ArrivalStep(s, ops[0]), ops[1..]);
    }
  }

  // ----- The queue in the heap -----

  /** The list from head on links exactly the entries of q. */
  ghost predicate Chain(head: Entry?, q: seq<Entry>)
    reads q
  {
    head == Nth(q, 0, null) && Distinct(q) && forall i {:trigger q[i].next} :: 0 <= i < |q| ==> q[i].next == Nth(q, i + 1, null)
  }

  class Queue {
    var size: int
    var first: Entry?
    ghost var entries: seq<Entry>

    /** createPriorityQueue */
    constructor ()
      ensures Valid() && entries == []
    {
      size, first, entries := 0, null, [];
    }

    ghost predicate Valid()
      reads this, entries
    {
      size == |entries| && Sorted(entries) && Chain(first, entries)
    }

    ghost function EntryAt(i: nat): Entry?
      reads this
    {
      Nth(entries, i, null)
    }

    /** *prev, where prev is &pq->first (null) or &prev->next */
    function At(prev: Entry?): Entry?
      reads this, prev
    {
      if prev == null then first else prev.next
    }

    /** *prev = e */
    method SetAt(prev: Entry?, e: Entry?)
      modifies this`first, prev
      ensures if prev == null then first == e else first == old(first) && prev.next == e
    {
      if prev == null {
        first := e;
      } else {
        prev.next := e;
      }
    }

    /** entry->next = *prev; *prev = entry */
    method Splice(prev: Entry?, entry: Entry, ghost p: nat)
      requires Chain(first, entries) && entry !in entries && p <= |entries|
      requires prev == if p == 0 then null else entries[p - 1]
      modifies this, entries, entry
      ensures entries == Spliced(old(entries), entry, p) && Chain(first, entries)
      ensures size == old(size)
    {
      ghost var q := entries;
      ghost var r := Spliced(q, entry, p);
      SplicedIsDistinct(q, entry, p);
      entry.next := At(prev);
      SetAt(prev, entry);
      assert forall i {:trigger q[i].next} :: 0 <= i < |q| && i + 1 != p ==> q[i].next == Nth(q, i + 1, null);
      forall i | 0 <= i < |r| ensures r[i].next == Nth(r, i + 1, null) {
        SplicedNth(q, entry, p, i, null);
        SplicedNth(q, entry, p, i + 1, null);
      }
      entries := r;
    }

    /** *prev = entry->next */
    method Unsplice(prev: Entry?, entry: Entry, ghost m: nat)
      requires Chain(first, entries) && m < |entries| && entry == entries[m]
      requires prev == if m == 0 then null else entries[m - 1]
      modifies this, entries
      ensures entries == Without(old(entries), m) && Chain(first, entries)
      ensures size == old(size)
    {
      ghost var q := entries;
      ghost var r := Without(q, m);
      WithoutIsDistinct(q, m);
      SetAt(prev, entry.next);
      assert forall i {:trigger q[i].next} :: 0 <= i < |q| && i + 1 != m ==> q[i].next == Nth(q, i + 1, null);
      forall i | 0 <= i < |r| ensures r[i].next == Nth(r, i + 1, null) {
        assert r[i] == if i < m then q[i] else q[i + 1];
      }
      entries := r;
    }

    /** The loop of insert. It makes at most size + 1 rounds, and one of them
        always links the entry in, in front of the first greater priority. */
    method LinkIn(entry: Entry) returns (ghost p: nat)
      requires Chain(first, entries) && size == |entries| && entry !in entries
      modifies this, entries, entry
      ensures Chain(first, entries) && size == old(size) && p <= |old(entries)|
      ensures entries == Spliced(old(entries), entry, p)
      ensures forall k :: 0 <= k < p ==> old(entries)[k].priority <= entry.priority
      ensures p < |old(entries)| ==> old(entries)[p].priority > entry.priority
    {
      var prev: Entry? := null;
      var i := 0;
      ghost var q := entries;
      while i < size + 1
        invariant 0 <= i <= |q| && Chain(first, q) && entries == q && size == |q|
        invariant prev == if i == 0 then null else q[i - 1]
        invariant forall k :: 0 <= k < i ==> q[k].priority <= entry.priority
        decreases size + 1 - i
      {
        if At(prev) == null || At(prev).priority > entry.priority {
          Splice(prev, entry, i);
          return i;
        }
        prev := At(prev);
        i := i + 1;
      }
      assert false;
    }

    /** insert */
    method InsertEntry(priority: int, data: string) returns (entry: Entry)
      requires Valid()
      modifies this, entries
      ensures Valid() && fresh(entry) && entry.priority == priority && entry.data == data
      ensures entries == Inserted(old(entries), entry)
    {
      entry := new Entry(priority, data);
      InsertedIsSorted(entries, entry);
      ghost var q := entries;
      ghost var p := LinkIn(entry);
      PlaceIs(q, priority, p);
      size := size + 1;
    }

    /** The search loops of remove_entry and popEntry. The result is the entry
        whose next link points to the match; null is the head of the list. */
    method Search(priority: int, data: Option<string>) returns (prev: Entry?)
      requires Valid()
      ensures var m := FirstMatch(entries, priority, data);
        At(prev) == EntryAt(m) && prev == if m == 0 then null else entries[m - 1]
    {
      prev := null;
      ghost var i, m := 0, FirstMatch(entries, priority, data);
      while At(prev) != null
        invariant 0 <= i <= m
        invariant prev == if i == 0 then null else entries[i - 1]
        invariant At(prev) == EntryAt(i)
        decreases |entries| - i
      {
        if Matches(At(prev), priority, data) {
          break;
        }
        prev := At(prev);
        i := i + 1;
      }
    }

    /** popEntry: the earliest entry with the priority and, if any is asked for,
        the data. */
    method PopEntry(priority: int, data: Option<string>) returns (entry: Entry?)
      requires Valid()
      modifies this, entries
      ensures entry == null <==>
        forall e :: e in old(entries) ==> !(e.priority == priority && (data.Some? ==> e.data == data.value))
      ensures entry != null ==>
        && entry.priority == priority && (data.Some? ==> entry.data == data.value)
        && exists m ::
             && 0 <= m < |old(entries)| && old(entries)[m] == entry && entries == Without(old(entries), m)
             && forall k :: 0 <= k < m ==>
                  !(old(entries)[k].priority == priority && (data.Some? ==> old(entries)[k].data == data.value))
      ensures entry == null ==> entries == old(entries)
      ensures Valid() && entries == RemovedFirst(old(entries), priority, data)
      ensures size == old(size) - if entry == null then 0 else 1
      ensures var m := FirstMatch(old(entries), priority, data);
        entry == if m < |old(entries)| then old(entries)[m] else null
    {
      RemovedByField(entries, priority, data);
      entry := TakeOut(priority, data);
    }

    /** The search of popEntry, and the unlinking of what it finds. */
    method TakeOut(priority: int, data: Option<string>) returns (entry: Entry?)
      requires Valid()
      modifies this, entries
      ensures Valid() && entries == RemovedFirst(old(entries), priority, data)
      ensures size == old(size) - if entry == null then 0 else 1
      ensures var m := FirstMatch(old(entries), priority, data);
        entry == if m < |old(entries)| then old(entries)[m] else null
    {
      ghost var q, m := entries, FirstMatch(entries, priority, data);
      RemovedFirstIsAt(q, priority, data);
      var prev := Search(priority, data);
      entry := At(prev);
      if entry != null {
        Unsplice(prev, entry, m);
        RemovedIsSorted(q, m);
        size := size - 1;
      }
    }

    /** remove_entry: the loops and the relinking are those of popEntry; the entry
        found is freed. */
    method RemoveEntry(priority: int, data: Option<string>) returns (removed: int)
      requires Valid()
      modifies this, entries
      ensures removed == 0 || removed == 1
      ensures removed == 0 <==>
        forall e :: e in old(entries) ==> !(e.priority == priority && (data.Some? ==> e.data == data.value))
      ensures removed == 1 ==>
        exists m ::
          && 0 <= m < |old(entries)| && entries == Without(old(entries), m)
          && old(entries)[m].priority == priority && (data.Some? ==> old(entries)[m].data == data.value)
          && forall k :: 0 <= k < m ==>
               !(old(entries)[k].priority == priority && (data.Some? ==> old(entries)[k].data == data.value))
      ensures removed == 0 ==> entries == old(entries)
      ensures Valid() && entries == RemovedFirst(old(entries), priority, data)
      ensures removed == if FirstMatch(old(entries), priority, data) < |old(entries)| then 1 else 0
      ensures size == old(size) - removed
    {
      var entry := PopEntry(priority, data);
      removed := if entry != null then 1 else 0;
    }

    /** getWithPriority */
    method GetWithPriority(priority: int) returns (entry: Entry?)
      requires Valid()
      ensures entry == null <==> forall e :: e in entries ==> e.priority != priority
      ensures entry != null ==>
        exists m ::
          && 0 <= m < |entries| && entries[m] == entry && entry.priority == priority
          && forall k :: 0 <= k < m ==> entries[k].priority != priority
      ensures if OfPriority(entries, priority) == [] then entry == null else entry == OfPriority(entries, priority)[0]
    {
      entry := first;
      ghost var i := 0;
      while entry != null
        invariant 0 <= i <= |entries| && entry == EntryAt(i)
        invariant forall k :: 0 <= k < i ==> entries[k].priority != priority
        invariant OfPriority(entries, priority) == OfPriority(entries[i..], priority)
        decreases |entries| - i
      {
        if entry.priority == priority {
          break;
        }
        assert entries[i..][1..] == entries[i + 1..];
        entry := entry.next;
        i := i + 1;
      }
    }

    /** getWithPriorityAtLeast: the earliest entry of the least priority that
        suffices. */
    method GetWithPriorityAtLeast(priority: int) returns (entry: Entry?)
      requires Valid()
      ensures entry == null <==> forall e :: e in entries ==> e.priority < priority
      ensures entry != null ==>
        && entry in entries && entry.priority >= priority
        && (forall e :: e in entries && e.priority >= priority ==> entry.priority <= e.priority)
        && OfPriority(entries, entry.priority) != [] && OfPriority(entries, entry.priority)[0] == entry
    {
      entry := first;
      ghost var i := 0;
      while entry != null
        invariant 0 <= i <= |entries| && entry == EntryAt(i)
        invariant forall k :: 0 <= k < i ==> entries[k].priority < priority
        decreases |entries| - i
      {
        if entry.priority >= priority {
          FirstOfItsPriority(entries, i);
          break;
        }
        entry := entry.next;
        i := i + 1;
      }
    }

    /** Popping the head by its own priority and data, as the callers do. */
    method PopHead() returns (e: Entry)
      requires Valid() && entries != []
      modifies this, entries
      ensures Valid() && e == old(entries)[0] && entries == old(entries)[1..]
    {
      ghost var q := entries;
      var priority, data := first.priority, Some(first.data);
      assert FirstMatch(q, priority, data) == 0 && RemovedFirst(q, priority, data) == q[1..];
      var popped := PopEntry(priority, data);
      e := popped;
    }

    /** Popping the head until the queue is empty yields the entries by priority,
        and first come, first served within one. */
    method Drain() returns (popped: seq<Entry>)
      requires Valid()
      modifies this, entries
      ensures popped == old(entries) && entries == [] && first == null && size == 0
    {
      popped := [];
      ghost var all, n := entries, 0;
      while first != null
        invariant Valid() && 0 <= n <= |all| && popped == all[..n] && entries == all[n..]
        decreases |entries|
      {
        assert all[n..][0] == all[n] && all[n..][1..] == all[n + 1..] && all[..n] + [all[n]] == all[..n + 1];
        assert forall e :: e in all[n..] ==> e in all;
        var e := PopHead();
        popped := popped + [e];
        n := n + 1;
      }
    }
  }
}
