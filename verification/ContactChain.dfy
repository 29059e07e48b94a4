/** The phonebook of module2/pract4/pract4_1/phonebook.c: a doubly linked list
    kept in order of first names by relinking entries in place. */
module ContactChain {
  import opened Contacts
  import opened Sequences

  class Entry {
    const data: Contact
    var prev: Entry?
    var next: Entry?

    /** createContactEntry */
    constructor (data: Contact)
      ensures this.data == data && prev == null && next == null
    {
      this.data, prev, next := data, null, null;
    }

    function Name(): Text
      reads data
    {
      data.firstName
    }
  }

  // ----- The list as a sequence -----

  /** Forward and backward links are those of the sequence, so each chain undoes
      the other. */
  ghost predicate Linked(q: seq<Entry>)
    reads q
  {
    && Distinct(q)
    && (forall i {:trigger q[i].prev} :: 0 <= i < |q| ==> q[i].prev == Nth(q, i - 1, null))
    && (forall i {:trigger q[i].next} :: 0 <= i < |q| ==> q[i].next == Nth(q, i + 1, null))
  }

  /** Names never grow along the list. */
  ghost predicate Ordered(q: seq<Entry>)
    reads set e | e in q :: e.data
  {
    forall i, j {:trigger StrCmp(q[i].Name(), q[j].Name())} :: 0 <= i < j < |q| ==> StrCmp(q[i].Name(), q[j].Name()) >= 0
  }

  /** In order means that no entry comes before one with a greater name. */
  lemma OrderedByName(q: seq<Entry>)
    ensures Ordered(q) <==> forall i, j :: 0 <= i < j < |q| ==> !LexLess(q[i].data.firstName, q[j].data.firstName)
  {
    forall i, j | 0 <= i < j < |q|
      ensures StrCmp(q[i].Name(), q[j].Name()) >= 0 <==> !LexLess(q[i].Name(), q[j].Name())
    {
      StrCmpIsLexicographic(q[i].Name(), q[j].Name());
    }
  }

  /** No two entries share a contact. */
  ghost predicate OwnContacts(q: seq<Entry>) {
    forall i, j :: 0 <= i < j < |q| ==> q[i].data != q[j].data
  }

  /** Index of the first entry with a lesser name: behind all equal names if the
      list is in order. */
  ghost predicate IsPlace(q: seq<Entry>, name: Text, p: int)
    reads set e | e in q :: e.data
  {
    && 0 <= p <= |q|
    && (forall i :: 0 <= i < p ==> StrCmp(q[i].Name(), name) >= 0)
    && (p < |q| ==> StrCmp(q[p].Name(), name) < 0)
  }

  /** The sequence whose links are those of q but for the neighbours of e. */
  lemma SplicedIsLinked(q: seq<Entry>, e: Entry, p: nat)
    requires Distinct(q) && e !in q && p <= |q|
    requires e.prev == Nth(q, p - 1, null) && e.next == Nth(q, p, null)
    requires forall i {:trigger q[i].next} :: 0 <= i < |q| ==> q[i].next == if i == p - 1 then e else Nth(q, i + 1, null)
    requires forall i {:trigger q[i].prev} :: 0 <= i < |q| ==> q[i].prev == if i == p then e else Nth(q, i - 1, null)
    ensures Linked(Spliced(q, e, p))
  {
    var r := Spliced(q, e, p);
    SplicedIsDistinct(q, e, p);
    forall i | 0 <= i < |r| ensures r[i].prev == Nth(r, i - 1, null) && r[i].next == Nth(r, i + 1, null) {
      SplicedNth(q, e, p, i - 1, null);
      SplicedNth(q, e, p, i, null);
      SplicedNth(q, e, p, i + 1, null);
    }
  }

  lemma WithoutIsLinked(q: seq<Entry>, m: nat)
    requires Distinct(q) && m < |q|
    requires forall i {:trigger q[i].next} :: 0 <= i < |q| && i != m ==> q[i].next == if i == m - 1 then Nth(q, m + 1, null) else Nth(q, i + 1, null)
    requires forall i {:trigger q[i].prev} :: 0 <= i < |q| && i != m ==> q[i].prev == if i == m + 1 then Nth(q, m - 1, null) else Nth(q, i - 1, null)
    ensures Linked(Without(q, m))
  {
    var r := Without(q, m);
    WithoutKeeps(q, m);
    forall i | 0 <= i < |r| ensures r[i].prev == Nth(r, i - 1, null) && r[i].next == Nth(r, i + 1, null) {
      WithoutNth(q, m, i - 1, null);
      WithoutNth(q, m, i, null);
      WithoutNth(q, m, i + 1, null);
    }
  }

  lemma SplicedIsOwn(q: seq<Entry>, e: Entry, p: nat)
    requires OwnContacts(q) && p <= |q| && forall x :: x in q ==> x.data != e.data
    ensures OwnContacts(Spliced(q, e, p))
  {
    var r := Spliced(q, e, p);
    forall i, j | 0 <= i < j < |r| ensures r[i].data != r[j].data {
      assert r[i] == if i < p then q[i] else if i == p then e else q[i - 1];
      assert r[j] == if j < p then q[j] else if j == p then e else q[j - 1];
    }
  }

  /** An entry put at its place keeps the order. */
  lemma SplicedIsOrdered(q: seq<Entry>, e: Entry, p: nat)
    requires Ordered(q) && IsPlace(q, e.Name(), p)
    ensures Ordered(Spliced(q, e, p))
  {
    var r := Spliced(q, e, p);
    forall i, j | 0 <= i < j < |r| ensures StrCmp(r[i].Name(), r[j].Name()) >= 0 {
      assert r[i] == if i < p then q[i] else if i == p then e else q[i - 1];
      assert r[j] == if j < p then q[j] else if j == p then e else q[j - 1];
      if i == p {
        StrCmpFlip(q[p].Name(), e.Name());
        if p < j - 1 {
          StrCmpFlip(q[p].Name(), q[j - 1].Name());
          StrCmpTransitive(q[j - 1].Name(), q[p].Name(), e.Name());
          StrCmpFlip(q[j - 1].Name(), e.Name());
        }
      }
    }
  }

  /** At its place, an entry is behind every equal name and before every lesser. */
  lemma PlaceIsBehindEquals(q: seq<Entry>, name: Text, p: int, i: int)
    requires Ordered(q) && IsPlace(q, name, p) && 0 <= i < |q|
    ensures i < p <==> StrCmp(q[i].Name(), name) >= 0
  {
    if p < i {
      StrCmpFlip(q[p].Name(), q[i].Name());
      StrCmpTransitive(q[i].Name(), q[p].Name(), name);
    }
  }

  lemma WithoutKeeps(q: seq<Entry>, m: nat)
    requires Distinct(q) && m < |q|
    ensures Distinct(Without(q, m))
    ensures forall x :: x in Without(q, m) ==> x in q && x != q[m]
    ensures OwnContacts(q) ==> OwnContacts(Without(q, m)) && forall x :: x in Without(q, m) ==> x.data != q[m].data
  {
    WithoutAt(q, m);
  }

  lemma WithoutIsOrdered(q: seq<Entry>, m: nat)
    requires Ordered(q) && m < |q|
    ensures Ordered(Without(q, m))
  {
    WithoutAt(q, m);
  }

  // ----- The list in the heap -----

  class ContactList {
    var head: Entry?
    var tail: Entry?
    var count: int
    ghost var entries: seq<Entry>

    /** contactlist_init, which leaves tail as it was. */
    constructor (tail: Entry?)
      ensures Valid() && entries == []
    {
      head, this.tail, count, entries := null, tail, 0, [];
    }

    /** The links are sound; tail means something only in a list that is not empty. */
    ghost predicate Sound()
      reads this, entries
    {
      && Linked(entries) && count == |entries|
      && head == Nth(entries, 0, null) && (entries != [] ==> tail == entries[|entries| - 1])
    }

    ghost predicate Valid()
      reads this, entries, set e | e in entries :: e.data
    {
      Sound() && OwnContacts(entries) && Ordered(entries)
    }

    /** getContactEntryByIndex */
    method GetByIndex(index: int) returns (c: Entry?)
      requires Sound()
      ensures c == Nth(entries, index, null)
    {
      if index < 0 || index >= count {
        return null;
      }
      c := head;
      var i := 0;
      while i < index
        invariant 0 <= i <= index && c == Nth(entries, i, null)
      {
        c := c.next;
        i := i + 1;
      }
    }

    /** popEntry */
    method PopEntry(c: Entry, ghost m: nat)
      requires Sound() && m < |entries| && c == entries[m]
      modifies this, entries
      ensures Sound() && entries == Without(old(entries), m)
    {
      ghost var q := entries;
      assert c.prev == Nth(q, m - 1, null) && c.next == Nth(q, m + 1, null);
      if c.prev != null {
        c.prev.next := c.next;
      } else {
        head := c.next;
      }
      if c.next != null {
        c.next.prev := c.prev;
      } else {
        tail := c.prev;
      }
      count := count - 1;
      assert forall i {:trigger q[i].next} :: 0 <= i < |q| && i != m ==> q[i].next == if i == m - 1 then Nth(q, m + 1, null) else Nth(q, i + 1, null);
      assert forall i {:trigger q[i].prev} :: 0 <= i < |q| && i != m ==> q[i].prev == if i == m + 1 then Nth(q, m - 1, null) else Nth(q, i - 1, null);
      WithoutIsLinked(q, m);
      entries := Without(q, m);
    }

    /** The search of insertEntry: the entries before and behind the place. */
    method FindPlace(e: Entry) returns (currentEntry: Entry?, nextEntry: Entry?, ghost p: nat)
      requires Sound()
      ensures IsPlace(entries, e.Name(), p)
      ensures nextEntry == Nth(entries, p, null) && currentEntry == Nth(entries, p - 1, null)
    {
      nextEntry := head;
      currentEntry := null;
      var i := 0;
      while i < count
        invariant 0 <= i <= count
        invariant nextEntry == Nth(entries, i, null) && currentEntry == Nth(entries, i - 1, null)
        invariant forall k :: 0 <= k < i ==> StrCmp(entries[k].Name(), e.Name()) >= 0
      {
        if StrCmp(nextEntry.data.firstName, e.data.firstName) < 0 {
          break;
        }
        currentEntry := nextEntry;
        nextEntry := currentEntry.next;
        i := i + 1;
      }
      p := i;
    }

    /** insertEntry, into a list whose links are sound, in order or not. */
    method InsertEntry(e: Entry) returns (ghost p: nat)
      requires Sound() && e !in entries
      modifies this, entries, e
      ensures Sound() && IsPlace(old(entries), e.Name(), p)
      ensures entries == Spliced(old(entries), e, p)
    {
      e.next := null;
      e.prev := null;
      var currentEntry, nextEntry;
      currentEntry, nextEntry, p := FindPlace(e);
      Link(e, currentEntry, nextEntry, p);
    }

    /** The part of insertEntry behind the search. */
    method Link(e: Entry, currentEntry: Entry?, nextEntry: Entry?, ghost p: nat)
      requires Sound() && e !in entries && e.next == null && e.prev == null
      requires p <= |entries| && nextEntry == Nth(entries, p, null) && currentEntry == Nth(entries, p - 1, null)
      modifies this, entries, e
      ensures Sound() && entries == Spliced(old(entries), e, p)
    {
      ghost var q := entries;
      if count == 0 {
        head := e;
        tail := e;
      } else if nextEntry == head {
        e.next := nextEntry;
        nextEntry.prev := e;
        head := e;
      } else if currentEntry == tail {
        currentEntry.next := e;
        e.prev := currentEntry;
        tail := e;
      } else {
        e.prev := currentEntry;
        e.next := nextEntry;
        currentEntry.next := e;
        nextEntry.prev := e;
      }
      count := count + 1;
      assert e.prev == Nth(q, p - 1, null) && e.next == Nth(q, p, null);
      assert forall i {:trigger q[i].next} :: 0 <= i < |q| ==> q[i].next == if i == p - 1 then e else Nth(q, i + 1, null);
      assert forall i {:trigger q[i].prev} :: 0 <= i < |q| ==> q[i].prev == if i == p then e else Nth(q, i - 1, null);
      SplicedIsLinked(q, e, p);
      entries := Spliced(q, e, p);
    }

    /** insertEntry into a list in order, with an entry for a contact no other
        entry holds; add_contact_flow ends in this call. */
    method Add(e: Entry) returns (ghost p: nat)
      requires Valid() && e !in entries && forall x :: x in entries ==> x.data != e.data
      modifies this, entries, e
      ensures Valid() && IsPlace(old(entries), e.Name(), p) && entries == Spliced(old(entries), e, p)
    {
      p := InsertEntry(e);
      SplicedIsOrdered(old(entries), e, p);
      SplicedIsOwn(old(entries), e, p);
    }

    /** moveToRightPlace: from a list in which only the name of the entry may be
        out of order to one in order, the other entries keeping theirs. */
    method MoveToRightPlace(e: Entry, ghost m: nat) returns (ghost p: nat)
      requires Sound() && OwnContacts(entries)
      requires m < |entries| && e == entries[m] && Ordered(Without(entries, m))
      modifies this, entries
      ensures Valid() && IsPlace(Without(old(entries), m), e.Name(), p)
      ensures entries == Spliced(Without(old(entries), m), e, p)
    {
      ghost var rest := Without(entries, m);
      WithoutKeeps(entries, m);
      PopEntry(e, m);
      assert Ordered(rest);
      p := Add(e);
    }

    /** One round of edit_contact_flow on the first name. */
    method EditFirstName(index: int, name: Text) returns (ghost p: nat)
      requires Valid() && 0 <= index < count
      modifies this, entries, entries[index].data
      ensures Valid() && old(entries)[index].data.firstName == name
      ensures old(entries)[index].data.lastName == old(entries[index].data.lastName)
      ensures old(entries)[index].data.middleName == old(entries[index].data.middleName)
      ensures p < |old(entries)| && entries == Spliced(Without(old(entries), index), old(entries)[index], p)
    {
      var e := GetByIndex(index);
      ghost var rest := Without(entries, index);
      WithoutKeeps(entries, index);
      WithoutIsOrdered(entries, index);
      e.data.firstName := name;
      assert Ordered(rest);
      p := MoveToRightPlace(e, index);
    }

    /** contactlist_remove */
    method Remove(index: int)
      requires Valid()
      modifies this, entries
      ensures Valid()
      ensures entries == if 0 <= index < |old(entries)| then Without(old(entries), index) else old(entries)
    {
      if index < 0 || index >= count {
        return;
      }
      WithoutIsOrdered(entries, index);
      WithoutKeeps(entries, index);
      var c := GetByIndex(index);
      PopEntry(c, index);
    }
  }
}
