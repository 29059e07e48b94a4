/** Contacts and the four-key comparator of the AVL phonebook
    (module2/pract4/pract4_3/phonebook.c). */
module Contacts {

  /** One character of a C string: any byte but the terminator. */
  type Char8 = c: int | 0 < c < 256 witness 1

  /** The characters of a C string, terminator left out. */
  type Text = seq<Char8>

  /** What strcmp answers: the difference of the first two bytes that differ,
      where the end of a string counts as the terminator 0. */
  function StrCmp(a: Text, b: Text): int {
    if a == [] && b == [] then 0
    else if a == [] then -b[0]
    else if b == [] then a[0]
    else if a[0] != b[0] then a[0] - b[0]
    else StrCmp(a[1..], b[1..])
  }

  lemma {:induction false} StrCmpZero(a: Text, b: Text)
    ensures StrCmp(a, b) == 0 <==> a == b
  {
    if a != [] && b != [] && a[0] == b[0] {
      StrCmpZero(a[1..], b[1..]);
      assert a == [a[0]] + a[1..] && b == [b[0]] + b[1..];
    }
  }

  lemma {:induction false} StrCmpFlip(a: Text, b: Text)
    ensures StrCmp(a, b) == -StrCmp(b, a)
  {
    if a != [] && b != [] && a[0] == b[0] {
      StrCmpFlip(a[1..], b[1..]);
    }
  }

  lemma {:induction false} StrCmpTransitive(a: Text, b: Text, c: Text)
    requires StrCmp(a, b) <= 0 && StrCmp(b, c) <= 0
    ensures StrCmp(a, c) <= 0
    ensures StrCmp(a, b) < 0 || StrCmp(b, c) < 0 ==> StrCmp(a, c) < 0
  {
    if a != [] && b != [] && c != [] && a[0] == b[0] == c[0] {
      StrCmpTransitive(a[1..], b[1..], c[1..]);
    }
  }

  /** The order of a dictionary: at the first place where the texts differ, a has
      the lesser character or has already ended. */
  ghost predicate LexLess(a: Text, b: Text) {
    exists k :: LessAt(a, b, k)
  }

  predicate LessAt(a: Text, b: Text, k: nat) {
    && k <= |a| && k < |b| && a[..k] == b[..k]
    && (k == |a| || a[k] < b[k])
  }

  /** What strcmp answers is that order. */
  lemma {:induction false} StrCmpIsLexicographic(a: Text, b: Text)
    ensures StrCmp(a, b) < 0 <==> LexLess(a, b)
    ensures StrCmp(a, b) == 0 <==> a == b
    ensures StrCmp(a, b) > 0 <==> LexLess(b, a)
  {
    StrCmpZero(a, b);
    StrCmpFlip(a, b);
    NegativeIsLess(a, b);
    NegativeIsLess(b, a);
  }

  lemma SameHead(a: Text, b: Text, k: nat)
    requires LessAt(a, b, k) && k > 0
    ensures a != [] && b != [] && a[0] == b[0]
  {
    assert a[0] == a[..k][0] && b[0] == b[..k][0];
  }

  lemma {:induction false} NegativeIsLess(a: Text, b: Text)
    ensures StrCmp(a, b) < 0 <==> LexLess(a, b)
  {
    if a == [] || b == [] || a[0] != b[0] {
      if StrCmp(a, b) < 0 { assert LessAt(a, b, 0); }
      forall k: nat | LessAt(a, b, k) ensures k == 0 {
        if k > 0 { SameHead(a, b, k); }
      }
    } else {
      NegativeIsLess(a[1..], b[1..]);
      assert a == [a[0]] + a[1..] && b == [b[0]] + b[1..];
      if k: nat :| LessAt(a[1..], b[1..], k) {
        assert a[..k + 1] == [a[0]] + a[1..][..k] && b[..k + 1] == [b[0]] + b[1..][..k];
        assert LessAt(a, b, k + 1);
      }
      if k: nat :| LessAt(a, b, k) {
        assert k > 0;
        assert a[1..][..k - 1] == a[..k][1..] && b[1..][..k - 1] == b[..k][1..];
        assert LessAt(a[1..], b[1..], k - 1);
      }
    }
  }

  /** The fields contact_compare looks at; addr stands for the address of the
      contact, the last tie-breaker. */
  datatype Key = Key(first: Text, last: Text, middle: Text, addr: nat)

  /** contact_compare on the values of the compared fields. */
  function CompareKeys(a: Key, b: Key): int {
    var first := StrCmp(a.first, b.first);
    if first != 0 then first else
    var last := StrCmp(a.last, b.last);
    if last != 0 then last else
    var middle := StrCmp(a.middle, b.middle);
    if middle != 0 then middle
    else if a.addr < b.addr then -1
    else if a.addr > b.addr then 1
    else 0
  }

  predicate Before(a: Key, b: Key) {
    CompareKeys(a, b) < 0
  }

  lemma CompareZero(a: Key, b: Key)
    ensures CompareKeys(a, b) == 0 <==> a == b
  {
    StrCmpZero(a.first, b.first);
    StrCmpZero(a.last, b.last);
    StrCmpZero(a.middle, b.middle);
  }

  lemma CompareFlip(a: Key, b: Key)
    ensures CompareKeys(a, b) == -CompareKeys(b, a)
  {
    StrCmpFlip(a.first, b.first);
    StrCmpFlip(a.last, b.last);
    StrCmpFlip(a.middle, b.middle);
  }

  lemma BeforeTransitive(a: Key, b: Key, c: Key)
    requires Before(a, b) && Before(b, c)
    ensures Before(a, c)
  {
    StrCmpTransitive(a.first, b.first, c.first);
    if StrCmp(a.first, b.first) == 0 && StrCmp(b.first, c.first) == 0 {
      StrCmpZero(a.first, b.first);
      StrCmpTransitive(a.last, b.last, c.last);
      if StrCmp(a.last, b.last) == 0 && StrCmp(b.last, c.last) == 0 {
        StrCmpZero(a.last, b.last);
        StrCmpTransitive(a.middle, b.middle, c.middle);
        StrCmpZero(a.middle, b.middle);
      }
    }
  }

  /** The order of the phonebook: by first name, then last name, then middle name,
      then address. */
  ghost predicate ByName(a: Key, b: Key) {
    || LexLess(a.first, b.first)
    || (a.first == b.first && LexLess(a.last, b.last))
    || (a.first == b.first && a.last == b.last && LexLess(a.middle, b.middle))
    || (a.first == b.first && a.last == b.last && a.middle == b.middle && a.addr < b.addr)
  }

  lemma BeforeIsByName(a: Key, b: Key)
    ensures Before(a, b) <==> ByName(a, b)
  {
    StrCmpIsLexicographic(a.first, b.first);
    StrCmpIsLexicographic(a.last, b.last);
    StrCmpIsLexicographic(a.middle, b.middle);
    if a.first == b.first { NotBothWays(a.first, b.first); }
    if a.last == b.last { NotBothWays(a.last, b.last); }
    if a.middle == b.middle { NotBothWays(a.middle, b.middle); }
  }

  lemma NotBothWays(a: Text, b: Text)
    ensures !(a == b && LexLess(a, b))
  {
    StrCmpIsLexicographic(a, b);
  }

  /** The comparator is a strict total order: exactly one of a before b, a equal
      to b and b before a holds, and before is transitive. */
  lemma ComparatorIsStrictTotalOrder()
    ensures forall a, b :: CompareKeys(a, b) == 0 <==> a == b
    ensures forall a, b :: CompareKeys(a, b) > 0 <==> Before(b, a)
    ensures forall a, b, c :: Before(a, b) && Before(b, c) ==> Before(a, c)
  {
    forall a, b ensures CompareKeys(a, b) == 0 <==> a == b { CompareZero(a, b); }
    forall a, b ensures CompareKeys(a, b) > 0 <==> Before(b, a) { CompareFlip(a, b); }
    forall a, b, c | Before(a, b) && Before(b, c) ensures Before(a, c) { BeforeTransitive(a, b, c); }
  }

  /** A contact record; the fields the comparator ignores are left out. */
  class Contact {
    const addr: nat
    var firstName: Text
    var lastName: Text
    var middleName: Text

    constructor (addr: nat)
      ensures this.addr == addr && KeyNow() == Key([], [], [], addr)
    {
      this.addr := addr;
      firstName, lastName, middleName := [], [], [];
    }

    function KeyNow(): Key
      reads this
    {
      Key(firstName, lastName, middleName, addr)
    }
  }

  /** contact_compare: it reads the two records as they are at the call. */
  function ContactCompare(a: Contact, b: Contact): int
    reads a, b
  {
    CompareKeys(a.KeyNow(), b.KeyNow())
  }

  /** contact_compare puts the contacts in the order of their names as they are. */
  lemma ContactsCompareByName(a: Contact, b: Contact)
    ensures ContactCompare(a, b) < 0 <==>
      || LexLess(a.firstName, b.firstName)
      || (a.firstName == b.firstName && LexLess(a.lastName, b.lastName))
      || (a.firstName == b.firstName && a.lastName == b.lastName && LexLess(a.middleName, b.middleName))
      || (a.firstName == b.firstName && a.lastName == b.lastName && a.middleName == b.middleName && a.addr < b.addr)
    ensures ContactCompare(a, b) > 0 <==> ContactCompare(b, a) < 0
  {
    BeforeIsByName(a.KeyNow(), b.KeyNow());
    CompareFlip(a.KeyNow(), b.KeyNow());
  }
}
