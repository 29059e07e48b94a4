/** Options, and sequences with one element put in or taken out. */
module Sequences {

  datatype Option<+T> = None | Some(value: T)

  ghost predicate Distinct<T>(s: seq<T>) {
    forall i, j :: 0 <= i < j < |s| ==> s[i] != s[j]
  }

  function Spliced<T>(s: seq<T>, x: T, p: nat): seq<T>
    requires p <= |s|
  {
    s[..p] + [x] + s[p..]
  }

  function Without<T>(s: seq<T>, i: nat): seq<T>
    requires i < |s|
  {
    s[..i] + s[i + 1..]
  }

  lemma SplicedAt<T>(s: seq<T>, x: T, p: nat)
    requires p <= |s|
    ensures forall k :: 0 <= k <= |s| ==> Spliced(s, x, p)[k] == if k < p then s[k] else if k == p then x else s[k - 1]
  {
    var r := Spliced(s, x, p);
    forall k | 0 <= k <= |s| ensures r[k] == if k < p then s[k] else if k == p then x else s[k - 1] {
    }
  }

  lemma WithoutAt<T>(s: seq<T>, i: nat)
    requires i < |s|
    ensures forall k :: 0 <= k < |s| - 1 ==> Without(s, i)[k] == if k < i then s[k] else s[k + 1]
  {
    var r := Without(s, i);
    forall k | 0 <= k < |s| - 1 ensures r[k] == if k < i then s[k] else s[k + 1] {
    }
  }

  /** The element at an index; none outside the sequence. */
  function Nth<T>(s: seq<T>, i: int, none: T): T {
    if 0 <= i < |s| then s[i] else none
  }

  lemma SplicedNth<T>(s: seq<T>, x: T, p: nat, i: int, none: T)
    requires p <= |s|
    ensures Nth(Spliced(s, x, p), i, none)
      == if i < p then Nth(s, i, none) else if i == p then x else Nth(s, i - 1, none)
  {
  }

  lemma WithoutNth<T>(s: seq<T>, m: nat, i: int, none: T)
    requires m < |s|
    ensures Nth(Without(s, m), i, none) == if i < m then Nth(s, i, none) else Nth(s, i + 1, none)
  {
  }

  lemma WithoutOfCons<T>(head: T, tail: seq<T>, i: nat)
    requires i < |tail|
    ensures Without([head] + tail, i + 1) == [head] + Without(tail, i)
  {
    var s := [head] + tail;
    assert s[..i + 1] == [head] + tail[..i];
    assert s[i + 2..] == tail[i + 1..];
  }

  lemma SplicedIsDistinct<T>(s: seq<T>, x: T, p: nat)
    requires Distinct(s) && x !in s && p <= |s|
    ensures Distinct(Spliced(s, x, p))
  {
    var r := Spliced(s, x, p);
    SplicedAt(s, x, p);
    forall i, j | 0 <= i < j < |r| ensures r[i] != r[j] {
      assert r[i] == (if i < p then s[i] else if i == p then x else s[i - 1]);
      assert r[j] == (if j < p then s[j] else if j == p then x else s[j - 1]);
    }
  }

  lemma WithoutIsDistinct<T>(s: seq<T>, i: nat)
    requires Distinct(s) && i < |s|
    ensures Distinct(Without(s, i)) && s[i] !in Without(s, i)
  {
    WithoutAt(s, i);
  }
}
