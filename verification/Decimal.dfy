/** The decimal numbers that snprintf writes and atoi reads back. */
module Decimal {

  function DigitChar(d: nat): char
    requires d < 10
  {
    '0' + d as char
  }

  predicate IsDigit(c: char) {
    '0' <= c <= '9'
  }

  function DigitValue(c: char): nat
    requires IsDigit(c)
  {
    (c - '0') as nat
  }

  function Digits(n: nat): string {
    if n < 10 then [DigitChar(n)] else Digits(n / 10) + [DigitChar(n % 10)]
  }

  /** %d */
  function Itoa(n: int): string {
    if n < 0 then "-" + Digits(-n) else Digits(n)
  }

  predicate IsSpace(c: char) {
    c == ' ' || '\t' <= c <= '\r'
  }

  function SkipSpaces(s: string): string {
    if s != [] && IsSpace(s[0]) then SkipSpaces(s[1..]) else s
  }

  /** The value of the digits s starts with, read behind the digits of acc. */
  function ScanDigits(s: string, acc: nat): nat {
    if s != [] && IsDigit(s[0]) then ScanDigits(s[1..], 10 * acc + DigitValue(s[0])) else acc
  }

  /** atoi */
  function Atoi(s: string): int {
    var t := SkipSpaces(s);
    if t != [] && t[0] == '-' then -(ScanDigits(t[1..], 0) as int)
    else if t != [] && t[0] == '+' then ScanDigits(t[1..], 0)
    else ScanDigits(t, 0)
  }

  function Pow10(k: nat): nat {
    if k == 0 then 1 else 10 * Pow10(k - 1)
  }

  /** A number below 10^k has at most k digits. */
  lemma {:induction false} FewDigits(n: nat, k: nat)
    requires n < Pow10(k) && k > 0
    ensures |Digits(n)| <= k
  {
    if n >= 10 { FewDigits(n / 10, k - 1); }
  }

  ghost predicate AllDigits(s: string) {
    forall i :: 0 <= i < |s| ==> IsDigit(s[i])
  }

  lemma {:induction false} ScanLast(s: string, c: char, acc: nat)
    requires AllDigits(s) && IsDigit(c)
    ensures ScanDigits(s + [c], acc) == 10 * ScanDigits(s, acc) + DigitValue(c)
    decreases |s|
  {
    if s == [] {
      assert s + [c] == [c] && [c][1..] == [];
    } else {
      assert (s + [c])[1..] == s[1..] + [c];
      ScanLast(s[1..], c, 10 * acc + DigitValue(s[0]));
    }
  }

  lemma {:induction false} ScanWhatWasWritten(n: nat)
    ensures Digits(n) != [] && AllDigits(Digits(n)) && ScanDigits(Digits(n), 0) == n
  {
    if n < 10 {
      assert Digits(n)[1..] == [];
    } else {
      ScanWhatWasWritten(n / 10);
      ScanLast(Digits(n / 10), DigitChar(n % 10), 0);
    }
  }

  /** atoi reads back what %d wrote. */
  lemma {:induction false} AtoiOfItoa(n: int)
    ensures Atoi(Itoa(n)) == n
  {
    if n < 0 {
      ScanWhatWasWritten(-n);
      assert Itoa(n)[1..] == Digits(-n);
    } else {
      ScanWhatWasWritten(n);
      assert IsDigit(Digits(n)[0]);
    }
  }

  /** How %d writes a number: digits without a leading zero, behind a minus sign
      if it is negative. */
  ghost predicate IsNumeral(s: string) {
    || (s != [] && AllDigits(s) && (s[0] == '0' ==> |s| == 1))
    || (|s| > 1 && s[0] == '-' && AllDigits(s[1..]) && s[1] != '0')
  }

  lemma {:induction false} DigitsAreNumeral(n: nat)
    ensures Digits(n) != [] && AllDigits(Digits(n))
    ensures Digits(n)[0] == '0' <==> n == 0
    ensures n < 10 <==> |Digits(n)| == 1
  {
    if n >= 10 { DigitsAreNumeral(n / 10); }
  }

  /** %d writes the numeral of its argument. */
  lemma {:induction false} ItoaIsNumeral(n: int)
    ensures IsNumeral(Itoa(n)) && Atoi(Itoa(n)) == n
    ensures Itoa(n)[0] == '-' <==> n < 0
  {
    AtoiOfItoa(n);
    if n < 0 {
      DigitsAreNumeral(-n);
      assert Itoa(n)[1..] == Digits(-n);
    } else {
      DigitsAreNumeral(n);
      assert IsDigit(Digits(n)[0]);
    }
  }

  lemma {:induction false} DigitsOfScan(s: string)
    requires s != [] && AllDigits(s) && (s[0] == '0' ==> |s| == 1)
    ensures s == Digits(ScanDigits(s, 0))
    ensures ScanDigits(s, 0) == 0 <==> s == ['0']
    decreases |s|
  {
    var last, front := s[|s| - 1], s[..|s| - 1];
    assert s == front + [last];
    if front == [] {
      assert s == [last] && s[1..] == [];
    } else {
      assert front[0] == s[0];
      DigitsOfScan(front);
      ScanLast(front, last, 0);
      var n := ScanDigits(front, 0);
      assert (10 * n + DigitValue(last)) / 10 == n && (10 * n + DigitValue(last)) % 10 == DigitValue(last);
    }
  }

  /** A number has one numeral only. */
  lemma {:induction false} NumeralIsUnique(s: string)
    requires IsNumeral(s)
    ensures s == Itoa(Atoi(s))
  {
    if s[0] == '-' {
      DigitsOfScan(s[1..]);
      assert s == "-" + s[1..];
    } else {
      assert IsDigit(s[0]);
      DigitsOfScan(s);
    }
  }
}
