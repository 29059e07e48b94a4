/** The Internet checksum (RFC 1071) as module3/cross1/server.c and client.c
    compute it: host-order words on a little-endian machine, 32-bit unsigned
    arithmetic. */
module Checksum {
  import opened Bytes

  type U16 = w: int | 0 <= w < 0x1_0000

  const U32_SIZE := 0x1_0000_0000

  // ----- Definitions -----

  /** The sum of the words of data as the machine loads them, low byte first; an
      odd last byte is loaded alone. */
  function HostSum(data: seq<Byte>): nat {
    if data == [] then 0
    else if |data| == 1 then data[0]
    else data[0] + 0x100 * data[1] + HostSum(data[2..])
  }

  /** The sum RFC 1071 defines: words in network order, high byte first, an odd
      last byte padded with zero. */
  function NetSum(data: seq<Byte>): nat {
    if data == [] then 0
    else if |data| == 1 then 0x100 * data[0]
    else 0x100 * data[0] + data[1] + NetSum(data[2..])
  }

  /** Adding the carries back in until none is left. */
  function Fold(sum: nat): nat {
    if sum < 0x1_0000 then sum else Fold(sum % 0x1_0000 + sum / 0x1_0000)
  }

  function Swap(w: U16): U16 {
    w % 0x100 * 0x100 + w / 0x100
  }

  /** How htons(x), and how plain x, lie in memory. */
  function NetBytes(x: U16): seq<Byte> {
    [x / 0x100, x % 0x100]
  }

  function HostBytes(x: U16): seq<Byte> {
    [x % 0x100, x / 0x100]
  }

  /** The words of the definition are numbers in network order, the last one
      padded with a zero byte; and that is how htons lays a number out. */
  lemma NetSumIsOfWords(data: seq<Byte>)
    ensures |data| >= 2 ==> NetSum(data) == BigEndian(data[..2]) + NetSum(data[2..])
    ensures |data| == 1 ==> NetSum(data) == BigEndian(data + [0])
    ensures data == [] ==> NetSum(data) == 0
  {
    if |data| >= 2 {
      BigEndianOfTwo(data[..2]);
    } else if |data| == 1 {
      BigEndianOfTwo(data + [0]);
    }
  }

  lemma BigEndianOfTwo(s: seq<Byte>)
    requires |s| == 2
    ensures BigEndian(s) == 0x100 * s[0] as int + s[1] as int
  {
    assert s[..1][..0] == [];
    assert BigEndian(s[..1]) == s[0] as int;
  }

  lemma NetBytesAreBigEndian(x: U16)
    ensures |NetBytes(x)| == 2 && BigEndian(NetBytes(x)) == x
  {
    BigEndianOfTwo(NetBytes(x));
  }

  // ----- The loops -----

  /** checksum_add */
  method Add(sum: int, data: seq<Byte>) returns (r: int)
    requires 0 <= sum < U32_SIZE
    ensures r == (sum + HostSum(data)) % U32_SIZE
  {
    r := sum;
    var i := 0;
    while i + 1 < |data|
      invariant 0 <= i <= |data| && 0 <= r < U32_SIZE
      invariant (r + HostSum(data[i..])) % U32_SIZE == (sum + HostSum(data)) % U32_SIZE
    {
      var word := data[i] as int + 0x100 * data[i + 1] as int;
      assert data[i..][2..] == data[i + 2..];
      WrapAdd(r, word, HostSum(data[i + 2..]));
      r := (r + word) % U32_SIZE;
      i := i + 2;
    }
    if i < |data| {
      r := (r + data[i]) % U32_SIZE;
    }
  }

  lemma WrapAdd(a: int, b: int, c: int)
    ensures ((a + b) % U32_SIZE + c) % U32_SIZE == (a + (b + c)) % U32_SIZE
  {
  }

  /** checksum_done */
  method Done(sum: int) returns (check: U16)
    requires 0 <= sum < U32_SIZE
    ensures check == 0xFFFF - Fold(sum)
  {
    var s := sum;
    while s / 0x1_0000 != 0
      invariant 0 <= s && Fold(s) == Fold(sum)
      decreases s
    {
      s := s % 0x1_0000 + s / 0x1_0000;
    }
    FoldFits(s);
    check := 0xFFFF - s;
  }

  // ----- Folding is arithmetic modulo 65535 -----

  lemma {:induction false} FoldFits(sum: nat)
    ensures Fold(sum) < 0x1_0000
  {
    if sum >= 0x1_0000 { FoldFits(sum % 0x1_0000 + sum / 0x1_0000); }
  }

  /** The fold loop ends with the one value in 1..65535 congruent to the sum
      modulo 65535, and with 0 only for a zero sum. */
  lemma {:induction false} FoldIsModular(sum: nat)
    ensures Fold(sum) == if sum == 0 then 0 else 1 + (sum - 1) % 0xFFFF
  {
    if sum >= 0x1_0000 {
      var next := sum % 0x1_0000 + sum / 0x1_0000;
      FoldIsModular(next);
      assert sum - 1 == (next - 1) + 0xFFFF * (sum / 0x1_0000);
      ModShift(next - 1, sum / 0x1_0000);
    }
  }

  lemma ModShift(a: int, k: int)
    ensures (a + 0xFFFF * k) % 0xFFFF == a % 0xFFFF
  {
  }

  // ----- Byte order does not matter -----

  lemma {:induction false} NetSumIsHostSumTimes256(data: seq<Byte>) returns (k: nat)
    ensures 0x100 * HostSum(data) == NetSum(data) + 0xFFFF * k
    ensures HostSum(data) == 0 <==> NetSum(data) == 0
  {
    if |data| < 2 {
      k := 0;
    } else {
      var k' := NetSumIsHostSumTimes256(data[2..]);
      k := k' + data[1];
    }
  }

  /** Swapping the bytes of a word multiplies it by 256, modulo 65535. */
  lemma SwapIsTimes256(w: U16)
    ensures 0x100 * w == Swap(w) + 0xFFFF * (w / 0x100)
    ensures Swap(w) == 0 <==> w == 0
  {
  }

  lemma SwapOfComplement(w: U16)
    ensures Swap(0xFFFF - w) == 0xFFFF - Swap(w)
    ensures HostBytes(w) == NetBytes(Swap(w))
  {
    var hi, lo := w / 0x100, w % 0x100;
    assert w == 0x100 * hi + lo;
    assert 0xFFFF - w == 0x100 * (0xFF - hi) + (0xFF - lo);
  }

  lemma FoldOf(sum: nat, w: U16, k: int)
    requires sum > 0 && w > 0 && sum == w + 0xFFFF * k
    ensures Fold(sum) == w
  {
    FoldIsModular(sum);
    ModShift(w - 1, k);
  }

  /** Swapping the bytes of the host-order fold gives the network-order fold. */
  lemma SwapCommutesWithFold(data: seq<Byte>)
    ensures Fold(HostSum(data)) < 0x1_0000
    ensures Swap(Fold(HostSum(data))) == Fold(NetSum(data))
  {
    var h, n := HostSum(data), NetSum(data);
    FoldFits(h);
    FoldIsModular(h);
    var k := NetSumIsHostSumTimes256(data);
    if h > 0 {
      var f: U16 := Fold(h);
      SwapIsTimes256(f);
      FoldOf(n, Swap(f), f / 0x100 + 0x100 * ((h - 1) / 0xFFFF) - k);
    }
  }

  /** The two checksum bytes the program stores, in host order, are those of the
      checksum RFC 1071 defines over network-order words (section 2(B)). */
  lemma StoredBytesAreNetworkOrder(data: seq<Byte>)
    ensures Fold(HostSum(data)) < 0x1_0000 && Fold(NetSum(data)) < 0x1_0000
    ensures HostBytes(0xFFFF - Fold(HostSum(data))) == NetBytes(0xFFFF - Fold(NetSum(data)))
  {
    SwapCommutesWithFold(data);
    SwapOfComplement(Fold(HostSum(data)));
    SwapOfComplement(0xFFFF - Fold(HostSum(data)));
  }

  // ----- Verification -----

  /** A sum taken with the checksum in place of its zero folds to 0xFFFF. */
  lemma CheckVerifies(sum: nat)
    ensures Fold(sum) < 0x1_0000
    ensures Fold(sum + (0xFFFF - Fold(sum))) == 0xFFFF
  {
    FoldFits(sum);
    FoldIsModular(sum);
    if sum > 0 {
      WholeTurns(sum, Fold(sum));
      FoldOf(sum + (0xFFFF - Fold(sum)), 0xFFFF, (sum - 1) / 0xFFFF);
    }
  }

  lemma WholeTurns(sum: nat, f: int)
    requires f == 1 + (sum - 1) % 0xFFFF
    ensures sum + (0xFFFF - f) == 0xFFFF + 0xFFFF * ((sum - 1) / 0xFFFF)
  {
  }

  lemma {:induction false} HostSumConcat(a: seq<Byte>, b: seq<Byte>)
    requires |a| % 2 == 0
    ensures HostSum(a + b) == HostSum(a) + HostSum(b)
  {
    if a == [] {
      assert a + b == b;
    } else {
      assert (a + b)[2..] == a[2..] + b;
      HostSumConcat(a[2..], b);
    }
  }

  /** The sum grows by at most 0xFFFF for every two bytes. */
  lemma {:induction false} HostSumBound(data: seq<Byte>)
    ensures HostSum(data) <= 0x8000 * |data|
  {
    if |data| >= 2 { HostSumBound(data[2..]); }
  }
}
