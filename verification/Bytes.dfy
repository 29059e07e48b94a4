/** Bytes, and what the wire-format modules share about them. */
module Bytes {

  type Byte = b: int | 0 <= b < 0x100

  /** The characters of a C string literal. */
  function Ascii(s: string): seq<Byte> {
    seq(|s|, i requires 0 <= i < |s| => s[i] as int % 0x100)
  }

  /** The characters whose codes these are. */
  function Chars(s: seq<Byte>): string {
    seq(|s|, i requires 0 <= i < |s| => s[i] as char)
  }

  /** The number whose bytes these are in network order, the high byte first. */
  function BigEndian(s: seq<Byte>): nat {
    if s == [] then 0 else 0x100 * BigEndian(s[..|s| - 1]) + s[|s| - 1] as int
  }

  /** The C string at the start of some memory. */
  function UpToZero(s: seq<Byte>): (text: seq<Byte>)
    ensures text <= s && 0 !in text
    ensures text == s || s[|text|] == 0
  {
    if s == [] || s[0] == 0 then [] else [s[0]] + UpToZero(s[1..])
  }

  /** A file descriptor: the bytes written to it and not yet read. */
  class Stream {
    var data: seq<Byte>

    constructor ()
      ensures data == []
    {
      data := [];
    }

    /** read(): from 1 to n bytes, however many the kernel has at hand; none only
        if there are none. */
    method Read(n: nat) returns (bytes: seq<Byte>)
      requires n > 0
      modifies this
      ensures bytes + data == old(data) && |bytes| <= n
      ensures bytes == [] <==> old(data) == []
    {
      if data == [] {
        return [];
      }
      var k :| 1 <= k <= n && k <= |data|;
      bytes := data[..k];
      data := data[k..];
    }

    /** write(): from 1 to all of the bytes are taken. */
    method Write(bytes: seq<Byte>) returns (k: nat)
      requires bytes != []
      modifies this
      ensures 1 <= k <= |bytes| && data == old(data) + bytes[..k]
    {
      k :| 1 <= k <= |bytes|;
      data := data + bytes[..k];
    }
  }
}
