/** Octets, 16-bit network-order integers, Pascal strings and C strings, shared by every module. */
module Bytes {

  type byte = b: int | 0 <= b < 0x100
  type u16 = n: int | 0 <= n < 0x1_0000

  /** A Pascal string: at most 255 bytes, sent on the wire as a length byte followed by the bytes. */
  type pstring = s: seq<byte> | |s| <= 255

  datatype Option<T> = None | Some(value: T)

  /** The 16-bit value of two bytes in network (big-endian) order. */
  function Be16(hi: byte, lo: byte): (n: u16)
  {
    hi * 256 + lo
  }

  /** The two bytes of `n` in network order (`htons` stored to memory). */
  function Be16Bytes(n: u16): (r: seq<byte>)
    ensures |r| == 2 && Be16(r[0], r[1]) == n
  {
    [n / 256, n % 256]
  }

  /** The wire form of a Pascal string. */
  function PStringBytes(s: pstring): (r: seq<byte>)
    ensures |r| == |s| + 1 && r[0] == |s| && r[1..] == s
  {
    [|s| as byte] + s
  }

  /** `strlen`: the number of bytes before the first NUL of a terminated C string. */
  function Strlen(c: seq<byte>): (n: nat)
    requires 0 in c
    ensures n < |c| && c[n] == 0
    ensures forall k :: 0 <= k < n ==> c[k] != 0
  {
    if c[0] == 0 then 0 else 1 + Strlen(c[1..])
  }

  /** The text of a terminated C string: the bytes before its first NUL. */
  function CStringText(c: seq<byte>): (t: seq<byte>)
    requires 0 in c
    ensures |t| < |c| && 0 !in t && c[..|t|] == t && c[|t|] == 0
  {
    c[..Strlen(c)]
  }

  /** The Pascal string whose length byte is at `o`. */
  function PStringAt(data: seq<byte>, o: nat): (s: pstring)
    requires o < |data| && o + 1 + data[o] <= |data|
    ensures |s| == data[o] && data[o..o + 1 + |s|] == PStringBytes(s)
  {
    data[o + 1..o + 1 + data[o]]
  }

  /** The middle part of a concatenation is the slice where it was put. */
  lemma Middle(a: seq<byte>, b: seq<byte>, c: seq<byte>)
    ensures (a + b + c)[|a|..|a| + |b|] == b
  {
  }
}
