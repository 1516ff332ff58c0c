/**
 * URL decoding of a query string into a caller's buffer: `%HH` escapes (RFC 3986 section 2.1)
 * become the byte they name, `+` becomes a space, anything else is copied.
 */
module UrlDecode {
  import opened Bytes

  /** The largest `size_t` on the 32-bit target. */
  const SizeMax: int := 0xFFFF_FFFF

  predicate IsXDigit(c: byte) {
    ('0' as int <= c <= '9' as int) || ('a' as int <= c <= 'f' as int) || ('A' as int <= c <= 'F' as int)
  }

  /** The digit conversion the decoder performs: fold to upper case, then subtract `'A' - 10` or `'0'`. */
  function Nibble(c: byte): (v: int)
    requires IsXDigit(c)
    ensures '0' as int <= c <= '9' as int ==> v == c - '0' as int
    ensures 'a' as int <= c <= 'f' as int ==> v == c - 'a' as int + 10
    ensures 'A' as int <= c <= 'F' as int ==> v == c - 'A' as int + 10
    ensures 0 <= v < 16
  {
    var u := if c >= 'a' as int then c - ('a' as int - 'A' as int) else c;
    if u >= 'A' as int then u - ('A' as int - 10) else u - '0' as int
  }

  /** An escape starts here: a percent sign followed by two hexadecimal digits. */
  predicate EscapeAt(t: seq<byte>, i: nat) {
    i + 2 < |t| && t[i] == '%' as int && IsXDigit(t[i + 1]) && IsXDigit(t[i + 2])
  }

  /** The bytes the whole text decodes to, one per escape, plus sign or other byte. */
  function Decode(t: seq<byte>): seq<byte>
    decreases |t|
  {
    if |t| == 0 then []
    else if EscapeAt(t, 0) then [16 * Nibble(t[1]) + Nibble(t[2])] + Decode(t[3..])
    else if t[0] == '+' as int then [' ' as byte] + Decode(t[1..])
    else [t[0]] + Decode(t[1..])
  }

  /** The number of bytes the decoder writes before it stops counting: `len - 1` in unsigned arithmetic, at least one. */
  function Budget(len: nat): nat
    requires len <= SizeMax
  {
    if len == 0 then SizeMax else if len == 1 then 1 else len - 1
  }

  function Min(a: nat, b: nat): nat {
    if a <= b then a else b
  }

  /** What `urlndecode` writes into its destination, terminator included. */
  function Written(t: seq<byte>, len: nat): seq<byte>
    requires len <= SizeMax
  {
    Decode(t)[..Min(|Decode(t)|, Budget(len))] + [0]
  }

  /** One step of the decoder at position `i`: the byte it writes and where it resumes. */
  function Step(t: seq<byte>, i: nat): (r: (byte, nat))
    requires i < |t|
    ensures i < r.1 <= |t|
    ensures Decode(t[i..]) == [r.0] + Decode(t[r.1..])
  {
    if EscapeAt(t, i) then
      assert EscapeAt(t[i..], 0) && t[i..][3..] == t[i + 3..];
      (16 * Nibble(t[i + 1]) + Nibble(t[i + 2]), i + 3)
    else if t[i] == '+' as int then
      assert t[i..][1..] == t[i + 1..];
      (' ' as byte, i + 1)
    else
      assert t[i..][1..] == t[i + 1..];
      (t[i], i + 1)
  }

  /** `urlndecode` as written: it checks the count only after writing each byte. */
  method UrlNDecode(src: seq<byte>, len: nat) returns (dst: seq<byte>)
    requires 0 in src && len <= SizeMax
    ensures dst == Written(CStringText(src), len)
  {
    var t := CStringText(src);
    var i, cnt := 0, 0;
    var limit := if len == 0 then SizeMax else len - 1;
    dst := [];
    while i < |t|
      invariant i <= |t| && cnt == |dst| && cnt < Budget(len)
      invariant dst + Decode(t[i..]) == Decode(t)
      decreases |t| - i
    {
      var (b, next) := Step(t, i);
      assert dst + Decode(t[i..]) == (dst + [b]) + Decode(t[next..]);
      dst, i := dst + [b], next;
      cnt := cnt + 1;
      if cnt >= limit {
        assert (dst + Decode(t[i..]))[..cnt] == dst;
        break;
      }
    }
    if i == |t| {
      assert t[i..] == [];
      assert dst == Decode(t);
    }
    dst := dst + [0];
  }

  /** With a buffer of two bytes or more, the decoder stays inside it. */
  lemma WrittenFitsFromTwo(t: seq<byte>, len: nat)
    requires 2 <= len <= SizeMax
    ensures |Written(t, len)| <= len
  {
  }

  /** A one-byte buffer receives two bytes: the first decoded byte and the terminator. */
  lemma OneByteBufferOverrun()
    ensures |Written(['a' as byte], 1)| == 2
  {
    assert Decode(['a' as byte]) == ['a' as byte] + Decode([]);
  }

  /** A zero-size buffer receives at least the terminator. */
  lemma ZeroByteBufferOverrun(t: seq<byte>)
    ensures |Written(t, 0)| >= 1
  {
  }

  /** The corrected decoder: room for the terminator is checked before each byte is written. */
  method UrlNDecodeBounded(src: seq<byte>, len: nat) returns (dst: seq<byte>)
    requires 0 in src && len <= SizeMax
    ensures |dst| <= len
    ensures len == 0 ==> dst == []
    ensures len > 0 ==> dst == Decode(CStringText(src))[..Min(|Decode(CStringText(src))|, len - 1)] + [0]
  {
    if len == 0 {
      return [];
    }
    var t := CStringText(src);
    var i := 0;
    dst := [];
    while i < |t| && |dst| + 1 < len
      invariant i <= |t| && |dst| < len
      invariant dst + Decode(t[i..]) == Decode(t)
      decreases |t| - i
    {
      var (b, next) := Step(t, i);
      assert dst + Decode(t[i..]) == (dst + [b]) + Decode(t[next..]);
      dst, i := dst + [b], next;
    }
    if i == |t| {
      assert t[i..] == [];
    }
    assert (dst + Decode(t[i..]))[..|dst|] == dst;
    dst := dst + [0];
  }

  /** From two bytes up the corrected decoder writes what the original does. */
  lemma BoundedAgreesFromTwo(t: seq<byte>, len: nat)
    requires 2 <= len <= SizeMax
    ensures Written(t, len) == Decode(t)[..Min(|Decode(t)|, len - 1)] + [0]
  {
  }

  function UpperHexDigit(d: int): byte
    requires 0 <= d < 16
  {
    if d < 10 then '0' as int + d else 'A' as int + d - 10
  }

  /** The two digits written for a byte are hexadecimal digits and read back as the byte. */
  lemma HexDigitsReadBack(x: byte)
    ensures IsXDigit(UpperHexDigit(x / 16)) && IsXDigit(UpperHexDigit(x % 16))
    ensures 16 * Nibble(UpperHexDigit(x / 16)) + Nibble(UpperHexDigit(x % 16)) == x
  {
    var h, l := x / 16, x % 16;
    assert Nibble(UpperHexDigit(h)) == h;
    assert Nibble(UpperHexDigit(l)) == l;
  }

  /** Form encoding: a space as `+`, every other byte as `%HH`. */
  function Encode(s: seq<byte>): seq<byte>
    decreases |s|
  {
    if |s| == 0 then []
    else if s[0] == ' ' as int then ['+' as byte] + Encode(s[1..])
    else ['%' as byte, UpperHexDigit(s[0] / 16), UpperHexDigit(s[0] % 16)] + Encode(s[1..])
  }

  /** Decoding undoes encoding, for every byte string. */
  lemma {:induction false} DecodeEncode(s: seq<byte>)
    ensures Decode(Encode(s)) == s
    ensures 0 !in Encode(s)
    decreases |s|
  {
    if |s| > 0 {
      DecodeEncode(s[1..]);
      var e := Encode(s);
      if s[0] == ' ' as int {
        assert e[1..] == Encode(s[1..]);
      } else {
        var hi, lo := UpperHexDigit(s[0] / 16), UpperHexDigit(s[0] % 16);
        HexDigitsReadBack(s[0]);
        assert e[0] == '%' as int && e[1] == hi && e[2] == lo;
        assert EscapeAt(e, 0);
        assert e[3..] == Encode(s[1..]);
      }
    }
  }

  /** Text with no percent sign and no plus sign decodes to itself. */
  lemma {:induction false} PlainTextUnchanged(t: seq<byte>)
    requires forall k :: 0 <= k < |t| ==> t[k] != '%' as int && t[k] != '+' as int
    ensures Decode(t) == t
    decreases |t|
  {
    if |t| > 0 {
      PlainTextUnchanged(t[1..]);
    }
  }
}
