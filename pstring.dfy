/** Pascal string helpers: AppleTalk case folding, comparison with C strings, conversion to a C string. */
module PString {
  import opened Bytes

  /** The Mac Roman lower-case letters above 0x7F and their upper-case forms. */
  const MacUpperOf: map<byte, byte> :=
    map[0x88 := 0xCB, 0x8A := 0x80, 0x8B := 0xCC, 0x8C := 0x81, 0x8D := 0x82, 0x8E := 0x83, 0x96 := 0x84,
        0x9A := 0x85, 0x9B := 0xCD, 0x9F := 0x86, 0xBE := 0xAE, 0xBF := 0xAF, 0xCF := 0xCE]

  predicate IsAsciiLower(c: byte) {
    'a' as int <= c <= 'z' as int
  }

  /** Upper-casing by AppleTalk rules: ASCII letters and the thirteen accented Mac Roman letters. */
  function MacUc(c: byte): (r: byte)
    ensures IsAsciiLower(c) ==> r == c - 32
    ensures c in MacUpperOf ==> r == MacUpperOf[c]
    ensures !IsAsciiLower(c) && c !in MacUpperOf ==> r == c
  {
    if IsAsciiLower(c) then c - 32
    else if c == 0x88 then 0xCB
    else if c == 0x8A then 0x80
    else if c == 0x8B then 0xCC
    else if c == 0x8C then 0x81
    else if c == 0x8D then 0x82
    else if c == 0x8E then 0x83
    else if c == 0x96 then 0x84
    else if c == 0x9A then 0x85
    else if c == 0x9B then 0xCD
    else if c == 0x9F then 0x86
    else if c == 0xBE then 0xAE
    else if c == 0xBF then 0xAF
    else if c == 0xCF then 0xCE
    else c
  }

  /** Upper-casing twice is upper-casing once: no upper-case form is itself folded again. */
  lemma MacUcIdempotent(c: byte)
    ensures MacUc(MacUc(c)) == MacUc(c)
  {
    var r := MacUc(c);
    assert !IsAsciiLower(r) && r !in MacUpperOf;
  }

  /** `pstring_eq_cstring`: the C string's length is the Pascal string's and its bytes are the same. */
  function PStringEqCString(p: pstring, c: seq<byte>): (r: bool)
    requires 0 in c
    ensures r <==> p == CStringText(c)
  {
    Strlen(c) == |p| && c[..|p|] == p
  }

  /** Equality of byte strings after AppleTalk upper-casing. */
  predicate MacCaseEqual(a: seq<byte>, b: seq<byte>) {
    |a| == |b| && forall i :: 0 <= i < |a| ==> MacUc(a[i]) == MacUc(b[i])
  }

  /** `pstring_eq_cstring_mac_ci`: lengths first, then byte by byte, failing at the first difference. */
  method PStringEqCStringMacCi(p: pstring, c: seq<byte>) returns (r: bool)
    requires 0 in c
    ensures r <==> MacCaseEqual(p, CStringText(c))
  {
    if Strlen(c) != |p| {
      return false;
    }
    for i := 0 to |p|
      invariant forall k :: 0 <= k < i ==> MacUc(c[k]) == MacUc(p[k])
    {
      if MacUc(c[i]) != MacUc(p[i]) {
        return false;
      }
    }
    return true;
  }

  /** Exact equality implies case-insensitive equality. */
  lemma ExactImpliesMacCaseEqual(p: pstring, c: seq<byte>)
    requires 0 in c && PStringEqCString(p, c)
    ensures MacCaseEqual(p, CStringText(c))
  {
  }

  /** Case-insensitive equality is an equivalence relation. */
  lemma MacCaseEqualIsEquivalence(a: seq<byte>, b: seq<byte>, c: seq<byte>)
    ensures MacCaseEqual(a, a)
    ensures MacCaseEqual(a, b) ==> MacCaseEqual(b, a)
    ensures MacCaseEqual(a, b) && MacCaseEqual(b, c) ==> MacCaseEqual(a, c)
  {
  }

  function Upcased(s: seq<byte>): (r: seq<byte>)
    ensures |r| == |s| && forall i :: 0 <= i < |s| ==> r[i] == MacUc(s[i])
  {
    seq(|s|, i requires 0 <= i < |s| => MacUc(s[i]))
  }

  /** Case-insensitive equality is equality of the upper-cased strings. */
  lemma MacCaseEqualIffUpcasedEqual(a: seq<byte>, b: seq<byte>)
    ensures MacCaseEqual(a, b) <==> Upcased(a) == Upcased(b)
  {
    if Upcased(a) == Upcased(b) {
      assert |a| == |b|;
      forall i | 0 <= i < |a|
        ensures MacUc(a[i]) == MacUc(b[i])
      {
        assert Upcased(a)[i] == Upcased(b)[i];
      }
    }
  }

  /** `pstring_to_cstring_alloc`: the bytes copied into a fresh buffer one longer, then a NUL. */
  method PStringToCStringAlloc(p: pstring, mallocSucceeds: bool) returns (r: Option<seq<byte>>)
    ensures r.Some? <==> mallocSucceeds
    ensures r.Some? ==> r.value == p + [0]
  {
    if !mallocSucceeds {
      return None;
    }
    var dst := new byte[|p| + 1];
    for i := 0 to |p|
      invariant dst[..i] == p[..i]
    {
      dst[i] := p[i];
    }
    dst[|p|] := 0;
    assert dst[..] == dst[..|p|] + [dst[|p|]];
    return Some(dst[..]);
  }

  /** Converting to a C string and comparing with the original succeeds exactly when the Pascal string holds no NUL. */
  lemma CStringRoundTrip(p: pstring)
    ensures 0 in p + [0]
    ensures PStringEqCString(p, p + [0]) <==> 0 !in p
  {
    var c := p + [0];
    assert c[|p|] == 0;
    if 0 !in p {
      assert c[..|p|] == p;
      assert CStringText(c) == p;
    } else {
      assert |CStringText(c)| < |p|;
    }
  }
}
