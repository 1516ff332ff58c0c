/** Mac Roman to UTF-8 conversion through the generated lookup tables. */
module MacRoman {
  import opened Bytes
  import opened MacRomanLut

  /** The two generated arrays: 256 entries each, lengths agreeing with the strings, no NUL inside a string. */
  predicate ValidTables(table: seq<seq<byte>>, lengths: seq<nat>) {
    |table| == 256 && |lengths| == 256 &&
    forall i :: 0 <= i < 256 ==> lengths[i] == |table[i]| && 0 !in table[i]
  }

  /** The number of UTF-8 bytes the conversion of `s` takes. */
  function Utf8Length(lengths: seq<nat>, s: seq<byte>): nat
    requires |lengths| == 256
    decreases |s|
  {
    if |s| == 0 then 0 else Utf8Length(lengths, s[..|s| - 1]) + lengths[s[|s| - 1]]
  }

  /** The conversion of `s`: the table's strings for its bytes, in order. */
  function ToUtf8(table: seq<seq<byte>>, s: seq<byte>): seq<byte>
    requires |table| == 256
    decreases |s|
  {
    if |s| == 0 then [] else ToUtf8(table, s[..|s| - 1]) + table[s[|s| - 1]]
  }

  /** The length array counts the bytes the string array produces. */
  lemma {:induction false} ToUtf8Length(table: seq<seq<byte>>, lengths: seq<nat>, s: seq<byte>)
    requires ValidTables(table, lengths)
    ensures |ToUtf8(table, s)| == Utf8Length(lengths, s)
    decreases |s|
  {
    if |s| > 0 {
      ToUtf8Length(table, lengths, s[..|s| - 1]);
    }
  }

  /** No NUL appears in a conversion, so it reads back as one C string. */
  lemma {:induction false} ToUtf8HasNoNul(table: seq<seq<byte>>, lengths: seq<nat>, s: seq<byte>)
    requires ValidTables(table, lengths)
    ensures 0 !in ToUtf8(table, s)
    decreases |s|
  {
    if |s| > 0 {
      ToUtf8HasNoNul(table, lengths, s[..|s| - 1]);
    }
  }

  lemma {:induction false} Utf8LengthPrefix(lengths: seq<nat>, s: seq<byte>, i: nat)
    requires |lengths| == 256 && i <= |s|
    ensures Utf8Length(lengths, s[..i]) <= Utf8Length(lengths, s)
    decreases |s|
  {
    if i < |s| {
      assert s[..|s| - 1][..i] == s[..i];
      Utf8LengthPrefix(lengths, s[..|s| - 1], i);
    } else {
      assert s[..i] == s;
    }
  }

  /** `num_corresponding_utf8_chars`: the sum of the lengths of the first `bufSize` bytes. */
  method NumCorrespondingUtf8Chars(lengths: seq<nat>, ptr: seq<byte>, bufSize: nat) returns (num: nat)
    requires |lengths| == 256 && bufSize <= |ptr|
    ensures num == Utf8Length(lengths, ptr[..bufSize])
  {
    num := 0;
    for i := 0 to bufSize
      invariant num == Utf8Length(lengths, ptr[..i])
    {
      assert ptr[..i + 1][..i] == ptr[..i];
      num := num + lengths[ptr[i]];
    }
  }

  method PStringUtf8Length(lengths: seq<nat>, p: pstring) returns (n: nat)
    requires |lengths| == 256
    ensures n == Utf8Length(lengths, p)
  {
    n := NumCorrespondingUtf8Chars(lengths, p, |p|);
    assert p[..|p|] == p;
  }

  method CStringUtf8Length(lengths: seq<nat>, c: seq<byte>) returns (n: nat)
    requires |lengths| == 256 && 0 in c
    ensures n == Utf8Length(lengths, CStringText(c))
  {
    n := NumCorrespondingUtf8Chars(lengths, c, Strlen(c));
  }

  /** `stpcpy` of a string without NUL: the bytes and a terminating NUL; the result points at the NUL. */
  method Stpcpy(dst: array<byte>, cursor: nat, src: seq<byte>) returns (next: nat)
    requires cursor + |src| < dst.Length
    modifies dst
    ensures next == cursor + |src|
    ensures dst[..cursor] == old(dst[..cursor]) && dst[cursor..next] == src && dst[next] == 0
  {
    for j := 0 to |src|
      invariant dst[..cursor] == old(dst[..cursor])
      invariant dst[cursor..cursor + j] == src[..j]
    {
      dst[cursor + j] := src[j];
    }
    next := cursor + |src|;
    dst[next] := 0;
  }

  /** `pstring_to_cstring_and_macroman_to_utf8_alloc`. */
  method PStringToUtf8CStringAlloc(table: seq<seq<byte>>, lengths: seq<nat>, p: pstring, mallocSucceeds: bool)
    returns (r: Option<seq<byte>>)
    requires ValidTables(table, lengths)
    ensures r.Some? <==> mallocSucceeds
    ensures r.Some? ==> r.value == ToUtf8(table, p) + [0]
  {
    var len := PStringUtf8Length(lengths, p);
    if !mallocSucceeds {
      return None;
    }
    var dst := new byte[len + 1];
    var cursor := 0;
    for i := 0 to |p|
      invariant cursor == Utf8Length(lengths, p[..i])
      invariant cursor <= len
      invariant dst[..cursor] == ToUtf8(table, p[..i])
    {
      assert p[..i + 1][..i] == p[..i];
      Utf8LengthPrefix(lengths, p, i + 1);
      ToUtf8Length(table, lengths, p[..i]);
      ghost var before := dst[..cursor];
      cursor := Stpcpy(dst, cursor, table[p[i]]);
      assert dst[..cursor] == before + table[p[i]];
    }
    assert p[..|p|] == p;
    dst[len] := 0;
    assert dst[..] == dst[..len] + [dst[len]];
    return Some(dst[..]);
  }

  /** The table the generated C file defines, given the tokens for codes 128 onwards. */
  function GeneratedTable(strs: seq<seq<byte>>): seq<seq<byte>> {
    seq(256, i => Entry(strs, i))
  }

  /** The generator's output forms valid tables whenever no token holds a NUL. */
  lemma GeneratedTablesValid(strs: seq<seq<byte>>)
    requires |strs| == 128 && forall k :: 0 <= k < 128 ==> 0 !in strs[k]
    ensures ValidTables(GeneratedTable(strs), Charlengths(strs))
  {
    forall i | 0 <= i < 256
      ensures 0 !in Entry(strs, i)
    {
      if 128 <= i {
        assert Entry(strs, i) == strs[i - 128];
      }
    }
  }

  /** Printable ASCII converts to itself, one byte each. */
  lemma {:induction false} PrintableAsciiUnchanged(strs: seq<seq<byte>>, s: seq<byte>)
    requires |strs| == 128 && forall k :: 0 <= k < |s| ==> 32 <= s[k] < 127
    ensures ToUtf8(GeneratedTable(strs), s) == s
    ensures Utf8Length(Charlengths(strs), s) == |s|
    decreases |s|
  {
    if |s| > 0 {
      var init := s[..|s| - 1];
      PrintableAsciiUnchanged(strs, init);
      assert GeneratedTable(strs)[s[|s| - 1]] == [s[|s| - 1]];
      assert init + [s[|s| - 1]] == s;
    }
  }

  lemma ToUtf8Snoc(table: seq<seq<byte>>, lengths: seq<nat>, s: seq<byte>, b: byte)
    requires |table| == 256 && |lengths| == 256
    ensures ToUtf8(table, s + [b]) == ToUtf8(table, s) + table[b]
    ensures Utf8Length(lengths, s + [b]) == Utf8Length(lengths, s) + lengths[b]
  {
    assert (s + [b])[..|s|] == s;
  }

  /** Control codes become U+FFFD, and code 0xFF becomes the last token of the character list. */
  lemma ControlCodesAndLastCode(strs: seq<seq<byte>>)
    requires |strs| == 128 && strs[127] == [0xCB, 0x87]
    ensures ToUtf8(GeneratedTable(strs), [1, 2, 3, 0xFF])
         == [0xEF, 0xBF, 0xBD, 0xEF, 0xBF, 0xBD, 0xEF, 0xBF, 0xBD, 0xCB, 0x87]
    ensures Utf8Length(Charlengths(strs), [1, 2, 3, 'a' as byte, 'b' as byte]) == 11
  {
    ControlCodesConvert(strs);
    ControlCodesLength(strs);
  }

  lemma ControlCodesConvert(strs: seq<seq<byte>>)
    requires |strs| == 128 && strs[127] == [0xCB, 0x87]
    ensures ToUtf8(GeneratedTable(strs), [1, 2, 3, 0xFF])
         == [0xEF, 0xBF, 0xBD, 0xEF, 0xBF, 0xBD, 0xEF, 0xBF, 0xBD, 0xCB, 0x87]
  {
    var t := GeneratedTable(strs);
    var l := Charlengths(strs);
    var u: seq<byte> := [0xEF, 0xBF, 0xBD];
    assert t[1] == u && t[2] == u && t[3] == u;
    assert t[0xFF] == [0xCB, 0x87];
    var e: seq<byte> := [];
    ToUtf8Snoc(t, l, e, 1);
    assert e + [1] == [1];
    ToUtf8Snoc(t, l, [1], 2);
    assert [1] + [2] == [1, 2];
    ToUtf8Snoc(t, l, [1, 2], 3);
    assert [1, 2] + [3] == [1, 2, 3];
    ToUtf8Snoc(t, l, [1, 2, 3], 0xFF);
    assert [1, 2, 3] + [0xFF] == [1, 2, 3, 0xFF];
  }

  lemma ControlCodesLength(strs: seq<seq<byte>>)
    requires |strs| == 128
    ensures Utf8Length(Charlengths(strs), [1, 2, 3, 'a' as byte, 'b' as byte]) == 11
  {
    var t := GeneratedTable(strs);
    var l := Charlengths(strs);
    assert l[1] == 3 && l[2] == 3 && l[3] == 3 && l['a' as byte] == 1 && l['b' as byte] == 1;
    var e: seq<byte> := [];
    ToUtf8Snoc(t, l, e, 1);
    assert e + [1] == [1];
    ToUtf8Snoc(t, l, [1], 2);
    assert [1] + [2] == [1, 2];
    ToUtf8Snoc(t, l, [1, 2], 3);
    assert [1, 2] + [3] == [1, 2, 3];
    ToUtf8Snoc(t, l, [1, 2, 3], 'a' as byte);
    assert [1, 2, 3] + ['a' as byte] == [1, 2, 3, 'a' as byte];
    ToUtf8Snoc(t, l, [1, 2, 3, 'a' as byte], 'b' as byte);
    assert [1, 2, 3, 'a' as byte] + ['b' as byte] == [1, 2, 3, 'a' as byte, 'b' as byte];
  }
}
