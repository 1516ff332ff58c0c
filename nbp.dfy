/**
 * Name Binding Protocol tuples inside a DDP packet. After the 2-byte NBP header come tuples of a
 * 5-byte entity address (network, node, socket, enumerator) and three Pascal strings: object,
 * type and zone. A tuple pointer is modelled as its offset into the DDP data (header + payload).
 */
module Nbp {
  import opened Bytes
  import opened Buffers

  /** `sizeof(struct nbp_tuple_s)`: the fixed part of a tuple. */
  const TupleFixedLen: nat := 5
  /** `sizeof(nbp_packet_t)`. */
  const NbpHeaderLen: nat := 2

  /** Where `n` Pascal strings starting at `cursor` end, if every length byte and every string fits. */
  function StringsEnd(data: seq<byte>, cursor: nat, n: nat): (e: Option<nat>)
    ensures e.Some? ==> cursor + n <= e.value <= |data|
    decreases n
  {
    if n == 0 then (if cursor <= |data| then Some(cursor) else None)
    else if cursor + 1 > |data| then None
    else if cursor + 1 + data[cursor] > |data| then None
    else StringsEnd(data, cursor + 1 + data[cursor], n - 1)
  }

  /** Where the tuple at `offset` ends, if its fixed part and its three strings fit in the data. */
  function TupleEnd(data: seq<byte>, offset: nat): (e: Option<nat>)
    ensures e.Some? ==> offset + TupleFixedLen + 3 <= e.value <= |data|
  {
    if offset + TupleFixedLen <= |data| then StringsEnd(data, offset + TupleFixedLen, 3) else None
  }

  /** What `nbp_tuple_at` answers: the tuple, when the buffer is DDP-ready and the whole tuple fits. */
  function TupleAt(ready: bool, data: seq<byte>, offset: nat): Option<nat> {
    if ready && TupleEnd(data, offset).Some? then Some(offset) else None
  }

  /** One string step of `nbp_tuple_at`'s loop, on the C `remaining` counter. */
  lemma StringStep(data: seq<byte>, cursor: nat, n: nat)
    requires n > 0 && cursor + 1 <= |data| && cursor + 1 + data[cursor] <= |data|
    ensures StringsEnd(data, cursor, n) == StringsEnd(data, cursor + 1 + data[cursor], n - 1)
  {
  }

  /**
   * `nbp_tuple_at`. `remaining` is a signed count compared against an unsigned size first, so a
   * negative count passes that test; the first string test then refuses it.
   */
  method NbpTupleAt(b: Buffer, offset: nat) returns (r: Option<nat>)
    ensures r == TupleAt(b.ddpReady, b.DdpData(), offset)
  {
    var data := b.DdpData();
    if !b.ddpReady {
      return None;
    }
    var remaining: int := |data| - offset;
    if 0 <= remaining < TupleFixedLen {
      return None;
    }
    remaining := remaining - TupleFixedLen;
    var cursor: int := offset + TupleFixedLen;
    if remaining < 0 {
      // The first pass of the loop returns here.
      assert TupleEnd(data, offset) == None;
      return None;
    }
    var i := 0;
    while i < 3
      invariant 0 <= i <= 3 && 0 <= cursor <= |data| && remaining == |data| - cursor
      invariant TupleEnd(data, offset) == StringsEnd(data, cursor, 3 - i)
    {
      if remaining < 1 {
        return None;
      }
      var stringLength: int := data[cursor];
      if remaining < stringLength + 1 {
        return None;
      }
      StringStep(data, cursor, 3 - i);
      remaining := remaining - (stringLength + 1);
      cursor := cursor + stringLength + 1;
      i := i + 1;
    }
    return Some(offset);
  }

  /** `nbp_tuple_length`: 5 plus each string's length byte and bytes; only called on an accepted tuple. */
  method NbpTupleLength(data: seq<byte>, offset: nat) returns (len: nat)
    requires TupleEnd(data, offset).Some?
    ensures offset + len == TupleEnd(data, offset).value
    ensures offset + len <= |data|
  {
    len := TupleFixedLen;
    var cursor := offset + TupleFixedLen;
    var i := 0;
    while i < 3
      invariant 0 <= i <= 3 && cursor == offset + len
      invariant TupleEnd(data, offset) == StringsEnd(data, cursor, 3 - i)
    {
      StringStep(data, cursor, 3 - i);
      len := len + data[cursor] + 1;
      cursor := cursor + data[cursor] + 1;
      i := i + 1;
    }
  }

  /** `NBP_PACKET_TUPLES`: two bytes into the DDP body. */
  function FirstTupleOffset(kind: HeaderKind): nat {
    HeaderLen(kind) + NbpHeaderLen
  }

  /** `nbp_get_first_tuple`. */
  method NbpGetFirstTuple(b: Buffer) returns (r: Option<nat>)
    ensures r == TupleAt(b.ddpReady, b.DdpData(), FirstTupleOffset(b.kind))
  {
    r := NbpTupleAt(b, FirstTupleOffset(b.kind));
  }

  /** `nbp_get_next_tuple`: the tuple starting right where `prev` ends. */
  method NbpGetNextTuple(b: Buffer, prev: nat) returns (r: Option<nat>)
    requires TupleAt(b.ddpReady, b.DdpData(), prev) == Some(prev)
    ensures r == TupleAt(b.ddpReady, b.DdpData(), TupleEnd(b.DdpData(), prev).value)
  {
    var len := NbpTupleLength(b.DdpData(), prev);
    r := NbpTupleAt(b, prev + len);
  }

  // ---------------------------------------------------------------------------
  // The three strings of an accepted tuple

  /** `nbp_tuple_get_object`, `nbp_tuple_get_type` and `nbp_tuple_get_zone`: where each string starts. */
  function ObjectAt(offset: nat): nat {
    offset + TupleFixedLen
  }

  function TypeAt(data: seq<byte>, offset: nat): nat
    requires ObjectAt(offset) < |data|
  {
    ObjectAt(offset) + data[ObjectAt(offset)] + 1
  }

  function ZoneAt(data: seq<byte>, offset: nat): nat
    requires ObjectAt(offset) < |data| && TypeAt(data, offset) < |data|
  {
    TypeAt(data, offset) + data[TypeAt(data, offset)] + 1
  }

  /** An accepted tuple is exactly its fixed part followed by its object, type and zone strings. */
  lemma AcceptedTupleLayout(data: seq<byte>, offset: nat)
    requires TupleEnd(data, offset).Some?
    ensures ObjectAt(offset) < |data| && ObjectAt(offset) + 1 + data[ObjectAt(offset)] <= |data|
    ensures TypeAt(data, offset) < |data| && TypeAt(data, offset) + 1 + data[TypeAt(data, offset)] <= |data|
    ensures ZoneAt(data, offset) < |data| && ZoneAt(data, offset) + 1 + data[ZoneAt(data, offset)] <= |data|
    ensures var o, t, z := PStringAt(data, ObjectAt(offset)), PStringAt(data, TypeAt(data, offset)), PStringAt(data, ZoneAt(data, offset));
      TupleEnd(data, offset).value == offset + TupleFixedLen + |o| + |t| + |z| + 3 &&
      data[offset..TupleEnd(data, offset).value] == data[offset..offset + TupleFixedLen] + PStringBytes(o) + PStringBytes(t) + PStringBytes(z)
  {
    var c0 := ObjectAt(offset);
    StringFits(data, c0, 3);
    var c1 := c0 + 1 + data[c0];
    assert c1 == TypeAt(data, offset);
    StringFits(data, c1, 2);
    var c2 := c1 + 1 + data[c1];
    assert c2 == ZoneAt(data, offset);
    StringFits(data, c2, 1);
    var e := c2 + 1 + data[c2];
    assert TupleEnd(data, offset) == StringsEnd(data, e, 0) == Some(e);
    var o, t, z := PStringAt(data, c0), PStringAt(data, c1), PStringAt(data, c2);
    assert data[c0..c1] == PStringBytes(o) && data[c1..c2] == PStringBytes(t) && data[c2..e] == PStringBytes(z);
    SplitFour(data, offset, c0, c1, c2, e);
  }

  /** A run of `n` strings that fits starts with one string that fits, and the rest fit after it. */
  lemma StringFits(data: seq<byte>, cursor: nat, n: nat)
    requires n > 0 && StringsEnd(data, cursor, n).Some?
    ensures cursor + 1 <= |data| && cursor + 1 + data[cursor] <= |data|
    ensures StringsEnd(data, cursor, n) == StringsEnd(data, cursor + 1 + data[cursor], n - 1)
  {
  }

  /** A slice cut at three inner points. */
  lemma SplitFour(data: seq<byte>, a: nat, b: nat, c: nat, d: nat, e: nat)
    requires a <= b <= c <= d <= e <= |data|
    ensures data[a..e] == data[a..b] + data[b..c] + data[c..d] + data[d..e]
  {
    assert data[a..e] == data[a..b] + data[b..e];
    assert data[b..e] == data[b..c] + data[c..e];
    assert data[c..e] == data[c..d] + data[d..e];
  }

  /** The wire form of a tuple. */
  function TupleBytes(network: u16, node: byte, socket: byte, enumerator: byte, obj: pstring, nbpType: pstring, zone: pstring): (t: seq<byte>)
    ensures |t| == TupleFixedLen + |obj| + |nbpType| + |zone| + 3
  {
    Be16Bytes(network) + [node, socket, enumerator] + PStringBytes(obj) + PStringBytes(nbpType) + PStringBytes(zone)
  }

  /** A tuple written anywhere in a ready packet is accepted, and its strings read back as written. */
  lemma TupleRoundTrip(before: seq<byte>, network: u16, node: byte, socket: byte, enumerator: byte,
                       obj: pstring, nbpType: pstring, zone: pstring, after: seq<byte>)
    ensures var t := TupleBytes(network, node, socket, enumerator, obj, nbpType, zone);
      var data := before + t + after;
      var offset := |before|;
      TupleAt(true, data, offset) == Some(offset) &&
      TupleEnd(data, offset) == Some(offset + |t|) &&
      PStringAt(data, ObjectAt(offset)) == obj &&
      PStringAt(data, TypeAt(data, offset)) == nbpType &&
      PStringAt(data, ZoneAt(data, offset)) == zone
  {
    var fixed := Be16Bytes(network) + [node, socket, enumerator];
    var t := TupleBytes(network, node, socket, enumerator, obj, nbpType, zone);
    Regroup(before, fixed, PStringBytes(obj), PStringBytes(nbpType), PStringBytes(zone), after);
    ThreeStringsReadBack(before + fixed, obj, nbpType, zone, after);
  }

  lemma Regroup(before: seq<byte>, fixed: seq<byte>, o: seq<byte>, t: seq<byte>, z: seq<byte>, after: seq<byte>)
    ensures before + (fixed + o + t + z) + after == (before + fixed) + o + t + z + after
  {
  }

  /** Three Pascal strings written after `prefix` are where the walk over them ends, and read back in order. */
  lemma ThreeStringsReadBack(prefix: seq<byte>, obj: pstring, nbpType: pstring, zone: pstring, after: seq<byte>)
    ensures var data := prefix + PStringBytes(obj) + PStringBytes(nbpType) + PStringBytes(zone) + after;
      var c0 := |prefix|;
      var c1 := c0 + 1 + |obj|;
      var c2 := c1 + 1 + |nbpType|;
      c2 + 1 + |zone| <= |data| &&
      StringsEnd(data, c0, 3) == Some(c2 + 1 + |zone|) &&
      data[c0] == |obj| && PStringAt(data, c0) == obj &&
      data[c1] == |nbpType| && PStringAt(data, c1) == nbpType &&
      data[c2] == |zone| && PStringAt(data, c2) == zone
  {
    var po, pt, pz := PStringBytes(obj), PStringBytes(nbpType), PStringBytes(zone);
    var data := prefix + po + pt + pz + after;
    var c0 := |prefix|;
    var c1 := c0 + 1 + |obj|;
    var c2 := c1 + 1 + |nbpType|;
    var e := c2 + 1 + |zone|;
    Regroup3(prefix, po, pt, pz, after);
    Middle(prefix, po, pt + pz + after);
    Middle(prefix + po, pt, pz + after);
    Middle(prefix + po + pt, pz, after);
    StringThere(data, c0, obj, 2);
    StringThere(data, c1, nbpType, 1);
    StringThere(data, c2, zone, 0);
    assert StringsEnd(data, e, 0) == Some(e);
  }

  lemma Regroup3(prefix: seq<byte>, o: seq<byte>, t: seq<byte>, z: seq<byte>, after: seq<byte>)
    ensures var data := prefix + o + t + z + after;
      data == prefix + o + (t + z + after) && data == (prefix + o) + t + (z + after) && data == (prefix + o + t) + z + after
  {
  }

  /** A Pascal string whose bytes sit at `o` reads back there, and the walk steps over it. */
  lemma StringThere(data: seq<byte>, o: nat, s: pstring, n: nat)
    requires o + 1 + |s| <= |data| && data[o..o + 1 + |s|] == PStringBytes(s)
    ensures data[o] == |s| && PStringAt(data, o) == s
    ensures StringsEnd(data, o, n + 1) == StringsEnd(data, o + 1 + |s|, n)
  {
    assert data[o] == data[o..o + 1 + |s|][0];
    assert PStringAt(data, o) == data[o..o + 1 + |s|][1..];
  }

  /** Data that ends before the fixed part, or one byte short of a string, holds no tuple. */
  lemma TruncatedTupleRefused(data: seq<byte>, offset: nat)
    requires TupleEnd(data, offset).Some?
    ensures TupleAt(true, data[..TupleEnd(data, offset).value - 1], offset) == None
  {
    var e := TupleEnd(data, offset).value;
    TruncationKeepsPrefixEnds(data, e - 1, offset + TupleFixedLen, 3);
  }

  /** Cutting the data never makes strings end earlier: they either end where they did, or not at all. */
  lemma {:induction false} TruncationKeepsPrefixEnds(data: seq<byte>, cut: nat, cursor: nat, n: nat)
    requires cut <= |data| && StringsEnd(data, cursor, n).Some?
    ensures var e := StringsEnd(data[..cut], cursor, n);
      e == (if StringsEnd(data, cursor, n).value <= cut then StringsEnd(data, cursor, n) else None)
    decreases n
  {
    if n > 0 && cursor + 1 <= cut && cursor + 1 + data[cursor] <= cut {
      TruncationKeepsPrefixEnds(data, cut, cursor + 1 + data[cursor], n - 1);
    }
  }

  /** A buffer that is not DDP-ready yields no tuple. */
  lemma NotReadyNoTuple(data: seq<byte>, offset: nat)
    ensures TupleAt(false, data, offset) == None
  {
  }

  /** An offset past the end of the data holds no tuple, whatever the unsigned comparison lets through. */
  lemma PastTheEndNoTuple(ready: bool, data: seq<byte>, offset: nat)
    requires offset > |data|
    ensures TupleAt(ready, data, offset) == None
  {
  }
}
