/**
 * Routing Table Maintenance Protocol data packets: a 4-byte header (router network, node id
 * length, router node id) followed by routing tuples. A tuple is a 16-bit range start and a byte
 * holding the extended flag (bit 7) and the distance (bits 6-0); an extended tuple adds a 16-bit
 * range end and a version byte. Tuple cursors are offsets into the tuple bytes.
 */
module Rtmp {
  import opened Bytes

  /** `sizeof(rtmp_packet_t)`. */
  const RtmpHeaderLen: nat := 4
  /** `sizeof(rtmp_tuple_t)`: an extended tuple. */
  const ExtendedTupleLen: nat := 6
  const ShortTupleLen: nat := 3
  /** The version byte a dummy tuple carries in its flag position. */
  const DummyFlag: byte := 0x82

  // ---------------------------------------------------------------------------
  // The header

  function RouterNetwork(body: seq<byte>): u16
    requires |body| >= RtmpHeaderLen
  {
    Be16(body[0], body[1])
  }

  function IdLen(body: seq<byte>): byte
    requires |body| >= RtmpHeaderLen
  {
    body[2]
  }

  /** `RTMP_ROUTER_NODE_ID` as written: it reads the `id_len` byte. */
  function RouterNodeIdAsWritten(body: seq<byte>): byte
    requires |body| >= RtmpHeaderLen
  {
    body[2]
  }

  /** The router node id: the byte after the id length. */
  function RouterNodeId(body: seq<byte>): byte
    requires |body| >= RtmpHeaderLen
  {
    body[3]
  }

  /** The header a router with a one-byte (8-bit) node id sends. */
  function RtmpHeader(network: u16, node: byte): (h: seq<byte>)
    ensures |h| == RtmpHeaderLen
  {
    Be16Bytes(network) + [8, node]
  }

  /** The header's fields read back as they were written. */
  lemma HeaderRoundTrip(network: u16, node: byte, tuples: seq<byte>)
    ensures var body := RtmpHeader(network, node) + tuples;
      RouterNetwork(body) == network && IdLen(body) == 8 && RouterNodeId(body) == node
  {
  }

  /** Router 42's header: the macro as written reports node 8. */
  lemma NodeIdAsWrittenReadsIdLength()
    ensures RouterNodeIdAsWritten(RtmpHeader(1, 42)) == 8 != RouterNodeId(RtmpHeader(1, 42))
  {
  }

  /** `RTMP_TUPLES` and `RTMP_TUPLELEN`; the handler has already refused a body shorter than the header. */
  function TupleBytes(body: seq<byte>): seq<byte>
    requires |body| >= RtmpHeaderLen
  {
    body[RtmpHeaderLen..]
  }

  // ---------------------------------------------------------------------------
  // One tuple

  /** The tuple at `o` has its start and flag byte inside the tuple bytes. */
  predicate HasFlag(t: seq<byte>, o: int) {
    0 <= o && o + ShortTupleLen <= |t|
  }

  function Flag(t: seq<byte>, o: int): byte
    requires HasFlag(t, o)
  {
    t[o + 2]
  }

  /** `RTMP_TUPLE_IS_EXTENDED`. */
  predicate IsExtended(t: seq<byte>, o: int)
    requires HasFlag(t, o)
  {
    Flag(t, o) >= 0x80
  }

  /** `RTMP_TUPLE_DISTANCE`. */
  function Distance(t: seq<byte>, o: int): nat
    requires HasFlag(t, o)
  {
    Flag(t, o) % 0x80
  }

  /** `RTMP_TUPLE_RANGE_START`, also `RTMP_TUPLE_NETWORK`. */
  function RangeStart(t: seq<byte>, o: int): u16
    requires HasFlag(t, o)
  {
    Be16(t[o], t[o + 1])
  }

  /** `RTMP_TUPLE_IS_DUMMY`: start 0 and the version byte in the flag position. */
  predicate IsDummy(t: seq<byte>, o: int)
    requires HasFlag(t, o)
  {
    RangeStart(t, o) == 0 && Flag(t, o) == DummyFlag
  }

  /** A tuple the walkers may return: all of its bytes are present. */
  predicate Fits(t: seq<byte>, o: int) {
    HasFlag(t, o) && (IsExtended(t, o) ==> o + ExtendedTupleLen <= |t|)
  }

  /** `RTMP_TUPLE_RANGE_END`. */
  function RangeEnd(t: seq<byte>, o: int): u16
    requires Fits(t, o)
  {
    if IsExtended(t, o) then Be16(t[o + 3], t[o + 4]) else RangeStart(t, o)
  }

  /** How far the walker moves past the tuple at `o`. */
  function Advance(t: seq<byte>, o: int): nat
    requires HasFlag(t, o)
  {
    if IsDummy(t, o) then ShortTupleLen
    else if IsExtended(t, o) then ExtendedTupleLen
    else ShortTupleLen
  }

  /** The flag byte is the extended bit over the distance. */
  lemma FlagLayout(t: seq<byte>, o: int)
    requires HasFlag(t, o)
    ensures Flag(t, o) == (if IsExtended(t, o) then 0x80 else 0) + Distance(t, o) && Distance(t, o) < 0x80
  {
  }

  /** A non-extended tuple covers the single network it starts at. */
  lemma NonExtendedRange(t: seq<byte>, o: int)
    requires Fits(t, o) && !IsExtended(t, o)
    ensures RangeEnd(t, o) == RangeStart(t, o)
  {
  }

  /** Dummy and non-extended tuples take 3 bytes, extended ones 6. */
  lemma TupleSizes(t: seq<byte>, o: int)
    requires HasFlag(t, o)
    ensures Advance(t, o) == (if IsExtended(t, o) && !IsDummy(t, o) then 6 else 3)
  {
  }

  // ---------------------------------------------------------------------------
  // Walking the tuples

  /**
   * `get_next_rtmp_tuple`. The next tuple's flag byte is read before its room is checked, but the
   * answer does not depend on it when fewer than 3 bytes remain, so the model checks room first.
   * The walk calls it on a tuple that fits, or on a leading dummy after only 3 bytes of room; at
   * any other offset the `int` room would be compared as unsigned, which the model does not follow.
   */
  function NextTuple(t: seq<byte>, o: int): (r: Option<int>)
    requires o < 0 || Fits(t, o) || (HasFlag(t, o) && IsDummy(t, o))
    ensures r.Some? ==> Fits(t, r.value) && (r.value == o + 3 || r.value == o + 6)
  {
    if o < 0 then None
    else
      var n := o + Advance(t, o);
      var remaining := |t| - n;
      if remaining < ShortTupleLen then None
      else if IsExtended(t, n) && remaining >= ExtendedTupleLen then Some(n)
      else if !IsExtended(t, n) then Some(n)
      else None
  }

  /**
   * `get_first_rtmp_tuple`. Its last two checks, a non-extended tuple or room for an extended one,
   * are together the tuple fitting.
   */
  function FirstTuple(t: seq<byte>): (r: Option<int>)
    ensures r.Some? ==> Fits(t, r.value) && (r.value == 0 || r.value == 3)
    ensures r == Some(0) <==> |t| >= ShortTupleLen && !IsDummy(t, 0) && Fits(t, 0)
    ensures r == Some(3) ==> IsDummy(t, 0)
  {
    if |t| < ShortTupleLen then None
    else if IsDummy(t, 0) then NextTuple(t, 0)
    else if Fits(t, 0) then Some(0)
    else None
  }

  /** Fewer than 3 tuple bytes: no tuple. */
  lemma NoRoomNoTuple(t: seq<byte>)
    requires |t| < ShortTupleLen
    ensures FirstTuple(t) == None
  {
  }

  /** A leading dummy tuple is never returned: the walk starts right after it. */
  lemma LeadingDummySkipped(t: seq<byte>)
    requires HasFlag(t, 0) && IsDummy(t, 0)
    ensures FirstTuple(t) == None || FirstTuple(t) == Some(3)
  {
  }

  /** A first tuple that is not a dummy is returned exactly when all of its bytes are present. */
  lemma FirstTupleWhenItFits(t: seq<byte>)
    requires HasFlag(t, 0) && !IsDummy(t, 0)
    ensures FirstTuple(t) == Some(0) <==> Fits(t, 0)
  {
  }

  /** The next tuple is returned exactly when its bytes are all present. */
  lemma NextTupleWhenItFits(t: seq<byte>, o: int)
    requires Fits(t, o) || (HasFlag(t, o) && IsDummy(t, o))
    ensures var n := o + Advance(t, o);
      NextTuple(t, o) == (if Fits(t, n) then Some(n) else None)
  {
    var n := o + Advance(t, o);
    if |t| - n >= ShortTupleLen {
      assert HasFlag(t, n);
      if IsExtended(t, n) {
        assert Fits(t, n) <==> |t| - n >= ExtendedTupleLen;
      }
    } else {
      assert !Fits(t, n);
    }
  }

  /** Every tuple from `o` on, following the walker until it returns nothing. */
  function WalkFrom(t: seq<byte>, o: int): (offsets: seq<int>)
    requires Fits(t, o)
    ensures |offsets| >= 1 && offsets[0] == o
    ensures forall k :: 0 <= k < |offsets| ==> Fits(t, offsets[k])
    ensures forall k :: 0 <= k < |offsets| - 1 ==> offsets[k] < offsets[k + 1]
    decreases |t| - o
  {
    match NextTuple(t, o)
    case None => [o]
    case Some(n) => [o] + WalkFrom(t, n)
  }

  /** All the tuples a handler visits: the walk terminates and only visits whole tuples. */
  function AllTuples(t: seq<byte>): (offsets: seq<int>)
    ensures forall k :: 0 <= k < |offsets| ==> Fits(t, offsets[k])
    ensures |t| < ShortTupleLen ==> offsets == []
  {
    match FirstTuple(t)
    case None => []
    case Some(o) => WalkFrom(t, o)
  }

  /** A dummy, an extended tuple and a single network: the walk visits the last two. */
  lemma WalkExample(t: seq<byte>)
    requires t == [0, 0, 0x82, 0, 1, 0x80, 0, 2, 0x7F, 0, 9, 0x03]
    ensures AllTuples(t) == [3, 9]
  {
    assert IsDummy(t, 0) && Advance(t, 0) == 3;
    assert IsExtended(t, 3) && !IsDummy(t, 3) && Advance(t, 3) == 6;
    assert !IsExtended(t, 9) && Advance(t, 9) == 3;
    NextTupleWhenItFits(t, 0);
    NextTupleWhenItFits(t, 3);
    NextTupleWhenItFits(t, 9);
    assert FirstTuple(t) == Some(3);
    assert WalkFrom(t, 9) == [9];
    assert WalkFrom(t, 3) == [3] + [9];
  }
}
