/**
 * Zone Information Protocol packets: walking the zone tuples of a ZIP Reply (a 16-bit network and
 * a zone name Pascal string each) and building a ZIP Query (function 1, a network count, then the
 * networks). Tuple pointers are offsets into the DDP data (header + payload).
 */
module ZipProto {
  import opened Bytes
  import opened Buffers

  /** Network number and the zone name's length byte. */
  const TupleFixedLen: nat := 3
  /** Function and network count, before the tuples or networks. */
  const ZipHeaderLen: nat := 2
  const FunctionQuery: byte := 1

  datatype ZoneTuple = ZoneTuple(network: u16, zone: pstring)

  // ---------------------------------------------------------------------------
  // Reply tuples

  /** `zip_reply_tuple_at`: the tuple, when the buffer is ready and its 3 + name-length bytes remain. */
  function TupleAt(ready: bool, data: seq<byte>, offset: nat): (r: Option<nat>)
    ensures r.Some? ==> r.value == offset && offset + TupleFixedLen <= |data| && offset + TupleFixedLen + data[offset + 2] <= |data|
  {
    if !ready then None
    else
      var remaining := |data| - offset;
      if remaining < TupleFixedLen then None
      else if remaining < TupleFixedLen + data[offset + 2] then None
      else Some(offset)
  }

  /** The zone tuples start after the function byte and the network count. */
  function FirstTupleOffset(kind: HeaderKind): nat {
    HeaderLen(kind) + ZipHeaderLen
  }

  /** `zip_reply_get_first_tuple`. */
  function FirstTuple(ready: bool, data: seq<byte>, kind: HeaderKind): Option<nat> {
    TupleAt(ready, data, FirstTupleOffset(kind))
  }

  /** Where the tuple after an accepted one starts: 3 + name length bytes on. */
  function NextOffset(data: seq<byte>, offset: nat): (n: nat)
    requires offset + TupleFixedLen <= |data|
    ensures n >= offset + TupleFixedLen
  {
    offset + TupleFixedLen + data[offset + 2]
  }

  /** `zip_reply_get_next_tuple`. */
  function NextTuple(ready: bool, data: seq<byte>, prev: nat): Option<nat>
    requires TupleAt(ready, data, prev) == Some(prev)
  {
    TupleAt(ready, data, NextOffset(data, prev))
  }

  /** The tuple an accepted offset holds. */
  function TupleValue(data: seq<byte>, offset: nat): ZoneTuple
    requires offset + TupleFixedLen <= |data| && offset + TupleFixedLen + data[offset + 2] <= |data|
  {
    ZoneTuple(Be16(data[offset], data[offset + 1]), data[offset + 3..offset + 3 + data[offset + 2]])
  }

  /** Every tuple a handler visits from `offset` on; each step moves 3 or more bytes, so the walk ends. */
  function TuplesFrom(data: seq<byte>, offset: nat): seq<ZoneTuple>
    decreases |data| - offset
  {
    match TupleAt(true, data, offset)
    case None => []
    case Some(_) => [TupleValue(data, offset)] + TuplesFrom(data, NextOffset(data, offset))
  }

  /** The wire form of a tuple and of a run of tuples. */
  function TupleBytes(t: ZoneTuple): (r: seq<byte>)
    ensures |r| == TupleFixedLen + |t.zone|
  {
    Be16Bytes(t.network) + PStringBytes(t.zone)
  }

  function EncodeTuples(ts: seq<ZoneTuple>): seq<byte> {
    if ts == [] then [] else TupleBytes(ts[0]) + EncodeTuples(ts[1..])
  }

  /** Walking the tuples written after any prefix gives them back, in order, and nothing more. */
  lemma {:induction false} DecodeEncode(prefix: seq<byte>, ts: seq<ZoneTuple>)
    ensures TuplesFrom(prefix + EncodeTuples(ts), |prefix|) == ts
    decreases |ts|
  {
    if ts == [] {
      assert prefix + EncodeTuples(ts) == prefix;
    } else {
      var t, rest := TupleBytes(ts[0]), EncodeTuples(ts[1..]);
      var data := prefix + EncodeTuples(ts);
      assert data == (prefix + t) + rest;
      TupleReadsBack(prefix, ts[0], rest);
      DecodeEncode(prefix + t, ts[1..]);
    }
  }

  /** One written tuple is accepted where it starts, reads back as itself, and is followed by what follows it. */
  lemma TupleReadsBack(prefix: seq<byte>, t: ZoneTuple, rest: seq<byte>)
    ensures var data := (prefix + TupleBytes(t)) + rest;
      TupleAt(true, data, |prefix|) == Some(|prefix|) &&
      TupleValue(data, |prefix|) == t &&
      NextOffset(data, |prefix|) == |prefix + TupleBytes(t)|
  {
    var data := (prefix + TupleBytes(t)) + rest;
    var o := |prefix|;
    assert data[o..o + 2] == Be16Bytes(t.network);
    assert data[o + 2..o + 3 + |t.zone|] == PStringBytes(t.zone);
    assert data[o + 3..o + 3 + |t.zone|] == t.zone;
  }

  /** A buffer that is not DDP-ready yields no tuple. */
  lemma NotReadyNoTuple(data: seq<byte>, offset: nat)
    ensures TupleAt(false, data, offset) == None
  {
  }

  /** A name that runs past the end of the datagram is refused. */
  lemma TruncatedTupleRefused(data: seq<byte>, offset: nat)
    requires offset + TupleFixedLen <= |data| && |data| < offset + TupleFixedLen + data[offset + 2]
    ensures TupleAt(true, data, offset) == None
  {
  }

  // ---------------------------------------------------------------------------
  // Building a query

  /** The payload resized to `n` bytes: cut, or padded with zero bytes. */
  function Resized(p: seq<byte>, n: nat): (r: seq<byte>)
    ensures |r| == n && forall k :: 0 <= k < n && k < |p| ==> r[k] == p[k]
  {
    if n <= |p| then p[..n] else p + seq(n - |p|, _ => 0)
  }

  /** `zip_qry_setup_packet`: function 1, the count, and room for `count` networks. */
  method QrySetupPacket(b: Buffer, count: byte)
    requires b.Valid() && ZipHeaderLen + 2 * (count as int) <= b.payloadCapacity
    modifies b
    ensures b.Valid() && b.OnlyPayloadChanged()
    ensures b.payload == Resized(old(b.payload), ZipHeaderLen + 2 * (count as int))[0 := FunctionQuery][1 := count]
  {
    b.payload := Resized(b.payload, ZipHeaderLen + 2 * (count as int))[0 := FunctionQuery][1 := count];
  }

  /** A payload laid out as a query: header and every network slot present. */
  predicate IsQuery(p: seq<byte>) {
    |p| >= ZipHeaderLen && |p| >= ZipHeaderLen + 2 * (p[1] as int)
  }

  function NetworkCount(p: seq<byte>): byte
    requires IsQuery(p)
  {
    p[1]
  }

  /** `zip_qry_get_network`: slot `idx`, big-endian. */
  function QryNetwork(p: seq<byte>, idx: nat): u16
    requires IsQuery(p) && idx < NetworkCount(p)
  {
    Be16(p[ZipHeaderLen + 2 * idx], p[ZipHeaderLen + 2 * idx + 1])
  }

  /** `zip_qry_set_network`: refused, with nothing written, for a slot past the count. */
  method QrySetNetwork(b: Buffer, idx: nat, network: u16) returns (ok: bool)
    requires b.Valid() && IsQuery(b.payload)
    modifies b
    ensures b.Valid() && b.OnlyPayloadChanged() && IsQuery(b.payload)
    ensures ok <==> idx < NetworkCount(old(b.payload))
    ensures b.payload == if ok then old(b.payload)[ZipHeaderLen + 2 * idx := network / 256][ZipHeaderLen + 2 * idx + 1 := network % 256]
                         else old(b.payload)
  {
    if idx >= b.payload[1] {
      return false;
    }
    b.payload := b.payload[ZipHeaderLen + 2 * idx := network / 256][ZipHeaderLen + 2 * idx + 1 := network % 256];
    return true;
  }

  /** After setup the payload is a query with the requested count. */
  lemma SetupShape(p: seq<byte>, count: byte)
    ensures var q := Resized(p, ZipHeaderLen + 2 * (count as int))[0 := FunctionQuery][1 := count];
      IsQuery(q) && q[0] == FunctionQuery && NetworkCount(q) == count && |q| == ZipHeaderLen + 2 * (count as int)
  {
  }

  /** A stored network reads back, and every other slot, and the count, are kept. */
  lemma SetNetworkReadBack(p: seq<byte>, idx: nat, network: u16, other: nat)
    requires IsQuery(p) && idx < NetworkCount(p) && other < NetworkCount(p)
    ensures var q := p[ZipHeaderLen + 2 * idx := network / 256][ZipHeaderLen + 2 * idx + 1 := network % 256];
      IsQuery(q) && NetworkCount(q) == NetworkCount(p) &&
      QryNetwork(q, idx) == network && (other != idx ==> QryNetwork(q, other) == QryNetwork(p, other))
  {
  }

  /** The query creation test: two slots, both filled, a third refused, both read back. */
  method QueryCreationScenario() returns (count: byte, ok0: bool, ok1: bool, ok2: bool, net0: u16, net1: u16)
    ensures count == 2 && ok0 && ok1 && !ok2 && net0 == 8 && net1 == 16
  {
    var b := new Buffer(true, LongHeader, 586);
    QrySetupPacket(b, 2);
    SetupShape([], 2);
    count := NetworkCount(b.payload);
    ok0 := QrySetNetwork(b, 0, 8);
    ok1 := QrySetNetwork(b, 1, 16);
    ok2 := QrySetNetwork(b, 2, 32);
    net0 := QryNetwork(b.payload, 0);
    net1 := QryNetwork(b.payload, 1);
  }
}
