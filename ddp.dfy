/**
 * The Datagram Delivery Protocol header, as laid out in a buffer: field readers, the setters that
 * rewrite one field in place, the payload cap and the rule for accepting a packet addressed to a LAP.
 *
 * Short header: dst, src, LLAP type, datagram length (2), dst socket, src socket, DDP type.
 * Long header: hop count and datagram length (2), checksum (2), dst network (2), src network (2),
 * dst, src, dst socket, src socket, DDP type.
 */
module Ddp {
  import opened Bytes
  import opened Laps
  import opened Buffers

  const AddrBroadcast: byte := 0xFF
  /** The largest DDP payload (Inside AppleTalk, second edition, pages 4-15 and 4-16). */
  const MaxPayload: nat := 586
  const SocketRtmp: byte := 1
  const SocketZip: byte := 6
  const TypeAtp: byte := 3
  const TypeZip: byte := 6

  // ---------------------------------------------------------------------------
  // Field positions

  function DstAt(kind: HeaderKind): nat { if kind == ShortHeader then 0 else 8 }
  function SrcAt(kind: HeaderKind): nat { if kind == ShortHeader then 1 else 9 }
  function DstSockAt(kind: HeaderKind): nat { if kind == ShortHeader then 5 else 10 }
  function SrcSockAt(kind: HeaderKind): nat { if kind == ShortHeader then 6 else 11 }
  function TypeAt(kind: HeaderKind): nat { if kind == ShortHeader then 7 else 12 }
  function LengthAt(kind: HeaderKind): nat { if kind == ShortHeader then 3 else 0 }
  const ChecksumAt: nat := 2
  const DstNetAt: nat := 4
  const SrcNetAt: nat := 6

  function Get16(h: seq<byte>, i: nat): u16
    requires i + 1 < |h|
  {
    Be16(h[i], h[i + 1])
  }

  /** A 16-bit field stored in network order. */
  function Put16(h: seq<byte>, i: nat, n: u16): (r: seq<byte>)
    requires i + 1 < |h|
    ensures |r| == |h| && Get16(r, i) == n
    ensures forall k :: 0 <= k < |h| && k != i && k != i + 1 ==> r[k] == h[k]
  {
    h[i := n / 256][i + 1 := n % 256]
  }

  // ---------------------------------------------------------------------------
  // The header as fields

  /** What the `DDP_*` macros read. A short header has no networks, hop count or checksum. */
  datatype Fields = Fields(dst: byte, src: byte, dstNet: u16, srcNet: u16, dstSock: byte, srcSock: byte,
                           ddpType: byte, length: nat, hops: nat, checksum: u16)

  function Decode(kind: HeaderKind, h: seq<byte>): Fields
    requires |h| == HeaderLen(kind)
  {
    var short := kind == ShortHeader;
    Fields(h[DstAt(kind)], h[SrcAt(kind)],
           if short then 0 else Get16(h, DstNetAt), if short then 0 else Get16(h, SrcNetAt),
           h[DstSockAt(kind)], h[SrcSockAt(kind)], h[TypeAt(kind)],
           Get16(h, LengthAt(kind)) % 1024,
           if short then 0 else Get16(h, 0) / 1024,
           if short then 0 else Get16(h, ChecksumAt))
  }

  /** `ddp_set_datagram_length`: the low 10 bits of the length; a long header keeps its 6 hop-count bits. */
  function WithLength(kind: HeaderKind, h: seq<byte>, length: u16): (r: seq<byte>)
    requires |h| == HeaderLen(kind)
    ensures |r| == |h|
  {
    if kind == ShortHeader then Put16(h, 3, length % 1024)
    else Put16(h, 0, (Get16(h, 0) / 1024) * 1024 + length % 1024)
  }

  /** `ddp_clear_checksum`: only a long header has one. */
  function WithoutChecksum(kind: HeaderKind, h: seq<byte>): (r: seq<byte>)
    requires |h| == HeaderLen(kind)
    ensures |r| == |h|
  {
    if kind == LongHeader then Put16(h, ChecksumAt, 0) else h
  }

  lemma SetDstField(kind: HeaderKind, h: seq<byte>, v: byte)
    requires |h| == HeaderLen(kind)
    ensures Decode(kind, h[DstAt(kind) := v]) == Decode(kind, h).(dst := v)
  {
  }

  lemma SetSrcField(kind: HeaderKind, h: seq<byte>, v: byte)
    requires |h| == HeaderLen(kind)
    ensures Decode(kind, h[SrcAt(kind) := v]) == Decode(kind, h).(src := v)
  {
  }

  lemma SetSocketFields(kind: HeaderKind, h: seq<byte>, d: byte, s: byte)
    requires |h| == HeaderLen(kind)
    ensures Decode(kind, h[DstSockAt(kind) := d]) == Decode(kind, h).(dstSock := d)
    ensures Decode(kind, h[SrcSockAt(kind) := s]) == Decode(kind, h).(srcSock := s)
  {
  }

  lemma SetTypeField(kind: HeaderKind, h: seq<byte>, v: byte)
    requires |h| == HeaderLen(kind)
    ensures Decode(kind, h[TypeAt(kind) := v]) == Decode(kind, h).(ddpType := v)
  {
  }

  /** The network setters need a long header; each rewrites one network and nothing else. */
  lemma SetNetworkFields(h: seq<byte>, d: u16, s: u16)
    requires |h| == HeaderLen(LongHeader)
    ensures Decode(LongHeader, Put16(h, DstNetAt, d)) == Decode(LongHeader, h).(dstNet := d)
    ensures Decode(LongHeader, Put16(h, SrcNetAt, s)) == Decode(LongHeader, h).(srcNet := s)
  {
  }

  /** The length read back is the length masked to 10 bits; the hop count survives. */
  lemma SetLengthField(kind: HeaderKind, h: seq<byte>, length: u16)
    requires |h| == HeaderLen(kind)
    ensures Decode(kind, WithLength(kind, h, length)) == Decode(kind, h).(length := length % 1024)
  {
    if kind == LongHeader {
      SetLongLength(h, length);
    } else {
      SetShortLength(h, length);
    }
  }

  /** A long header: the two bytes at 0 hold the hop count above the 10-bit length. */
  lemma SetLongLength(h: seq<byte>, length: u16)
    requires |h| == HeaderLen(LongHeader)
    ensures Decode(LongHeader, WithLength(LongHeader, h, length)) == Decode(LongHeader, h).(length := length % 1024)
  {
    var r := WithLength(LongHeader, h, length);
    var top := Get16(h, 0) / 1024;
    var n := top * 1024 + length % 1024;
    assert Get16(r, 0) == n;
    assert n % 1024 == length % 1024 && n / 1024 == top by {
      DivMod1024(top, length % 1024);
    }
    assert r[2..] == h[2..];
    assert Get16(r, ChecksumAt) == Get16(h, ChecksumAt);
    assert Get16(r, DstNetAt) == Get16(h, DstNetAt);
    assert Get16(r, SrcNetAt) == Get16(h, SrcNetAt);
  }

  lemma SetShortLength(h: seq<byte>, length: u16)
    requires |h| == HeaderLen(ShortHeader)
    ensures Decode(ShortHeader, WithLength(ShortHeader, h, length)) == Decode(ShortHeader, h).(length := length % 1024)
  {
    var r := WithLength(ShortHeader, h, length);
    assert Get16(r, 3) == length % 1024;
    assert r[0] == h[0] && r[1] == h[1] && r[5] == h[5] && r[6] == h[6] && r[7] == h[7];
  }

  lemma DivMod1024(q: nat, r: nat)
    requires r < 1024
    ensures (q * 1024 + r) % 1024 == r && (q * 1024 + r) / 1024 == q
  {
  }

  lemma ClearChecksumField(kind: HeaderKind, h: seq<byte>)
    requires |h| == HeaderLen(kind)
    ensures Decode(kind, WithoutChecksum(kind, h)) == Decode(kind, h).(checksum := 0)
  {
  }

  // ---------------------------------------------------------------------------
  // Readers and setters on a buffer

  function Header(b: Buffer): Fields
    reads b
    requires b.Valid()
  {
    Decode(b.kind, b.header)
  }

  /** `ddp_set_dst`. */
  method SetDst(b: Buffer, v: byte)
    requires b.Valid()
    modifies b
    ensures b.Valid() && b.OnlyHeaderChanged() && b.header == old(b.header)[DstAt(b.kind) := v]
  {
    b.header := b.header[DstAt(b.kind) := v];
  }

  /** `ddp_set_src`. */
  method SetSrc(b: Buffer, v: byte)
    requires b.Valid()
    modifies b
    ensures b.Valid() && b.OnlyHeaderChanged() && b.header == old(b.header)[SrcAt(b.kind) := v]
  {
    b.header := b.header[SrcAt(b.kind) := v];
  }

  /** `ddp_set_dstnet`: asserts a long header. */
  method SetDstNet(b: Buffer, n: u16)
    requires b.Valid() && b.kind == LongHeader
    modifies b
    ensures b.Valid() && b.OnlyHeaderChanged() && b.header == Put16(old(b.header), DstNetAt, n)
  {
    b.header := Put16(b.header, DstNetAt, n);
  }

  /** `ddp_set_srcnet`: asserts a long header. */
  method SetSrcNet(b: Buffer, n: u16)
    requires b.Valid() && b.kind == LongHeader
    modifies b
    ensures b.Valid() && b.OnlyHeaderChanged() && b.header == Put16(old(b.header), SrcNetAt, n)
  {
    b.header := Put16(b.header, SrcNetAt, n);
  }

  /** `ddp_set_dstsock`. */
  method SetDstSock(b: Buffer, v: byte)
    requires b.Valid()
    modifies b
    ensures b.Valid() && b.OnlyHeaderChanged() && b.header == old(b.header)[DstSockAt(b.kind) := v]
  {
    b.header := b.header[DstSockAt(b.kind) := v];
  }

  /** `ddp_set_srcsock`. */
  method SetSrcSock(b: Buffer, v: byte)
    requires b.Valid()
    modifies b
    ensures b.Valid() && b.OnlyHeaderChanged() && b.header == old(b.header)[SrcSockAt(b.kind) := v]
  {
    b.header := b.header[SrcSockAt(b.kind) := v];
  }

  /** `ddp_set_ddptype`. */
  method SetDdpType(b: Buffer, v: byte)
    requires b.Valid()
    modifies b
    ensures b.Valid() && b.OnlyHeaderChanged() && b.header == old(b.header)[TypeAt(b.kind) := v]
  {
    b.header := b.header[TypeAt(b.kind) := v];
  }

  /** `ddp_clear_checksum`. */
  method ClearChecksum(b: Buffer)
    requires b.Valid()
    modifies b
    ensures b.Valid() && b.OnlyHeaderChanged() && b.header == WithoutChecksum(b.kind, old(b.header))
  {
    b.header := WithoutChecksum(b.kind, b.header);
  }

  /** `ddp_set_datagram_length`. */
  method SetDatagramLength(b: Buffer, length: u16)
    requires b.Valid()
    modifies b
    ensures b.Valid() && b.OnlyHeaderChanged() && b.header == WithLength(b.kind, old(b.header), length)
  {
    if b.kind == ShortHeader {
      b.header := Put16(b.header, 3, length % 1024);
    } else {
      var hopCountAndLength := Get16(b.header, 0);
      var upperBits := (hopCountAndLength / 1024) * 1024;
      b.header := Put16(b.header, 0, upperBits + length % 1024);
    }
  }

  /**
   * `ddp_append_all`: refused, with nothing written, unless the buffer is DDP-ready, the payload
   * stays within 586 bytes and the buffer has room.
   */
  method AppendAll(b: Buffer, data: seq<byte>) returns (ok: bool)
    requires b.Valid()
    modifies b
    ensures b.Valid() && b.OnlyPayloadChanged()
    ensures ok <==> old(b.ddpReady) && |old(b.payload)| + |data| <= MaxPayload && |old(b.payload)| + |data| <= b.payloadCapacity
    ensures b.payload == if ok then old(b.payload) + data else old(b.payload)
  {
    if !b.ddpReady {
      return false;
    }
    if |b.payload| + |data| > MaxPayload {
      return false;
    }
    ok := b.AppendAll(data);
  }

  /** The append test: a roomy buffer takes exactly 586 payload bytes, then refuses one more. */
  method AppendLimitScenario() returns (full: bool, more: bool, again: bool, first: byte)
    ensures full && !more && again && first == 'a' as byte
  {
    var b := new Buffer(true, LongHeader, 4096);
    full := AppendAll(b, seq(MaxPayload, _ => 0));
    more := AppendAll(b, [0]);
    var c := new Buffer(true, LongHeader, 4096);
    again := AppendAll(c, ['a' as byte]);
    first := c.payload[0];
  }

  // ---------------------------------------------------------------------------
  // Is a packet for us?

  /** `ddp_packet_is_mine`, rule by rule in the order they are tried. */
  function PacketIsMine(kind: HeaderKind, f: Fields, myAddress: byte, myNetwork: u16, rangeStart: u16, rangeEnd: u16): bool {
    if kind == ShortHeader && f.dst == myAddress then true
    else if kind == LongHeader && f.dst == myAddress && rangeStart <= f.dstNet <= rangeEnd then true
    else if f.dstNet == 0 && f.dst == AddrBroadcast then true
    else if kind == LongHeader && f.dst == AddrBroadcast && f.dstNet >= myNetwork then true
    else if kind == LongHeader && f.dst == myAddress && f.dstNet == 0 then true
    else false
  }

  /** `ddp_packet_is_mine` on a buffer and a LAP. */
  function IsMine(lap: Lap, b: Buffer): bool
    reads lap, b
    requires b.Valid()
  {
    PacketIsMine(b.kind, Header(b), lap.myAddress, lap.myNetwork, lap.rangeStart, lap.rangeEnd)
  }

  /** A short header reads as network 0. */
  lemma ShortHeaderHasNoNetworks(h: seq<byte>)
    requires |h| == HeaderLen(ShortHeader)
    ensures Decode(ShortHeader, h).dstNet == 0 && Decode(ShortHeader, h).srcNet == 0
  {
  }

  /** For a short header: mine exactly when sent to my node or broadcast. */
  lemma ShortHeaderMine(h: seq<byte>, myAddress: byte, myNetwork: u16, rangeStart: u16, rangeEnd: u16)
    requires |h| == HeaderLen(ShortHeader)
    ensures var f := Decode(ShortHeader, h);
      PacketIsMine(ShortHeader, f, myAddress, myNetwork, rangeStart, rangeEnd) <==> f.dst == myAddress || f.dst == AddrBroadcast
  {
  }

  /**
   * For a long header: mine exactly when sent to my node on a network in my range or on
   * network 0, or broadcast on network 0 or on a network at or above mine.
   */
  lemma LongHeaderMine(f: Fields, myAddress: byte, myNetwork: u16, rangeStart: u16, rangeEnd: u16)
    ensures PacketIsMine(LongHeader, f, myAddress, myNetwork, rangeStart, rangeEnd) <==>
      (f.dst == myAddress && (rangeStart <= f.dstNet <= rangeEnd || f.dstNet == 0)) ||
      (f.dst == AddrBroadcast && (f.dstNet == 0 || f.dstNet >= myNetwork))
  {
  }

  /** A packet for another node, not broadcast, is never mine. */
  lemma OthersNotMine(kind: HeaderKind, f: Fields, myAddress: byte, myNetwork: u16, rangeStart: u16, rangeEnd: u16)
    requires f.dst != myAddress && f.dst != AddrBroadcast
    ensures !PacketIsMine(kind, f, myAddress, myNetwork, rangeStart, rangeEnd)
  {
  }
}
