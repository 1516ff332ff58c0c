/**
 * Sending a datagram: `ddp_send_via` fills in the DDP header from its arguments and the outbound
 * LAP's own address and hands the packet to that LAP; `ddp_send` first looks the destination
 * network up in the routing table and sends via the route's LAP, towards its next hop.
 */
module DdpSend {
  import opened Bytes
  import opened Laps
  import opened Buffers
  import opened Ddp
  import opened Routes
  import opened RouteTable
  import opened Outbox

  /** The header `ddp_send_via` leaves: every addressing field replaced, the hop count kept. */
  function FilledHeader(f: Fields, ddpLength: nat, srcSocket: byte, destNet: u16, destNode: byte, destSocket: byte,
                        ddpType: byte, srcNet: u16, srcNode: byte): Fields
  {
    f.(length := ddpLength % 1024, checksum := 0, dstNet := destNet, srcNet := srcNet,
       dst := destNode, src := srcNode, dstSock := destSocket, srcSock := srcSocket, ddpType := ddpType)
  }

  /** The header bytes after the nine setters `ddp_send_via` calls, in its order: length and checksum, */
  function Sized(h: seq<byte>, len: u16): (r: seq<byte>)
    requires |h| == HeaderLen(LongHeader)
    ensures |r| == |h|
  {
    WithoutChecksum(LongHeader, WithLength(LongHeader, h, len))
  }

  /** then the two networks, */
  function Networked(h: seq<byte>, destNet: u16, srcNet: u16): (r: seq<byte>)
    requires |h| == HeaderLen(LongHeader)
    ensures |r| == |h|
  {
    Put16(Put16(h, DstNetAt, destNet), SrcNetAt, srcNet)
  }

  /** then the nodes, the sockets and the type. */
  function Addressed(h: seq<byte>, destNode: byte, srcNode: byte, destSocket: byte, srcSocket: byte, ddpType: byte): (r: seq<byte>)
    requires |h| == HeaderLen(LongHeader)
    ensures |r| == |h|
  {
    h[DstAt(LongHeader) := destNode][SrcAt(LongHeader) := srcNode][DstSockAt(LongHeader) := destSocket]
      [SrcSockAt(LongHeader) := srcSocket][TypeAt(LongHeader) := ddpType]
  }

  function FilledBytes(h: seq<byte>, len: u16, srcSocket: byte, destNet: u16, destNode: byte, destSocket: byte,
                       ddpType: byte, srcNet: u16, srcNode: byte): (r: seq<byte>)
    requires |h| == HeaderLen(LongHeader)
    ensures |r| == |h|
  {
    Addressed(Networked(Sized(h, len), destNet, srcNet), destNode, srcNode, destSocket, srcSocket, ddpType)
  }

  /** The setters compose: each field ends up as set, and the hop count survives. */
  lemma FilledBytesDecode(h: seq<byte>, len: u16, srcSocket: byte, destNet: u16, destNode: byte, destSocket: byte,
                          ddpType: byte, srcNet: u16, srcNode: byte)
    requires |h| == HeaderLen(LongHeader)
    ensures Decode(LongHeader, FilledBytes(h, len, srcSocket, destNet, destNode, destSocket, ddpType, srcNet, srcNode)) ==
            FilledHeader(Decode(LongHeader, h), len, srcSocket, destNet, destNode, destSocket, ddpType, srcNet, srcNode)
  {
    var k := LongHeader;
    var h0 := WithLength(k, h, len);
    SetLengthField(k, h, len);
    ClearChecksumField(k, h0);
    var h1 := Sized(h, len);
    SetNetworkFields(h1, destNet, srcNet);
    var h2 := Put16(h1, DstNetAt, destNet);
    SetNetworkFields(h2, destNet, srcNet);
    var h3 := Networked(h1, destNet, srcNet);
    AddressedDecode(h3, destNode, srcNode, destSocket, srcSocket, ddpType);
  }

  lemma AddressedDecode(h: seq<byte>, destNode: byte, srcNode: byte, destSocket: byte, srcSocket: byte, ddpType: byte)
    requires |h| == HeaderLen(LongHeader)
    ensures Decode(LongHeader, Addressed(h, destNode, srcNode, destSocket, srcSocket, ddpType)) ==
            Decode(LongHeader, h).(dst := destNode, src := srcNode, dstSock := destSocket, srcSock := srcSocket, ddpType := ddpType)
  {
    var k := LongHeader;
    var h4 := h[DstAt(k) := destNode];
    SetDstField(k, h, destNode);
    var h5 := h4[SrcAt(k) := srcNode];
    SetSrcField(k, h4, srcNode);
    var h6 := h5[DstSockAt(k) := destSocket];
    SetSocketFields(k, h5, destSocket, srcSocket);
    var h7 := h6[SrcSockAt(k) := srcSocket];
    SetSocketFields(k, h6, destSocket, srcSocket);
    SetTypeField(k, h7, ddpType);
  }

  /** The header-filling part of `ddp_send_via`: its nine setter calls, in its order. */
  method FillHeader(packet: Buffer, srcSocket: byte, destNet: u16, destNode: byte, destSocket: byte, ddpType: byte,
                    srcNet: u16, srcNode: byte)
    requires packet.Valid() && packet.kind == LongHeader
    modifies packet
    ensures packet.Valid() && packet.OnlyHeaderChanged()
    ensures Header(packet) == FilledHeader(old(Header(packet)), |old(packet.DdpData())| % 0x1_0000, srcSocket, destNet, destNode, destSocket, ddpType, srcNet, srcNode)
  {
    var h := packet.header;
    var len: u16 := |packet.DdpData()| % 0x1_0000;
    SetDatagramLength(packet, len);
    ClearChecksum(packet);
    assert packet.header == Sized(h, len);
    SetDstNet(packet, destNet);
    SetSrcNet(packet, srcNet);
    assert packet.header == Networked(Sized(h, len), destNet, srcNet);
    SetDst(packet, destNode);
    SetSrc(packet, srcNode);
    SetDstSock(packet, destSocket);
    SetSrcSock(packet, srcSocket);
    SetDdpType(packet, ddpType);
    assert packet.header == FilledBytes(h, len, srcSocket, destNet, destNode, destSocket, ddpType, srcNet, srcNode);
    FilledBytesDecode(h, len, srcSocket, destNet, destNode, destSocket, ddpType, srcNet, srcNode);
  }

  /**
   * `ddp_send_via`. The datagram length is `ddp_length`, the header and payload, passed as 16 bits;
   * the source address is the outbound LAP's own; the network setters assert a long header. The
   * result is what `lsend` answers.
   */
  method SendVia(packet: Buffer, srcSocket: byte, destNet: u16, destNode: byte, destSocket: byte, ddpType: byte,
                 via: Lap, out: Outbox) returns (ok: bool)
    requires packet.Valid() && packet.kind == LongHeader
    modifies packet, out
    ensures packet.Valid() && packet.OnlyHeaderChanged()
    ensures Header(packet) == FilledHeader(old(Header(packet)), |old(packet.DdpData())| % 0x1_0000, srcSocket, destNet, destNode, destSocket, ddpType, via.myNetwork, via.myAddress)
    ensures ok == out.lapAccepts
    ensures out.sent == old(out.sent) + if out.lapAccepts then [LapSend(via, packet.Snapshot(), packet.viaNet, packet.viaNode)] else []
  {
    FillHeader(packet, srcSocket, destNet, destNode, destSocket, ddpType, via.myNetwork, via.myAddress);
    ok := out.LSend(via, packet);
  }

  /**
   * `ddp_send`. With no route covering the destination network nothing is touched and the answer is
   * false; otherwise the next hop goes into the send chain and the packet leaves through the route's
   * LAP. The table keeps a LAP on every route it hands out.
   */
  method Send(packet: Buffer, srcSocket: byte, destNet: u16, destNode: byte, destSocket: byte, ddpType: byte,
              table: RoutingTable, out: Outbox) returns (ok: bool)
    requires packet.Valid() && packet.kind == LongHeader && table.Valid()
    requires FirstCovering(table.Entries(), destNet).Some? ==> FirstCovering(table.Entries(), destNet).value.outboundLap != null
    modifies packet, out
    ensures packet.Valid()
    ensures match old(FirstCovering(table.Entries(), destNet))
      case None =>
        !ok && packet.Snapshot() == old(packet.Snapshot()) && unchanged(packet) && out.sent == old(out.sent)
      case Some(route) =>
        packet.viaNet == route.nexthop.network && packet.viaNode == route.nexthop.node &&
        packet.payload == old(packet.payload) && packet.recvLap == old(packet.recvLap) &&
        Header(packet) == FilledHeader(old(Header(packet)), |old(packet.DdpData())| % 0x1_0000, srcSocket, destNet, destNode, destSocket, ddpType, route.outboundLap.myNetwork, route.outboundLap.myAddress) &&
        ok == out.lapAccepts &&
        out.sent == old(out.sent) + if out.lapAccepts then [LapSend(route.outboundLap, packet.Snapshot(), route.nexthop.network, route.nexthop.node)] else []
  {
    var found := table.Lookup(destNet);
    if found.None? {
      return false;
    }
    var route := found.value;
    packet.viaNet := route.nexthop.network;
    packet.viaNode := route.nexthop.node;
    ok := SendVia(packet, srcSocket, destNet, destNode, destSocket, ddpType, route.outboundLap, out);
  }

  /**
   * The partner of `SendVia`: a router whose LAP has the destination node address, on a network
   * range covering the destination network, takes the datagram as its own.
   */
  lemma SentDatagramIsMineAtDestination(f: Fields, ddpLength: nat, srcSocket: byte, destNet: u16, destNode: byte,
                                        destSocket: byte, ddpType: byte, srcNet: u16, srcNode: byte,
                                        myNetwork: u16, rangeStart: u16, rangeEnd: u16)
    requires rangeStart <= destNet <= rangeEnd
    ensures PacketIsMine(LongHeader, FilledHeader(f, ddpLength, srcSocket, destNet, destNode, destSocket, ddpType, srcNet, srcNode),
                         destNode, myNetwork, rangeStart, rangeEnd)
  {
  }

  /** And a broadcast on network 0 is taken by every router. */
  lemma SentBroadcastIsMineEverywhere(f: Fields, ddpLength: nat, srcSocket: byte, destSocket: byte, ddpType: byte,
                                      srcNet: u16, srcNode: byte, myAddress: byte, myNetwork: u16, rangeStart: u16, rangeEnd: u16)
    ensures PacketIsMine(LongHeader, FilledHeader(f, ddpLength, srcSocket, 0, AddrBroadcast, destSocket, ddpType, srcNet, srcNode),
                         myAddress, myNetwork, rangeStart, rangeEnd)
  {
  }
}
