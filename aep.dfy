/**
 * The AppleTalk Echo Protocol responder. An echo request (DDP type 4, first body byte 1) is
 * turned round in place: source and destination are exchanged, the first body byte becomes 2
 * and the packet goes back out through the LAP it came in on.
 */
module Aep {
  import opened Bytes
  import opened Laps
  import opened Buffers
  import opened Ddp
  import opened Outbox

  const TypeAep: byte := 4
  const EchoRequest: byte := 1
  const EchoReply: byte := 2

  /** What `app_aep_handler` answers: DDP type 4, a body of at least one byte, function 1. */
  predicate IsEchoRequest(f: Fields, payload: seq<byte>) {
    f.ddpType == TypeAep && |payload| >= 1 && payload[0] == EchoRequest
  }

  /** The reply's header: nodes and sockets exchanged, and the networks too in a long header. */
  function Swapped(kind: HeaderKind, f: Fields): Fields {
    var g := f.(dst := f.src, src := f.dst, dstSock := f.srcSock, srcSock := f.dstSock);
    if kind == LongHeader then g.(dstNet := f.srcNet, srcNet := f.dstNet) else g
  }

  /** The header bytes the swap may rewrite. */
  function AddressBytes(kind: HeaderKind): set<nat> {
    {DstAt(kind), SrcAt(kind), DstSockAt(kind), SrcSockAt(kind)} +
    if kind == LongHeader then {DstNetAt, DstNetAt + 1, SrcNetAt, SrcNetAt + 1} else {}
  }

  /** Lines 34-51 of the handler: read the six address fields, then write them back crosswise. */
  method SwapAddresses(packet: Buffer)
    requires packet.Valid()
    modifies packet
    ensures packet.Valid() && packet.OnlyHeaderChanged()
    ensures Header(packet) == Swapped(packet.kind, old(Header(packet)))
    ensures forall k :: 0 <= k < |packet.header| && k !in AddressBytes(packet.kind) ==> packet.header[k] == old(packet.header)[k]
  {
    var kind := packet.kind;
    var f := Header(packet);
    var srcAddr, srcNet, srcSock := f.src, f.srcNet, f.srcSock;
    var dstAddr, dstNet, dstSock := f.dst, f.dstNet, f.dstSock;
    ghost var h0 := packet.header;

    SetDst(packet, srcAddr);
    SetDstField(kind, h0, srcAddr);
    ghost var h1 := packet.header;
    SetSrc(packet, dstAddr);
    SetSrcField(kind, h1, dstAddr);
    ghost var h2 := packet.header;
    assert Decode(kind, h2) == f.(dst := srcAddr, src := dstAddr);
    if kind == LongHeader {
      SetDstNet(packet, srcNet);
      SetNetworkFields(h2, srcNet, dstNet);
      ghost var h3 := packet.header;
      SetSrcNet(packet, dstNet);
      SetNetworkFields(h3, srcNet, dstNet);
    } else {
      ShortHeaderHasNoNetworks(h0);
    }
    ghost var h4 := packet.header;
    assert Decode(kind, h4) == Swapped(kind, f).(dstSock := f.dstSock, srcSock := f.srcSock);
    SetDstSock(packet, srcSock);
    SetSocketFields(kind, h4, srcSock, dstSock);
    ghost var h5 := packet.header;
    SetSrcSock(packet, dstSock);
    SetSocketFields(kind, h5, srcSock, dstSock);
  }

  /**
   * `app_aep_handler`. Anything but an echo request is left alone and nothing is sent. A request
   * is turned into its reply before the receiving LAP is checked; without one nothing is sent,
   * and otherwise the reply is what `lsend` gets. Freeing the buffer is not modelled.
   */
  method Handler(packet: Buffer, out: Outbox)
    requires packet.Valid()
    modifies packet, out
    ensures packet.Valid()
    ensures !IsEchoRequest(old(Header(packet)), old(packet.payload)) ==>
      unchanged(packet) && out.sent == old(out.sent)
    ensures IsEchoRequest(old(Header(packet)), old(packet.payload)) ==>
      packet.ddpReady == old(packet.ddpReady) && packet.kind == old(packet.kind) && packet.recvLap == old(packet.recvLap) &&
      packet.viaNet == old(packet.viaNet) && packet.viaNode == old(packet.viaNode) &&
      Header(packet) == Swapped(packet.kind, old(Header(packet))) &&
      (forall k :: 0 <= k < |packet.header| && k !in AddressBytes(packet.kind) ==> packet.header[k] == old(packet.header)[k]) &&
      packet.payload == old(packet.payload)[0 := EchoReply] &&
      out.sent == old(out.sent) +
        if packet.recvLap != null && out.lapAccepts then [LapSend(packet.recvLap, packet.Snapshot(), packet.viaNet, packet.viaNode)] else []
  {
    var f := Header(packet);
    if f.ddpType != TypeAep {
      return;
    }
    if |packet.payload| < 1 {
      return;
    }
    if packet.payload[0] == EchoReply {
      return;
    }
    if packet.payload[0] != EchoRequest {
      return;
    }
    SwapAddresses(packet);
    packet.payload := packet.payload[0 := EchoReply];
    if packet.recvLap == null {
      return;
    }
    var ok := out.LSend(packet.recvLap, packet);
  }

  /** Turning a reply round again gives back the request's header. */
  lemma SwapTwice(kind: HeaderKind, f: Fields)
    requires kind == ShortHeader ==> f.dstNet == f.srcNet
    ensures Swapped(kind, Swapped(kind, f)) == f
  {
  }

  /** The reply comes from the node and socket the request was sent to, on its network. */
  lemma ReplyFromResponder(kind: HeaderKind, f: Fields)
    ensures var r := Swapped(kind, f);
      r.src == f.dst && r.srcSock == f.dstSock && r.dst == f.src && r.dstSock == f.srcSock &&
      r.ddpType == f.ddpType && r.length == f.length && r.hops == f.hops && r.checksum == f.checksum &&
      (kind == LongHeader ==> r.srcNet == f.dstNet && r.dstNet == f.srcNet)
  {
  }

  /** The requester takes the reply as its own: on a LocalTalk segment by node, elsewhere by node and network. */
  lemma ReplyReachesRequester(kind: HeaderKind, f: Fields, myNetwork: u16, rangeStart: u16, rangeEnd: u16)
    requires kind == LongHeader ==> rangeStart <= f.srcNet <= rangeEnd
    ensures PacketIsMine(kind, Swapped(kind, f), f.src, myNetwork, rangeStart, rangeEnd)
  {
  }
}
