/**
 * The System Information Protocol responder, as used by Responder and InterPoll. A SystemInfo
 * request is an ATP request whose fourth user byte is 1; the answer is an ATP TResp carrying a
 * fixed 14-byte description of the machine (its first four bytes in the ATP user-byte slot)
 * followed by four Pascal strings and a zero AFP version.
 */
module Sip {
  import opened Bytes
  import opened Buffers
  import opened Ddp
  import opened Atp
  import opened Outbox

  const SipAck: byte := 0x01
  const SipSystemInfo: byte := 0x01

  const HwFpuPresent: byte := 0x10
  const HwMmuPresent: byte := 0x08
  const Rom85Defaults: byte := 0x3F
  const Rom85Rom128K: byte := 0x00
  const Rom85NoSoftPower: byte := 0x40

  /** The socket the reply is sent from. */
  const ReplySocket: byte := 253

  /**
   * The static `response`: type, padding, Responder 1.1, AppleTalk 1.0, ROM version, system type
   * and class, hardware, ROM85 bits, 0xFF, Responder level and link.
   */
  const Response: seq<byte> := [SipAck, 0, 1, 1, 1, 0, 0x78, 32, 1,
                                HwFpuPresent + HwMmuPresent, Rom85Defaults + Rom85Rom128K + Rom85NoSoftPower,
                                0xFF, 1, 1]

  /** "Omnitalk " followed by the build's version string. */
  function SystemName(version: seq<byte>): seq<byte> {
    ['O' as byte, 'm' as byte, 'n' as byte, 'i' as byte, 't' as byte, 'a' as byte, 'l' as byte, 'k' as byte, ' ' as byte] + version
  }

  const NoFinder: pstring := ['N' as byte, 'o' as byte, ' ' as byte, 'F' as byte, 'i' as byte, 'n' as byte, 'd' as byte, 'e' as byte, 'r' as byte]
  const NoLaserWriter: pstring := ['N' as byte, 'o' as byte, ' ' as byte, 'L' as byte, 'a' as byte, 's' as byte, 'e' as byte, 'r' as byte,
                                   'W' as byte, 'r' as byte, 'i' as byte, 't' as byte, 'e' as byte, 'r' as byte]
  const NoAfp: pstring := ['N' as byte, 'o' as byte, ' ' as byte, 'A' as byte, 'F' as byte, 'P' as byte]

  /** The handler answers only a SystemInfo request: DDP type 3, a whole ATP header, user byte 3 equal to 1. */
  predicate IsSystemInfoRequest(f: Fields, payload: seq<byte>) {
    f.ddpType == TypeAtp && |payload| >= AtpHeaderLen && payload[7] == SipSystemInfo
  }

  /** The reply's payload, as the handler builds it for a request with transaction id `tid`. */
  function ReplyPayload(version: seq<byte>, tid: u16): seq<byte>
    requires |SystemName(version)| <= 255
  {
    [TRespEom, 0] + Be16Bytes(tid) + Response +
    PStringBytes(SystemName(version)) + PStringBytes(NoFinder) + PStringBytes(NoLaserWriter) +
    [0, 0] + PStringBytes(NoAfp)
  }

  /** The appends after the trim: the response, the three names, the AFP version and the last name. */
  method AppendDescription(reply: Buffer, version: seq<byte>)
    requires reply.Valid() && |SystemName(version)| <= 255 && |reply.payload| + 308 <= reply.payloadCapacity
    modifies reply
    ensures reply.Valid() && reply.OnlyPayloadChanged()
    ensures reply.payload == old(reply.payload) + Description(version)
  {
    ghost var p0 := reply.payload;
    var ok := reply.AppendAll(Response);
    ok := reply.AppendPString(SystemName(version));
    ok := reply.AppendPString(NoFinder);
    ok := reply.AppendPString(NoLaserWriter);
    ok := reply.AppendAll([0, 0]);
    ok := reply.AppendPString(NoAfp);
    PayloadParts(p0, Response, PStringBytes(SystemName(version)), PStringBytes(NoFinder), PStringBytes(NoLaserWriter), PStringBytes(NoAfp));
  }

  /** Lines 44-63 of the handler: the reply buffer for a request with transaction id `tid`. */
  method NewReply(version: seq<byte>, tid: u16) returns (reply: Buffer)
    requires |SystemName(version)| <= 255
    ensures fresh(reply) && reply.Valid() && reply.payload == ReplyPayload(version, tid)
  {
    reply := NewAtpBuffer(LongHeader, MaxPayload);
    reply.TrimPayload(4);
    assert reply.payload == [0, 0, 0, 0];
    ghost var d := Description(version);
    AppendDescription(reply, version);
    assert reply.payload == [0, 0, 0, 0] + d;
    assert ([0, 0, 0, 0] + d)[4..] == d;
    StampResponse(reply, tid);
    PayloadParts([TRespEom, 0] + Be16Bytes(tid), Response, PStringBytes(SystemName(version)), PStringBytes(NoFinder),
                 PStringBytes(NoLaserWriter), PStringBytes(NoAfp));
  }

  /** What follows the ATP header in the reply. */
  function Description(version: seq<byte>): seq<byte>
    requires |SystemName(version)| <= 255
  {
    Response + PStringBytes(SystemName(version)) + PStringBytes(NoFinder) + PStringBytes(NoLaserWriter) + [0, 0] + PStringBytes(NoAfp)
  }

  lemma PayloadParts(h: seq<byte>, r: seq<byte>, n: seq<byte>, f: seq<byte>, l: seq<byte>, a: seq<byte>)
    ensures h + (r + n + f + l + [0, 0] + a) == h + r + n + f + l + [0, 0] + a
  {
  }

  /**
   * `app_sip_handler`. The request itself is only read. A SystemInfo request gets one reply handed
   * to `ddp_send`, from socket 253 to the requester's network, node and socket, as DDP type 3.
   * `newbuf_atp` is taken to succeed; freeing buffers is not modelled.
   */
  method Handler(packet: Buffer, version: seq<byte>, out: Outbox)
    requires packet.Valid() && |SystemName(version)| <= 255
    modifies out
    ensures var f := Header(packet);
      out.sent == old(out.sent) +
        if IsSystemInfoRequest(f, packet.payload)
        then [DdpSend(ReplyPayload(version, TransactionId(packet)), ReplySocket, f.srcNet, f.src, f.srcSock, TypeAtp)]
        else []
  {
    var f := Header(packet);
    if f.ddpType != TypeAtp || |packet.payload| < AtpHeaderLen || packet.payload[7] != SipSystemInfo {
      return;
    }
    var reply := NewReply(version, TransactionId(packet));
    var ok := out.HandToDdp(reply, ReplySocket, f.srcNet, f.src, f.srcSock, TypeAtp);
  }

  /**
   * The reply reads back as an ATP transaction response: TResp, end of message, the request's
   * transaction id, the 14 response bytes, then the strings in order, and the zero AFP version.
   */
  lemma {:induction false} ReplyLayout(version: seq<byte>, tid: u16)
    requires |SystemName(version)| <= 255
    ensures var r := ReplyPayload(version, tid);
      var s1 := 18;
      var s2 := s1 + 1 + |SystemName(version)|;
      var s3 := s2 + 1 + |NoFinder|;
      var v := s3 + 1 + |NoLaserWriter|;
      |r| == v + 2 + 1 + |NoAfp| &&
      DecodeControl(r[0] as bv8) == Control(TResp as bv8, 0, 1, 0, 0) &&
      Be16(r[2], r[3]) == tid && r[4..18] == Response &&
      PStringAt(r, s1) == SystemName(version) && PStringAt(r, s2) == NoFinder &&
      PStringAt(r, s3) == NoLaserWriter && r[v] == 0 && r[v + 1] == 0 && PStringAt(r, v + 2) == NoAfp
  {
    var r := ReplyPayload(version, tid);
    var name := PStringBytes(SystemName(version));
    var s1 := 18;
    var s2 := s1 + 1 + |SystemName(version)|;
    var s3 := s2 + 1 + |NoFinder|;
    var v := s3 + 1 + |NoLaserWriter|;
    var h := [TRespEom, 0] + Be16Bytes(tid) + Response;
    var f, l, a := PStringBytes(NoFinder), PStringBytes(NoLaserWriter), PStringBytes(NoAfp);
    LayoutParts(h, name, f, l, a);
    Middle(h, name, f + l + [0, 0] + a);
    Middle(h + name, f, l + [0, 0] + a);
    Middle(h + name + f, l, [0, 0] + a);
    Middle(h + name + f + l + [0, 0], a, []);
    assert r[4..18] == Response by {
      Middle([TRespEom, 0] + Be16Bytes(tid), Response, name + f + l + [0, 0] + a);
    }
    assert (TRespEom as bv8) == 0x90;
  }

  lemma LayoutParts(h: seq<byte>, n: seq<byte>, f: seq<byte>, l: seq<byte>, a: seq<byte>)
    ensures var r := h + n + f + l + [0, 0] + a;
      r == h + n + (f + l + [0, 0] + a) && r == (h + n) + f + (l + [0, 0] + a) &&
      r == (h + n + f) + l + ([0, 0] + a) && r == (h + n + f + l + [0, 0]) + a + []
  {
  }

  /** The 14 response bytes: an acknowledgement, Responder 1.1 on AppleTalk 1.0, FPU and MMU, 0xFF. */
  lemma ResponseFields()
    ensures |Response| == 14
    ensures Response[0] == SipAck && Response[2] == 1 && Response[3] == 1 && Response[4] == 1 && Response[5] == 0
    ensures Response[9] == 0x18 && Response[10] == 0x7F && Response[11] == 0xFF
  {
  }

  /** A request of any other kind, or too short for ATP, or asking for another SIP function, is not answered. */
  lemma OnlySystemInfoAnswered(f: Fields, payload: seq<byte>)
    requires f.ddpType != TypeAtp || |payload| < AtpHeaderLen || payload[7] != SipSystemInfo
    ensures !IsSystemInfoRequest(f, payload)
  {
  }
}
