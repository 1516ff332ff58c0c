/**
 * The GetNetInfo responder of app/zip/zip_get_network_info.c. A node starting up on an extended
 * network asks, with a ZIP GetNetInfo request carrying the zone name it remembers, what the
 * network's range is and whether its zone is still valid. The reply carries the function 6, three
 * flags, the receiving port's range, the requested name, the zone's multicast address (or none)
 * and, when the requested zone was not valid, the zone to use instead.
 *
 * `HandleGetNetInfo` is the handler as the tests and the code's own comments describe it;
 * `HandleGetNetInfoAsWritten` is the handler as the code is written, which differs in three places
 * (listed under the Findings of the README and shown by the lemmas at the end).
 */
module ZipNetInfo {
  import opened Bytes
  import opened Laps
  import opened Buffers
  import opened Ddp
  import opened Outbox
  import opened ZoneView

  type EthAddr = s: seq<byte> | |s| == 6 witness [0, 0, 0, 0, 0, 0]

  const ZipGetNetInfoReply: byte := 6
  /** `sizeof(zip_get_net_info_req_t)`: the function, five unused bytes and the zone name's length byte. */
  const RequestLen: nat := 7
  /** Where the requested zone name's length byte is. */
  const ZoneNameAt: nat := 6
  /** `sizeof(zip_get_info_resp_t)`: the function and the flags. */
  const ReplyHeaderLen: nat := 2

  const FlagZoneInvalid: byte := 0x80
  const FlagUseBroadcast: byte := 0x40
  const FlagOnlyOneZone: byte := 0x20

  /** The request is long enough for its fixed part and for the zone name its length byte announces. */
  predicate WellFormedRequest(p: seq<byte>) {
    |p| >= RequestLen && |p| >= RequestLen + p[ZoneNameAt]
  }

  function RequestedZone(p: seq<byte>): pstring
    requires WellFormedRequest(p)
  {
    PStringAt(p, ZoneNameAt)
  }

  /** `zip_gni_resp_set_flags`. */
  function Flags(zoneInvalid: bool, useBroadcast: bool, onlyOneZone: bool): byte {
    (if zoneInvalid then FlagZoneInvalid else 0) + (if useBroadcast then FlagUseBroadcast else 0) +
    (if onlyOneZone then FlagOnlyOneZone else 0)
  }

  /** What `stash_first_zone_name` is left holding after one step of the zone iterator. */
  function FirstZone(zs: seq<pstring>): Option<pstring> {
    if zs == [] then None else Some(zs[0])
  }

  /** The multicast address field: its length, 0 or 6, and the address. */
  function MulticastPart(multicast: Option<EthAddr>): seq<byte> {
    if multicast.None? then [0] else [6] + multicast.value
  }

  /** The reply's payload, with the zone name that follows the multicast address, if any. */
  function ReplyBytes(flags: byte, start: u16, end: u16, requested: pstring, multicast: Option<EthAddr>,
                      realZone: Option<pstring>): seq<byte>
  {
    [ZipGetNetInfoReply, flags] + Be16Bytes(start) + Be16Bytes(end) + PStringBytes(requested) +
    MulticastPart(multicast) + ZoneAfter(realZone)
  }

  /** The zone name after the multicast field, if there is one. */
  function ZoneAfter(realZone: Option<pstring>): seq<byte> {
    if realZone.Some? then PStringBytes(realZone.value) else []
  }

  /**
   * Where a reply goes: the request's destination network and node when that network is in the
   * port's range, else broadcast on network 0. (The code's comment speaks of the request's source
   * address; the code reads the destination fields, and so does the model.)
   */
  function ReplyNet(f: Fields, start: u16, end: u16): u16 {
    if start <= f.dstNet <= end then f.dstNet else 0
  }

  function ReplyNode(f: Fields, start: u16, end: u16): byte {
    if start <= f.dstNet <= end then f.dst else 0xFF
  }

  /**
   * The replies to a request received on `lap`, whose range is `start`-`end`; `multicastFor` is
   * `lap_ether_multicast_for_zone` on that LAP.
   */
  function GetNetInfoReplies(v: View, f: Fields, p: seq<byte>, lap: Lap, start: u16, end: u16,
                             multicastFor: pstring -> EthAddr): seq<Sent>
  {
    if !WellFormedRequest(p) || !v.complete(start) then [] else
    var requested := RequestedZone(p);
    var invalid := !v.zoneValid(requested, start);
    var realZone := if invalid then FirstZone(v.zones(start)) else Some(requested);
    if realZone.None? then [] else
    var multicast := if lap.supportsEtherMulticast then Some(multicastFor(realZone.value)) else None;
    var flags := Flags(invalid, !lap.supportsEtherMulticast, |v.zones(start)| == 1);
    var payload := ReplyBytes(flags, start, end, requested, multicast, if invalid then realZone else None);
    [DdpSendVia(payload, SocketZip, ReplyNet(f, start, end), ReplyNode(f, start, end), f.dstSock, TypeZip, lap)]
  }

  // ---------------------------------------------------------------------------
  // Building the reply

  /** Lines 49-64 of the handler: a fresh DDP buffer with the function, the flags, the range and the requested name. */
  method StartReply(flags: byte, start: u16, end: u16, requested: pstring) returns (reply: Buffer)
    ensures fresh(reply) && reply.Valid() && reply.payloadCapacity == MaxPayload
    ensures reply.payload == [ZipGetNetInfoReply, flags] + Be16Bytes(start) + Be16Bytes(end) + PStringBytes(requested)
  {
    reply := new Buffer(true, LongHeader, MaxPayload);
    reply.ExpandPayload(ReplyHeaderLen);
    reply.payload := reply.payload[0 := ZipGetNetInfoReply];
    reply.payload := reply.payload[1 := flags];
    var ok := reply.AppendU16(start);
    ok := reply.AppendU16(end);
    ok := reply.AppendPString(requested);
  }

  /** Lines 84-94 of the handler: the multicast address field and, if any, the zone name after it. */
  method FinishReply(reply: Buffer, multicast: Option<EthAddr>, realZone: Option<pstring>)
    requires reply.Valid() && reply.payloadCapacity == MaxPayload && |reply.payload| <= RequestLen + 255
    modifies reply
    ensures reply.Valid() && reply.OnlyPayloadChanged()
    ensures reply.payload == old(reply.payload) + MulticastPart(multicast) + ZoneAfter(realZone)
  {
    ghost var p0 := reply.payload;
    var ok;
    if multicast.None? {
      ok := reply.Append(0);
    } else {
      ok := reply.Append(6);
      ok := reply.AppendAll(multicast.value);
      assert reply.payload == p0 + ([6] + multicast.value);
    }
    assert reply.payload == p0 + MulticastPart(multicast);
    if realZone.Some? {
      ok := reply.AppendPString(realZone.value);
    } else {
      assert reply.payload == reply.payload + [];
    }
  }

  /**
   * `app_zip_handle_get_net_info` as intended. The request is only read; it must have come in on
   * a LAP, which the code dereferences unchecked. The zone table is seen through `v`; freeing
   * buffers and the statistics counters are not modelled.
   */
  method HandleGetNetInfo(packet: Buffer, v: View, multicastFor: pstring -> EthAddr, out: Outbox)
    requires packet.Valid() && packet.recvLap != null
    modifies out
    ensures var lap := packet.recvLap;
      out.sent == old(out.sent) + GetNetInfoReplies(v, Header(packet), packet.payload, lap, lap.rangeStart, lap.rangeEnd, multicastFor)
  {
    var p := packet.payload;
    if |p| < RequestLen {
      return;
    }
    if |p| < RequestLen + p[ZoneNameAt] {
      return;
    }
    var lap := packet.recvLap;
    var net := lap.rangeStart;
    if !v.complete(net) {
      return;
    }
    var onlyOneZone := |v.zones(net)| == 1;
    var useBroadcast := !lap.supportsEtherMulticast;
    var requested := PStringAt(p, ZoneNameAt);
    var zoneInvalid := !v.zoneValid(requested, net);
    var reply := StartReply(Flags(zoneInvalid, useBroadcast, onlyOneZone), lap.rangeStart, lap.rangeEnd, requested);
    var realZone := if !zoneInvalid then Some(requested) else FirstZone(ZonesFrom(v.zones(net), 0));
    if realZone.None? {
      return;
    }
    var multicast := if useBroadcast then None else Some(multicastFor(realZone.value));
    FinishReply(reply, multicast, if zoneInvalid then realZone else None);
    var f := Header(packet);
    var destNet, destNode, destSocket := f.dstNet, f.dst, f.dstSock;
    if destNet < lap.rangeStart || destNet > lap.rangeEnd {
      destNet, destNode := 0, 0xFF;
    }
    var ok := out.HandToDdpVia(reply, SocketZip, destNet, destNode, destSocket, TypeZip, lap);
  }

  // ---------------------------------------------------------------------------
  // The handler as written

  /** The replies the code as written sends. */
  function GetNetInfoRepliesAsWritten(v: View, f: Fields, p: seq<byte>, lap: Lap, start: u16, end: u16,
                                      multicastFor: pstring -> EthAddr): seq<Sent>
  {
    if !WellFormedRequest(p) || !v.complete(start) then [] else
    var requested := RequestedZone(p);
    var invalid := !v.zoneValid(requested, start);
    var realZone := if invalid then FirstZone(ZonesFrom(v.zones(0), start)) else Some(requested);
    if realZone.None? then [] else
    var useBroadcast := lap.supportsEtherMulticast;
    var multicast := if useBroadcast then None else Some(multicastFor(realZone.value));
    var flags := Flags(invalid, useBroadcast, |v.zones(start)| == 1);
    var payload := ReplyBytes(flags, start, end, requested, multicast, realZone);
    [DdpSendVia(payload, SocketZip, ReplyNet(f, start, end), ReplyNode(f, start, end), f.dstSock, TypeZip, lap)]
  }

  /**
   * `app_zip_handle_get_net_info` as written: `use_broadcast` is the LAP's multicast support, the
   * first-zone iterator is passed network 0 and start index `network_range_start`, the name
   * found is appended whether or not the requested one was valid.
   */
  method HandleGetNetInfoAsWritten(packet: Buffer, v: View, multicastFor: pstring -> EthAddr, out: Outbox)
    requires packet.Valid() && packet.recvLap != null
    modifies out
    ensures var lap := packet.recvLap;
      out.sent == old(out.sent) + GetNetInfoRepliesAsWritten(v, Header(packet), packet.payload, lap, lap.rangeStart, lap.rangeEnd, multicastFor)
  {
    var p := packet.payload;
    if |p| < RequestLen {
      return;
    }
    if |p| < RequestLen + p[ZoneNameAt] {
      return;
    }
    var lap := packet.recvLap;
    var net := lap.rangeStart;
    if !v.complete(net) {
      return;
    }
    var onlyOneZone := |v.zones(net)| == 1;
    var useBroadcast := lap.supportsEtherMulticast;
    var requested := PStringAt(p, ZoneNameAt);
    var zoneInvalid := !v.zoneValid(requested, net);
    var reply := StartReply(Flags(zoneInvalid, useBroadcast, onlyOneZone), lap.rangeStart, lap.rangeEnd, requested);
    var realZone := if !zoneInvalid then Some(requested) else FirstZone(ZonesFrom(v.zones(0), lap.rangeStart));
    if realZone.None? {
      return;
    }
    var multicast := if useBroadcast then None else Some(multicastFor(realZone.value));
    FinishReply(reply, multicast, realZone);
    var f := Header(packet);
    var destNet, destNode, destSocket := f.dstNet, f.dst, f.dstSock;
    if destNet < lap.rangeStart || destNet > lap.rangeEnd {
      destNet, destNode := 0, 0xFF;
    }
    var ok := out.HandToDdpVia(reply, SocketZip, destNet, destNode, destSocket, TypeZip, lap);
  }

  // ---------------------------------------------------------------------------
  // What the reply promises

  /** Each flag reads back on its own bit, and the low five bits are clear. */
  lemma FlagsReadBack(zoneInvalid: bool, useBroadcast: bool, onlyOneZone: bool)
    ensures var x := Flags(zoneInvalid, useBroadcast, onlyOneZone);
      (x / 0x80 == 1 <==> zoneInvalid) && (x / 0x40 % 2 == 1 <==> useBroadcast) &&
      (x / 0x20 % 2 == 1 <==> onlyOneZone) && x % 0x20 == 0
  {
  }

  /** The reply starts with the function, the flags, the range and the requested name. */
  lemma ReplyHeadReadsBack(flags: byte, start: u16, end: u16, requested: pstring, multicast: Option<EthAddr>,
                           realZone: Option<pstring>)
    ensures var r := ReplyBytes(flags, start, end, requested, multicast, realZone);
      r[0] == ZipGetNetInfoReply && r[1] == flags && Be16(r[2], r[3]) == start && Be16(r[4], r[5]) == end &&
      PStringAt(r, ZoneNameAt) == requested &&
      r[RequestLen + |requested|..] == MulticastPart(multicast) + ZoneAfter(realZone)
  {
    var x := [ZipGetNetInfoReply, flags] + Be16Bytes(start) + Be16Bytes(end) + PStringBytes(requested);
    var m, z := MulticastPart(multicast), ZoneAfter(realZone);
    Associative(x, m, z);
    HeadFields(flags, start, end, requested, m + z);
  }

  lemma Associative(x: seq<byte>, m: seq<byte>, z: seq<byte>)
    ensures x + m + z == x + (m + z)
  {
  }

  lemma HeadFields(flags: byte, start: u16, end: u16, requested: pstring, rest: seq<byte>)
    ensures var r := [ZipGetNetInfoReply, flags] + Be16Bytes(start) + Be16Bytes(end) + PStringBytes(requested) + rest;
      r[0] == ZipGetNetInfoReply && r[1] == flags && Be16(r[2], r[3]) == start && Be16(r[4], r[5]) == end &&
      PStringAt(r, ZoneNameAt) == requested && r[RequestLen + |requested|..] == rest
  {
    var a, b := Be16Bytes(start), Be16Bytes(end);
    HeadLayout(flags, a, b, requested, rest);
  }

  /** The fixed part and the requested name, whatever follows them. */
  lemma HeadLayout(flags: byte, a: seq<byte>, b: seq<byte>, requested: pstring, rest: seq<byte>)
    requires |a| == 2 && |b| == 2
    ensures var r := [ZipGetNetInfoReply, flags] + a + b + PStringBytes(requested) + rest;
      |r| == RequestLen + |requested| + |rest| &&
      r[0] == ZipGetNetInfoReply && r[1] == flags && r[2] == a[0] && r[3] == a[1] && r[4] == b[0] && r[5] == b[1] &&
      r[ZoneNameAt] == |requested| && r[ZoneNameAt + 1..ZoneNameAt + 1 + |requested|] == requested &&
      r[RequestLen + |requested|..] == rest
  {
    var h := [ZipGetNetInfoReply, flags, a[0], a[1], b[0], b[1]];
    assert [ZipGetNetInfoReply, flags] + a + b == h;
    var r := h + PStringBytes(requested) + rest;
    assert r[ZoneNameAt + 1..ZoneNameAt + 1 + |requested|] == requested;
    assert r[RequestLen + |requested|..] == rest;
  }

  /**
   * After the requested name come the multicast field, its length 0 or 6 and the address, and the
   * zone when there is one; nothing else follows, and the whole fits a DDP payload.
   */
  lemma ReplyTailReadsBack(flags: byte, start: u16, end: u16, requested: pstring, multicast: Option<EthAddr>,
                           realZone: Option<pstring>)
    ensures var r := ReplyBytes(flags, start, end, requested, multicast, realZone);
      var m := RequestLen + |requested|;
      var z := m + |MulticastPart(multicast)|;
      r[m] == (if multicast.None? then 0 else 6) &&
      (multicast.Some? ==> r[m + 1..z] == multicast.value) &&
      (realZone.None? ==> |r| == z) &&
      (realZone.Some? ==> |r| == z + 1 + |realZone.value| && PStringAt(r, z) == realZone.value) &&
      |r| <= MaxPayload
  {
    var mc := MulticastPart(multicast);
    var t := ZoneAfter(realZone);
    var r := ReplyBytes(flags, start, end, requested, multicast, realZone);
    var m := RequestLen + |requested|;
    ReplyHeadReadsBack(flags, start, end, requested, multicast, realZone);
    assert r[m] == (mc + t)[0];
    if multicast.Some? {
      assert r[m + 1..m + |mc|] == (mc + t)[1..|mc|];
    }
    if realZone.Some? {
      PStringShift(r, m + |mc|, m);
      assert r[m..][|mc|..] == t;
    }
  }

  /** A Pascal string read in a suffix is the one read at the same place in the whole. */
  lemma PStringShift(data: seq<byte>, o: nat, k: nat)
    requires k <= o < |data| && o + 1 + data[o] <= |data|
    ensures PStringAt(data[k..], o - k) == PStringAt(data, o)
  {
    assert data[k..][o - k] == data[o];
    assert data[k..][o - k + 1..o - k + 1 + data[o]] == data[o + 1..o + 1 + data[o]];
  }

  /** A request too short for its fixed part or for its zone name gets no reply. */
  lemma TruncatedRequestUnanswered(v: View, f: Fields, p: seq<byte>, lap: Lap, start: u16, end: u16,
                                   multicastFor: pstring -> EthAddr)
    requires |p| < RequestLen || |p| < RequestLen + p[ZoneNameAt]
    ensures GetNetInfoReplies(v, f, p, lap, start, end, multicastFor) == []
  {
  }

  /**
   * A well-formed request on a complete network is answered exactly when the requested zone is
   * valid or the network has a zone; the reply goes out through the receiving LAP, from the ZIP
   * socket, as DDP type 6, to the socket the request was sent to: to the request's destination
   * network and node when that network is in the port's range, and otherwise broadcast on network 0.
   */
  lemma AnsweredAndAddressed(v: View, f: Fields, p: seq<byte>, lap: Lap, start: u16, end: u16,
                             multicastFor: pstring -> EthAddr)
    requires WellFormedRequest(p)
    ensures var rs := GetNetInfoReplies(v, f, p, lap, start, end, multicastFor);
      (|rs| == 1 <==> v.complete(start) && (v.zoneValid(RequestedZone(p), start) || v.zones(start) != [])) &&
      (rs != [] ==> |rs| == 1) &&
      (rs != [] ==> rs[0].via == lap && rs[0].srcSocket == SocketZip && rs[0].ddpType == TypeZip &&
                    rs[0].destSocket == f.dstSock &&
                    (start <= f.dstNet <= end ==> rs[0].destNet == f.dstNet && rs[0].destNode == f.dst) &&
                    (!(start <= f.dstNet <= end) ==> rs[0].destNet == 0 && rs[0].destNode == 0xFF))
  {
  }

  /**
   * What the reply says: the zone is flagged invalid exactly when it is, in which case the
   * network's first zone follows; broadcast is flagged exactly when the LAP has no multicast, and
   * otherwise the address is the one for the zone the node should use.
   */
  lemma ReplyMeaning(v: View, f: Fields, p: seq<byte>, lap: Lap, start: u16, end: u16,
                     multicastFor: pstring -> EthAddr)
    requires WellFormedRequest(p) && v.complete(start)
    requires v.zoneValid(RequestedZone(p), start) || v.zones(start) != []
    ensures var requested := RequestedZone(p);
      var invalid := !v.zoneValid(requested, start);
      var use := if invalid then v.zones(start)[0] else requested;
      GetNetInfoReplies(v, f, p, lap, start, end, multicastFor)[0].payload ==
        ReplyBytes(Flags(invalid, !lap.supportsEtherMulticast, |v.zones(start)| == 1), start, end, requested,
                   if lap.supportsEtherMulticast then Some(multicastFor(use)) else None,
                   if invalid then Some(v.zones(start)[0]) else None)
  {
  }

  // ---------------------------------------------------------------------------
  // The exchanges of zip_get_network_info_test.c, on the intended handler

  const Zone1: pstring := [90, 111, 110, 101, 49]
  const Zone2: pstring := [90, 111, 110, 101, 50]
  /** "ZoneenoZ". */
  const Zoneenoz: pstring := [90, 111, 110, 101, 101, 110, 111, 90]

  /** A request naming `zone`. */
  function Request(zone: pstring): seq<byte> {
    [5, 0, 0, 0, 0, 0] + PStringBytes(zone)
  }

  lemma RequestWellFormed(zone: pstring)
    ensures WellFormedRequest(Request(zone)) && RequestedZone(Request(zone)) == zone
  {
    assert Request(zone)[ZoneNameAt..] == PStringBytes(zone);
  }

  /** Network 11-20 not yet complete: no reply. */
  lemma IncompleteNetworkUnanswered(v: View, f: Fields, p: seq<byte>, lap: Lap, multicastFor: pstring -> EthAddr)
    requires !v.complete(11)
    ensures GetNetInfoReplies(v, f, p, lap, 11, 20, multicastFor) == []
  {
  }

  /** An empty zone name on network 11-20, whose one zone is Zone1, without multicast: all three flags and Zone1. */
  lemma EmptyNameGetsZone1(v: View, f: Fields, lap: Lap, multicastFor: pstring -> EthAddr)
    requires v.complete(11) && v.zones(11) == [Zone1] && !v.zoneValid([], 11) && !lap.supportsEtherMulticast
    ensures var rs := GetNetInfoReplies(v, f, Request([]), lap, 11, 20, multicastFor);
      |rs| == 1 && rs[0].payload[0] == 6 && rs[0].payload[1] == 0xE0 &&
      Be16(rs[0].payload[2], rs[0].payload[3]) == 11 && Be16(rs[0].payload[4], rs[0].payload[5]) == 20 &&
      rs[0].payload[6] == 0 && rs[0].payload[7] == 0 && PStringAt(rs[0].payload, 8) == Zone1 && |rs[0].payload| == 14
  {
    RequestWellFormed([]);
    assert Flags(true, true, true) == 0xE0;
    ReplyHeadReadsBack(0xE0, 11, 20, [], None, Some(Zone1));
    ReplyTailReadsBack(0xE0, 11, 20, [], None, Some(Zone1));
  }

  /** A wrong name is echoed, with no multicast address, and Zone1 after it. */
  lemma WrongNameEchoed(v: View, f: Fields, lap: Lap, multicastFor: pstring -> EthAddr)
    requires v.complete(11) && v.zones(11) == [Zone1] && !v.zoneValid(Zoneenoz, 11) && !lap.supportsEtherMulticast
    ensures var rs := GetNetInfoReplies(v, f, Request(Zoneenoz), lap, 11, 20, multicastFor);
      |rs| == 1 && rs[0].payload[1] == 0xE0 && PStringAt(rs[0].payload, 6) == Zoneenoz &&
      rs[0].payload[15] == 0 && PStringAt(rs[0].payload, 16) == Zone1
  {
    RequestWellFormed(Zoneenoz);
    ReplyHeadReadsBack(0xE0, 11, 20, Zoneenoz, None, Some(Zone1));
    ReplyTailReadsBack(0xE0, 11, 20, Zoneenoz, None, Some(Zone1));
  }

  /** A valid name: no invalid flag, and nothing after the empty multicast field. */
  lemma ValidNameConfirmed(v: View, f: Fields, lap: Lap, multicastFor: pstring -> EthAddr)
    requires v.complete(11) && v.zones(11) == [Zone1] && v.zoneValid(Zone1, 11) && !lap.supportsEtherMulticast
    ensures var rs := GetNetInfoReplies(v, f, Request(Zone1), lap, 11, 20, multicastFor);
      |rs| == 1 && rs[0].payload[1] == 0x60 && PStringAt(rs[0].payload, 6) == Zone1 &&
      rs[0].payload[12] == 0 && |rs[0].payload| == 13
  {
    RequestWellFormed(Zone1);
    assert Flags(false, true, true) == 0x60;
    ReplyHeadReadsBack(0x60, 11, 20, Zone1, None, None);
    ReplyTailReadsBack(0x60, 11, 20, Zone1, None, None);
  }

  /** The same on a LAP with multicast: only the one-zone flag, and the address of Zone1's multicast group. */
  lemma ValidNameWithMulticast(v: View, f: Fields, lap: Lap, multicastFor: pstring -> EthAddr)
    requires v.complete(11) && v.zones(11) == [Zone1] && v.zoneValid(Zone1, 11) && lap.supportsEtherMulticast
    ensures var rs := GetNetInfoReplies(v, f, Request(Zone1), lap, 11, 20, multicastFor);
      |rs| == 1 && rs[0].payload[1] == 0x20 && PStringAt(rs[0].payload, 6) == Zone1 &&
      rs[0].payload[12] == 6 && rs[0].payload[13..] == multicastFor(Zone1)
  {
    RequestWellFormed(Zone1);
    assert Flags(false, false, true) == 0x20;
    var r := ReplyBytes(0x20, 11, 20, Zone1, Some(multicastFor(Zone1)), None);
    ReplyHeadReadsBack(0x20, 11, 20, Zone1, Some(multicastFor(Zone1)), None);
    ReplyTailReadsBack(0x20, 11, 20, Zone1, Some(multicastFor(Zone1)), None);
    assert |r| == 19 && r[13..] == r[13..19];
  }

  /** With a second zone on the network, only the broadcast flag. */
  lemma SecondZoneClearsOnlyOne(v: View, f: Fields, lap: Lap, multicastFor: pstring -> EthAddr)
    requires v.complete(11) && v.zones(11) == [Zone1, Zone2] && v.zoneValid(Zone1, 11) && !lap.supportsEtherMulticast
    ensures var rs := GetNetInfoReplies(v, f, Request(Zone1), lap, 11, 20, multicastFor);
      |rs| == 1 && rs[0].payload[1] == 0x40
  {
    RequestWellFormed(Zone1);
  }

  // ---------------------------------------------------------------------------
  // Where the code as written departs from it

  /**
   * A valid name is still followed by a zone name after the multicast field, where the test
   * expects the reply to end with that field.
   */
  lemma AsWrittenAppendsValidZone(v: View, f: Fields, lap: Lap, multicastFor: pstring -> EthAddr)
    requires v.complete(11) && v.zones(11) == [Zone1] && v.zoneValid(Zone1, 11) && lap.supportsEtherMulticast
    ensures var rs := GetNetInfoRepliesAsWritten(v, f, Request(Zone1), lap, 11, 20, multicastFor);
      |rs| == 1 && rs[0].payload[12] == 0 && |rs[0].payload| == 19 && PStringAt(rs[0].payload, 13) == Zone1
    ensures var rs := GetNetInfoReplies(v, f, Request(Zone1), lap, 11, 20, multicastFor);
      |rs| == 1 && rs[0].payload[12] == 6 && rs[0].payload[13..] == multicastFor(Zone1)
  {
    RequestWellFormed(Zone1);
    assert Flags(false, true, true) == 0x60;
    ReplyHeadReadsBack(0x60, 11, 20, Zone1, None, Some(Zone1));
    ReplyTailReadsBack(0x60, 11, 20, Zone1, None, Some(Zone1));
    ValidNameWithMulticast(v, f, lap, multicastFor);
  }

  /** Without multicast the broadcast flag is clear and a multicast address is sent anyway. */
  lemma AsWrittenInvertsBroadcast(v: View, f: Fields, lap: Lap, multicastFor: pstring -> EthAddr)
    requires v.complete(11) && v.zones(11) == [Zone1] && v.zoneValid(Zone1, 11) && !lap.supportsEtherMulticast
    ensures var rs := GetNetInfoRepliesAsWritten(v, f, Request(Zone1), lap, 11, 20, multicastFor);
      |rs| == 1 && rs[0].payload[1] == 0x20 && rs[0].payload[12] == 6
    ensures var rs := GetNetInfoReplies(v, f, Request(Zone1), lap, 11, 20, multicastFor);
      |rs| == 1 && rs[0].payload[1] == 0x60 && rs[0].payload[12] == 0
  {
    RequestWellFormed(Zone1);
    ReplyHeadReadsBack(0x20, 11, 20, Zone1, Some(multicastFor(Zone1)), Some(Zone1));
    ReplyTailReadsBack(0x20, 11, 20, Zone1, Some(multicastFor(Zone1)), Some(Zone1));
    ReplyHeadReadsBack(0x60, 11, 20, Zone1, None, None);
    ReplyTailReadsBack(0x60, 11, 20, Zone1, None, None);
  }

  /** An invalid name on a network whose zones are known, network 0 having none: no reply at all. */
  lemma AsWrittenFindsNoDefaultZone(v: View, f: Fields, lap: Lap, multicastFor: pstring -> EthAddr)
    requires v.complete(11) && v.zones(11) == [Zone1] && !v.zoneValid([], 11) && v.zones(0) == []
    ensures GetNetInfoRepliesAsWritten(v, f, Request([]), lap, 11, 20, multicastFor) == []
    ensures |GetNetInfoReplies(v, f, Request([]), lap, 11, 20, multicastFor)| == 1
  {
    RequestWellFormed([]);
  }
}
