/**
 * The GetZoneList and GetLocalZones responder of app/zip/zip_get_zone_list.c. The request is an
 * ATP transaction whose first user byte is the command and whose user bytes 2-3 hold a 1-based
 * start index. The reply is one ATP TResp: user byte 0 is the LastFlag, user bytes 2-3 the number
 * of zone names that follow, and then as many zone names, as Pascal strings, as fit.
 */
module ZipZoneList {
  import opened Bytes
  import opened Buffers
  import opened Ddp
  import opened Atp
  import opened Outbox
  import opened ZoneView

  /** ATP user byte 0 of a request: GetMyZone, GetZoneList and GetLocalZones. */
  const GetMyZoneCommand: byte := 7
  const GetZoneListCommand: byte := 8
  const GetLocalZonesCommand: byte := 9

  /** Where `atp_packet_get_user_data` points: the four user bytes after control, bitmap and TID. */
  const UserData: nat := 4

  /** The 0-based start index: user bytes 2-3, big-endian and 1-based, less one in 16 bits. */
  function StartIndex(p: seq<byte>): u16
    requires |p| >= AtpHeaderLen
  {
    (Be16(p[6], p[7]) + 0xFFFF) % 0x1_0000
  }

  // ---------------------------------------------------------------------------
  // The packing of names into the reply

  /** The zone names one after another, each as a Pascal string. */
  function ZoneBytes(zs: seq<pstring>): seq<byte>
    decreases |zs|
  {
    if zs == [] then [] else ZoneBytes(zs[..|zs| - 1]) + PStringBytes(zs[|zs| - 1])
  }

  /** The callback's test for name `k`, the payload then holding the header and the names before it. */
  predicate Takes(zs: seq<pstring>, k: nat)
    requires k < |zs|
  {
    AtpHeaderLen + |ZoneBytes(zs[..k])| + |zs[k]| < MaxPayload
  }

  /** How many names are appended from `k` on before the callback first refuses one, or the list ends. */
  function Taken(zs: seq<pstring>, k: nat): (n: nat)
    requires k <= |zs|
    ensures k <= n <= |zs|
    decreases |zs| - k
  {
    if k == |zs| then k else if Takes(zs, k) then Taken(zs, k + 1) else k
  }

  /** What the reply's ATP header looks like before it is stamped: zeros, and the LastFlag. */
  function BlankHeader(last: bool): seq<byte> {
    [0, 0, 0, 0, BoolByte(last), 0, 0, 0]
  }

  /** The reply to transaction `tid` when the names from the start index on are `zs`. */
  function ZoneListReply(tid: u16, zs: seq<pstring>): seq<byte> {
    var n := Taken(zs, 0);
    [TRespEom, 0] + Be16Bytes(tid) + [BoolByte(n == |zs|), 0] + Be16Bytes(n % 0x1_0000) + ZoneBytes(zs[..n])
  }

  lemma ZoneBytesStep(zs: seq<pstring>, k: nat)
    requires k < |zs|
    ensures ZoneBytes(zs[..k + 1]) == ZoneBytes(zs[..k]) + PStringBytes(zs[k])
  {
    assert zs[..k + 1][..k] == zs[..k];
  }

  // ---------------------------------------------------------------------------
  // The callback, the iterator and the handler

  /**
   * `add_zone_name_to_buffer`, with the global `zone_count_in_packet` passed in and handed back.
   * `None` is the NULL zone the iterator passes after the last one: it sets the LastFlag.
   */
  method AddZoneName(buffer: Buffer, zone: Option<pstring>, count: nat) returns (more: bool, newCount: nat)
    requires buffer.Valid() && buffer.payloadCapacity == MaxPayload && |buffer.payload| >= AtpHeaderLen
    modifies buffer
    ensures buffer.Valid() && buffer.OnlyPayloadChanged()
    ensures zone.None? ==> more && newCount == count && buffer.payload == old(buffer.payload)[UserData := 1]
    ensures zone.Some? ==>
      more == (|old(buffer.payload)| + |zone.value| < MaxPayload) &&
      newCount == (if more then count + 1 else count) &&
      buffer.payload == if more then old(buffer.payload) + PStringBytes(zone.value) else old(buffer.payload)
  {
    if zone.None? {
      buffer.payload := buffer.payload[UserData := 1];
      return true, count;
    }
    if |buffer.payload| + |zone.value| < MaxPayload {
      var ok := buffer.AppendPString(zone.value);
      return true, count + 1;
    }
    return false, count;
  }

  /** One call of the callback on name `i`, the payload holding the names before it. */
  method OfferName(buffer: Buffer, zs: seq<pstring>, i: nat, count: nat) returns (more: bool, newCount: nat)
    requires i < |zs| && buffer.Valid() && buffer.payloadCapacity == MaxPayload
    requires buffer.payload == BlankHeader(false) + ZoneBytes(zs[..i])
    modifies buffer
    ensures buffer.Valid() && buffer.OnlyPayloadChanged()
    ensures more == Takes(zs, i) && newCount == if more then count + 1 else count
    ensures buffer.payload == BlankHeader(false) + ZoneBytes(zs[..if more then i + 1 else i])
  {
    more, newCount := AddZoneName(buffer, Some(zs[i]), count);
    ZoneBytesStep(zs, i);
  }

  /**
   * `zt_iterate_zone_names` and `zt_iterate_zone_names_for_net` with this callback, as their
   * declarations describe them: each name from the start index on, in order, until the callback
   * answers false, then NULL if the list was exhausted. `count` is `zone_count_in_packet` after it.
   */
  method IterateZoneNames(buffer: Buffer, zs: seq<pstring>) returns (count: nat)
    requires buffer.Valid() && buffer.payloadCapacity == MaxPayload && buffer.payload == BlankHeader(false)
    modifies buffer
    ensures buffer.Valid() && buffer.OnlyPayloadChanged()
    ensures count == Taken(zs, 0)
    ensures buffer.payload == BlankHeader(count == |zs|) + ZoneBytes(zs[..count])
  {
    count := 0;
    var i := 0;
    var more := true;
    while i < |zs| && more
      invariant i <= |zs| && count == i
      invariant more ==> Taken(zs, 0) == Taken(zs, i)
      invariant !more ==> Taken(zs, 0) == i < |zs|
      invariant buffer.Valid() && buffer.OnlyPayloadChanged()
      invariant buffer.payload == BlankHeader(false) + ZoneBytes(zs[..i])
      decreases |zs| - i, more
    {
      more, count := OfferName(buffer, zs, i, count);
      if more {
        i := i + 1;
      }
    }
    if more {
      more, count := AddZoneName(buffer, None, count);
      assert zs[..|zs|] == zs;
      SetLastFlag(ZoneBytes(zs));
    }
  }

  lemma SetLastFlag(body: seq<byte>)
    ensures (BlankHeader(false) + body)[UserData := 1] == BlankHeader(true) + body
  {
  }

  /**
   * Lines 74-96 of the handler: a fresh ATP buffer filled by the iterator, then, if the iterator
   * reports something sensible, stamped as a TResp with the LastFlag and the count. `null` is no reply.
   */
  method BuildReply(zs: seq<pstring>, tid: u16, sensible: bool) returns (buffer: Buffer?)
    ensures sensible <==> buffer != null
    ensures buffer != null ==> fresh(buffer) && buffer.Valid() && buffer.payload == ZoneListReply(tid, zs)
  {
    var b := NewAtpBuffer(LongHeader, MaxPayload);
    assert b.payload == BlankHeader(false);
    var count := IterateZoneNames(b, zs);
    if !sensible {
      return null;
    }
    ghost var body := ZoneBytes(zs[..count]);
    assert b.payload[..4] == [0, 0, 0, 0];
    StampResponse(b, tid);
    assert b.payload == [TRespEom, 0] + Be16Bytes(tid) + ([BoolByte(count == |zs|), 0, 0, 0] + body);
    var n: u16 := count % 0x1_0000;
    b.payload := b.payload[6 := n / 256][7 := n % 256];
    StoreCount([TRespEom, 0] + Be16Bytes(tid), BoolByte(count == |zs|), body, n / 256, n % 256);
    return b;
  }

  /** The names a request asks about: the source network's for GetLocalZones, else the internet's. */
  function RequestedZones(v: View, f: Fields, p: seq<byte>): seq<pstring>
    requires |p| >= AtpHeaderLen
  {
    ZonesFrom(if p[UserData] == GetLocalZonesCommand then v.zones(f.srcNet) else v.allZones, StartIndex(p))
  }

  /**
   * Whether a request is answered: GetZoneList always, GetLocalZones when the source network is
   * complete, and then only when the iterator reports having done something sensible.
   */
  predicate Answered(v: View, f: Fields, p: seq<byte>, sensible: bool)
    requires |p| >= AtpHeaderLen
  {
    (p[UserData] == GetZoneListCommand || (p[UserData] == GetLocalZonesCommand && v.complete(f.srcNet))) && sensible
  }

  /** What the handler hands to DDP: at most one reply, from the ZIP socket to the requester, as ATP. */
  function GetZoneListReplies(v: View, f: Fields, p: seq<byte>, tid: u16, sensible: bool): seq<Sent>
    requires |p| >= AtpHeaderLen
  {
    if Answered(v, f, p, sensible)
    then [DdpSend(ZoneListReply(tid, RequestedZones(v, f, p)), SocketZip, f.srcNet, f.src, f.srcSock, TypeAtp)]
    else []
  }

  /**
   * `app_zip_handle_get_zone_list`. The request is only read; it has a whole ATP header, as the
   * dispatcher checks. `sensible` is the iterator's answer. `newbuf_atp` is taken to succeed, and
   * freeing buffers is not modelled.
   */
  method HandleGetZoneList(packet: Buffer, v: View, sensible: bool, out: Outbox)
    requires packet.Valid() && |packet.payload| >= AtpHeaderLen
    modifies out
    ensures out.sent == old(out.sent) + GetZoneListReplies(v, Header(packet), packet.payload, TransactionId(packet), sensible)
  {
    var f := Header(packet);
    var p := packet.payload;
    var tid := TransactionId(packet);
    var onlyLocalZones: bool;
    if p[UserData] == GetZoneListCommand {
      onlyLocalZones := false;
    } else if p[UserData] == GetLocalZonesCommand {
      onlyLocalZones := true;
    } else {
      OtherCommandsUnanswered(v, f, p, tid, sensible);
      return;
    }
    var startIndex: u16 := Be16(p[6], p[7]);
    WrapDown(startIndex);
    startIndex := if startIndex == 0 then 0xFFFF else startIndex - 1;
    assert startIndex == StartIndex(p);
    var localNet: u16 := 0;
    if onlyLocalZones {
      localNet := f.srcNet;
      if !v.complete(localNet) {
        IncompleteLocalNetUnanswered(v, f, p, tid, sensible);
        return;
      }
    }
    var zs := ZonesFrom(if onlyLocalZones then v.zones(localNet) else v.allZones, startIndex);
    assert zs == RequestedZones(v, f, p);
    var buffer := BuildReply(zs, tid, sensible);
    if buffer == null {
      assert GetZoneListReplies(v, f, p, tid, sensible) == [];
      return;
    }
    assert GetZoneListReplies(v, f, p, tid, sensible) == [DdpSend(buffer.payload, SocketZip, f.srcNet, f.src, f.srcSock, TypeAtp)];
    var ok := out.HandToDdp(buffer, SocketZip, f.srcNet, f.src, f.srcSock, TypeAtp);
  }

  /** A 16-bit decrement: 0 wraps round to 65535. */
  lemma WrapDown(x: int)
    requires 0 <= x < 0x1_0000
    ensures (x + 0xFFFF) % 0x1_0000 == if x == 0 then 0xFFFF else x - 1
  {
    if x > 0 {
      assert x + 0xFFFF == 0x1_0000 + (x - 1);
    }
  }

  /** Storing the count into user bytes 2-3 of a stamped header. */
  lemma StoreCount(h: seq<byte>, last: byte, body: seq<byte>, hi: byte, lo: byte)
    requires |h| == 4
    ensures (h + ([last, 0, 0, 0] + body))[6 := hi][7 := lo] == h + [last, 0] + [hi, lo] + body
  {
    var a := (h + ([last, 0, 0, 0] + body))[6 := hi][7 := lo];
    var b := h + [last, 0] + [hi, lo] + body;
    assert |a| == |b|;
    forall k | 0 <= k < |a|
      ensures a[k] == b[k]
    {
      if k >= 8 {
        assert a[k] == body[k - 8];
      }
    }
  }

  // ---------------------------------------------------------------------------
  // What the reply promises

  /** The names appended are exactly the ones before the first the callback refuses. */
  lemma {:induction false} TakenIsFirstRefusal(zs: seq<pstring>, k: nat)
    requires k <= |zs|
    ensures k <= Taken(zs, k) <= |zs|
    ensures forall j :: k <= j < Taken(zs, k) ==> Takes(zs, j)
    ensures Taken(zs, k) < |zs| ==> !Takes(zs, Taken(zs, k))
    decreases |zs| - k
  {
    if k < |zs| && Takes(zs, k) {
      TakenIsFirstRefusal(zs, k + 1);
    }
  }

  /** Every name takes at least its length byte. */
  lemma {:induction false} ZoneBytesAtLeastOnePerName(zs: seq<pstring>)
    ensures |ZoneBytes(zs)| >= |zs|
    decreases |zs|
  {
    if zs != [] {
      ZoneBytesAtLeastOnePerName(zs[..|zs| - 1]);
    }
  }

  /** The names of a prefix of the list take no more room than the whole list's. */
  lemma {:induction false} ZoneBytesOfPrefix(zs: seq<pstring>, k: nat)
    requires k <= |zs|
    ensures |ZoneBytes(zs[..k])| <= |ZoneBytes(zs)|
    decreases |zs|
  {
    if k < |zs| {
      var init := zs[..|zs| - 1];
      assert init[..k] == zs[..k];
      ZoneBytesOfPrefix(init, k);
    } else {
      assert zs[..k] == zs;
    }
  }

  /** The names appended fill the payload to at most 586 bytes. */
  lemma NamesFit(zs: seq<pstring>)
    ensures AtpHeaderLen + |ZoneBytes(zs[..Taken(zs, 0)])| <= MaxPayload
  {
    var n := Taken(zs, 0);
    TakenIsFirstRefusal(zs, 0);
    if n > 0 {
      assert Takes(zs, n - 1);
      ZoneBytesStep(zs, n - 1);
    }
  }

  /**
   * The reply fits a DDP payload; it carries the request's transaction id, the names up to the
   * first one that would not have fitted, their number exactly, and the LastFlag exactly when no
   * name was left out; and a name left out would indeed have overflowed the payload.
   */
  lemma ReplyLayout(tid: u16, zs: seq<pstring>)
    ensures var r, n := ZoneListReply(tid, zs), Taken(zs, 0);
      |r| <= MaxPayload && n <= |zs| &&
      r[..2] == [TRespEom, 0] && Be16(r[2], r[3]) == tid &&
      (r[UserData] == 1 <==> n == |zs|) && r[UserData + 1] == 0 &&
      n < 0x1_0000 && Be16(r[6], r[7]) == n &&
      r[AtpHeaderLen..] == ZoneBytes(zs[..n]) &&
      (n < |zs| ==> |r| + |zs[n]| >= MaxPayload)
  {
    var n := Taken(zs, 0);
    TakenIsFirstRefusal(zs, 0);
    NamesFit(zs);
    ZoneBytesAtLeastOnePerName(zs[..n]);
    assert n < 0x1_0000;
    ReplyHeaderLayout(tid, n == |zs|, n, ZoneBytes(zs[..n]));
    if n < |zs| {
      assert !Takes(zs, n);
    }
  }

  /** A stamped reply reads back field by field: TResp with EOM, the TID, the LastFlag, the count, the body. */
  lemma ReplyHeaderLayout(tid: u16, last: bool, n: u16, body: seq<byte>)
    ensures var r := [TRespEom, 0] + Be16Bytes(tid) + [BoolByte(last), 0] + Be16Bytes(n % 0x1_0000) + body;
      |r| == AtpHeaderLen + |body| &&
      r[..2] == [TRespEom, 0] && Be16(r[2], r[3]) == tid &&
      r[UserData] == BoolByte(last) && r[UserData + 1] == 0 &&
      Be16(r[6], r[7]) == n && r[AtpHeaderLen..] == body
  {
    var m := n % 0x1_0000;
    assert m == n;
    var t, c := Be16Bytes(tid), Be16Bytes(m);
    var h := [TRespEom, 0, t[0], t[1], BoolByte(last), 0, c[0], c[1]];
    var r := [TRespEom, 0] + t + [BoolByte(last), 0] + c + body;
    assert r == h + body;
    assert r[2] == t[0] && r[3] == t[1] && r[6] == c[0] && r[7] == c[1];
    assert r[..2] == [TRespEom, 0];
    assert r[AtpHeaderLen..] == body;
  }

  /** The LastFlag is set exactly when every remaining name fits in the one reply. */
  lemma LastFlagIffAllFit(zs: seq<pstring>)
    ensures Taken(zs, 0) == |zs| <==> AtpHeaderLen + |ZoneBytes(zs)| <= MaxPayload
  {
    TakenIsFirstRefusal(zs, 0);
    NamesFit(zs);
    if Taken(zs, 0) == |zs| {
      assert zs[..|zs|] == zs;
    } else {
      var n := Taken(zs, 0);
      assert !Takes(zs, n);
      ZoneBytesStep(zs, n);
      ZoneBytesOfPrefix(zs, n + 1);
    }
  }

  /** GetMyZone, and any command other than 8 and 9, gets no reply. */
  lemma OtherCommandsUnanswered(v: View, f: Fields, p: seq<byte>, tid: u16, sensible: bool)
    requires |p| >= AtpHeaderLen && p[UserData] != GetZoneListCommand && p[UserData] != GetLocalZonesCommand
    ensures GetZoneListReplies(v, f, p, tid, sensible) == []
  {
  }

  /** GetLocalZones for a network that is missing or incomplete gets no reply. */
  lemma IncompleteLocalNetUnanswered(v: View, f: Fields, p: seq<byte>, tid: u16, sensible: bool)
    requires |p| >= AtpHeaderLen && p[UserData] == GetLocalZonesCommand && !v.complete(f.srcNet)
    ensures GetZoneListReplies(v, f, p, tid, sensible) == []
  {
  }

  /** Index 1 is the first name; index 0 wraps round to 65535. */
  lemma StartIndexIsOneBased(p: seq<byte>)
    requires |p| >= AtpHeaderLen
    ensures Be16(p[6], p[7]) == 0 ==> StartIndex(p) == 0xFFFF
    ensures Be16(p[6], p[7]) > 0 ==> StartIndex(p) == Be16(p[6], p[7]) - 1
  {
    WrapDown(Be16(p[6], p[7]));
  }
}
