/**
 * Recognising EtherTalk frames on the Ethernet input path. AppleTalk and AARP travel in IEEE 802.3
 * frames (the type/length field is a length, at most 1500) with an IEEE 802.2 LLC header
 * AA AA 03 and a 5-byte SNAP protocol discriminator, as in RFC 1042: 08 00 07 80 9B for AppleTalk
 * (EtherTalk Phase 2), 00 00 00 80 F3 for AARP. A frame is the `length` bytes the driver hands in.
 */
module Ethernet {
  import opened Bytes

  /** `sizeof(struct eth_hdr)` and `sizeof(snap_hdr_t)`; the SNAP header follows the Ethernet header. */
  const EthHeaderLen: nat := 14
  const SnapHeaderLen: nat := 8
  const MaxLengthField: nat := 1500

  const SnapSap: byte := 0xAA
  const LlcUnnumbered: byte := 3

  /** The AppleTalk discriminator: OUI 08-00-07, type 80-9B; and the AARP one: OUI 00-00-00, type 80-F3. */
  const AppleTalkTop: byte := 0x08
  const AarpTop: byte := 0x00
  const AppleTalkBottom: seq<byte> := [0x00, 0x07, 0x80, 0x9B]
  const AarpBottom: seq<byte> := [0x00, 0x00, 0x80, 0xF3]

  /** The Ethernet header's type/length field, in host order. */
  function TypeOrLength(f: seq<byte>): u16
    requires |f| >= EthHeaderLen
  {
    Be16(f[12], f[13])
  }

  /**
   * The REQUIRE chain both predicates share: long enough for both headers, a length rather than
   * an EtherType, the SNAP SAPs and control byte, then the discriminator's top byte and the four
   * bytes after it (stored in network order).
   */
  predicate IsSnapFrame(f: seq<byte>, top: byte, bottom: seq<byte>) {
    |f| >= EthHeaderLen + SnapHeaderLen &&
    TypeOrLength(f) <= MaxLengthField &&
    f[14] == SnapSap && f[15] == SnapSap && f[16] == LlcUnnumbered &&
    f[17] == top && f[18..22] == bottom
  }

  /** `is_appletalk_frame` in net/ethernet/ethernet.c. */
  predicate IsAppleTalkFrame(f: seq<byte>) {
    IsSnapFrame(f, AppleTalkTop, AppleTalkBottom)
  }

  /** `is_aarp_frame`, the same in both Ethernet files. */
  predicate IsAarpFrame(f: seq<byte>) {
    IsSnapFrame(f, AarpTop, AarpBottom)
  }

  /** `is_appletalk_frame` in the older net/ethernet.c, which wants top byte 0x80. */
  predicate IsAppleTalkFrameAsWritten(f: seq<byte>) {
    IsSnapFrame(f, 0x80, AppleTalkBottom)
  }

  // ---------------------------------------------------------------------------
  // A reference: SNAP encapsulation written out

  /** An 802.3 frame carrying a SNAP packet: addresses, length, LLC, OUI, EtherType, then the packet. */
  function SnapEncapsulated(dst: seq<byte>, src: seq<byte>, len: u16, oui: seq<byte>, etherType: u16, rest: seq<byte>): seq<byte>
    requires |dst| == 6 && |src| == 6 && |oui| == 3
  {
    dst + src + Be16Bytes(len) + [SnapSap, SnapSap, LlcUnnumbered] + oui + Be16Bytes(etherType) + rest
  }

  const AppleOui: seq<byte> := [0x08, 0x00, 0x07]
  const ZeroOui: seq<byte> := [0x00, 0x00, 0x00]
  const EtherTypeAppleTalk: u16 := 0x809B
  const EtherTypeAarp: u16 := 0x80F3

  lemma SnapEncapsulatedBytes(dst: seq<byte>, src: seq<byte>, len: u16, oui: seq<byte>, etherType: u16, rest: seq<byte>)
    requires |dst| == 6 && |src| == 6 && |oui| == 3
    ensures var f := SnapEncapsulated(dst, src, len, oui, etherType, rest);
      |f| == 22 + |rest| && f[..6] == dst && f[6..12] == src && TypeOrLength(f) == len &&
      f[14] == SnapSap && f[15] == SnapSap && f[16] == LlcUnnumbered &&
      f[17..20] == oui && Be16(f[20], f[21]) == etherType && f[22..] == rest
  {
    var f := SnapEncapsulated(dst, src, len, oui, etherType, rest);
    assert f[12..14] == Be16Bytes(len);
    assert f[20..22] == Be16Bytes(etherType);
  }

  /** A frame is AppleTalk exactly when it is an AppleTalk SNAP encapsulation with an 802.3 length. */
  lemma AppleTalkFrameIsSnapEncapsulation(f: seq<byte>)
    ensures IsAppleTalkFrame(f) <==>
      |f| >= 22 && TypeOrLength(f) <= MaxLengthField &&
      f == SnapEncapsulated(f[..6], f[6..12], TypeOrLength(f), AppleOui, EtherTypeAppleTalk, f[22..])
  {
    if |f| >= 22 {
      var g := SnapEncapsulated(f[..6], f[6..12], TypeOrLength(f), AppleOui, EtherTypeAppleTalk, f[22..]);
      SnapEncapsulatedBytes(f[..6], f[6..12], TypeOrLength(f), AppleOui, EtherTypeAppleTalk, f[22..]);
      if IsAppleTalkFrame(f) {
        assert f[12..14] == Be16Bytes(TypeOrLength(f));
        assert f == f[..6] + f[6..12] + f[12..14] + f[14..17] + f[17..20] + f[20..22] + f[22..];
      }
      if f == g {
        assert f[18..22] == g[18..22];
      }
    }
  }

  /** Likewise for AARP. */
  lemma AarpFrameIsSnapEncapsulation(f: seq<byte>)
    ensures IsAarpFrame(f) <==>
      |f| >= 22 && TypeOrLength(f) <= MaxLengthField &&
      f == SnapEncapsulated(f[..6], f[6..12], TypeOrLength(f), ZeroOui, EtherTypeAarp, f[22..])
  {
    if |f| >= 22 {
      var g := SnapEncapsulated(f[..6], f[6..12], TypeOrLength(f), ZeroOui, EtherTypeAarp, f[22..]);
      SnapEncapsulatedBytes(f[..6], f[6..12], TypeOrLength(f), ZeroOui, EtherTypeAarp, f[22..]);
      if IsAarpFrame(f) {
        assert f[12..14] == Be16Bytes(TypeOrLength(f));
        assert f == f[..6] + f[6..12] + f[12..14] + f[14..17] + f[17..20] + f[20..22] + f[22..];
      }
      if f == g {
        assert f[18..22] == g[18..22];
      }
    }
  }

  /** No frame is both AppleTalk and AARP. */
  lemma AppleTalkAndAarpExclusive(f: seq<byte>)
    ensures !(IsAppleTalkFrame(f) && IsAarpFrame(f))
    ensures !(IsAppleTalkFrameAsWritten(f) && IsAarpFrame(f))
  {
  }

  /** Frames too short for both headers, and Ethernet II frames (an EtherType above 1500), are neither. */
  lemma OnlyShortSnapFramesQualify(f: seq<byte>)
    requires |f| < EthHeaderLen + SnapHeaderLen || TypeOrLength(f) > MaxLengthField
    ensures !IsAppleTalkFrame(f) && !IsAarpFrame(f) && !IsAppleTalkFrameAsWritten(f)
  {
  }

  /** An EtherTalk frame: the older predicate refuses it, the newer one accepts it. */
  lemma OldAppleTalkTopByteRejectsEtherTalk(f: seq<byte>)
    requires f == SnapEncapsulated(seq(6, _ => 0x09), seq(6, _ => 0x02), 30, AppleOui, EtherTypeAppleTalk, seq(8, _ => 0))
    ensures !IsAppleTalkFrameAsWritten(f) && IsAppleTalkFrame(f)
  {
    SnapEncapsulatedBytes(seq(6, _ => 0x09), seq(6, _ => 0x02), 30, AppleOui, EtherTypeAppleTalk, seq(8, _ => 0));
    assert f[17..20] == AppleOui;
    assert f[17] == 0x08;
    AppleTalkFrameIsSnapEncapsulation(f);
  }

  // ---------------------------------------------------------------------------
  // The input path

  /** What happens to a frame the driver delivers. */
  datatype InputAction =
    | Queued            // wrapped and sent to the EtherTalk inbound queue
    | DroppedQueueFull  // the inbound queue refused it
    | DroppedNoTransport
    | PassedToNetif     // handed to the IP stack unchanged

  /** `ethernet_input_path` in net/ethernet/ethernet.c; the queue's answer is a parameter. */
  function InputPath(f: seq<byte>, transportEnabled: bool, queueAccepts: bool): (a: InputAction)
    ensures a == PassedToNetif <==> !IsAppleTalkFrame(f) && !IsAarpFrame(f)
    ensures a == Queued <==> (IsAppleTalkFrame(f) || IsAarpFrame(f)) && transportEnabled && queueAccepts
  {
    if IsAppleTalkFrame(f) || IsAarpFrame(f) then
      if transportEnabled then (if queueAccepts then Queued else DroppedQueueFull)
      else DroppedNoTransport
    else PassedToNetif
  }

  /** `ethernet_input_path` in the older net/ethernet.c: it only logs, and passes every frame on. */
  function OldInputPath(f: seq<byte>): (a: InputAction)
    ensures a == PassedToNetif
  {
    PassedToNetif
  }

  /** A frame the router does not intercept reaches the IP stack on both input paths. */
  lemma NonAppleTalkPassesOnBothPaths(f: seq<byte>, transportEnabled: bool, queueAccepts: bool)
    requires !IsAppleTalkFrame(f) && !IsAarpFrame(f)
    ensures InputPath(f, transportEnabled, queueAccepts) == OldInputPath(f) == PassedToNetif
  {
  }
}
