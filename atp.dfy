/**
 * The AppleTalk Transaction Protocol header at the start of a DDP payload: control byte, bitmap,
 * transaction id (big-endian) and four user bytes. The control byte packs the function (bits 7-6),
 * XO (bit 5), EOM (bit 4), STS (bit 3) and the timeout indicator (bits 2-0).
 */
module Atp {
  import opened Bytes
  import opened Buffers

  /** `sizeof(atp_packet_t)`. */
  const AtpHeaderLen: nat := 8

  /** `atp_function_t`. */
  const Unknown: byte := 0
  const TReq: byte := 1
  const TResp: byte := 2
  const TRel: byte := 3

  /** `atp_timeout_indicator`. */
  const Timeout30Sec: byte := 0
  const Timeout1Min: byte := 1
  const Timeout2Min: byte := 2
  const Timeout4Min: byte := 3
  const Timeout8Min: byte := 4

  /** `(control_info >> shift) & mask`. */
  function FieldOf(ci: bv8, mask: bv8, shift: nat): bv8
    requires shift < 8
  {
    (ci >> shift) & mask
  }

  /** The control byte with the bits under `mask << shift` replaced by `value & mask`. */
  function WithFieldOf(ci: bv8, mask: bv8, shift: nat, value: bv8): bv8
    requires shift < 8
  {
    (ci & !(mask << shift)) | ((value & mask) << shift)
  }

  /** The five fields of a control byte. */
  datatype Control = Control(fn: bv8, xo: bv8, eom: bv8, sts: bv8, timeout: bv8)

  function DecodeControl(ci: bv8): Control {
    Control(FieldOf(ci, 3, 6), FieldOf(ci, 1, 5), FieldOf(ci, 1, 4), FieldOf(ci, 1, 3), FieldOf(ci, 7, 0))
  }

  /** The fields partition the byte: reassembling them gives the byte back. */
  lemma ControlLayout(ci: bv8)
    ensures var c := DecodeControl(ci);
      ci == (c.fn << 6) | (c.xo << 5) | (c.eom << 4) | (c.sts << 3) | c.timeout
  {
  }

  /** Each setter changes its own field to `value & mask` and no other field. */
  lemma SetFunctionField(ci: bv8, v: bv8)
    ensures DecodeControl(WithFieldOf(ci, 3, 6, v)) == DecodeControl(ci).(fn := v & 3)
  {
    var r := WithFieldOf(ci, 3, 6, v);
    assert FieldOf(r, 3, 6) == v & 3;
    assert FieldOf(r, 1, 5) == FieldOf(ci, 1, 5);
    assert FieldOf(r, 1, 4) == FieldOf(ci, 1, 4);
    assert FieldOf(r, 1, 3) == FieldOf(ci, 1, 3);
    assert FieldOf(r, 7, 0) == FieldOf(ci, 7, 0);
  }

  lemma SetXoField(ci: bv8, v: bv8)
    ensures DecodeControl(WithFieldOf(ci, 1, 5, v)) == DecodeControl(ci).(xo := v & 1)
  {
    var r := WithFieldOf(ci, 1, 5, v);
    assert FieldOf(r, 3, 6) == FieldOf(ci, 3, 6);
    assert FieldOf(r, 1, 5) == v & 1;
    assert FieldOf(r, 1, 4) == FieldOf(ci, 1, 4);
    assert FieldOf(r, 1, 3) == FieldOf(ci, 1, 3);
    assert FieldOf(r, 7, 0) == FieldOf(ci, 7, 0);
  }

  lemma SetEomField(ci: bv8, v: bv8)
    ensures DecodeControl(WithFieldOf(ci, 1, 4, v)) == DecodeControl(ci).(eom := v & 1)
  {
    var r := WithFieldOf(ci, 1, 4, v);
    assert FieldOf(r, 3, 6) == FieldOf(ci, 3, 6);
    assert FieldOf(r, 1, 5) == FieldOf(ci, 1, 5);
    assert FieldOf(r, 1, 4) == v & 1;
    assert FieldOf(r, 1, 3) == FieldOf(ci, 1, 3);
    assert FieldOf(r, 7, 0) == FieldOf(ci, 7, 0);
  }

  lemma SetStsField(ci: bv8, v: bv8)
    ensures DecodeControl(WithFieldOf(ci, 1, 3, v)) == DecodeControl(ci).(sts := v & 1)
  {
    var r := WithFieldOf(ci, 1, 3, v);
    assert FieldOf(r, 3, 6) == FieldOf(ci, 3, 6);
    assert FieldOf(r, 1, 5) == FieldOf(ci, 1, 5);
    assert FieldOf(r, 1, 4) == FieldOf(ci, 1, 4);
    assert FieldOf(r, 1, 3) == v & 1;
    assert FieldOf(r, 7, 0) == FieldOf(ci, 7, 0);
  }

  lemma SetTimeoutField(ci: bv8, v: bv8)
    ensures DecodeControl(WithFieldOf(ci, 7, 0, v)) == DecodeControl(ci).(timeout := v & 7)
  {
    var r := WithFieldOf(ci, 7, 0, v);
    assert FieldOf(r, 3, 6) == FieldOf(ci, 3, 6);
    assert FieldOf(r, 1, 5) == FieldOf(ci, 1, 5);
    assert FieldOf(r, 1, 4) == FieldOf(ci, 1, 4);
    assert FieldOf(r, 1, 3) == FieldOf(ci, 1, 3);
    assert FieldOf(r, 7, 0) == v & 7;
  }

  /** The control-field test's vectors. */
  lemma ControlVectors()
    ensures DecodeControl(0xAA) == Control(2, 1, 0, 1, 2)
    ensures WithFieldOf(0xAA, 3, 6, 3) == 0xEA && WithFieldOf(0xAA, 3, 6, 0) == 0x2A
    ensures WithFieldOf(0xAA, 1, 5, 0) == 0x8A && WithFieldOf(0xAA, 1, 4, 1) == 0xBA
    ensures WithFieldOf(0xAA, 1, 3, 0) == 0xA2
    ensures WithFieldOf(0xAA, 7, 0, 4) == 0xAC && WithFieldOf(0xAA, 7, 0, 1) == 0xA9
    ensures WithFieldOf(0xAA, 7, 0, 3 | 0x10) == 0xAB
  {
  }

  // ---------------------------------------------------------------------------
  // On a buffer

  /** `atp_packet_get_control_info_field`: 0 when the payload cannot hold an ATP header. */
  function ControlInfoField(b: Buffer, mask: bv8, shift: nat): int
    reads b
    requires shift < 8
  {
    if |b.payload| < AtpHeaderLen then 0 else FieldOf(b.payload[0] as bv8, mask, shift) as int
  }

  /** `atp_packet_set_control_info_field`: refused, with nothing written, on a short payload. */
  method SetControlInfoField(b: Buffer, mask: bv8, shift: nat, value: byte) returns (ok: bool)
    requires b.Valid() && shift < 8
    modifies b
    ensures b.Valid() && b.OnlyPayloadChanged()
    ensures ok <==> |old(b.payload)| >= AtpHeaderLen
    ensures b.payload == if ok then old(b.payload)[0 := WithFieldOf(old(b.payload)[0] as bv8, mask, shift, value as bv8) as int]
                         else old(b.payload)
  {
    if |b.payload| < AtpHeaderLen {
      return false;
    }
    var controlInfo := WithFieldOf(b.payload[0] as bv8, mask, shift, value as bv8);
    var stored: byte := controlInfo as int;
    b.payload := b.payload[0 := stored];
    return true;
  }

  function FunctionCode(b: Buffer): int reads b { ControlInfoField(b, 3, 6) }
  function Xo(b: Buffer): bool reads b { ControlInfoField(b, 1, 5) != 0 }
  function Eom(b: Buffer): bool reads b { ControlInfoField(b, 1, 4) != 0 }
  function Sts(b: Buffer): bool reads b { ControlInfoField(b, 1, 3) != 0 }
  function TimeoutIndicator(b: Buffer): int reads b { ControlInfoField(b, 7, 0) }

  function BoolByte(x: bool): byte { if x then 1 else 0 }

  /** `atp_packet_set_function`. */
  method SetFunction(b: Buffer, fn: byte) returns (ok: bool)
    requires b.Valid()
    modifies b
    ensures b.Valid() && b.OnlyPayloadChanged()
    ensures ok <==> |old(b.payload)| >= AtpHeaderLen
    ensures b.payload == if ok then old(b.payload)[0 := WithFieldOf(old(b.payload)[0] as bv8, 3, 6, fn as bv8) as int] else old(b.payload)
  {
    ok := SetControlInfoField(b, 3, 6, fn);
  }

  /** `atp_packet_set_eom`. */
  method SetEom(b: Buffer, eom: bool) returns (ok: bool)
    requires b.Valid()
    modifies b
    ensures b.Valid() && b.OnlyPayloadChanged()
    ensures ok <==> |old(b.payload)| >= AtpHeaderLen
    ensures b.payload == if ok then old(b.payload)[0 := WithFieldOf(old(b.payload)[0] as bv8, 1, 4, BoolByte(eom) as bv8) as int] else old(b.payload)
  {
    ok := SetControlInfoField(b, 1, 4, BoolByte(eom));
  }

  /** `atp_packet_set_xo`, `atp_packet_set_sts` and `atp_packet_set_timeout_indicator` are the same shape. */
  method SetXo(b: Buffer, xo: bool) returns (ok: bool)
    requires b.Valid()
    modifies b
    ensures b.Valid() && b.OnlyPayloadChanged()
    ensures ok <==> |old(b.payload)| >= AtpHeaderLen
    ensures b.payload == if ok then old(b.payload)[0 := WithFieldOf(old(b.payload)[0] as bv8, 1, 5, BoolByte(xo) as bv8) as int] else old(b.payload)
  {
    ok := SetControlInfoField(b, 1, 5, BoolByte(xo));
  }

  method SetSts(b: Buffer, sts: bool) returns (ok: bool)
    requires b.Valid()
    modifies b
    ensures b.Valid() && b.OnlyPayloadChanged()
    ensures ok <==> |old(b.payload)| >= AtpHeaderLen
    ensures b.payload == if ok then old(b.payload)[0 := WithFieldOf(old(b.payload)[0] as bv8, 1, 3, BoolByte(sts) as bv8) as int] else old(b.payload)
  {
    ok := SetControlInfoField(b, 1, 3, BoolByte(sts));
  }

  method SetTimeoutIndicator(b: Buffer, t: byte) returns (ok: bool)
    requires b.Valid()
    modifies b
    ensures b.Valid() && b.OnlyPayloadChanged()
    ensures ok <==> |old(b.payload)| >= AtpHeaderLen
    ensures b.payload == if ok then old(b.payload)[0 := WithFieldOf(old(b.payload)[0] as bv8, 7, 0, t as bv8) as int] else old(b.payload)
  {
    ok := SetControlInfoField(b, 7, 0, t);
  }

  /** `atp_packet_get_transaction_id`: big-endian, 0 on a short payload. */
  function TransactionId(b: Buffer): u16
    reads b
  {
    if |b.payload| < AtpHeaderLen then 0 else Be16(b.payload[2], b.payload[3])
  }

  /** `atp_packet_set_transaction_id`. */
  method SetTransactionId(b: Buffer, tid: u16) returns (ok: bool)
    requires b.Valid()
    modifies b
    ensures b.Valid() && b.OnlyPayloadChanged()
    ensures ok <==> |old(b.payload)| >= AtpHeaderLen
    ensures b.payload == if ok then old(b.payload)[2 := tid / 256][3 := tid % 256] else old(b.payload)
  {
    if |b.payload| < AtpHeaderLen {
      return false;
    }
    b.payload := b.payload[2 := tid / 256][3 := tid % 256];
    return true;
  }

  /** `atp_packet_get_payload`: where the ATP data starts, if the header fits. */
  function PayloadStart(b: Buffer): Option<nat>
    reads b
  {
    if |b.payload| < AtpHeaderLen then None else Some(AtpHeaderLen)
  }

  /** On a payload too short for the header every reader gives 0 (or false) and nothing is found. */
  lemma ShortPayloadReadsZero(b: Buffer)
    requires |b.payload| < AtpHeaderLen
    ensures FunctionCode(b) == 0 && !Xo(b) && !Eom(b) && !Sts(b) && TimeoutIndicator(b) == 0
    ensures TransactionId(b) == 0 && PayloadStart(b) == None
  {
  }

  /** What a setter wrote, the matching reader reads back (masked), and the other fields are kept. */
  lemma FieldReadBack(p: seq<byte>, mask: bv8, shift: nat, v: byte, ci: byte)
    requires |p| >= AtpHeaderLen && shift < 8 && ci == WithFieldOf(p[0] as bv8, mask, shift, v as bv8) as int
    requires (mask, shift) in {(3 as bv8, 6), (1 as bv8, 5), (1 as bv8, 4), (1 as bv8, 3), (7 as bv8, 0)}
    ensures FieldOf(ci as bv8, mask, shift) == v as bv8 & mask
  {
    var c, w := p[0] as bv8, v as bv8;
    assert ci as bv8 == WithFieldOf(c, mask, shift, w);
    if shift == 6 {
      SetFunctionField(c, w);
    } else if shift == 5 {
      SetXoField(c, w);
    } else if shift == 4 {
      SetEomField(c, w);
    } else if shift == 3 {
      SetStsField(c, w);
    } else {
      SetTimeoutField(c, w);
    }
  }

  /** The transaction id round-trips through set and get. */
  lemma TransactionIdReadBack(p: seq<byte>, tid: u16)
    requires |p| >= AtpHeaderLen
    ensures var q := p[2 := tid / 256][3 := tid % 256];
      Be16(q[2], q[3]) == tid && q[0] == p[0] && q[4..] == p[4..]
  {
  }

  /** `newbuf_atp`: a fresh DDP buffer with room made for the ATP header. */
  method NewAtpBuffer(kind: HeaderKind, payloadCapacity: nat) returns (b: Buffer)
    ensures fresh(b) && b.Valid() && b.ddpReady && b.kind == kind && b.payloadCapacity == payloadCapacity
    ensures b.payload == if AtpHeaderLen <= payloadCapacity then seq(AtpHeaderLen, _ => 0) else []
  {
    b := new Buffer(true, kind, payloadCapacity);
    b.ExpandPayload(AtpHeaderLen);
  }

  /** The control byte of a fresh ATP header once a responder has set TResp and EOM. */
  const TRespEom: byte := 0x90

  /**
   * How the SIP and GetZoneList responders stamp a reply: TResp, end of message and the request's
   * transaction id on a zeroed ATP header.
   */
  method StampResponse(reply: Buffer, tid: u16)
    requires reply.Valid() && |reply.payload| >= AtpHeaderLen && reply.payload[..4] == [0, 0, 0, 0]
    modifies reply
    ensures reply.Valid() && reply.OnlyPayloadChanged()
    ensures reply.payload == [TRespEom, 0] + Be16Bytes(tid) + old(reply.payload)[4..]
  {
    var ok := SetFunction(reply, TResp);
    ok := SetEom(reply, true);
    TRespEomControl();
    ok := SetTransactionId(reply, tid);
  }

  /** Setting TResp and then EOM on a zero control byte gives 0x90. */
  lemma TRespEomControl()
    ensures WithFieldOf(WithFieldOf(0, 3, 6, TResp as bv8), 1, 4, BoolByte(true) as bv8) == TRespEom as bv8
  {
  }
}
