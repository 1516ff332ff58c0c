/**
 * Packet buffers. A buffer holds one DDP packet: a short (LocalTalk) or long header followed by
 * the DDP payload, plus where the packet came from and where it is sent next. The L2 framing
 * around the packet, and the buffer helpers' own code, are not part of this model: the helpers
 * used by the core are given here with the contract the core relies on.
 */
module Buffers {
  import opened Bytes
  import opened Laps

  /** `buffer_ddp_type_t`. */
  datatype HeaderKind = ShortHeader | LongHeader

  /** `sizeof(ddp_short_header_t)` and `sizeof(ddp_long_header_t)`. */
  function HeaderLen(kind: HeaderKind): nat {
    if kind == ShortHeader then 8 else 13
  }

  /** A snapshot of a buffer's DDP packet, as handed to a LAP. */
  datatype Packet = Packet(kind: HeaderKind, header: seq<byte>, payload: seq<byte>)

  class Buffer {
    var ddpReady: bool
    var kind: HeaderKind
    var header: seq<byte>
    /** `ddp_payload`, `ddp_payload_length` bytes long. */
    var payload: seq<byte>
    /** How many payload bytes the buffer's memory has room for. */
    const payloadCapacity: nat
    /** `recv_chain.lap`. */
    var recvLap: Lap?
    /** `send_chain.via_net` and `send_chain.via_node`: the next hop. */
    var viaNet: u16
    var viaNode: byte

    ghost predicate Valid()
      reads this
    {
      |header| == HeaderLen(kind) && |payload| <= payloadCapacity
    }

    /** The DDP packet, header then payload; its length is `ddp_length`. */
    function DdpData(): seq<byte>
      reads this
    {
      header + payload
    }

    function Snapshot(): Packet
      reads this
    {
      Packet(kind, header, payload)
    }

    /** Everything but the payload is as before. */
    twostate predicate OnlyPayloadChanged()
      reads this
    {
      ddpReady == old(ddpReady) && kind == old(kind) && header == old(header) &&
      recvLap == old(recvLap) && viaNet == old(viaNet) && viaNode == old(viaNode)
    }

    /** Everything but the header is as before. */
    twostate predicate OnlyHeaderChanged()
      reads this
    {
      ddpReady == old(ddpReady) && kind == old(kind) && payload == old(payload) &&
      recvLap == old(recvLap) && viaNet == old(viaNet) && viaNode == old(viaNode)
    }

    /** `newbuf_ddp` (or `wrapbuf` when not DDP-ready): a zeroed header and an empty payload. */
    constructor (ready: bool, kind: HeaderKind, payloadCapacity: nat)
      ensures Valid() && ddpReady == ready && this.kind == kind && this.payloadCapacity == payloadCapacity
      ensures header == seq(HeaderLen(kind), _ => 0) && payload == []
      ensures recvLap == null && viaNet == 0 && viaNode == 0
    {
      ddpReady, this.kind, this.payloadCapacity := ready, kind, payloadCapacity;
      header := seq(HeaderLen(kind), _ => 0);
      payload := [];
      recvLap, viaNet, viaNode := null, 0, 0;
    }

    /** `buf_append_all`: the bytes are appended when the buffer has room, and nothing changes otherwise. */
    method AppendAll(data: seq<byte>) returns (ok: bool)
      requires Valid()
      modifies this
      ensures Valid() && OnlyPayloadChanged()
      ensures ok <==> |old(payload)| + |data| <= payloadCapacity
      ensures payload == if ok then old(payload) + data else old(payload)
    {
      if |payload| + |data| <= payloadCapacity {
        payload := payload + data;
        return true;
      }
      return false;
    }

    /** `buf_append`. */
    method Append(b: byte) returns (ok: bool)
      requires Valid()
      modifies this
      ensures Valid() && OnlyPayloadChanged()
      ensures ok <==> |old(payload)| < payloadCapacity
      ensures payload == if ok then old(payload) + [b] else old(payload)
    {
      ok := AppendAll([b]);
    }

    /** `buf_append_uint16`: network byte order. */
    method AppendU16(n: u16) returns (ok: bool)
      requires Valid()
      modifies this
      ensures Valid() && OnlyPayloadChanged()
      ensures ok <==> |old(payload)| + 2 <= payloadCapacity
      ensures payload == if ok then old(payload) + Be16Bytes(n) else old(payload)
    {
      ok := AppendAll(Be16Bytes(n));
    }

    /** `buf_append_pstring`: the length byte, then the bytes. */
    method AppendPString(s: pstring) returns (ok: bool)
      requires Valid()
      modifies this
      ensures Valid() && OnlyPayloadChanged()
      ensures ok <==> |old(payload)| + |s| + 1 <= payloadCapacity
      ensures payload == if ok then old(payload) + PStringBytes(s) else old(payload)
    {
      ok := AppendAll(PStringBytes(s));
    }

    /** `buf_expand_payload`: `n` more payload bytes, zero here, when there is room. */
    method ExpandPayload(n: nat)
      requires Valid()
      modifies this
      ensures Valid() && OnlyPayloadChanged()
      ensures payload == if |old(payload)| + n <= payloadCapacity then old(payload) + seq(n, _ => 0) else old(payload)
    {
      if |payload| + n <= payloadCapacity {
        payload := payload + seq(n, _ => 0);
      }
    }

    /** `buf_trim_payload`: the last `n` payload bytes (all of them, if fewer) are dropped. */
    method TrimPayload(n: nat)
      requires Valid()
      modifies this
      ensures Valid() && OnlyPayloadChanged()
      ensures payload == old(payload)[..if n <= |old(payload)| then |old(payload)| - n else 0]
    {
      if n <= |payload| {
        payload := payload[..|payload| - n];
      } else {
        payload := [];
      }
    }
  }
}
