/**
 * What leaves the router's protocol code: a packet handed to a LAP (`lsend`), or a datagram handed
 * to DDP for routing (`ddp_send`) or for sending through a given LAP (`ddp_send_via`). LAP queues
 * and transports are not part of this model; each hand-off is recorded, in order.
 */
module Outbox {
  import opened Bytes
  import opened Laps
  import opened Buffers

  datatype Sent =
    /** `lsend(lap, packet)`, with the packet's next hop from its send chain. */
    | LapSend(lap: Lap, packet: Packet, viaNet: u16, viaNode: byte)
    /** `ddp_send(packet, srcSocket, destNet, destNode, destSocket, ddpType)`. */
    | DdpSend(payload: seq<byte>, srcSocket: byte, destNet: u16, destNode: byte, destSocket: byte, ddpType: byte)
    /** `ddp_send_via(...)` through the LAP `via`. */
    | DdpSendVia(payload: seq<byte>, srcSocket: byte, destNet: u16, destNode: byte, destSocket: byte, ddpType: byte, via: Lap)

  class Outbox {
    /** What `lsend` answers: whether the LAP's queue takes the packet. */
    const lapAccepts: bool
    /** What `ddp_send` and `ddp_send_via` answer when handed a datagram. */
    const ddpAccepts: bool
    var sent: seq<Sent>

    constructor (lapAccepts: bool, ddpAccepts: bool)
      ensures this.lapAccepts == lapAccepts && this.ddpAccepts == ddpAccepts && sent == []
    {
      this.lapAccepts, this.ddpAccepts := lapAccepts, ddpAccepts;
      sent := [];
    }

    /** `lsend`: a packet the LAP takes is recorded as it is now. */
    method LSend(lap: Lap, b: Buffer) returns (ok: bool)
      modifies this
      ensures ok == lapAccepts
      ensures sent == old(sent) + if lapAccepts then [LapSend(lap, b.Snapshot(), b.viaNet, b.viaNode)] else []
    {
      if lapAccepts {
        sent := sent + [LapSend(lap, b.Snapshot(), b.viaNet, b.viaNode)];
      }
      return lapAccepts;
    }

    /** A protocol handler's `ddp_send` call; `DdpSend.Send` models what DDP then does with it. */
    method HandToDdp(b: Buffer, srcSocket: byte, destNet: u16, destNode: byte, destSocket: byte, ddpType: byte) returns (ok: bool)
      modifies this
      ensures ok == ddpAccepts
      ensures sent == old(sent) + [DdpSend(b.payload, srcSocket, destNet, destNode, destSocket, ddpType)]
    {
      sent := sent + [DdpSend(b.payload, srcSocket, destNet, destNode, destSocket, ddpType)];
      return ddpAccepts;
    }

    /** A protocol handler's `ddp_send_via` call; `DdpSend.SendVia` models what DDP then does with it. */
    method HandToDdpVia(b: Buffer, srcSocket: byte, destNet: u16, destNode: byte, destSocket: byte, ddpType: byte, via: Lap) returns (ok: bool)
      modifies this
      ensures ok == ddpAccepts
      ensures sent == old(sent) + [DdpSendVia(b.payload, srcSocket, destNet, destNode, destSocket, ddpType, via)]
    {
      sent := sent + [DdpSendVia(b.payload, srcSocket, destNet, destNode, destSocket, ddpType, via)];
      return ddpAccepts;
    }
  }
}
