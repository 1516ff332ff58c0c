/** A link access protocol instance (a LAP): the per-port state that routes, the registry and the ZIP code share. */
module Laps {
  import opened Bytes

  class Lap {
    const id: int
    const quality: int
    /** Whether the LAP's transport can send to an Ethernet multicast address. */
    const supportsEtherMulticast: bool
    var myAddress: byte
    var myNetwork: u16
    var rangeStart: u16
    var rangeEnd: u16
    var myZone: Option<pstring>

    constructor (id: int, quality: int, supportsEtherMulticast: bool)
      ensures this.id == id && this.quality == quality && this.supportsEtherMulticast == supportsEtherMulticast
      ensures myAddress == 0 && myNetwork == 0 && rangeStart == 0 && rangeEnd == 0 && myZone == None
    {
      this.id := id;
      this.quality := quality;
      this.supportsEtherMulticast := supportsEtherMulticast;
      myAddress, myNetwork, rangeStart, rangeEnd, myZone := 0, 0, 0, 0, None;
    }
  }
}
