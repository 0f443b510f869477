/** Captured packets, as far as recording looks at them. */
module Packets {
  import opened Bytes

  const TH_FIN: bv8 := 0x01
  const TH_SYN: bv8 := 0x02
  const TH_RST: bv8 := 0x04
  const TH_ACK: bv8 := 0x10

  /** An address as on the wire, and a port. */
  datatype Endpoint = Endpoint(addr: bytes, port: nat)

  datatype Transport = Tcp(flags: bv8, data: bytes) | Udp(data: bytes)

  /** `srcName` is the text form of the source address. */
  datatype Packet = Packet(src: Endpoint, dest: Endpoint, srcName: bytes, transport: Transport)

  /** Both addresses have the size that the network layer prescribes, and ports have 16 bits. */
  predicate WellFormed(p: Packet) {
    |p.src.addr| == |p.dest.addr| && p.src.port < 0x1_0000 && p.dest.port < 0x1_0000
  }

  predicate Has(p: Packet, flag: bv8) {
    p.transport.Tcp? && p.transport.flags & flag != 0
  }
}
