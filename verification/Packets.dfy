/** Machine integers and the record the parser fills and the detector reads. */
module Packets {
  type byte = x: int | 0 <= x < 0x100
  type u16 = x: int | 0 <= x < 0x1_0000
  type u32 = x: int | 0 <= x < 0x1_0000_0000
  type int32 = x: int | -0x8000_0000 <= x < 0x8000_0000

  // The dotted rendering of an address is injective, so addresses are compared as four bytes.
  datatype Address = Unset | Ipv4(a: byte, b: byte, c: byte, d: byte)

  datatype Protocol = Unnamed | Tcp | Udp | Icmp

  datatype PacketInfo = PacketInfo(
    src: Address,
    dst: Address,
    protocol: Protocol,
    srcPort: u16,
    dstPort: u16,
    ttl: byte,
    ipHeaderLen: u16,
    ipLen: u16,
    frameLen: u16,
    syn: bool,
    ack: bool,
    fin: bool,
    rst: bool,
    psh: bool,
    urg: bool,
    icmpType: byte,
    icmpCode: byte,
    timestamp: int,
    valid: bool)
}

/** The settings the detector runs with. */
module Settings {
  import opened Packets

  // Switches are C integers; any value but zero switches a rule on.
  datatype Config = Config(
    portScanThreshold: int32,
    portScanWindow: int32,
    synFloodThreshold: int32,
    synFloodWindow: int32,
    icmpFloodThreshold: int32,
    icmpFloodWindow: int32,
    alertCooldown: int32,
    enableSuspiciousPort: int32,
    enableSynWatch: int32,
    enableIcmpEcho: int32,
    enablePortScan: int32,
    enableSynFlood: int32,
    enableIcmpFlood: int32,
    packetLogFile: string,
    alertLogFile: string)

  // What config_load guarantees and the stateful rules rely on.
  predicate PositiveWindows(config: Config) {
    config.portScanWindow > 0 && config.synFloodWindow > 0 && config.icmpFloodWindow > 0
  }
}
