/** What a frame must look like to be accepted, and what is read from it.  Offsets follow RFC 791
    section 3.1, RFC 9293 section 3.1, RFC 768 (Format) and RFC 792 (Echo or Echo Reply Message). */
module Frames {
  import opened Packets

  const ETHERNET_LEN := 14
  const IP_MIN_LEN := 20
  const ETHERTYPE_IP := 0x0800
  const PROTO_ICMP := 1
  const PROTO_TCP := 6
  const PROTO_UDP := 17

  function U16At(bytes: seq<byte>, i: nat): u16
    requires i + 1 < |bytes|
  {
    var high: int, low: int := bytes[i], bytes[i + 1];
    high * 0x100 + low
  }

  function Ip4At(bytes: seq<byte>, i: nat): Address
    requires i + 3 < |bytes|
  {
    Ipv4(bytes[i], bytes[i + 1], bytes[i + 2], bytes[i + 3])
  }

  function HeaderLen(frame: seq<byte>): nat
    requires |frame| >= ETHERNET_LEN + IP_MIN_LEN
  {
    frame[14] % 16 * 4
  }

  function TotalLen(frame: seq<byte>): nat
    requires |frame| >= ETHERNET_LEN + IP_MIN_LEN
  {
    U16At(frame, 16)
  }

  // An Ethernet frame that carries all of an IPv4 datagram.
  predicate CarriesDatagram(frame: seq<byte>) {
    && |frame| >= ETHERNET_LEN + IP_MIN_LEN
    && U16At(frame, 12) == ETHERTYPE_IP
    && frame[14] / 16 == 4
    && IP_MIN_LEN <= HeaderLen(frame) <= TotalLen(frame)
    && ETHERNET_LEN + TotalLen(frame) <= |frame|
  }

  // Where the transport header starts, and how many bytes of the datagram follow from there.
  function TransportAt(frame: seq<byte>): (at: nat)
    requires CarriesDatagram(frame)
  {
    ETHERNET_LEN + HeaderLen(frame)
  }

  function TransportLen(frame: seq<byte>): (len: nat)
    requires CarriesDatagram(frame)
  {
    TotalLen(frame) - HeaderLen(frame)
  }

  predicate CarriesTcp(frame: seq<byte>) {
    && CarriesDatagram(frame) && frame[23] == PROTO_TCP && TransportLen(frame) >= 20
    && var dataOffset := frame[TransportAt(frame) + 12] / 16 * 4; 20 <= dataOffset <= TransportLen(frame)
  }

  // The length field of a UDP header is only checked against the header itself, not against the
  // bytes that follow.
  predicate CarriesUdp(frame: seq<byte>) {
    && CarriesDatagram(frame) && frame[23] == PROTO_UDP && TransportLen(frame) >= 8
    && U16At(frame, TransportAt(frame) + 4) >= 8
  }

  predicate CarriesIcmp(frame: seq<byte>) {
    CarriesDatagram(frame) && frame[23] == PROTO_ICMP && TransportLen(frame) >= 8
  }

  predicate ValidFrame(frame: seq<byte>) {
    CarriesTcp(frame) || CarriesUdp(frame) || CarriesIcmp(frame)
  }

  function Bit(flags: byte, mask: bv8): bool {
    flags as bv8 & mask != 0
  }

  function FrameLen(len: nat): u16 {
    if len > 0xFFFF then 0xFFFF else len
  }

  function Blank(len: nat, time: int): PacketInfo {
    PacketInfo(Unset, Unset, Unnamed, 0, 0, 0, 0, 0, FrameLen(len), false, false, false, false, false, false, 0, 0,
               time, false)
  }

  function NamedProtocol(number: byte): Protocol {
    if number == PROTO_TCP then Tcp
    else if number == PROTO_UDP then Udp
    else if number == PROTO_ICMP then Icmp
    else Unnamed
  }

  // What is read from a frame.  A frame that carries a datagram but no acceptable transport header
  // keeps what its IP header says, without being valid.
  function Parsed(frame: seq<byte>, time: int): PacketInfo {
    var blank := Blank(|frame|, time);
    if !CarriesDatagram(frame) then blank
    else
      var ip := blank.(ttl := frame[22], ipHeaderLen := HeaderLen(frame), ipLen := TotalLen(frame),
                       src := Ip4At(frame, 26), dst := Ip4At(frame, 30), protocol := NamedProtocol(frame[23]));
      var t := TransportAt(frame);
      if CarriesTcp(frame) then
        var flags := frame[t + 13];
        ip.(srcPort := U16At(frame, t), dstPort := U16At(frame, t + 2),
            fin := Bit(flags, 0x01), syn := Bit(flags, 0x02), rst := Bit(flags, 0x04),
            psh := Bit(flags, 0x08), ack := Bit(flags, 0x10), urg := Bit(flags, 0x20), valid := true)
      else if CarriesUdp(frame) then
        ip.(srcPort := U16At(frame, t), dstPort := U16At(frame, t + 2), valid := true)
      else if CarriesIcmp(frame) then
        ip.(icmpType := frame[t], icmpCode := frame[t + 1], valid := true)
      else ip
  }

  // ---------- padding and truncation ----------

  lemma {:induction false} SameBytes(short: seq<byte>, long: seq<byte>)
    requires short <= long && |short| >= ETHERNET_LEN + IP_MIN_LEN
    ensures HeaderLen(long) == HeaderLen(short) && TotalLen(long) == TotalLen(short)
    ensures CarriesDatagram(short) <==> CarriesDatagram(long) && ETHERNET_LEN + TotalLen(long) <= |short|
  {
  }

  // A prefix of a valid frame is valid exactly when it contains the whole datagram, and then every
  // field but the frame length is read alike: the bytes behind the datagram are never looked at.
  lemma {:induction false} TrailingBytesIgnored(frame: seq<byte>, n: nat, time: int)
    requires ValidFrame(frame) && n <= |frame|
    ensures ValidFrame(frame[..n]) <==> ETHERNET_LEN + TotalLen(frame) <= n
    ensures ValidFrame(frame[..n]) ==> Parsed(frame[..n], time) == Parsed(frame, time).(frameLen := FrameLen(n))
  {
    if n >= ETHERNET_LEN + IP_MIN_LEN {
      SameBytes(frame[..n], frame);
    }
  }

  lemma {:induction false} PaddingIgnored(frame: seq<byte>, padding: seq<byte>, time: int)
    requires ValidFrame(frame)
    ensures ValidFrame(frame + padding)
    ensures Parsed(frame + padding, time) == Parsed(frame, time).(frameLen := FrameLen(|frame| + |padding|))
  {
  }
}

/** The frame parser, filling the packet record step by step. */
module Parser {
  import opened Packets
  import opened Frames

  predicate HasBytes(packetLen: int, offset: int, needed: nat) {
    packetLen >= 0 && offset >= 0 && offset <= packetLen && packetLen - offset >= needed
  }

  method ParseTcp(packet: seq<byte>, packetLen: nat, offset: nat, blank: PacketInfo) returns (info: PacketInfo)
    requires packetLen <= |packet|
    ensures var fits := offset + 20 <= packetLen && 20 <= packet[offset + 12] / 16 * 4 <= packetLen - offset;
            info == if !fits then blank else
              var flags := packet[offset + 13];
              blank.(srcPort := U16At(packet, offset), dstPort := U16At(packet, offset + 2),
                     fin := Bit(flags, 0x01), syn := Bit(flags, 0x02), rst := Bit(flags, 0x04), psh := Bit(flags, 0x08),
                     ack := Bit(flags, 0x10), urg := Bit(flags, 0x20), valid := true)
  {
    info := blank;
    if !HasBytes(packetLen, offset, 20) {
      return;
    }
    var headerLen := packet[offset + 12] / 16 * 4;
    if headerLen < 20 || !HasBytes(packetLen, offset, headerLen) {
      return;
    }
    info := info.(srcPort := U16At(packet, offset));
    info := info.(dstPort := U16At(packet, offset + 2));
    var flags := packet[offset + 13];
    info := info.(fin := Bit(flags, 0x01), syn := Bit(flags, 0x02), rst := Bit(flags, 0x04));
    info := info.(psh := Bit(flags, 0x08), ack := Bit(flags, 0x10), urg := Bit(flags, 0x20));
    info := info.(valid := true);
  }

  method ParseUdp(packet: seq<byte>, packetLen: nat, offset: nat, blank: PacketInfo) returns (info: PacketInfo)
    requires packetLen <= |packet|
    ensures var fits := offset + 8 <= packetLen && U16At(packet, offset + 4) >= 8;
            info == if !fits then blank else
              blank.(srcPort := U16At(packet, offset), dstPort := U16At(packet, offset + 2), valid := true)
  {
    info := blank;
    if !HasBytes(packetLen, offset, 8) {
      return;
    }
    if U16At(packet, offset + 4) < 8 {
      return;
    }
    info := info.(srcPort := U16At(packet, offset));
    info := info.(dstPort := U16At(packet, offset + 2));
    info := info.(valid := true);
  }

  method ParseIcmp(packet: seq<byte>, packetLen: nat, offset: nat, blank: PacketInfo) returns (info: PacketInfo)
    requires packetLen <= |packet|
    ensures info == if offset + 8 > packetLen then blank else
              blank.(icmpType := packet[offset], icmpCode := packet[offset + 1], valid := true)
  {
    info := blank;
    if !HasBytes(packetLen, offset, 8) {
      return;
    }
    info := info.(icmpType := packet[offset], icmpCode := packet[offset + 1]);
    info := info.(valid := true);
  }

  // A timestamp of zero stands for "now"; `clock` is what the system clock says.
  method ParsePacket(packet: seq<byte>, timestamp: int, clock: int) returns (info: PacketInfo)
    ensures info == Parsed(packet, if timestamp != 0 then timestamp else clock)
    ensures info.valid <==> ValidFrame(packet)
    ensures |packet| <= 0xFFFF ==> info.frameLen == |packet|
    ensures |packet| > 0xFFFF ==> info.frameLen == 0xFFFF
  {
    info := Blank(|packet|, if timestamp != 0 then timestamp else clock);
    if !HasBytes(|packet|, 0, ETHERNET_LEN) {
      return;
    }
    if U16At(packet, 12) != ETHERTYPE_IP {
      return;
    }
    if !HasBytes(|packet|, ETHERNET_LEN, IP_MIN_LEN) {
      return;
    }
    var headerLen, totalLen := packet[14] % 16 * 4, U16At(packet, 16);
    if packet[14] / 16 != 4 {
      return;
    }
    if headerLen < IP_MIN_LEN || totalLen < headerLen {
      return;
    }
    if !HasBytes(|packet|, ETHERNET_LEN, totalLen) {
      return;
    }
    info := info.(ttl := packet[22], ipHeaderLen := headerLen, ipLen := totalLen);
    var ipEnd := ETHERNET_LEN + totalLen;
    info := info.(src := Ip4At(packet, 26));
    info := info.(dst := Ip4At(packet, 30));
    var transport := ETHERNET_LEN + headerLen;
    if packet[23] == PROTO_TCP {
      info := info.(protocol := Tcp);
      info := ParseTcp(packet, ipEnd, transport, info);
    } else if packet[23] == PROTO_UDP {
      info := info.(protocol := Udp);
      info := ParseUdp(packet, ipEnd, transport, info);
    } else if packet[23] == PROTO_ICMP {
      info := info.(protocol := Icmp);
      info := ParseIcmp(packet, ipEnd, transport, info);
    }
  }
}
