/** Frames written out from their fields, and the proof that the parser reads back what was written
    and accepts nothing else. */
module FrameBuilder {
  import opened Packets
  import opened Frames

  datatype Segment =
    | TcpSegment(srcPort: u16, dstPort: u16, sequence: seq<byte>, reserved: byte, flags: byte, rest: seq<byte>,
                 options: seq<byte>, payload: seq<byte>)
    | UdpSegment(srcPort: u16, dstPort: u16, length: u16, checksum: seq<byte>, payload: seq<byte>)
    | IcmpSegment(icmpType: byte, icmpCode: byte, rest: seq<byte>, payload: seq<byte>)

  // Fields the parser does not look at are kept as raw bytes.
  datatype Frame = Frame(macs: seq<byte>, tos: byte, identification: seq<byte>, ttl: byte, checksum: seq<byte>,
                         src: seq<byte>, dst: seq<byte>, options: seq<byte>, segment: Segment)

  function High(x: u16): byte { x / 0x100 }

  function Low(x: u16): byte { x % 0x100 }

  predicate WellFormedSegment(s: Segment) {
    match s
    case TcpSegment(_, _, sequence, reserved, _, rest, options, _) =>
      |sequence| == 8 && reserved < 16 && |rest| == 6 && |options| <= 40 && |options| % 4 == 0
    case UdpSegment(_, _, length, checksum, _) => |checksum| == 2 && length >= 8
    case IcmpSegment(_, _, rest, _) => |rest| == 6
  }

  function SegmentBytes(s: Segment): seq<byte>
    requires WellFormedSegment(s)
  {
    match s
    case TcpSegment(srcPort, dstPort, sequence, reserved, flags, rest, options, payload) =>
      var offset: byte := (20 + |options|) / 4 * 16 + reserved;
      ([High(srcPort), Low(srcPort), High(dstPort), Low(dstPort)] + sequence + [offset, flags] + rest) + options
      + payload
    case UdpSegment(srcPort, dstPort, length, checksum, payload) =>
      ([High(srcPort), Low(srcPort), High(dstPort), Low(dstPort), High(length), Low(length)] + checksum) + payload
    case IcmpSegment(icmpType, icmpCode, rest, payload) => ([icmpType, icmpCode] + rest) + payload
  }

  function ProtocolNumber(s: Segment): byte {
    match s
    case TcpSegment(_, _, _, _, _, _, _, _) => 6
    case UdpSegment(_, _, _, _, _) => 17
    case IcmpSegment(_, _, _, _) => 1
  }

  predicate WellFormedFrame(f: Frame) {
    && |f.macs| == 12 && |f.identification| == 4 && |f.checksum| == 2 && |f.src| == 4 && |f.dst| == 4
    && |f.options| <= 40 && |f.options| % 4 == 0
    && WellFormedSegment(f.segment)
    && IP_MIN_LEN + |f.options| + |SegmentBytes(f.segment)| <= 0xFFFF
  }

  // The Ethernet header and the fixed part of the IPv4 header.
  function FixedBytes(f: Frame): (r: seq<byte>)
    requires WellFormedFrame(f)
    ensures |r| == ETHERNET_LEN + IP_MIN_LEN
  {
    var total: u16 := IP_MIN_LEN + |f.options| + |SegmentBytes(f.segment)|;
    var version: byte := 4 * 16 + (IP_MIN_LEN + |f.options|) / 4;
    f.macs + [8, 0] +
    ([version, f.tos, High(total), Low(total)] + f.identification + [f.ttl, ProtocolNumber(f.segment)] + f.checksum +
     f.src + f.dst)
  }

  function Build(f: Frame): seq<byte>
    requires WellFormedFrame(f)
  {
    FixedBytes(f) + f.options + SegmentBytes(f.segment)
  }

  // ---------- building, then parsing ----------

  lemma {:induction false} BuiltSegment(f: Frame, padding: seq<byte>)
    requires WellFormedFrame(f)
    ensures var bytes := Build(f) + padding;
            && CarriesDatagram(bytes)
            && TransportAt(bytes) == ETHERNET_LEN + IP_MIN_LEN + |f.options|
            && TransportLen(bytes) == |SegmentBytes(f.segment)|
            && forall i :: 0 <= i < |SegmentBytes(f.segment)| ==>
               bytes[TransportAt(bytes) + i] == SegmentBytes(f.segment)[i]
  {
  }

  // What the parser has to return for a built frame: every field that was written, the flags one bit
  // of the flag byte each, and nothing else.
  function Expected(f: Frame, len: nat, time: int): PacketInfo
    requires WellFormedFrame(f)
  {
    var src, dst := Ipv4(f.src[0], f.src[1], f.src[2], f.src[3]), Ipv4(f.dst[0], f.dst[1], f.dst[2], f.dst[3]);
    var header, frameLen := 20 + |f.options|, if len <= 65535 then len else 65535;
    var total := header + |SegmentBytes(f.segment)|;
    match f.segment
    case TcpSegment(srcPort, dstPort, _, _, flags, _, _, _) =>
      PacketInfo(src := src, dst := dst, protocol := Tcp, srcPort := srcPort, dstPort := dstPort, ttl := f.ttl,
                 ipHeaderLen := header, ipLen := total, frameLen := frameLen,
                 fin := flags % 2 == 1, syn := flags / 2 % 2 == 1, rst := flags / 4 % 2 == 1,
                 psh := flags / 8 % 2 == 1, ack := flags / 16 % 2 == 1, urg := flags / 32 % 2 == 1,
                 icmpType := 0, icmpCode := 0, timestamp := time, valid := true)
    case UdpSegment(srcPort, dstPort, _, _, _) =>
      PacketInfo(src := src, dst := dst, protocol := Udp, srcPort := srcPort, dstPort := dstPort, ttl := f.ttl,
                 ipHeaderLen := header, ipLen := total, frameLen := frameLen,
                 fin := false, syn := false, rst := false, psh := false, ack := false, urg := false,
                 icmpType := 0, icmpCode := 0, timestamp := time, valid := true)
    case IcmpSegment(icmpType, icmpCode, _, _) =>
      PacketInfo(src := src, dst := dst, protocol := Icmp, srcPort := 0, dstPort := 0, ttl := f.ttl,
                 ipHeaderLen := header, ipLen := total, frameLen := frameLen,
                 fin := false, syn := false, rst := false, psh := false, ack := false, urg := false,
                 icmpType := icmpType, icmpCode := icmpCode, timestamp := time, valid := true)
  }

  // The masks pick out the bits of the flag byte.
  lemma {:induction false} FlagBits(flags: byte)
    ensures Bit(flags, 0x01) <==> flags % 2 == 1
    ensures Bit(flags, 0x02) <==> flags / 2 % 2 == 1
    ensures Bit(flags, 0x04) <==> flags / 4 % 2 == 1
    ensures Bit(flags, 0x08) <==> flags / 8 % 2 == 1
    ensures Bit(flags, 0x10) <==> flags / 16 % 2 == 1
    ensures Bit(flags, 0x20) <==> flags / 32 % 2 == 1
  {
  }

  lemma {:induction false} TcpFields(s: Segment, bytes: seq<byte>)
    requires WellFormedSegment(s) && s.TcpSegment? && bytes == SegmentBytes(s)
    ensures |bytes| >= 20 && 20 <= bytes[12] / 16 * 4 == 20 + |s.options| <= |bytes| && bytes[13] == s.flags
    ensures bytes[0] == High(s.srcPort) && bytes[1] == Low(s.srcPort) && bytes[2] == High(s.dstPort) &&
            bytes[3] == Low(s.dstPort)
  {
  }

  lemma {:induction false} PortBytes(port: u16, bytes: seq<byte>, i: nat)
    requires i + 1 < |bytes| && bytes[i] == High(port) && bytes[i + 1] == Low(port)
    ensures U16At(bytes, i) == port
  {
  }

  lemma {:induction false} BuiltTcp(f: Frame, padding: seq<byte>)
    requires WellFormedFrame(f) && f.segment.TcpSegment?
    ensures var bytes := Build(f) + padding;
            && CarriesTcp(bytes)
            && U16At(bytes, TransportAt(bytes)) == f.segment.srcPort
            && U16At(bytes, TransportAt(bytes) + 2) == f.segment.dstPort
            && bytes[TransportAt(bytes) + 13] == f.segment.flags
  {
    hide Build, FixedBytes, SegmentBytes, High, Low, U16At;
    var bytes, s := Build(f) + padding, SegmentBytes(f.segment);
    BuiltSegment(f, padding);
    BuiltFixed(f, padding);
    TcpFields(f.segment, s);
    var t := TransportAt(bytes);
    assert bytes[t] == s[0] && bytes[t + 1] == s[1] && bytes[t + 2] == s[2] && bytes[t + 3] == s[3];
    assert bytes[t + 12] == s[12] && bytes[t + 13] == s[13];
    PortBytes(f.segment.srcPort, bytes, t);
    PortBytes(f.segment.dstPort, bytes, t + 2);
  }

  lemma {:induction false} UdpFields(s: Segment, bytes: seq<byte>)
    requires WellFormedSegment(s) && s.UdpSegment? && bytes == SegmentBytes(s)
    ensures |bytes| >= 8 && bytes[4] == High(s.length) && bytes[5] == Low(s.length)
    ensures bytes[0] == High(s.srcPort) && bytes[1] == Low(s.srcPort) && bytes[2] == High(s.dstPort) &&
            bytes[3] == Low(s.dstPort)
  {
  }

  lemma {:induction false} BuiltUdp(f: Frame, padding: seq<byte>)
    requires WellFormedFrame(f) && f.segment.UdpSegment?
    ensures var bytes := Build(f) + padding;
            && CarriesUdp(bytes)
            && U16At(bytes, TransportAt(bytes)) == f.segment.srcPort
            && U16At(bytes, TransportAt(bytes) + 2) == f.segment.dstPort
  {
    hide Build, FixedBytes, SegmentBytes, High, Low, U16At;
    var bytes, s := Build(f) + padding, SegmentBytes(f.segment);
    BuiltSegment(f, padding);
    BuiltFixed(f, padding);
    UdpFields(f.segment, s);
    var t := TransportAt(bytes);
    assert bytes[t] == s[0] && bytes[t + 1] == s[1] && bytes[t + 2] == s[2] && bytes[t + 3] == s[3];
    assert bytes[t + 4] == s[4] && bytes[t + 5] == s[5];
    PortBytes(f.segment.srcPort, bytes, t);
    PortBytes(f.segment.dstPort, bytes, t + 2);
    PortBytes(f.segment.length, bytes, t + 4);
  }

  lemma {:induction false} IcmpFields(s: Segment, bytes: seq<byte>)
    requires WellFormedSegment(s) && s.IcmpSegment? && bytes == SegmentBytes(s)
    ensures |bytes| >= 8 && bytes[0] == s.icmpType && bytes[1] == s.icmpCode
  {
  }

  lemma {:induction false} BuiltIcmp(f: Frame, padding: seq<byte>)
    requires WellFormedFrame(f) && f.segment.IcmpSegment?
    ensures var bytes := Build(f) + padding;
            && CarriesIcmp(bytes)
            && bytes[TransportAt(bytes)] == f.segment.icmpType && bytes[TransportAt(bytes) + 1] == f.segment.icmpCode
  {
    hide Build, FixedBytes, SegmentBytes, High, Low, U16At;
    var bytes, s := Build(f) + padding, SegmentBytes(f.segment);
    BuiltSegment(f, padding);
    BuiltFixed(f, padding);
    IcmpFields(f.segment, s);
    var t := TransportAt(bytes);
    assert bytes[t] == s[0] && bytes[t + 1] == s[1];
  }

  // Builder and parser are inverse: a built frame, padded or not, is valid and every field is read
  // back.
  lemma {:induction false} BuiltFrameParses(f: Frame, padding: seq<byte>, time: int)
    requires WellFormedFrame(f)
    ensures ValidFrame(Build(f) + padding)
    ensures Parsed(Build(f) + padding, time) == Expected(f, |Build(f)| + |padding|, time)
  {
    hide Build, FixedBytes, SegmentBytes, Bit;
    BuiltFixed(f, padding);
    match f.segment
    case TcpSegment(_, _, _, _, flags, _, _, _) =>
      BuiltTcp(f, padding);
      FlagBits(flags);
    case UdpSegment(_, _, _, _, _) => BuiltUdp(f, padding);
    case IcmpSegment(_, _, _, _) => BuiltIcmp(f, padding);
  }

  lemma {:induction false} FixedFields(f: Frame, h: seq<byte>)
    requires WellFormedFrame(f) && h == FixedBytes(f)
    ensures h[14] == 4 * 16 + (IP_MIN_LEN + |f.options|) / 4
    ensures h[16] == High(IP_MIN_LEN + |f.options| + |SegmentBytes(f.segment)|)
    ensures h[17] == Low(IP_MIN_LEN + |f.options| + |SegmentBytes(f.segment)|)
    ensures h[22] == f.ttl && h[23] == ProtocolNumber(f.segment) && h[26..30] == f.src && h[30..34] == f.dst
  {
    hide SegmentBytes, High, Low;
  }

  lemma {:induction false} BuiltFixed(f: Frame, padding: seq<byte>)
    requires WellFormedFrame(f)
    ensures var bytes := Build(f) + padding;
            && |bytes| >= ETHERNET_LEN + IP_MIN_LEN
            && HeaderLen(bytes) == IP_MIN_LEN + |f.options|
            && TotalLen(bytes) == IP_MIN_LEN + |f.options| + |SegmentBytes(f.segment)|
            && bytes[22] == f.ttl && bytes[23] == ProtocolNumber(f.segment)
            && Ip4At(bytes, 26) == Ipv4(f.src[0], f.src[1], f.src[2], f.src[3])
            && Ip4At(bytes, 30) == Ipv4(f.dst[0], f.dst[1], f.dst[2], f.dst[3])
  {
    hide FixedBytes, SegmentBytes, High, Low, U16At;
    var bytes, h := Build(f) + padding, FixedBytes(f);
    FixedFields(f, h);
    assert forall i :: 0 <= i < |h| ==> bytes[i] == h[i];
    PortBytes(IP_MIN_LEN + |f.options| + |SegmentBytes(f.segment)|, bytes, 16);
    assert forall i :: 0 <= i < 4 ==> h[26..30][i] == bytes[26 + i] && h[30..34][i] == bytes[30 + i];
  }

  // ---------- taking apart, then building ----------

  function DissectTcp(s: seq<byte>): Segment
    requires |s| >= 20 && 20 <= s[12] / 16 * 4 <= |s|
  {
    TcpSegment(U16At(s, 0), U16At(s, 2), s[4..12], s[12] % 16, s[13], s[14..20], s[20..s[12] / 16 * 4],
               s[s[12] / 16 * 4..])
  }

  function DissectUdp(s: seq<byte>): Segment
    requires |s| >= 8
  {
    UdpSegment(U16At(s, 0), U16At(s, 2), U16At(s, 4), s[6..8], s[8..])
  }

  function DissectIcmp(s: seq<byte>): Segment
    requires |s| >= 8
  {
    IcmpSegment(s[0], s[1], s[2..8], s[8..])
  }

  function Transport(frame: seq<byte>): seq<byte>
    requires CarriesDatagram(frame)
  {
    frame[TransportAt(frame)..ETHERNET_LEN + TotalLen(frame)]
  }

  function Dissect(frame: seq<byte>): Frame
    requires ValidFrame(frame)
  {
    var s := Transport(frame);
    Frame(frame[..12], frame[15], frame[18..22], frame[22], frame[24..26], frame[26..30], frame[30..34],
          frame[34..TransportAt(frame)],
          if CarriesTcp(frame) then DissectTcp(s) else if CarriesUdp(frame) then DissectUdp(s) else DissectIcmp(s))
  }

  lemma {:induction false} TcpRebuilds(s: seq<byte>)
    requires |s| >= 20 && 20 <= s[12] / 16 * 4 <= |s|
    ensures WellFormedSegment(DissectTcp(s)) && SegmentBytes(DissectTcp(s)) == s
  {
  }

  lemma {:induction false} UdpRebuilds(s: seq<byte>)
    requires |s| >= 8 && U16At(s, 4) >= 8
    ensures WellFormedSegment(DissectUdp(s)) && SegmentBytes(DissectUdp(s)) == s
  {
  }

  lemma {:induction false} IcmpRebuilds(s: seq<byte>)
    requires |s| >= 8
    ensures WellFormedSegment(DissectIcmp(s)) && SegmentBytes(DissectIcmp(s)) == s
  {
  }

  lemma {:induction false} SegmentRebuilds(frame: seq<byte>)
    requires ValidFrame(frame)
    ensures WellFormedSegment(Dissect(frame).segment)
    ensures SegmentBytes(Dissect(frame).segment) == Transport(frame)
    ensures ProtocolNumber(Dissect(frame).segment) == frame[23]
  {
    hide SegmentBytes, WellFormedSegment;
    var s := Transport(frame);
    if CarriesTcp(frame) {
      TcpRebuilds(s);
    } else if CarriesUdp(frame) {
      UdpRebuilds(s);
    } else {
      IcmpRebuilds(s);
    }
  }

  lemma {:induction false} FixedRebuilds(f: Frame, h: seq<byte>)
    requires WellFormedFrame(f) && |h| == 34
    requires f.macs == h[..12] && f.tos == h[15] && f.identification == h[18..22] && f.ttl == h[22]
    requires f.checksum == h[24..26] && f.src == h[26..30] && f.dst == h[30..34]
    requires U16At(h, 12) == ETHERTYPE_IP && h[14] / 16 == 4 && IP_MIN_LEN + |f.options| == h[14] % 16 * 4
    requires U16At(h, 16) == IP_MIN_LEN + |f.options| + |SegmentBytes(f.segment)| && ProtocolNumber(f.segment) == h[23]
    ensures FixedBytes(f) == h
  {
    hide SegmentBytes, High, Low, U16At;
    SplitU16(h, 16);
    assert h[..12] + [8, 0] == h[..14] by {
      SplitU16(h, 12);
      EtherTypeBytes();
    }
    HeaderParts(h);
  }

  lemma {:induction false} HeaderParts(h: seq<byte>)
    requires |h| == 34
    ensures h == h[..14] +
            ([h[14], h[15], h[16], h[17]] + h[18..22] + [h[22], h[23]] + h[24..26] + h[26..30] + h[30..34])
  {
  }

  lemma {:induction false} EtherTypeBytes()
    ensures High(ETHERTYPE_IP) == 8 && Low(ETHERTYPE_IP) == 0
  {
  }

  lemma {:induction false} SplitU16(bytes: seq<byte>, i: nat)
    requires i + 1 < |bytes|
    ensures High(U16At(bytes, i)) == bytes[i] && Low(U16At(bytes, i)) == bytes[i + 1]
  {
  }

  // Nothing else is accepted: every valid frame is a built frame followed by padding.
  lemma {:induction false} ValidFrameIsBuilt(frame: seq<byte>)
    requires ValidFrame(frame)
    ensures WellFormedFrame(Dissect(frame))
    ensures Build(Dissect(frame)) + frame[ETHERNET_LEN + TotalLen(frame)..] == frame
  {
    hide SegmentBytes, WellFormedSegment;
    SegmentRebuilds(frame);
    var d, h := Dissect(frame), frame[..34];
    assert forall i :: 0 <= i < 34 ==> h[i] == frame[i];
    assert d.macs == h[..12] && d.identification == h[18..22] && d.checksum == h[24..26] && d.src == h[26..30] &&
           d.dst == h[30..34];
    FixedRebuilds(d, h);
    hide FixedBytes;
    var t, end := TransportAt(frame), ETHERNET_LEN + TotalLen(frame);
    assert frame == frame[..34] + frame[34..t] + frame[t..end] + frame[end..];
  }
}
