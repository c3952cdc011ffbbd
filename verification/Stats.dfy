/** The session counters. */
module Stats {
  import opened Options
  import opened Packets
  import opened DetectorSpec

  datatype Counters = Counters(
    total: nat, valid: nat, invalid: nat,
    tcp: nat, udp: nat, icmp: nat, other: nat,
    alerts: nat, low: nat, medium: nat, high: nat,
    suspiciousPort: nat, synWatch: nat, icmpEcho: nat, portScan: nat, synFlood: nat, icmpFlood: nat,
    bytesSeen: nat)

  const ZERO := Counters(0, 0, 0, 0, 0, 0, 0, 0, 0, 0, 0, 0, 0, 0, 0, 0, 0, 0)

  // No packet, or one that is not valid, counts as invalid.
  ghost function CountPacket(c: Counters, pkt: Option<PacketInfo>, rawLen: int): Counters {
    var seen := c.(total := c.total + 1, bytesSeen := c.bytesSeen + if rawLen > 0 then rawLen else 0);
    if pkt.None? || !pkt.value.valid then seen.(invalid := c.invalid + 1)
    else CountProtocol(seen.(valid := c.valid + 1), pkt.value.protocol)
  }

  ghost function CountAlert(c: Counters, result: DetectionResult): Counters {
    if !result.alert then c
    else
      CountRule(CountSeverity(c.(alerts := c.alerts + 1), result.severity), result.rule)
  }

  ghost function CountSeverity(c: Counters, severity: Severity): Counters {
    match severity
    case Low => c.(low := c.low + 1)
    case Medium => c.(medium := c.medium + 1)
    case High => c.(high := c.high + 1)
    case NoSeverity => c
  }

  ghost function CountRule(c: Counters, rule: Option<Rule>): Counters {
    match rule
    case None => c
    case Some(SuspiciousPort) => c.(suspiciousPort := c.suspiciousPort + 1)
    case Some(SynWatch) => c.(synWatch := c.synWatch + 1)
    case Some(IcmpEcho) => c.(icmpEcho := c.icmpEcho + 1)
    case Some(PortScan) => c.(portScan := c.portScan + 1)
    case Some(SynFlood) => c.(synFlood := c.synFlood + 1)
    case Some(IcmpFlood) => c.(icmpFlood := c.icmpFlood + 1)
  }

  ghost function CountProtocol(c: Counters, protocol: Protocol): Counters {
    match protocol
    case Tcp => c.(tcp := c.tcp + 1)
    case Udp => c.(udp := c.udp + 1)
    case Icmp => c.(icmp := c.icmp + 1)
    case Unnamed => c.(other := c.other + 1)
  }

  class StatsKeeper {
    var total: nat
    var valid: nat
    var invalid: nat
    var tcp: nat
    var udp: nat
    var icmp: nat
    var other: nat
    var alerts: nat
    var low: nat
    var medium: nat
    var high: nat
    var suspiciousPort: nat
    var synWatch: nat
    var icmpEcho: nat
    var portScan: nat
    var synFlood: nat
    var icmpFlood: nat
    var bytesSeen: nat

    function Snapshot(): Counters
      reads this
    {
      Counters(total, valid, invalid, tcp, udp, icmp, other, alerts, low, medium, high,
               suspiciousPort, synWatch, icmpEcho, portScan, synFlood, icmpFlood, bytesSeen)
    }

    constructor ()
      ensures Snapshot() == ZERO
    {
      total, valid, invalid, tcp, udp, icmp, other := 0, 0, 0, 0, 0, 0, 0;
      alerts, low, medium, high := 0, 0, 0, 0;
      suspiciousPort, synWatch, icmpEcho, portScan, synFlood, icmpFlood := 0, 0, 0, 0, 0, 0;
      bytesSeen := 0;
    }

    method UpdatePacket(pkt: Option<PacketInfo>, rawLen: int)
      modifies this
      ensures Snapshot() == CountPacket(old(Snapshot()), pkt, rawLen)
    {
      total := total + 1;
      if rawLen > 0 {
        bytesSeen := bytesSeen + rawLen;
      }
      if pkt.None? || !pkt.value.valid {
        invalid := invalid + 1;
        return;
      }
      valid := valid + 1;
      UpdateProtocol(pkt.value.protocol);
    }

    method UpdateProtocol(protocol: Protocol)
      modifies this
      ensures Snapshot() == CountProtocol(old(Snapshot()), protocol)
    {
      if protocol == Tcp {
        tcp := tcp + 1;
      } else if protocol == Udp {
        udp := udp + 1;
      } else if protocol == Icmp {
        icmp := icmp + 1;
      } else {
        other := other + 1;
      }
    }

    method UpdateAlert(result: DetectionResult)
      modifies this
      ensures Snapshot() == CountAlert(old(Snapshot()), result)
    {
      if !result.alert {
        return;
      }
      hide CountSeverity, CountRule;
      alerts := alerts + 1;
      UpdateSeverity(result.severity);
      UpdateRule(result.rule);
    }

    method UpdateSeverity(severity: Severity)
      modifies this
      ensures Snapshot() == CountSeverity(old(Snapshot()), severity)
    {
      match severity {
        case Low => low := low + 1;
        case Medium => medium := medium + 1;
        case High => high := high + 1;
        case NoSeverity =>
      }
    }

    method UpdateRule(rule: Option<Rule>)
      modifies this
      ensures Snapshot() == CountRule(old(Snapshot()), rule)
    {
      match rule {
        case Some(SuspiciousPort) => suspiciousPort := suspiciousPort + 1;
        case Some(SynWatch) => synWatch := synWatch + 1;
        case Some(IcmpEcho) => icmpEcho := icmpEcho + 1;
        case Some(PortScan) => portScan := portScan + 1;
        case Some(SynFlood) => synFlood := synFlood + 1;
        case Some(IcmpFlood) => icmpFlood := icmpFlood + 1;
        case None =>
      }
    }
  }
}
