/** What the detector does to one packet, on values: which tables are asked what, which rule fires,
    whether an alert goes out, and what it says. */
module DetectorSpec {
  import opened Options
  import opened Packets
  import opened Settings
  import opened Slots
  import opened Cooldown

  const MAX_TRACKED_HOSTS: nat := 256
  const MAX_TRACKED_PORTS: nat := 128
  const MAX_ALERT_HISTORY: nat := 256
  const MAX_TRACKED_EVENTS: nat := 128

  datatype Flow = Flow(src: Address, dst: Address, port: u16)
  datatype Pair = Pair(src: Address, dst: Address)

  datatype Rule = SynFlood | PortScan | IcmpFlood | SuspiciousPort | IcmpEcho | SynWatch
  datatype Severity = NoSeverity | Low | Medium | High

  // Two alerts share a cooldown when source, destination and rule agree and, for the rules that name
  // a port, the destination port too.
  datatype AlertKey = AlertKey(src: Address, dst: Address, rule: Rule, port: Option<u16>)

  datatype DetectionResult = DetectionResult(
    alert: bool,
    severity: Severity,
    rule: Option<Rule>,
    src: Address,
    dst: Address,
    protocol: Protocol,
    srcPort: u16,
    dstPort: u16,
    threshold: int,
    observedCount: int,
    uniquePorts: int,
    windowSeconds: int,
    firstSeen: int,
    lastSeen: int)

  datatype State = State(
    syn: seq<Slot<Flow>>,
    scan: seq<Slot<Pair>>,
    icmp: seq<Slot<Pair>>,
    history: seq<Cell<AlertKey>>)

  datatype RiskyPort = RiskyPort(port: u16, severity: Severity)

  const RISKY_PORTS: seq<RiskyPort> := [
    RiskyPort(21, Low), RiskyPort(22, Low), RiskyPort(23, Medium), RiskyPort(25, Low), RiskyPort(53, Low),
    RiskyPort(110, Low), RiskyPort(139, Low), RiskyPort(143, Low), RiskyPort(445, Medium), RiskyPort(3389, Medium)]

  function SynLimits(config: Config): Limits {
    Limits(MAX_TRACKED_HOSTS, MAX_TRACKED_EVENTS, config.synFloodWindow)
  }

  function ScanLimits(config: Config): Limits {
    Limits(MAX_TRACKED_HOSTS, MAX_TRACKED_PORTS, config.portScanWindow)
  }

  function IcmpLimits(config: Config): Limits {
    Limits(MAX_TRACKED_HOSTS, MAX_TRACKED_EVENTS, config.icmpFloodWindow)
  }

  // ---------- which packets concern which table ----------

  predicate IsSyn(pkt: PacketInfo) {
    pkt.valid && pkt.protocol == Tcp && pkt.syn && !pkt.ack
  }

  predicate IsEcho(pkt: PacketInfo) {
    pkt.valid && pkt.protocol == Icmp && pkt.icmpType == 8
  }

  function FlowOf(pkt: PacketInfo): Flow {
    Flow(pkt.src, pkt.dst, pkt.dstPort)
  }

  function PairOf(pkt: PacketInfo): Pair {
    Pair(pkt.src, pkt.dst)
  }

  function SynOffer(config: Config, pkt: PacketInfo, now: int): Offer<Flow> {
    if config.enableSynFlood != 0 && IsSyn(pkt) then Offer(FlowOf(pkt), Hit, now) else Skip(now)
  }

  // The port-scan rule only sees the SYNs that the SYN-flood rule did not absorb.
  function ScanOffer(config: Config, pkt: PacketInfo, now: int, absorbed: bool): Offer<Pair> {
    if config.enablePortScan != 0 && IsSyn(pkt) && !absorbed then Offer(PairOf(pkt), Port(pkt.dstPort), now)
    else Skip(now)
  }

  function IcmpOffer(config: Config, pkt: PacketInfo, now: int): Offer<Pair> {
    if config.enableIcmpFlood != 0 && IsEcho(pkt) then Offer(PairOf(pkt), Hit, now) else Skip(now)
  }

  // ---------- which rule fires ----------

  // The C code compares the entry count with the threshold as a 64-bit size, so a negative threshold
  // becomes huge.
  function SizeT(x: int32): nat {
    if x >= 0 then x else x + 0x1_0000_0000_0000_0000
  }

  ghost predicate Reaches(hit: Option<seq<Entry>>, threshold: int32) {
    hit.Some? && |hit.value| >= SizeT(threshold)
  }

  function RiskOf(port: u16, from: nat := 0): Option<Severity>
    requires from <= |RISKY_PORTS|
    decreases |RISKY_PORTS| - from
  {
    if from == |RISKY_PORTS| then None
    else if RISKY_PORTS[from].port == port then Some(RISKY_PORTS[from].severity)
    else RiskOf(port, from + 1)
  }

  predicate IsRisky(pkt: PacketInfo) {
    pkt.valid && (pkt.protocol == Tcp || pkt.protocol == Udp) && RiskOf(pkt.dstPort).Some?
  }

  function StatelessRule(config: Config, pkt: PacketInfo): Option<Rule> {
    if config.enableSuspiciousPort != 0 && IsRisky(pkt) then Some(SuspiciousPort)
    else if config.enableIcmpEcho != 0 && IsEcho(pkt) then Some(IcmpEcho)
    else if config.enableSynWatch != 0 && IsSyn(pkt) then Some(SynWatch)
    else None
  }

  function KeyFor(rule: Rule, pkt: PacketInfo): AlertKey {
    var port := if rule == SynFlood || rule == SuspiciousPort || rule == SynWatch then Some(pkt.dstPort) else None;
    AlertKey(pkt.src, pkt.dst, rule, port)
  }

  // ---------- what an alert says ----------

  function Quiet(pkt: PacketInfo): DetectionResult {
    DetectionResult(false, NoSeverity, None, pkt.src, pkt.dst, pkt.protocol, pkt.srcPort, pkt.dstPort, 0, 0, 0, 0, 0, 0)
  }

  ghost function Evidence(pkt: PacketInfo, rule: Rule, severity: Severity, threshold: int, unique: bool, window: int,
                          entries: seq<Entry>): DetectionResult {
    Quiet(pkt).(alert := true, rule := Some(rule), severity := severity, threshold := threshold,
                observedCount := |entries|, uniquePorts := if unique then |entries| else 0,
                windowSeconds := window, firstSeen := FirstSeen(entries), lastSeen := LastSeen(entries))
  }

  function Sighting(pkt: PacketInfo, rule: Rule, severity: Severity, now: int): DetectionResult {
    Quiet(pkt).(alert := true, rule := Some(rule), severity := severity, observedCount := 1,
                firstSeen := now, lastSeen := now)
  }

  // ---------- one packet ----------

  datatype Outcome = Outcome(
    syn: Observation<Flow>,
    scan: Observation<Pair>,
    icmp: Observation<Pair>,
    fired: Option<Rule>,
    verdict: Verdict<AlertKey>,
    result: DetectionResult)
  {
    ghost function After(): State {
      State(syn.slots, scan.slots, icmp.slots, verdict.cells)
    }
  }

  function AskFor(fired: Option<Rule>, pkt: PacketInfo, now: int): Ask<AlertKey> {
    if fired.Some? then Ask(KeyFor(fired.value, pkt), now) else NoAsk(now)
  }

  ghost function Report(config: Config, pkt: PacketInfo, now: int, rule: Rule,
                        syn: Option<seq<Entry>>, scan: Option<seq<Entry>>, icmp: Option<seq<Entry>>): DetectionResult
    requires rule == SynFlood ==> syn.Some?
    requires rule == PortScan ==> scan.Some?
    requires rule == IcmpFlood ==> icmp.Some?
    requires rule == SuspiciousPort ==> RiskOf(pkt.dstPort).Some?
  {
    match rule
    case SynFlood => Evidence(pkt, rule, High, config.synFloodThreshold, false, config.synFloodWindow, syn.value)
    case PortScan => Evidence(pkt, rule, Medium, config.portScanThreshold, true, config.portScanWindow, scan.value)
    case IcmpFlood => Evidence(pkt, rule, Medium, config.icmpFloodThreshold, false, config.icmpFloodWindow, icmp.value)
    case SuspiciousPort => Sighting(pkt, rule, RiskOf(pkt.dstPort).value, now)
    case IcmpEcho => Sighting(pkt, rule, Low, now)
    case SynWatch => Sighting(pkt, rule, Low, now)
  }

  // Rules are tried in priority order; the first that matches absorbs the packet, and only then does
  // the cooldown decide whether an alert goes out.
  ghost function Detect(config: Config, state: State, pkt: PacketInfo, now: int): Outcome {
    var syn := Observe(state.syn, SynOffer(config, pkt, now), SynLimits(config));
    var synFires := Reaches(syn.hit, config.synFloodThreshold);
    var scan := Observe(state.scan, ScanOffer(config, pkt, now, synFires), ScanLimits(config));
    var scanFires := Reaches(scan.hit, config.portScanThreshold);
    var icmp := Observe(state.icmp, IcmpOffer(config, pkt, now), IcmpLimits(config));
    var icmpFires := Reaches(icmp.hit, config.icmpFloodThreshold);
    var fired :=
      if synFires then Some(SynFlood)
      else if scanFires then Some(PortScan)
      else if icmpFires then Some(IcmpFlood)
      else StatelessRule(config, pkt);
    var verdict := Decide(state.history, AskFor(fired, pkt, now), config.alertCooldown);
    var result := if fired.Some? && verdict.emit then Report(config, pkt, now, fired.value, syn.hit, scan.hit, icmp.hit)
                  else Quiet(pkt);
    Outcome(syn, scan, icmp, fired, verdict, result)
  }

  lemma {:induction false} DetectParts(config: Config, state: State, pkt: PacketInfo, now: int)
    ensures var o := Detect(config, state, pkt, now);
            && o.syn == Observe(state.syn, SynOffer(config, pkt, now), SynLimits(config))
            && o.scan == Observe(state.scan, ScanOffer(config, pkt, now, o.fired == Some(SynFlood)), ScanLimits(config))
            && o.icmp == Observe(state.icmp, IcmpOffer(config, pkt, now), IcmpLimits(config))
            && o.verdict == Decide(state.history, AskFor(o.fired, pkt, now), config.alertCooldown)
  {
  }

  // Some table or the history had no room for what this packet brought.
  ghost predicate Starved(config: Config, pkt: PacketInfo, now: int, o: Outcome) {
    || (SynOffer(config, pkt, now).Offer? && o.syn.hit.None?)
    || (ScanOffer(config, pkt, now, Reaches(o.syn.hit, config.synFloodThreshold)).Offer? && o.scan.hit.None?)
    || (IcmpOffer(config, pkt, now).Offer? && o.icmp.hit.None?)
    || !o.verdict.recorded
  }
}
