/** Frames through parser, counters and detector. */
module Pipeline {
  import opened Options
  import opened Packets
  import opened Settings
  import opened DetectorSpec
  import opened Frames
  import opened Stats
  import D = DetectorRuns
  import P = DetectorProperties

  // A captured frame, the time recorded with it (zero when there is none), and what the system clock
  // says when it is processed.
  datatype Input = Input(frame: seq<byte>, timestamp: int, clock: int)

  datatype Session = Session(counters: Counters, detector: State)

  function TimeOf(x: Input): int {
    if x.timestamp != 0 then x.timestamp else x.clock
  }

  ghost function InfoOf(x: Input): PacketInfo {
    Parsed(x.frame, TimeOf(x))
  }

  ghost function Process(config: Config, s: Session, x: Input): Session {
    var info := InfoOf(x);
    var counted := CountPacket(s.counters, if info.valid then Some(info) else None, |x.frame|);
    if !info.valid then Session(counted, s.detector)
    else
      var o := Detect(config, s.detector, info, TimeOf(x));
      Session(CountAlert(counted, o.result), o.After())
  }

  ghost function ProcessAll(config: Config, inputs: seq<Input>): Session {
    if inputs == [] then Session(ZERO, D.Init())
    else Process(config, ProcessAll(config, inputs[..|inputs| - 1]), inputs[|inputs| - 1])
  }

  // ---------- what parser and detector contribute ----------

  lemma {:induction false} ValidIsNamed(frame: seq<byte>, time: int)
    ensures Parsed(frame, time).valid <==> ValidFrame(frame)
    ensures Parsed(frame, time).valid ==> Parsed(frame, time).protocol != Unnamed
  {
  }

  // The severity of an alert and the protocol of its packet are determined by the rule.
  ghost predicate Consistent(pkt: PacketInfo, result: DetectionResult) {
    && result.rule.Some?
    && match result.rule.value
       case SynFlood => result.severity == High && pkt.protocol == Tcp
       case PortScan => result.severity == Medium && pkt.protocol == Tcp
       case IcmpFlood => result.severity == Medium && pkt.protocol == Icmp
       case SuspiciousPort =>
         (result.severity == Low || result.severity == Medium) && (pkt.protocol == Tcp || pkt.protocol == Udp)
       case IcmpEcho => result.severity == Low && pkt.protocol == Icmp
       case SynWatch => result.severity == Low && pkt.protocol == Tcp
  }

  lemma {:induction false} AlertsConsistent(config: Config, state: State, pkt: PacketInfo, now: int)
    ensures Detect(config, state, pkt, now).result.alert ==> Consistent(pkt, Detect(config, state, pkt, now).result)
  {
    hide Detect, RiskOf;
    P.RiskyPorts(pkt.dstPort);
    P.FirstMatchFires(config, state, pkt, now);
    P.HitsAreOffered(config, state, pkt, now);
    P.AlertReport(config, state, pkt, now);
    P.FiringRule(config, state, pkt, now);
  }

  // ---------- conservation ----------

  ghost predicate Balanced(c: Counters) {
    && c.total == c.valid + c.invalid
    && c.valid == c.tcp + c.udp + c.icmp && c.other == 0
    && c.alerts == c.low + c.medium + c.high
    && c.alerts == c.suspiciousPort + c.synWatch + c.icmpEcho + c.portScan + c.synFlood + c.icmpFlood
    && c.alerts <= c.valid
    && c.high == c.synFlood && c.portScan + c.icmpFlood <= c.medium && c.synWatch + c.icmpEcho <= c.low
    && c.icmpEcho + c.icmpFlood <= c.icmp
    && c.synFlood + c.portScan + c.synWatch <= c.tcp
    && c.suspiciousPort + c.synWatch + c.portScan + c.synFlood <= c.tcp + c.udp
  }

  // A packet just counted leaves room for one alert of its protocol.
  ghost predicate RoomForAlert(c: Counters, protocol: Protocol) {
    && c.alerts < c.valid
    && (protocol != Icmp ==> c.suspiciousPort + c.synWatch + c.portScan + c.synFlood < c.tcp + c.udp)
    && (protocol == Tcp ==> c.synFlood + c.portScan + c.synWatch < c.tcp)
    && (protocol == Icmp ==> c.icmpEcho + c.icmpFlood < c.icmp)
  }

  // A valid packet adds one to the counter of its protocol and leaves the alert counters alone.
  lemma {:induction false} PacketCounted(c: Counters, pkt: PacketInfo, rawLen: int)
    requires pkt.valid && pkt.protocol != Unnamed
    ensures var d := CountPacket(c, Some(pkt), rawLen);
            && d.total == c.total + 1 && d.valid == c.valid + 1 && d.invalid == c.invalid && d.other == c.other
            && d.tcp == c.tcp + (if pkt.protocol == Tcp then 1 else 0)
            && d.udp == c.udp + (if pkt.protocol == Udp then 1 else 0)
            && d.icmp == c.icmp + (if pkt.protocol == Icmp then 1 else 0)
            && d.alerts == c.alerts && d.low == c.low && d.medium == c.medium && d.high == c.high
            && d.suspiciousPort == c.suspiciousPort && d.synWatch == c.synWatch && d.icmpEcho == c.icmpEcho
            && d.portScan == c.portScan && d.synFlood == c.synFlood && d.icmpFlood == c.icmpFlood
  {
  }

  lemma {:induction false} PacketBalanced(c: Counters, pkt: PacketInfo, rawLen: int)
    requires Balanced(c) && pkt.valid && pkt.protocol != Unnamed
    ensures Balanced(CountPacket(c, Some(pkt), rawLen)) && RoomForAlert(CountPacket(c, Some(pkt), rawLen), pkt.protocol)
  {
    hide CountPacket;
    PacketCounted(c, pkt, rawLen);
  }

  lemma {:induction false} AlertKeepsPackets(c: Counters, result: DetectionResult)
    ensures var d := CountAlert(c, result);
            d.total == c.total && d.valid == c.valid && d.invalid == c.invalid && d.bytesSeen == c.bytesSeen &&
            d.tcp == c.tcp && d.udp == c.udp && d.icmp == c.icmp && d.other == c.other
  {
  }

  // An alert adds one to the counters of its severity and its rule.
  lemma {:induction false} AlertCounted(c: Counters, result: DetectionResult)
    requires result.alert && result.rule.Some?
    ensures var d, rule := CountAlert(c, result), result.rule.value;
            && d.alerts == c.alerts + 1
            && d.low == c.low + (if result.severity == Low then 1 else 0)
            && d.medium == c.medium + (if result.severity == Medium then 1 else 0)
            && d.high == c.high + (if result.severity == High then 1 else 0)
            && d.suspiciousPort == c.suspiciousPort + (if rule == SuspiciousPort then 1 else 0)
            && d.synWatch == c.synWatch + (if rule == SynWatch then 1 else 0)
            && d.icmpEcho == c.icmpEcho + (if rule == IcmpEcho then 1 else 0)
            && d.portScan == c.portScan + (if rule == PortScan then 1 else 0)
            && d.synFlood == c.synFlood + (if rule == SynFlood then 1 else 0)
            && d.icmpFlood == c.icmpFlood + (if rule == IcmpFlood then 1 else 0)
  {
  }

  lemma {:induction false} AlertBalanced(c: Counters, pkt: PacketInfo, result: DetectionResult)
    requires Balanced(c) && RoomForAlert(c, pkt.protocol) && result.alert && Consistent(pkt, result)
    ensures Balanced(CountAlert(c, result))
  {
    hide CountAlert;
    AlertKeepsPackets(c, result);
    AlertCounted(c, result);
  }

  lemma {:induction false} CountsStayBalanced(c: Counters, pkt: PacketInfo, rawLen: int, result: DetectionResult)
    requires Balanced(c) && pkt.valid && pkt.protocol != Unnamed && (result.alert ==> Consistent(pkt, result))
    ensures Balanced(CountAlert(CountPacket(c, Some(pkt), rawLen), result))
  {
    hide Balanced, CountPacket, Consistent;
    PacketBalanced(c, pkt, rawLen);
    if result.alert {
      AlertBalanced(CountPacket(c, Some(pkt), rawLen), pkt, result);
    }
  }

  lemma {:induction false} InvalidBalanced(c: Counters, rawLen: int)
    requires Balanced(c)
    ensures Balanced(CountPacket(c, None, rawLen))
  {
  }

  ghost function ValidCount(inputs: seq<Input>): nat {
    if inputs == [] then 0
    else ValidCount(inputs[..|inputs| - 1]) + if ValidFrame(inputs[|inputs| - 1].frame) then 1 else 0
  }

  ghost function ByteCount(inputs: seq<Input>): nat {
    if inputs == [] then 0 else ByteCount(inputs[..|inputs| - 1]) + |inputs[|inputs| - 1].frame|
  }

  lemma {:induction false} StartBalanced()
    ensures Balanced(ZERO)
  {
  }

  lemma {:induction false} CountsOf(config: Config, s: Session, x: Input)
    ensures var after := Process(config, s, x).counters;
            && after.total == s.counters.total + 1 && after.bytesSeen == s.counters.bytesSeen + |x.frame|
            && after.valid == s.counters.valid + if InfoOf(x).valid then 1 else 0
  {
    hide Detect, Parsed, CountAlert;
    if InfoOf(x).valid {
      AlertKeepsPackets(CountPacket(s.counters, Some(InfoOf(x)), |x.frame|),
                        Detect(config, s.detector, InfoOf(x), TimeOf(x)).result);
    }
  }

  // Whatever frames go through the pipeline, the counters balance, and they agree with the frames:
  // all of them, the valid ones, and the bytes of all of them.
  lemma {:induction false} Conservation(config: Config, inputs: seq<Input>)
    ensures Balanced(ProcessAll(config, inputs).counters)
    ensures ProcessAll(config, inputs).counters.total == |inputs|
    ensures ProcessAll(config, inputs).counters.valid == ValidCount(inputs)
    ensures ProcessAll(config, inputs).counters.bytesSeen == ByteCount(inputs)
  {
    hide Detect, ValidFrame, Parsed, Consistent, Balanced, CountPacket, CountAlert;
    if inputs == [] {
      assert Balanced(ZERO) by {
        StartBalanced();
      }
    } else {
      var x := inputs[|inputs| - 1];
      var before := ProcessAll(config, inputs[..|inputs| - 1]);
      Conservation(config, inputs[..|inputs| - 1]);
      ValidIsNamed(x.frame, TimeOf(x));
      if InfoOf(x).valid {
        AlertsConsistent(config, before.detector, InfoOf(x), TimeOf(x));
        CountsStayBalanced(before.counters, InfoOf(x), |x.frame|,
                           Detect(config, before.detector, InfoOf(x), TimeOf(x)).result);
      } else {
        InvalidBalanced(before.counters, |x.frame|);
      }
      CountsOf(config, before, x);
    }
  }

  // ---------- the detector sees the valid frames, in order ----------

  ghost function Arrivals(inputs: seq<Input>): seq<D.Arrival> {
    if inputs == [] then []
    else
      var before, x := Arrivals(inputs[..|inputs| - 1]), inputs[|inputs| - 1];
      if InfoOf(x).valid then before + [D.Arrival(InfoOf(x), TimeOf(x))] else before
  }

  lemma {:induction false} DetectorRunsOnArrivals(config: Config, inputs: seq<Input>)
    ensures ProcessAll(config, inputs).detector == D.After(config, Arrivals(inputs))
  {
    hide Detect, Parsed;
    if inputs == [] {
    } else {
      var init, x := inputs[..|inputs| - 1], inputs[|inputs| - 1];
      DetectorRunsOnArrivals(config, init);
      if InfoOf(x).valid {
        var run, more := Arrivals(init), Arrivals(inputs);
        assert more[..|run|] == run && more[..|run| + 1] == more;
        D.AtState(config, more, |run|);
      }
    }
  }

  // When a frame arrives: valid frames only, at the time recorded with them or, for a frame without
  // one, at what the clock says; and that is the time the detector is told.
  lemma {:induction false} ArrivalsNext(inputs: seq<Input>, x: Input)
    ensures var time := if x.timestamp == 0 then x.clock else x.timestamp;
            && Arrivals(inputs + [x]) ==
               (if ValidFrame(x.frame) then Arrivals(inputs) + [D.Arrival(Parsed(x.frame, time), time)]
                else Arrivals(inputs))
            && Parsed(x.frame, time).timestamp == time
  {
    hide ValidFrame;
    var time := if x.timestamp == 0 then x.clock else x.timestamp;
    assert (inputs + [x])[..|inputs|] == inputs;
    ValidIsNamed(x.frame, time);
    TimeKept(x.frame, time);
  }

  lemma {:induction false} TimeKept(frame: seq<byte>, time: int)
    ensures Parsed(frame, time).timestamp == time
  {
  }

  // ---------- what the counters count ----------

  // The arrivals that raised an alert with a certain property.
  ghost function AlertsWith(config: Config, run: seq<D.Arrival>, what: DetectionResult -> bool): set<nat> {
    set n | 0 <= n < |run| && D.At(config, run, n).result.alert && what(D.At(config, run, n).result)
  }

  ghost function ByRule(rule: Rule): DetectionResult -> bool {
    (r: DetectionResult) => r.rule == Some(rule)
  }

  ghost function BySeverity(severity: Severity): DetectionResult -> bool {
    (r: DetectionResult) => r.severity == severity
  }

  ghost function Every(): DetectionResult -> bool {
    (r: DetectionResult) => true
  }

  lemma {:induction false} AlertsWithNext(config: Config, run: seq<D.Arrival>, x: D.Arrival,
                                          what: DetectionResult -> bool)
    ensures var result := D.At(config, run + [x], |run|).result;
            |AlertsWith(config, run + [x], what)| ==
            |AlertsWith(config, run, what)| + if result.alert && what(result) then 1 else 0
  {
    hide D.At;
    var more := run + [x];
    assert more[..|run|] == run;
    forall n | 0 <= n < |run|
      ensures D.At(config, more, n) == D.At(config, run, n)
    {
      D.AtInPrefix(config, more, |run|, n);
    }
    var before, after, result :=
      AlertsWith(config, run, what), AlertsWith(config, more, what), D.At(config, more, |run|).result;
    assert after == if result.alert && what(result) then before + {|run|} else before;
  }

  // Every alert counter is the number of alerts it is about.
  ghost predicate AlertsCounted(c: Counters, config: Config, run: seq<D.Arrival>) {
    && c.alerts == |AlertsWith(config, run, Every())|
    && c.low == |AlertsWith(config, run, BySeverity(Low))|
    && c.medium == |AlertsWith(config, run, BySeverity(Medium))|
    && c.high == |AlertsWith(config, run, BySeverity(High))|
    && c.suspiciousPort == |AlertsWith(config, run, ByRule(SuspiciousPort))|
    && c.synWatch == |AlertsWith(config, run, ByRule(SynWatch))|
    && c.icmpEcho == |AlertsWith(config, run, ByRule(IcmpEcho))|
    && c.portScan == |AlertsWith(config, run, ByRule(PortScan))|
    && c.synFlood == |AlertsWith(config, run, ByRule(SynFlood))|
    && c.icmpFlood == |AlertsWith(config, run, ByRule(IcmpFlood))|
  }

  lemma {:induction false} AlertsCountedNext(c: Counters, config: Config, run: seq<D.Arrival>, x: D.Arrival)
    requires AlertsCounted(c, config, run)
    requires D.At(config, run + [x], |run|).result.alert ==> D.At(config, run + [x], |run|).result.rule.Some?
    ensures AlertsCounted(CountAlert(c, D.At(config, run + [x], |run|).result), config, run + [x])
  {
    hide D.At, AlertsWith, CountAlert;
    var result := D.At(config, run + [x], |run|).result;
    AlertsWithNext(config, run, x, Every());
    AlertsWithNext(config, run, x, BySeverity(Low));
    AlertsWithNext(config, run, x, BySeverity(Medium));
    AlertsWithNext(config, run, x, BySeverity(High));
    AlertsWithNext(config, run, x, ByRule(SuspiciousPort));
    AlertsWithNext(config, run, x, ByRule(SynWatch));
    AlertsWithNext(config, run, x, ByRule(IcmpEcho));
    AlertsWithNext(config, run, x, ByRule(PortScan));
    AlertsWithNext(config, run, x, ByRule(SynFlood));
    AlertsWithNext(config, run, x, ByRule(IcmpFlood));
    if result.alert {
      AlertCounted(c, result);
    } else {
      NoAlertCounted(c, result);
    }
  }

  lemma {:induction false} NoAlertCounted(c: Counters, result: DetectionResult)
    requires !result.alert
    ensures CountAlert(c, result) == c
  {
  }

  lemma {:induction false} PacketKeepsAlerts(c: Counters, pkt: Option<PacketInfo>, rawLen: int)
    ensures var d := CountPacket(c, pkt, rawLen);
            && d.alerts == c.alerts && d.low == c.low && d.medium == c.medium && d.high == c.high
            && d.suspiciousPort == c.suspiciousPort && d.synWatch == c.synWatch && d.icmpEcho == c.icmpEcho
            && d.portScan == c.portScan && d.synFlood == c.synFlood && d.icmpFlood == c.icmpFlood
  {
  }

  lemma {:induction false} NothingCounted(config: Config)
    ensures AlertsCounted(ZERO, config, [])
  {
    hide D.At;
    forall what: DetectionResult -> bool
      ensures AlertsWith(config, [], what) == {}
    {
    }
  }

  // The alert counters count the alerts of the detector's run over the frames, by rule and by severity.
  lemma {:induction false} CountersCountAlerts(config: Config, inputs: seq<Input>)
    ensures AlertsCounted(ProcessAll(config, inputs).counters, config, Arrivals(inputs))
  {
    hide Detect, Parsed, CountPacket, CountAlert, AlertsCounted, D.At, InfoOf;
    if inputs == [] {
      NothingCounted(config);
    } else {
      var init, x := inputs[..|inputs| - 1], inputs[|inputs| - 1];
      var s, run, info := ProcessAll(config, init), Arrivals(init), InfoOf(x);
      var counted := CountPacket(s.counters, if info.valid then Some(info) else None, |x.frame|);
      CountersCountAlerts(config, init);
      PacketKeepsAlerts(s.counters, if info.valid then Some(info) else None, |x.frame|);
      SameAlertCounters(s.counters, counted, config, run);
      if info.valid {
        var a := D.Arrival(info, TimeOf(x));
        DetectorRunsOnArrivals(config, init);
        LastArrival(config, run, a);
        P.AlertHasRule(config, s.detector, info, TimeOf(x));
        AlertsCountedNext(counted, config, run, a);
      }
    }
  }

  lemma {:induction false} SameAlertCounters(c: Counters, d: Counters, config: Config, run: seq<D.Arrival>)
    requires AlertsCounted(c, config, run)
    requires d.alerts == c.alerts && d.low == c.low && d.medium == c.medium && d.high == c.high
    requires d.suspiciousPort == c.suspiciousPort && d.synWatch == c.synWatch && d.icmpEcho == c.icmpEcho
    requires d.portScan == c.portScan && d.synFlood == c.synFlood && d.icmpFlood == c.icmpFlood
    ensures AlertsCounted(d, config, run)
  {
  }

  lemma {:induction false} LastArrival(config: Config, run: seq<D.Arrival>, a: D.Arrival)
    ensures D.At(config, run + [a], |run|) == Detect(config, D.After(config, run), a.pkt, a.now)
  {
    hide Detect;
    assert (run + [a])[..|run|] == run;
    D.AtState(config, run + [a], |run|);
  }

  // The frames of a certain kind.
  ghost function FramesWith(inputs: seq<Input>, what: seq<byte> -> bool): set<nat> {
    set n | 0 <= n < |inputs| && what(inputs[n].frame)
  }

  lemma {:induction false} FramesWithNext(inputs: seq<Input>, what: seq<byte> -> bool)
    requires inputs != []
    ensures |FramesWith(inputs, what)| ==
            |FramesWith(inputs[..|inputs| - 1], what)| + if what(inputs[|inputs| - 1].frame) then 1 else 0
  {
    var m := |inputs| - 1;
    var before, after := FramesWith(inputs[..m], what), FramesWith(inputs, what);
    assert after == if what(inputs[m].frame) then before + {m} else before;
  }

  // The packet counters count the frames of each kind.
  lemma {:induction false} CountersCountFrames(config: Config, inputs: seq<Input>)
    ensures ProcessAll(config, inputs).counters.tcp == |FramesWith(inputs, CarriesTcp)|
    ensures ProcessAll(config, inputs).counters.udp == |FramesWith(inputs, CarriesUdp)|
    ensures ProcessAll(config, inputs).counters.icmp == |FramesWith(inputs, CarriesIcmp)|
    ensures ProcessAll(config, inputs).counters.valid == |FramesWith(inputs, ValidFrame)|
  {
    hide Process, CarriesTcp, CarriesUdp, CarriesIcmp, ValidFrame;
    if inputs == [] {
      NoFrames(CarriesTcp);
      NoFrames(CarriesUdp);
      NoFrames(CarriesIcmp);
      NoFrames(ValidFrame);
    } else {
      hide FramesWith;
      var m := |inputs| - 1;
      CountersCountFrames(config, inputs[..m]);
      FrameCounted(config, ProcessAll(config, inputs[..m]), inputs[m]);
      FramesWithNext(inputs, CarriesTcp);
      FramesWithNext(inputs, CarriesUdp);
      FramesWithNext(inputs, CarriesIcmp);
      FramesWithNext(inputs, ValidFrame);
    }
  }

  lemma {:induction false} NoFrames(what: seq<byte> -> bool)
    ensures |FramesWith([], what)| == 0
  {
  }

  lemma {:induction false} FrameCounted(config: Config, s: Session, x: Input)
    ensures var c, d := s.counters, Process(config, s, x).counters;
            && d.tcp == c.tcp + (if CarriesTcp(x.frame) then 1 else 0)
            && d.udp == c.udp + (if CarriesUdp(x.frame) then 1 else 0)
            && d.icmp == c.icmp + (if CarriesIcmp(x.frame) then 1 else 0)
            && d.valid == c.valid + (if ValidFrame(x.frame) then 1 else 0)
  {
    hide Detect, CountAlert, Parsed, CountPacket, CarriesTcp, CarriesUdp, CarriesIcmp, ValidFrame;
    var info := InfoOf(x);
    ProtocolCarried(x.frame, TimeOf(x));
    if info.valid {
      PacketCounted(s.counters, info, |x.frame|);
      AlertKeepsPackets(CountPacket(s.counters, Some(info), |x.frame|),
                        Detect(config, s.detector, info, TimeOf(x)).result);
    } else {
      InvalidCounted(s.counters, |x.frame|);
    }
  }

  lemma {:induction false} ProtocolCarried(frame: seq<byte>, time: int)
    ensures var info := Parsed(frame, time);
            && (info.valid <==> ValidFrame(frame)) && (info.valid ==> info.protocol != Unnamed)
            && (CarriesTcp(frame) <==> info.valid && info.protocol == Tcp)
            && (CarriesUdp(frame) <==> info.valid && info.protocol == Udp)
            && (CarriesIcmp(frame) <==> info.valid && info.protocol == Icmp)
  {
  }

  lemma {:induction false} InvalidCounted(c: Counters, rawLen: int)
    ensures var d := CountPacket(c, None, rawLen);
            d.valid == c.valid && d.tcp == c.tcp && d.udp == c.udp && d.icmp == c.icmp
  {
  }
}

/** The step function of the program: parse, count, detect, count the alert. */
module Processor {
  import opened Options
  import opened Packets
  import opened Settings
  import opened DetectorSpec
  import opened Frames
  import opened Stats
  import opened Pipeline
  import opened Detectors
  import Parser

  class PacketProcessor {
    const detector: Detector
    const stats: StatsKeeper

    ghost predicate Valid()
      reads this, detector, detector.Repr, stats
    {
      detector.Valid() && stats !in detector.Repr && stats as object != detector
    }

    ghost function Current(): Session
      requires Valid()
      reads this, detector, detector.Repr, stats
    {
      Session(stats.Snapshot(), detector.Current())
    }

    constructor (config: Config)
      ensures Valid() && fresh(detector) && fresh(detector.Repr) && fresh(stats)
      ensures detector.config == config
      ensures Current() == ProcessAll(config, [])
    {
      var d := new Detector(config);
      var s := new StatsKeeper();
      detector, stats := d, s;
    }

    method ProcessPacketEvent(frame: seq<byte>, timestamp: int, clock: int)
      requires Valid()
      modifies detector.Repr, stats
      ensures Valid()
      ensures Current() == Process(detector.config, old(Current()), Input(frame, timestamp, clock))
    {
      hide Detect, Parsed, ValidFrame, CountPacket, CountAlert;
      var info := Parser.ParsePacket(frame, timestamp, clock);
      stats.UpdatePacket(if info.valid then Some(info) else None, |frame|);
      if !info.valid {
        return;
      }
      var now := if info.timestamp != 0 then info.timestamp else clock;
      ParsedTime(frame, if timestamp != 0 then timestamp else clock);
      var detection := detector.DetectPacket(info, now);
      AlertOff(stats.Snapshot(), detection);
      if detection.alert {
        stats.UpdateAlert(detection);
      }
    }

    lemma {:induction false} ParsedTime(frame: seq<byte>, time: int)
      ensures Parsed(frame, time).timestamp == time
    {
    }

    lemma {:induction false} AlertOff(c: Counters, result: DetectionResult)
      ensures !result.alert ==> CountAlert(c, result) == c
    {
    }
  }
}

/** Capture files through the whole program. */
module Replay {
  import opened Packets
  import opened Settings
  import opened DetectorSpec
  import opened Frames
  import opened FrameBuilder
  import opened Pipeline
  import D = DetectorRuns
  import F = PcapFormat

  // What the reader hands on, processed packet by packet; clocks(i) is what the clock says at the i-th.
  ghost function InputsOf(deliveries: seq<F.Delivery>, clocks: nat -> int): (inputs: seq<Input>)
    ensures |inputs| == |deliveries|
  {
    seq(|deliveries|, i requires 0 <= i < |deliveries| => Input(deliveries[i].bytes, deliveries[i].seconds, clocks(i)))
  }

  ghost function ReplayFile(config: Config, file: seq<byte>, limit: int, clocks: nat -> int): Session {
    ProcessAll(config, InputsOf(F.ReadFile(file, limit).deliveries, clocks))
  }

  ghost function RecordInputs(records: seq<F.Record>, clocks: nat -> int): (inputs: seq<Input>)
    ensures |inputs| == |records|
  {
    InputsOf(F.Deliveries(records), clocks)
  }

  // Replaying a capture cut at any byte past its header processes exactly the whole records before the
  // cut, or as many as were asked for, in every format alike.
  lemma {:induction false} ReplaysWholeRecords(config: Config, format: F.Format, unused: seq<byte>,
                                               records: seq<F.Record>,
                                               cut: nat, limit: int, clocks: nat -> int)
    requires |unused| == 12 && F.Writable(records)
    requires F.GLOBAL_HEADER_LEN <= cut <= |F.WriteFile(format, unused, records)|
    ensures var whole := F.Whole(records, cut - F.GLOBAL_HEADER_LEN);
            var n := if 0 < limit <= whole then limit else whole;
            var after := ReplayFile(config, F.WriteFile(format, unused, records)[..cut], limit, clocks);
            && after == ProcessAll(config, RecordInputs(records[..n], clocks))
            && after.counters.total == n && Balanced(after.counters)
  {
    hide Balanced, Process, F.ReadFile, F.WriteFile;
    var whole := F.Whole(records, cut - F.GLOBAL_HEADER_LEN);
    var n := if 0 < limit <= whole then limit else whole;
    F.CutFile(format, unused, records, cut, limit);
    Conservation(config, RecordInputs(records[..n], clocks));
  }

  // A frame sent at some second, with the padding it was captured with.
  datatype Sent = Sent(frame: Frame, padding: seq<byte>, seconds: u32, fraction: u32, original: u32)

  predicate Sendable(sent: seq<Sent>) {
    forall i :: 0 <= i < |sent| ==>
      && WellFormedFrame(sent[i].frame) && sent[i].seconds != 0
      && |Build(sent[i].frame)| + |sent[i].padding| <= F.MAX_PACKET_LEN
  }

  function Captured(sent: seq<Sent>): (records: seq<F.Record>)
    requires Sendable(sent)
    ensures |records| == |sent| && F.Writable(records)
    ensures forall i :: 0 <= i < |sent| ==>
              records[i] == F.Record(sent[i].seconds, sent[i].fraction, sent[i].original,
                                     Build(sent[i].frame) + sent[i].padding)
  {
    seq(|sent|, i requires 0 <= i < |sent| =>
      F.Record(sent[i].seconds, sent[i].fraction, sent[i].original, Build(sent[i].frame) + sent[i].padding))
  }

  // The fields of the frames, at the times they were sent.
  ghost function ArrivalsOf(sent: seq<Sent>): (run: seq<D.Arrival>)
    requires Sendable(sent)
    ensures |run| == |sent|
    ensures forall i :: 0 <= i < |sent| ==>
              run[i] == D.Arrival(Expected(sent[i].frame, |Build(sent[i].frame)| + |sent[i].padding|, sent[i].seconds),
                                  sent[i].seconds)
  {
    seq(|sent|, i requires 0 <= i < |sent| =>
      D.Arrival(Expected(sent[i].frame, |Build(sent[i].frame)| + |sent[i].padding|, sent[i].seconds), sent[i].seconds))
  }

  lemma {:induction false} SentArrives(x: Sent, clock: int)
    requires WellFormedFrame(x.frame) && x.seconds != 0
    ensures var input := Input(Build(x.frame) + x.padding, x.seconds, clock);
            && TimeOf(input) == x.seconds && InfoOf(input).valid
            && InfoOf(input) == Expected(x.frame, |Build(x.frame)| + |x.padding|, x.seconds)
  {
    hide Build, Expected, Parsed, ValidFrame;
    BuiltFrameParses(x.frame, x.padding, x.seconds);
    ValidIsNamed(Build(x.frame) + x.padding, x.seconds);
  }

  lemma {:induction false} CapturedArrive(sent: seq<Sent>, clocks: nat -> int)
    requires Sendable(sent)
    ensures Arrivals(RecordInputs(Captured(sent), clocks)) == ArrivalsOf(sent)
  {
    hide Build, Expected, InfoOf, TimeOf, WellFormedFrame;
    if sent == [] {
    } else {
      var inputs, m := RecordInputs(Captured(sent), clocks), |sent| - 1;
      CapturedArrive(sent[..m], clocks);
      assert inputs[..m] == RecordInputs(Captured(sent[..m]), clocks);
      SentArrives(sent[m], clocks(m));
      assert ArrivalsOf(sent) == ArrivalsOf(sent[..m]) + [ArrivalsOf(sent)[m]];
    }
  }

  // From bytes to detection: capturing frames to a file in any format and replaying it leaves the
  // detector as if it had been given the fields of those frames, in order, at the times they were
  // sent, whatever the clock says meanwhile.
  lemma {:induction false} ReplayedFramesDetected(config: Config, format: F.Format, unused: seq<byte>, sent: seq<Sent>,
                                                  clocks: nat -> int)
    requires |unused| == 12 && Sendable(sent)
    ensures ReplayFile(config, F.WriteFile(format, unused, Captured(sent)), 0, clocks).detector ==
            D.After(config, ArrivalsOf(sent))
  {
    hide Process, F.ReadFile, F.WriteFile, Build, Expected;
    var records := Captured(sent);
    F.ReadsBackFile(format, unused, records, 0);
    DetectorRunsOnArrivals(config, RecordInputs(records, clocks));
    CapturedArrive(sent, clocks);
  }
}
