/** What the rules promise over whole runs of packets. */
module DetectorProperties {
  import opened Options
  import opened Windows
  import opened Packets
  import opened Settings
  import opened Slots
  import opened Cooldown
  import opened DetectorSpec
  import opened DetectorRuns
  import opened DetectorCounts
  import T = TableRuns
  import C = CooldownRuns

  ghost predicate Fires(config: Config, run: seq<Arrival>, n: nat, rule: Rule)
    requires n < |run|
  {
    At(config, run, n).fired == Some(rule)
  }

  // The n-th arrival raises an alert under `key`.
  ghost predicate AlertsAt(config: Config, run: seq<Arrival>, n: nat, key: AlertKey)
    requires n < |run|
  {
    At(config, run, n).result.alert && At(config, run, n).fired.Some? &&
    KeyFor(At(config, run, n).fired.value, run[n].pkt) == key
  }

  lemma {:induction false} FiringRule(config: Config, state: State, pkt: PacketInfo, now: int)
    ensures var o := Detect(config, state, pkt, now);
            && (o.fired == Some(SynFlood) <==> Reaches(o.syn.hit, config.synFloodThreshold))
            && (o.fired == Some(PortScan) <==>
                  o.fired != Some(SynFlood) && Reaches(o.scan.hit, config.portScanThreshold))
            && (o.fired == Some(IcmpFlood) <==>
                  o.fired != Some(SynFlood) && o.fired != Some(PortScan) &&
                    Reaches(o.icmp.hit, config.icmpFloodThreshold))
            && (o.result.alert <==> o.fired.Some? && o.verdict.emit)
  {
  }

  // ---------- priorities and risky ports ----------

  ghost predicate Matches(config: Config, o: Outcome, pkt: PacketInfo, rule: Rule) {
    match rule
    case SynFlood => Reaches(o.syn.hit, config.synFloodThreshold)
    case PortScan => Reaches(o.scan.hit, config.portScanThreshold)
    case IcmpFlood => Reaches(o.icmp.hit, config.icmpFloodThreshold)
    case SuspiciousPort => config.enableSuspiciousPort != 0 && IsRisky(pkt)
    case IcmpEcho => config.enableIcmpEcho != 0 && IsEcho(pkt)
    case SynWatch => config.enableSynWatch != 0 && IsSyn(pkt)
  }

  function Priority(rule: Rule): nat {
    match rule
    case SynFlood => 1
    case PortScan => 2
    case IcmpFlood => 3
    case SuspiciousPort => 4
    case IcmpEcho => 5
    case SynWatch => 6
  }

  // The rule that absorbs a packet is the matching one of the highest priority, and some rule does
  // whenever any matches.
  lemma {:induction false} FirstMatchFires(config: Config, state: State, pkt: PacketInfo, now: int)
    ensures var o := Detect(config, state, pkt, now);
            && (o.fired.None? <==> forall rule: Rule :: !Matches(config, o, pkt, rule))
            && (o.fired.Some? ==>
                  && Matches(config, o, pkt, o.fired.value)
                  && forall rule: Rule :: Matches(config, o, pkt, rule) ==> Priority(o.fired.value) <= Priority(rule))
  {
    hide Observe, Decide, Report, IsRisky, IsEcho, IsSyn;
    var o := Detect(config, state, pkt, now);
    forall rule: Rule | Matches(config, o, pkt, rule)
      ensures o.fired.Some? && Priority(o.fired.value) <= Priority(rule)
    {
      match rule
      case _ =>
    }
    assert o.fired.Some? ==> Matches(config, o, pkt, o.fired.value);
  }

  lemma {:induction false} RiskyPorts(port: u16)
    ensures RiskOf(port) == Some(Medium) <==> port == 23 || port == 445 || port == 3389
    ensures RiskOf(port) == Some(Low) <==>
            port == 21 || port == 22 || port == 25 || port == 53 || port == 110 || port == 139 || port == 143
    ensures RiskOf(port).Some? ==> RiskOf(port).value == Low || RiskOf(port).value == Medium
  {
  }

  // Only SYNs reach the two TCP tables and only echo requests the ICMP table.
  lemma {:induction false} HitsAreOffered(config: Config, state: State, pkt: PacketInfo, now: int)
    ensures var o := Detect(config, state, pkt, now);
            && (o.syn.hit.Some? ==> SynOffer(config, pkt, now).Offer?)
            && (o.scan.hit.Some? ==> ScanOffer(config, pkt, now, o.fired == Some(SynFlood)).Offer?)
            && (o.icmp.hit.Some? ==> IcmpOffer(config, pkt, now).Offer?)
  {
  }

  lemma {:induction false} AtFires(config: Config, run: seq<Arrival>, n: nat)
    requires n < |run|
    ensures var o := At(config, run, n);
            && (Fires(config, run, n, SynFlood) <==> Reaches(o.syn.hit, config.synFloodThreshold))
            && (Fires(config, run, n, PortScan) <==>
                  !Fires(config, run, n, SynFlood) && Reaches(o.scan.hit, config.portScanThreshold))
            && (Fires(config, run, n, IcmpFlood) <==> Reaches(o.icmp.hit, config.icmpFloodThreshold))
            && (o.result.alert <==> o.fired.Some? && o.verdict.emit)
            && (o.syn.hit.Some? ==> SynLog(config, run)[n].Offer?)
            && (o.scan.hit.Some? ==> ScanLog(config, run)[n].Offer?)
            && (o.icmp.hit.Some? ==> IcmpLog(config, run)[n].Offer?)
  {
    hide Detect;
    AtState(config, run, n);
    FiringRule(config, After(config, run[..n]), run[n].pkt, run[n].now);
    HitsAreOffered(config, After(config, run[..n]), run[n].pkt, run[n].now);
  }

  // ---------- every reachable state ----------

  // Keys in use are pairwise distinct, every slot in use holds 1..128 entries, and the alert history
  // is used from the front with distinct keys.
  lemma {:induction false} ReachableTables(config: Config, run: seq<Arrival>)
    requires Timed(run)
    ensures WellFormed(After(config, run).syn, SynLimits(config))
    ensures WellFormed(After(config, run).scan, ScanLimits(config))
    ensures WellFormed(After(config, run).icmp, IcmpLimits(config))
    ensures WellKept(After(config, run).history) && |After(config, run).history| == 256
    ensures |After(config, run).syn| == |After(config, run).scan| == |After(config, run).icmp| == 256
    ensures forall i :: 0 <= i < 256 && After(config, run).syn[i].Live? ==>
              1 <= |After(config, run).syn[i].entries| <= 128
    ensures forall i :: 0 <= i < 256 && After(config, run).scan[i].Live? ==>
              1 <= |After(config, run).scan[i].entries| <= 128
    ensures forall i :: 0 <= i < 256 && After(config, run).icmp[i].Live? ==>
              1 <= |After(config, run).icmp[i].entries| <= 128
  {
    hide After;
    RunProjects(config, run);
    T.AfterWellFormed(SynLog(config, run), SynLimits(config));
    T.AfterWellFormed(ScanLog(config, run), ScanLimits(config));
    T.AfterWellFormed(IcmpLog(config, run), IcmpLimits(config));
    C.AfterWellKept(AskLog(config, run), MAX_ALERT_HISTORY, config.alertCooldown);
  }

  // A threshold beyond what a slot can hold, or a negative one, is never reached.
  lemma {:induction false} UnreachableThresholds(config: Config, run: seq<Arrival>, n: nat)
    requires Timed(run) && n < |run|
    ensures !(0 <= config.synFloodThreshold <= 128) ==> !Fires(config, run, n, SynFlood)
    ensures !(0 <= config.portScanThreshold <= 128) ==> !Fires(config, run, n, PortScan)
    ensures !(0 <= config.icmpFloodThreshold <= 128) ==> !Fires(config, run, n, IcmpFlood)
  {
    hide Detect, Observe, At, After, WellFormed;
    var state, pkt, now := After(config, run[..n]), run[n].pkt, run[n].now;
    var o := At(config, run, n);
    ReachableTables(config, run[..n]);
    AtState(config, run, n);
    AtFires(config, run, n);
    DetectParts(config, state, pkt, now);
    ObserveWellFormed(state.syn, SynOffer(config, pkt, now), SynLimits(config));
    ObserveWellFormed(state.scan, ScanOffer(config, pkt, now, o.fired == Some(SynFlood)), ScanLimits(config));
    ObserveWellFormed(state.icmp, IcmpOffer(config, pkt, now), IcmpLimits(config));
  }

  // Which packets the table rules can fire on at all: their switch is on and the packet is of the kind
  // they count.
  lemma {:induction false} FiringPacket(config: Config, run: seq<Arrival>, n: nat)
    requires n < |run|
    ensures Fires(config, run, n, SynFlood) ==> config.enableSynFlood != 0 && SynLike(run[n].pkt, run[n].pkt)
    ensures Fires(config, run, n, PortScan) ==>
              config.enablePortScan != 0 && ContactLike(run[n].pkt, run[n].pkt) && !Absorbed(config, run, n)
    ensures Fires(config, run, n, IcmpFlood) ==> config.enableIcmpFlood != 0 && EchoLike(run[n].pkt, run[n].pkt)
  {
    hide At;
    AtFires(config, run, n);
  }

  // The other rules fire exactly on these packets, when nothing of higher priority did.
  lemma {:induction false} StatelessFires(config: Config, run: seq<Arrival>, n: nat)
    requires n < |run|
    ensures var pkt, counted := run[n].pkt, Counting(At(config, run, n));
            var risky := config.enableSuspiciousPort != 0 && pkt.valid &&
              (pkt.protocol == Tcp || pkt.protocol == Udp) &&
                         pkt.dstPort as int in {21, 22, 23, 25, 53, 110, 139, 143, 445, 3389};
            var echo := config.enableIcmpEcho != 0 && pkt.valid && pkt.protocol == Icmp && pkt.icmpType == 8;
            var syn := config.enableSynWatch != 0 && pkt.valid && pkt.protocol == Tcp && pkt.syn && !pkt.ack;
            && (Fires(config, run, n, SuspiciousPort) <==> !counted && risky)
            && (Fires(config, run, n, IcmpEcho) <==> !counted && !risky && echo)
            && (Fires(config, run, n, SynWatch) <==> !counted && !risky && !echo && syn)
  {
    hide Detect, RiskOf;
    AtState(config, run, n);
    RiskyPorts(run[n].pkt.dstPort);
    StatelessRuleFires(config, After(config, run[..n]), run[n].pkt, run[n].now);
  }

  lemma {:induction false} StatelessRuleFires(config: Config, state: State, pkt: PacketInfo, now: int)
    ensures var o := Detect(config, state, pkt, now);
            if Counting(o) then o.fired.Some?
            else o.fired == StatelessRule(config, pkt) && o.fired != Some(SynFlood) && o.fired != Some(PortScan) &&
                 o.fired != Some(IcmpFlood)
  {
    hide Observe, Decide, Report;
  }

  // ---------- soundness, with no assumption on order or room ----------

  // A firing has at least `threshold` SYNs of its source, destination and port in the window.
  lemma {:induction false} SynFloodSound(config: Config, run: seq<Arrival>, n: nat)
    requires Timed(run) && config.synFloodWindow > 0 && n < |run| && Fires(config, run, n, SynFlood)
    ensures config.enableSynFlood != 0 && SynLike(run[n].pkt, run[n].pkt)
    ensures 0 <= config.synFloodThreshold <= |SynsInWindow(config, run, n)|
  {
    hide At, SynLike, Syns;
    AtFires(config, run, n);
    Answers(config, run, n);
    FiringPacket(config, run, n);
    UnreachableThresholds(config, run, n);
    T.FloodSound(SynLog(config, run), n, SynLimits(config));
    SynsCounted(config, run, n + 1, run[n].pkt, run[n].now);
  }

  lemma {:induction false} IcmpFloodSound(config: Config, run: seq<Arrival>, n: nat)
    requires Timed(run) && config.icmpFloodWindow > 0 && n < |run| && Fires(config, run, n, IcmpFlood)
    ensures config.enableIcmpFlood != 0 && EchoLike(run[n].pkt, run[n].pkt)
    ensures 0 <= config.icmpFloodThreshold <= |EchoesInWindow(config, run, n)|
  {
    hide At, EchoLike, Echoes;
    AtFires(config, run, n);
    Answers(config, run, n);
    FiringPacket(config, run, n);
    UnreachableThresholds(config, run, n);
    T.FloodSound(IcmpLog(config, run), n, IcmpLimits(config));
    EchoesCounted(config, run, n + 1, run[n].pkt, run[n].now);
  }

  lemma {:induction false} PortScanSound(config: Config, run: seq<Arrival>, n: nat)
    requires Timed(run) && config.portScanWindow > 0 && n < |run| && Fires(config, run, n, PortScan)
    ensures config.enablePortScan != 0 && ContactLike(run[n].pkt, run[n].pkt)
    ensures 0 <= config.portScanThreshold <= |PortsInWindow(config, run, n)|
  {
    hide At, ContactLike, Ports;
    AtFires(config, run, n);
    Answers(config, run, n);
    FiringPacket(config, run, n);
    UnreachableThresholds(config, run, n);
    T.ScanSound(ScanLog(config, run), n, ScanLimits(config));
    PortsCounted(config, run, n + 1, run[n].pkt, run[n].now);
  }

  lemma {:induction false} EmitsIsAlert(config: Config, run: seq<Arrival>, n: nat, key: AlertKey)
    requires n < |run|
    ensures C.EmitsAt(AskLog(config, run), n, key, MAX_ALERT_HISTORY, config.alertCooldown) <==>
            AlertsAt(config, run, n, key)
  {
    hide At;
    AtFires(config, run, n);
    Answers(config, run, n);
  }

  // The m-th and the n-th arrival match the same rule for the same source and destination and, for the
  // rules about one port, the same destination port.
  ghost predicate SameIncident(config: Config, run: seq<Arrival>, m: nat, n: nat)
    requires m < |run| && n < |run|
  {
    var rule, p, q := At(config, run, n).fired, run[m].pkt, run[n].pkt;
    && rule.Some? && At(config, run, m).fired == rule && p.src == q.src && p.dst == q.dst
    && (rule.value in {SynFlood, SuspiciousPort, SynWatch} ==> p.dstPort == q.dstPort)
  }

  // Two matches share a cooldown exactly when they are the same incident.
  lemma {:induction false} SharedCooldown(config: Config, run: seq<Arrival>, m: nat, n: nat)
    requires m < |run| && n < |run| && At(config, run, m).fired.Some? && At(config, run, n).fired.Some?
    ensures SameIncident(config, run, m, n) <==>
            KeyFor(At(config, run, m).fired.value, run[m].pkt) == KeyFor(At(config, run, n).fired.value, run[n].pkt)
  {
    hide At;
  }

  // A match without an alert is held back by a real alert about the same incident, raised no more than
  // the cooldown earlier.
  lemma {:induction false} SuppressedByAlert(config: Config, run: seq<Arrival>, n: nat)
    requires n < |run| && At(config, run, n).fired.Some? && !At(config, run, n).result.alert
    ensures exists m :: 0 <= m < n && At(config, run, m).result.alert && SameIncident(config, run, m, n) &&
                        run[n].now - run[m].now <= config.alertCooldown
  {
    hide At, KeyFor, SameIncident;
    AtFires(config, run, n);
    Answers(config, run, n);
    var asks, key := AskLog(config, run), KeyFor(At(config, run, n).fired.value, run[n].pkt);
    C.SuppressionSound(asks, n, MAX_ALERT_HISTORY, config.alertCooldown);
    var m :| 0 <= m < n && C.EmitsAt(asks, m, key, MAX_ALERT_HISTORY, config.alertCooldown) &&
             asks[n].now - asks[m].now <= config.alertCooldown;
    EmitsIsAlert(config, run, m, key);
    SharedCooldown(config, run, m, n);
  }

  // With a cooldown of zero or less every match raises an alert.
  lemma {:induction false} NoCooldown(config: Config, run: seq<Arrival>, n: nat)
    requires n < |run| && config.alertCooldown <= 0
    ensures At(config, run, n).result.alert <==> At(config, run, n).fired.Some?
  {
    hide At, Detect;
    AtFires(config, run, n);
    Answers(config, run, n);
  }

  // ---------- completeness, however full the tables are ----------

  // run[i..j] starts with a SYN that found a slot and has enough SYNs like it.  No SYN in it is past the
  // window, and none like the first is before it.
  ghost predicate SynSpan(config: Config, run: seq<Arrival>, i: nat, j: nat) {
    && i < j <= |run| && At(config, run, i).syn.hit.Some?
    && (forall m :: i <= m < j && SynLike(run[m].pkt, run[m].pkt) ==>
          run[m].now <= run[i].now + config.synFloodWindow &&
            (SynLike(run[m].pkt, run[i].pkt) ==> run[i].now <= run[m].now))
    && |SynsAmong(run, i, j, run[i].pkt)| >= config.synFloodThreshold
  }

  // The same for echo requests.
  ghost predicate EchoSpan(config: Config, run: seq<Arrival>, i: nat, j: nat) {
    && i < j <= |run| && At(config, run, i).icmp.hit.Some?
    && (forall m :: i <= m < j && EchoLike(run[m].pkt, run[m].pkt) ==>
          run[m].now <= run[i].now + config.icmpFloodWindow &&
            (EchoLike(run[m].pkt, run[i].pkt) ==> run[i].now <= run[m].now))
    && |EchoesAmong(run, i, j, run[i].pkt)| >= config.icmpFloodThreshold
  }

  // The same for distinct ports of unabsorbed SYNs.
  ghost predicate ScanSpan(config: Config, run: seq<Arrival>, i: nat, j: nat) {
    && i < j <= |run| && At(config, run, i).scan.hit.Some?
    && (forall m :: i <= m < j && ContactLike(run[m].pkt, run[m].pkt) && !Absorbed(config, run, m) ==>
          && run[m].now <= run[i].now + config.portScanWindow
          && (ContactLike(run[m].pkt, run[i].pkt) ==> run[i].now <= run[m].now))
    && |PortsAmong(config, run, i, j, run[i].pkt)| >= config.portScanThreshold
  }

  lemma {:induction false} SynFloodComplete(config: Config, run: seq<Arrival>, i: nat, j: nat)
    requires Timed(run) && config.synFloodWindow > 0 && 1 <= config.synFloodThreshold <= 128
    requires SynSpan(config, run, i, j)
    ensures exists m :: i <= m < j && Fires(config, run, m, SynFlood) && SynLike(run[m].pkt, run[i].pkt)
  {
    hide At, T.HitAt, T.After;
    var log, flow, limits := SynLog(config, run), FlowOf(run[i].pkt), SynLimits(config);
    AtFires(config, run, i);
    Answers(config, run, i);
    SynsOffered(config, run, i, j, run[i].pkt);
    T.FloodNeverMissed(log, flow, i, j, config.synFloodThreshold, limits);
    var m :| i <= m < j && T.IsOf(log[m], flow) && T.HitAt(log, m, limits).Some? &&
             |T.HitAt(log, m, limits).value| >= config.synFloodThreshold;
    SynLogged(config, run, m, run[i].pkt);
    AtFires(config, run, m);
    Answers(config, run, m);
  }

  lemma {:induction false} IcmpFloodComplete(config: Config, run: seq<Arrival>, i: nat, j: nat)
    requires Timed(run) && config.icmpFloodWindow > 0 && 1 <= config.icmpFloodThreshold <= 128
    requires EchoSpan(config, run, i, j)
    ensures exists m :: i <= m < j && Fires(config, run, m, IcmpFlood) && EchoLike(run[m].pkt, run[i].pkt)
  {
    hide At, T.HitAt, T.After;
    var log, pair, limits := IcmpLog(config, run), PairOf(run[i].pkt), IcmpLimits(config);
    AtFires(config, run, i);
    Answers(config, run, i);
    EchoesOffered(config, run, i, j, run[i].pkt);
    T.FloodNeverMissed(log, pair, i, j, config.icmpFloodThreshold, limits);
    var m :| i <= m < j && T.IsOf(log[m], pair) && T.HitAt(log, m, limits).Some? &&
             |T.HitAt(log, m, limits).value| >= config.icmpFloodThreshold;
    EchoLogged(config, run, m, run[i].pkt);
    AtFires(config, run, m);
    Answers(config, run, m);
  }

  lemma {:induction false} PortScanComplete(config: Config, run: seq<Arrival>, i: nat, j: nat)
    requires Timed(run) && config.portScanWindow > 0 && 1 <= config.portScanThreshold <= 128
    requires ScanSpan(config, run, i, j)
    ensures exists m :: i <= m < j && Fires(config, run, m, PortScan) && ContactLike(run[m].pkt, run[i].pkt)
  {
    hide At, T.HitAt, T.After;
    var log, pair, limits := ScanLog(config, run), PairOf(run[i].pkt), ScanLimits(config);
    AtFires(config, run, i);
    Answers(config, run, i);
    PortsOffered(config, run, i, j, run[i].pkt);
    T.ScanNeverMissed(log, pair, i, j, config.portScanThreshold, limits);
    var m :| i <= m < j && T.IsOf(log[m], pair) && T.HitAt(log, m, limits).Some? &&
             |T.HitAt(log, m, limits).value| >= config.portScanThreshold;
    ContactLogged(config, run, m, run[i].pkt);
    AtFires(config, run, m);
    Answers(config, run, m);
  }

  // ---------- exactness, while there is room ----------

  // For a steady flow with room the SYN-flood rule fires exactly on the SYNs whose window holds
  // `threshold` SYNs of the same source, destination and destination port.
  lemma {:induction false} SynFloodExact(config: Config, run: seq<Arrival>, n: nat)
    requires Timed(run) && config.synFloodWindow > 0 && n < |run|
    requires T.Steady(SynLog(config, run), FlowOf(run[n].pkt), config.synFloodWindow)
    requires T.FewKeys(SynLog(config, run), FlowOf(run[n].pkt), SynLimits(config))
    requires T.Unsaturated(SynLog(config, run), FlowOf(run[n].pkt), SynLimits(config))
    ensures Fires(config, run, n, SynFlood) <==>
            && config.enableSynFlood != 0 && SynLike(run[n].pkt, run[n].pkt)
            && 0 <= config.synFloodThreshold <= |SynsInWindow(config, run, n)|
  {
    hide At, Syns, T.Steady, T.FewKeys, T.Unsaturated;
    AtFires(config, run, n);
    Answers(config, run, n);
    FiringPacket(config, run, n);
    UnreachableThresholds(config, run, n);
    if config.enableSynFlood != 0 && SynLike(run[n].pkt, run[n].pkt) {
      T.FloodCountsLog(SynLog(config, run), n, SynLimits(config));
      SynsCounted(config, run, n + 1, run[n].pkt, run[n].now);
    }
  }

  lemma {:induction false} IcmpFloodExact(config: Config, run: seq<Arrival>, n: nat)
    requires Timed(run) && config.icmpFloodWindow > 0 && n < |run|
    requires T.Steady(IcmpLog(config, run), PairOf(run[n].pkt), config.icmpFloodWindow)
    requires T.FewKeys(IcmpLog(config, run), PairOf(run[n].pkt), IcmpLimits(config))
    requires T.Unsaturated(IcmpLog(config, run), PairOf(run[n].pkt), IcmpLimits(config))
    ensures Fires(config, run, n, IcmpFlood) <==>
            && config.enableIcmpFlood != 0 && EchoLike(run[n].pkt, run[n].pkt)
            && 0 <= config.icmpFloodThreshold <= |EchoesInWindow(config, run, n)|
  {
    hide At, Echoes, T.Steady, T.FewKeys, T.Unsaturated;
    AtFires(config, run, n);
    Answers(config, run, n);
    FiringPacket(config, run, n);
    UnreachableThresholds(config, run, n);
    if config.enableIcmpFlood != 0 && EchoLike(run[n].pkt, run[n].pkt) {
      T.FloodCountsLog(IcmpLog(config, run), n, IcmpLimits(config));
      EchoesCounted(config, run, n + 1, run[n].pkt, run[n].now);
    }
  }

  // The port-scan rule fires exactly on the SYNs that the SYN-flood rule did not absorb and whose window
  // holds `threshold` distinct ports of such SYNs; what it stores is exactly those ports, each with the
  // time of its last contact.
  lemma {:induction false} PortScanExact(config: Config, run: seq<Arrival>, n: nat)
    requires Timed(run) && config.portScanWindow > 0 && n < |run|
    requires T.Steady(ScanLog(config, run), PairOf(run[n].pkt), config.portScanWindow)
    requires T.FewKeys(ScanLog(config, run), PairOf(run[n].pkt), ScanLimits(config))
    requires T.FewPorts(ScanLog(config, run), PairOf(run[n].pkt), ScanLimits(config))
    ensures config.enablePortScan != 0 && ContactLike(run[n].pkt, run[n].pkt) && !Absorbed(config, run, n) ==>
              && At(config, run, n).scan.hit.Some?
              && T.IsPortView(At(config, run, n).scan.hit.value, ScanLog(config, run)[..n + 1], PairOf(run[n].pkt),
                              run[n].now, config.portScanWindow)
              && T.PortSet(At(config, run, n).scan.hit.value) == PortsInWindow(config, run, n)
    ensures Fires(config, run, n, PortScan) <==>
            && config.enablePortScan != 0 && ContactLike(run[n].pkt, run[n].pkt) && !Absorbed(config, run, n)
            && 0 <= config.portScanThreshold <= |PortsInWindow(config, run, n)|
  {
    hide At, Ports, T.Steady, T.FewKeys, T.FewPorts, T.IsPortView;
    AtFires(config, run, n);
    Answers(config, run, n);
    FiringPacket(config, run, n);
    UnreachableThresholds(config, run, n);
    if config.enablePortScan != 0 && ContactLike(run[n].pkt, run[n].pkt) && !Absorbed(config, run, n) {
      T.ScanListsLog(ScanLog(config, run), n, ScanLimits(config));
      PortsCounted(config, run, n + 1, run[n].pkt, run[n].now);
    }
  }

  // The three rules in an ordered run, with every condition said of the packets.
  lemma {:induction false} SynFloodRule(config: Config, run: seq<Arrival>, n: nat)
    requires Timed(run) && Ordered(run) && config.synFloodWindow > 0 && n < |run| && SynRoom(config, run, run[n].pkt)
    ensures Fires(config, run, n, SynFlood) <==>
            && config.enableSynFlood != 0 && SynLike(run[n].pkt, run[n].pkt)
            && 0 <= config.synFloodThreshold <= |SynsInWindow(config, run, n)|
  {
    hide At, SynLike, Syns, T.Steady, T.FewKeys, T.Unsaturated, SynRoom;
    FiringPacket(config, run, n);
    if config.enableSynFlood != 0 {
      OrderedRunSteady(config, run, FlowOf(run[n].pkt), PairOf(run[n].pkt));
      SynRoomIsRoom(config, run, run[n].pkt);
      SynFloodExact(config, run, n);
    }
  }

  lemma {:induction false} IcmpFloodRule(config: Config, run: seq<Arrival>, n: nat)
    requires Timed(run) && Ordered(run) && config.icmpFloodWindow > 0 && n < |run| && EchoRoom(config, run, run[n].pkt)
    ensures Fires(config, run, n, IcmpFlood) <==>
            && config.enableIcmpFlood != 0 && EchoLike(run[n].pkt, run[n].pkt)
            && 0 <= config.icmpFloodThreshold <= |EchoesInWindow(config, run, n)|
  {
    hide At, EchoLike, Echoes, T.Steady, T.FewKeys, T.Unsaturated, EchoRoom;
    FiringPacket(config, run, n);
    if config.enableIcmpFlood != 0 {
      OrderedRunSteady(config, run, FlowOf(run[n].pkt), PairOf(run[n].pkt));
      EchoRoomIsRoom(config, run, run[n].pkt);
      IcmpFloodExact(config, run, n);
    }
  }

  lemma {:induction false} PortScanRule(config: Config, run: seq<Arrival>, n: nat)
    requires Timed(run) && Ordered(run) && config.portScanWindow > 0 && n < |run| && ScanRoom(config, run, run[n].pkt)
    ensures Fires(config, run, n, PortScan) <==>
            && config.enablePortScan != 0 && ContactLike(run[n].pkt, run[n].pkt) && !Absorbed(config, run, n)
            && 0 <= config.portScanThreshold <= |PortsInWindow(config, run, n)|
  {
    hide At, ContactLike, Absorbed, Ports, T.Steady, T.FewKeys, T.FewPorts, ScanRoom;
    FiringPacket(config, run, n);
    if config.enablePortScan != 0 {
      OrderedRunSteady(config, run, FlowOf(run[n].pkt), PairOf(run[n].pkt));
      ScanRoomIsRoom(config, run, run[n].pkt);
      PortScanExact(config, run, n);
    }
  }

  // In a run with times in order every flow and pair is steady.
  lemma {:induction false} OrderedRunSteady(config: Config, run: seq<Arrival>, flow: Flow, pair: Pair)
    requires Ordered(run)
    ensures T.Steady(SynLog(config, run), flow, config.synFloodWindow)
    ensures T.Steady(ScanLog(config, run), pair, config.portScanWindow)
    ensures T.Steady(IcmpLog(config, run), pair, config.icmpFloodWindow)
  {
    hide At;
    T.OrderedIsSteady(SynLog(config, run), flow, config.synFloodWindow);
    T.OrderedIsSteady(ScanLog(config, run), pair, config.portScanWindow);
    T.OrderedIsSteady(IcmpLog(config, run), pair, config.icmpFloodWindow);
  }

  // ---------- nothing the log shows goes unnoticed ----------

  // However full its slot is, a flood makes the rule fire: if the window of some SYN holds `threshold`
  // SYNs like it, the rule fires on one of them.
  lemma {:induction false} SynFloodNoticed(config: Config, run: seq<Arrival>, n: nat)
    requires Timed(run) && config.synFloodWindow > 0 && 1 <= config.synFloodThreshold <= 128 && n < |run|
    requires config.enableSynFlood != 0 && SynLike(run[n].pkt, run[n].pkt)
    requires T.OrderedFor(SynLog(config, run), FlowOf(run[n].pkt))
    requires T.NeverMissed(SynLog(config, run), FlowOf(run[n].pkt), SynLimits(config))
    requires |SynsInWindow(config, run, n)| >= config.synFloodThreshold
    ensures exists m :: 0 <= m <= n && Fires(config, run, m, SynFlood) && SynLike(run[m].pkt, run[n].pkt) &&
                        run[n].now - run[m].now <= config.synFloodWindow
  {
    hide At, T.HitAt, T.NeverMissed, T.Count, Syns;
    var log, limits := SynLog(config, run), SynLimits(config);
    SynsCounted(config, run, n + 1, run[n].pkt, run[n].now);
    T.FloodNoticed(log, n, config.synFloodThreshold, limits);
    var m :| 0 <= m <= n && T.IsOf(log[m], log[n].key) && Within(log[n].now, log[m].now, limits.window) &&
             T.HitAt(log, m, limits).Some? && |T.HitAt(log, m, limits).value| >= config.synFloodThreshold;
    SynLogged(config, run, m, run[n].pkt);
    AtFires(config, run, m);
    Answers(config, run, m);
  }

  // The same for echo requests.
  lemma {:induction false} IcmpFloodNoticed(config: Config, run: seq<Arrival>, n: nat)
    requires Timed(run) && config.icmpFloodWindow > 0 && 1 <= config.icmpFloodThreshold <= 128 && n < |run|
    requires config.enableIcmpFlood != 0 && EchoLike(run[n].pkt, run[n].pkt)
    requires T.OrderedFor(IcmpLog(config, run), PairOf(run[n].pkt))
    requires T.NeverMissed(IcmpLog(config, run), PairOf(run[n].pkt), IcmpLimits(config))
    requires |EchoesInWindow(config, run, n)| >= config.icmpFloodThreshold
    ensures exists m :: 0 <= m <= n && Fires(config, run, m, IcmpFlood) && EchoLike(run[m].pkt, run[n].pkt) &&
                        run[n].now - run[m].now <= config.icmpFloodWindow
  {
    hide At, T.HitAt, T.NeverMissed, T.Count, Echoes;
    var log, limits := IcmpLog(config, run), IcmpLimits(config);
    EchoesCounted(config, run, n + 1, run[n].pkt, run[n].now);
    T.FloodNoticed(log, n, config.icmpFloodThreshold, limits);
    var m :| 0 <= m <= n && T.IsOf(log[m], log[n].key) && Within(log[n].now, log[m].now, limits.window) &&
             T.HitAt(log, m, limits).Some? && |T.HitAt(log, m, limits).value| >= config.icmpFloodThreshold;
    EchoLogged(config, run, m, run[n].pkt);
    AtFires(config, run, m);
    Answers(config, run, m);
  }

  // The same for the distinct ports of unabsorbed SYNs.
  lemma {:induction false} PortScanNoticed(config: Config, run: seq<Arrival>, n: nat)
    requires Timed(run) && config.portScanWindow > 0 && 1 <= config.portScanThreshold <= 128 && n < |run|
    requires config.enablePortScan != 0 && ContactLike(run[n].pkt, run[n].pkt) && !Absorbed(config, run, n)
    requires T.OrderedFor(ScanLog(config, run), PairOf(run[n].pkt))
    requires T.NeverMissed(ScanLog(config, run), PairOf(run[n].pkt), ScanLimits(config))
    requires |PortsInWindow(config, run, n)| >= config.portScanThreshold
    ensures exists m :: 0 <= m <= n && Fires(config, run, m, PortScan) && ContactLike(run[m].pkt, run[n].pkt) &&
                        run[n].now - run[m].now <= config.portScanWindow
  {
    hide At, T.HitAt, T.NeverMissed, T.LivePorts, Ports;
    var log, limits := ScanLog(config, run), ScanLimits(config);
    PortsCounted(config, run, n + 1, run[n].pkt, run[n].now);
    T.ScanNoticed(log, n, config.portScanThreshold, limits);
    var m :| 0 <= m <= n && T.IsOf(log[m], log[n].key) && Within(log[n].now, log[m].now, limits.window) &&
             T.HitAt(log, m, limits).Some? && |T.HitAt(log, m, limits).value| >= config.portScanThreshold;
    ContactLogged(config, run, m, run[n].pkt);
    AtFires(config, run, m);
    Answers(config, run, m);
  }

  // ---------- alerts follow an unbounded cooldown ----------

  // An alert goes out exactly when a rule matches and the unbounded map of last alerts allows it.
  lemma {:induction false} AlertsFollowMap(config: Config, run: seq<Arrival>, n: nat)
    requires Timed(run) && Ordered(run) && config.alertCooldown > 0 && n < |run|
    requires C.FewCooling(AskLog(config, run), MAX_ALERT_HISTORY, config.alertCooldown)
    ensures At(config, run, n).result.alert <==> AllowedByMap(config, run, n)
  {
    hide At;
    AtFires(config, run, n);
    Answers(config, run, n);
    if At(config, run, n).fired.Some? {
      C.CooldownRefinesMap(AskLog(config, run), n, MAX_ALERT_HISTORY, config.alertCooldown);
    }
  }

  // The number of alerts of `key` among run[i..j].
  ghost function AlertCount(config: Config, run: seq<Arrival>, key: AlertKey, i: nat, j: nat): nat
    requires i <= j <= |run|
  {
    if i == j then 0
    else AlertCount(config, run, key, i, j - 1) + if AlertsAt(config, run, j - 1, key) then 1 else 0
  }

  lemma {:induction false} AlertCountIsAlerts(config: Config, run: seq<Arrival>, key: AlertKey, i: nat, j: nat)
    requires i <= j <= |run|
    ensures AlertCount(config, run, key, i, j) ==
            C.Alerts(AskLog(config, run), key, i, j, MAX_ALERT_HISTORY, config.alertCooldown)
    decreases j
  {
    hide AlertsAt, C.EmitsAt;
    if i == j {
    } else {
      AlertCountIsAlerts(config, run, key, i, j - 1);
      EmitsIsAlert(config, run, j - 1, key);
    }
  }

  // The n-th arrival matches a rule that alerts under `key`.
  ghost predicate MatchesUnder(config: Config, run: seq<Arrival>, n: nat, key: AlertKey)
    requires n < |run|
  {
    At(config, run, n).fired.Some? && KeyFor(At(config, run, n).fired.value, run[n].pkt) == key
  }

  lemma {:induction false} MatchIsAsk(config: Config, run: seq<Arrival>, n: nat, key: AlertKey)
    requires n < |run|
    ensures MatchesUnder(config, run, n, key) <==> C.IsFor(AskLog(config, run)[n], key)
    ensures AskLog(config, run)[n].now == run[n].now
  {
    hide At;
  }

  lemma {:induction false} TimedAsks(config: Config, run: seq<Arrival>)
    requires Timed(run)
    ensures C.Timed(AskLog(config, run))
  {
    hide At;
  }

  // No alert of `key` is forgotten, unrecorded or taken over, before its key matches again within the
  // cooldown.
  ghost predicate NeverForgotten(config: Config, run: seq<Arrival>, key: AlertKey) {
    C.NeverForgotten(AskLog(config, run), key, MAX_ALERT_HISTORY, config.alertCooldown)
  }

  // Whatever the order of times, any two alerts of a key are more than the cooldown apart if and only
  // if none of them is forgotten.
  lemma {:induction false} AlertsFarApart(config: Config, run: seq<Arrival>, key: AlertKey)
    requires Timed(run) && config.alertCooldown > 0
    ensures NeverForgotten(config, run, key) <==>
            forall i, j :: 0 <= i < j < |run| && AlertsAt(config, run, i, key) && AlertsAt(config, run, j, key) ==>
              run[j].now - run[i].now > config.alertCooldown
  {
    hide At, AlertsAt, C.EmitsAt, C.NeverForgotten;
    TimedAsks(config, run);
    C.CooldownHoldsExactly(AskLog(config, run), key, MAX_ALERT_HISTORY, config.alertCooldown);
    forall n | 0 <= n < |run|
      ensures AlertsAt(config, run, n, key) <==>
              C.EmitsAt(AskLog(config, run), n, key, MAX_ALERT_HISTORY, config.alertCooldown)
      ensures AskLog(config, run)[n].now == run[n].now
    {
      EmitsIsAlert(config, run, n, key);
      MatchIsAsk(config, run, n, key);
    }
  }

  // So two alerts about one incident are more than the cooldown apart, unless the first is forgotten.
  lemma {:induction false} IncidentsFarApart(config: Config, run: seq<Arrival>, i: nat, j: nat)
    requires Timed(run) && config.alertCooldown > 0 && i < j < |run| && SameIncident(config, run, i, j)
    requires At(config, run, i).result.alert && At(config, run, j).result.alert
    requires NeverForgotten(config, run, KeyFor(At(config, run, i).fired.value, run[i].pkt))
    ensures run[j].now - run[i].now > config.alertCooldown
  {
    hide At, KeyFor, NeverForgotten;
    SharedCooldown(config, run, i, j);
    AlertsFarApart(config, run, KeyFor(At(config, run, i).fired.value, run[i].pkt));
    assert AlertsAt(config, run, i, KeyFor(At(config, run, i).fired.value, run[i].pkt));
    assert AlertsAt(config, run, j, KeyFor(At(config, run, i).fired.value, run[i].pkt));
  }

  // Under the same condition, and no other, every match under a key is answered as the map says.
  lemma {:induction false} AlertsFollowMapExactly(config: Config, run: seq<Arrival>, key: AlertKey)
    requires Timed(run) && config.alertCooldown > 0
    ensures NeverForgotten(config, run, key) <==>
            forall n :: 0 <= n < |run| && MatchesUnder(config, run, n, key) ==>
              (AlertsAt(config, run, n, key) <==> AllowedByMap(config, run, n))
  {
    hide At, AlertsAt, MatchesUnder, AllowedByMap, C.EmitsAt, C.NeverForgotten, C.AgreesAt;
    TimedAsks(config, run);
    C.FollowsMapExactly(AskLog(config, run), key, MAX_ALERT_HISTORY, config.alertCooldown);
    forall n | 0 <= n < |run|
      ensures C.AgreesAt(AskLog(config, run), n, key, MAX_ALERT_HISTORY, config.alertCooldown) <==>
              (MatchesUnder(config, run, n, key) ==> (AlertsAt(config, run, n, key) <==> AllowedByMap(config, run, n)))
    {
      AgreesIsAlert(config, run, n, key);
    }
  }

  // The unbounded map of last alerts allows the n-th arrival to alert.
  ghost predicate AllowedByMap(config: Config, run: seq<Arrival>, n: nat)
    requires n < |run|
  {
    C.MapAllows(C.LastAlerts(AskLog(config, run)[..n], config.alertCooldown), AskLog(config, run)[n],
                config.alertCooldown)
  }

  lemma {:induction false} AgreesIsAlert(config: Config, run: seq<Arrival>, n: nat, key: AlertKey)
    requires n < |run|
    ensures C.AgreesAt(AskLog(config, run), n, key, MAX_ALERT_HISTORY, config.alertCooldown) <==>
            (MatchesUnder(config, run, n, key) ==> (AlertsAt(config, run, n, key) <==> AllowedByMap(config, run, n)))
  {
    hide At, AlertsAt, MatchesUnder, C.MapAllows, C.LastAlerts, C.VerdictAt;
    EmitsIsAlert(config, run, n, key);
    MatchIsAsk(config, run, n, key);
  }

  // The matches under a key within `span` whole seconds raise at most 1 + span / (cooldown + 1) alerts.
  lemma {:induction false} AlertRateBounded(config: Config, run: seq<Arrival>, key: AlertKey, i: nat, j: nat,
                                            start: int, span: nat)
    requires Timed(run) && config.alertCooldown > 0 && NeverForgotten(config, run, key) && i <= j <= |run|
    requires forall m :: i <= m < j && MatchesUnder(config, run, m, key) ==> start <= run[m].now <= start + span
    ensures AlertCount(config, run, key, i, j) <= 1 + span / (config.alertCooldown + 1)
  {
    hide At, AlertsAt, MatchesUnder, C.NeverForgotten, C.IsFor;
    TimedAsks(config, run);
    AlertCountIsAlerts(config, run, key, i, j);
    forall m | i <= m < j && C.IsFor(AskLog(config, run)[m], key)
      ensures start <= AskLog(config, run)[m].now <= start + span
    {
      MatchIsAsk(config, run, m, key);
    }
    C.AlertRate(AskLog(config, run), key, i, j, start, span, MAX_ALERT_HISTORY, config.alertCooldown);
  }

  // What an alert does to the matches under its key before the next alert: it holds a match back if
  // and only if it is still held in the history and the match comes within the cooldown.
  lemma {:induction false} NextMatchDecided(config: Config, run: seq<Arrival>, key: AlertKey, i: nat, j: nat)
    requires Timed(run) && config.alertCooldown > 0 && i < j < |run|
    requires AlertsAt(config, run, i, key) && MatchesUnder(config, run, j, key)
    requires forall n :: i < n < j ==> !AlertsAt(config, run, n, key)
    ensures AlertsAt(config, run, j, key) <==>
            || !C.Held(AskLog(config, run), key, i, j, MAX_ALERT_HISTORY, config.alertCooldown)
            || run[j].now - run[i].now > config.alertCooldown
  {
    hide At, MatchesUnder, AlertsAt, C.EmitsAt, C.Held, C.IsFor, C.Timed;
    TimedAsks(config, run);
    EmitsIsAlert(config, run, i, key);
    EmitsIsAlert(config, run, j, key);
    MatchIsAsk(config, run, i, key);
    MatchIsAsk(config, run, j, key);
    forall n | i < n < j
      ensures !C.EmitsAt(AskLog(config, run), n, key, MAX_ALERT_HISTORY, config.alertCooldown)
    {
      EmitsIsAlert(config, run, n, key);
    }
    C.NextAskDecided(AskLog(config, run), key, i, j, MAX_ALERT_HISTORY, config.alertCooldown);
  }

  // When none is forgotten: every alert of the key was recorded, and no match under another key came
  // with a time at which an alert of this key is expired that still holds back a later match.
  lemma {:induction false} RecordedNotForgotten(config: Config, run: seq<Arrival>, key: AlertKey)
    requires Timed(run) && config.alertCooldown > 0
    requires forall n :: 0 <= n < |run| && MatchesUnder(config, run, n, key) ==> At(config, run, n).verdict.recorded
    requires C.Undisturbed(AskLog(config, run), key, config.alertCooldown)
    ensures NeverForgotten(config, run, key)
  {
    hide At, MatchesUnder, C.VerdictAt, C.NeverForgotten, C.Undisturbed, C.IsFor;
    TimedAsks(config, run);
    forall n | 0 <= n < |run| && C.IsFor(AskLog(config, run)[n], key)
      ensures C.VerdictAt(AskLog(config, run), n, MAX_ALERT_HISTORY, config.alertCooldown).recorded
    {
      MatchIsAsk(config, run, n, key);
      Answers(config, run, n);
    }
    C.RecordedNotForgotten(AskLog(config, run), key, MAX_ALERT_HISTORY, config.alertCooldown);
  }

  // ---------- honest evidence ----------

  // The entries behind a flood or scan alert.
  ghost function Basis(o: Outcome): seq<Entry> {
    if o.fired == Some(SynFlood) && o.syn.hit.Some? then o.syn.hit.value
    else if o.fired == Some(PortScan) && o.scan.hit.Some? then o.scan.hit.value
    else if o.fired == Some(IcmpFlood) && o.icmp.hit.Some? then o.icmp.hit.value
    else []
  }

  ghost predicate Counting(o: Outcome) {
    o.fired == Some(SynFlood) || o.fired == Some(PortScan) || o.fired == Some(IcmpFlood)
  }

  lemma {:induction false} CountingReport(config: Config, state: State, pkt: PacketInfo, now: int)
    ensures var o := Detect(config, state, pkt, now);
            Counting(o) && o.result.alert ==>
              && o.result.rule == o.fired
              && o.result.observedCount == |Basis(o)|
              && o.result.uniquePorts == (if o.fired == Some(PortScan) then |Basis(o)| else 0)
              && o.result.threshold <= |Basis(o)|
              && o.result.threshold == (match o.fired.value
                                        case SynFlood => config.synFloodThreshold
                                        case PortScan => config.portScanThreshold
                                        case _ => config.icmpFloodThreshold)
              && o.result.firstSeen == FirstSeen(Basis(o)) && o.result.lastSeen == LastSeen(Basis(o))
              && o.result.severity == (if o.fired == Some(SynFlood) then High else Medium)
              && o.result.windowSeconds == (match o.fired.value
                                            case SynFlood => config.synFloodWindow
                                            case PortScan => config.portScanWindow
                                            case _ => config.icmpFloodWindow)
  {
    hide Observe, Decide, FirstSeen, LastSeen, RiskOf;
  }

  lemma {:induction false} SightingReport(config: Config, state: State, pkt: PacketInfo, now: int)
    ensures var o := Detect(config, state, pkt, now);
            !Counting(o) && o.result.alert ==>
              && o.result.rule == o.fired && o.result.observedCount == 1
              && o.result.threshold == o.result.uniquePorts == o.result.windowSeconds == 0
              && o.result.firstSeen == o.result.lastSeen == now
              && o.result.severity == (if o.fired == Some(SuspiciousPort) && pkt.dstPort as int in {23, 445, 3389}
                                       then Medium else Low)
  {
    hide Observe, Decide, RiskOf;
    RiskyPorts(pkt.dstPort);
  }

  lemma {:induction false} PacketReport(config: Config, state: State, pkt: PacketInfo, now: int)
    ensures var o := Detect(config, state, pkt, now);
            && o.result.src == pkt.src && o.result.dst == pkt.dst && o.result.protocol == pkt.protocol
            && o.result.srcPort == pkt.srcPort && o.result.dstPort == pkt.dstPort
            && (!o.result.alert ==>
                  && o.result.rule == None && o.result.severity == NoSeverity
                  && o.result.observedCount == o.result.threshold == o.result.uniquePorts == o.result.windowSeconds == 0
                  && o.result.firstSeen == o.result.lastSeen == 0)
  {
    hide Observe, Decide, FirstSeen, LastSeen, RiskOf;
  }

  // What an alert reports: for floods and scans it is read off those entries, for single packets it is
  // that packet; without an alert nothing is reported.
  lemma {:induction false} AlertReport(config: Config, state: State, pkt: PacketInfo, now: int)
    ensures var o := Detect(config, state, pkt, now);
            Counting(o) && o.result.alert ==>
              && o.result.rule == o.fired
              && o.result.observedCount == |Basis(o)|
              && o.result.uniquePorts == (if o.fired == Some(PortScan) then |Basis(o)| else 0)
              && o.result.threshold <= |Basis(o)|
              && o.result.threshold == (match o.fired.value
                                        case SynFlood => config.synFloodThreshold
                                        case PortScan => config.portScanThreshold
                                        case _ => config.icmpFloodThreshold)
              && o.result.firstSeen == FirstSeen(Basis(o)) && o.result.lastSeen == LastSeen(Basis(o))
              && o.result.severity == (if o.fired == Some(SynFlood) then High else Medium)
              && o.result.windowSeconds == (match o.fired.value
                                            case SynFlood => config.synFloodWindow
                                            case PortScan => config.portScanWindow
                                            case _ => config.icmpFloodWindow)
    ensures var o := Detect(config, state, pkt, now);
            !Counting(o) && o.result.alert ==>
              && o.result.rule == o.fired && o.result.observedCount == 1
              && o.result.threshold == o.result.uniquePorts == o.result.windowSeconds == 0
              && o.result.firstSeen == o.result.lastSeen == now
              && o.result.severity == (if o.fired == Some(SuspiciousPort) && pkt.dstPort as int in {23, 445, 3389}
                                       then Medium else Low)
    ensures var o := Detect(config, state, pkt, now);
            && o.result.src == pkt.src && o.result.dst == pkt.dst && o.result.protocol == pkt.protocol
            && o.result.srcPort == pkt.srcPort && o.result.dstPort == pkt.dstPort
            && (!o.result.alert ==>
                  && o.result.rule == None && o.result.severity == NoSeverity
                  && o.result.observedCount == o.result.threshold == o.result.uniquePorts == o.result.windowSeconds == 0
                  && o.result.firstSeen == o.result.lastSeen == 0)
  {
    hide Detect, Counting, Basis;
    CountingReport(config, state, pkt, now);
    SightingReport(config, state, pkt, now);
    PacketReport(config, state, pkt, now);
  }

  lemma {:induction false} AlertHasRule(config: Config, state: State, pkt: PacketInfo, now: int)
    ensures Detect(config, state, pkt, now).result.alert ==> Detect(config, state, pkt, now).result.rule.Some?
  {
    hide Observe, Decide;
  }

  // The entries a table answers with at time `now`, in a run with times in order.
  lemma {:induction false} EntriesHonest<K>(log: seq<Offer<K>>, n: nat, limits: Limits)
    requires T.Timed(log) && T.Ordered(log) && T.Positive(limits) && n < |log| && log[n].Offer?
    requires T.HitAt(log, n, limits).Some?
    ensures var entries, now := T.HitAt(log, n, limits).value, log[n].now;
            && 1 <= |entries| <= limits.depth
            && now - limits.window <= FirstSeen(entries) <= LastSeen(entries) <= now
            && (forall i :: 0 <= i < |entries| ==> FirstSeen(entries) <= entries[i].seen <= LastSeen(entries))
            && (exists i :: 0 <= i < |entries| && entries[i].seen == FirstSeen(entries))
            && (exists i :: 0 <= i < |entries| && entries[i].seen == LastSeen(entries))
  {
    var entries, now := T.HitAt(log, n, limits).value, log[n].now;
    hide T.HitAt, FirstSeen, LastSeen;
    T.HitJustified(log, n, limits);
    FirstSeenIsMinimum(entries);
    LastSeenIsMaximum(entries);
    forall i | 0 <= i < |entries|
      ensures now - limits.window <= entries[i].seen <= now
    {
      assert T.Justified(log[..n + 1], log[n].key, entries[i]);
      var k :| 0 <= k < n + 1 && T.IsOf(log[..n + 1][k], log[n].key) && log[..n + 1][k].now == entries[i].seen;
      assert log[k].now <= log[n].now;
    }
  }

  // Every flood or scan alert reports a count between the threshold and 128, and times inside the
  // window that are the exact earliest and latest of the times it is based on.
  lemma {:induction false} EvidenceHonest(config: Config, run: seq<Arrival>, n: nat)
    requires Timed(run) && Ordered(run) && PositiveWindows(config) && n < |run|
    requires At(config, run, n).result.alert && Counting(At(config, run, n))
    ensures var r, basis := At(config, run, n).result, Basis(At(config, run, n));
            && r.threshold <= r.observedCount == |basis| <= 128
            && run[n].now - r.windowSeconds <= r.firstSeen <= r.lastSeen <= run[n].now
            && (forall i :: 0 <= i < |basis| ==> r.firstSeen <= basis[i].seen <= r.lastSeen)
            && (exists i :: 0 <= i < |basis| && basis[i].seen == r.firstSeen)
            && (exists i :: 0 <= i < |basis| && basis[i].seen == r.lastSeen)
  {
    hide At, Detect, T.HitAt;
    AtState(config, run, n);
    AtFires(config, run, n);
    Answers(config, run, n);
    AlertReport(config, After(config, run[..n]), run[n].pkt, run[n].now);
    match At(config, run, n).fired.value
    case SynFlood => EntriesHonest(SynLog(config, run), n, SynLimits(config));
    case PortScan => EntriesHonest(ScanLog(config, run), n, ScanLimits(config));
    case IcmpFlood => EntriesHonest(IcmpLog(config, run), n, IcmpLimits(config));
    case _ =>
  }
}
