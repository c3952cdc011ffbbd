/** The detector with its static tables: the same steps as the C code, in the same order. */
module Detectors {
  import opened Options
  import opened Packets
  import opened Settings
  import opened Slots
  import opened Cooldown
  import opened DetectorSpec
  import opened SlotTables
  import opened AlertHistories
  import Runs = DetectorRuns

  class Detector {
    const syn: SlotTable<Flow>
    const scan: SlotTable<Pair>
    const icmp: SlotTable<Pair>
    const history: AlertHistory<AlertKey>
    const config: Config

    ghost const Repr: set<object>

    ghost predicate Valid()
      reads this, Repr
    {
      && Repr == {syn, syn.heads, syn.cells, scan, scan.heads, scan.cells, icmp, icmp.heads, icmp.cells, history.cells}
      && this !in Repr
      && syn as object != scan && syn as object != icmp && scan != icmp
      && syn.heads as object != scan.heads && syn.heads as object != icmp.heads && scan.heads != icmp.heads
      && syn.heads as object != history.cells && scan.heads as object != history.cells
      && icmp.heads as object != history.cells
      && syn.cells != scan.cells && syn.cells != icmp.cells && scan.cells != icmp.cells
      && syn.Valid() && syn.hosts == MAX_TRACKED_HOSTS && syn.depth == MAX_TRACKED_EVENTS
      && scan.Valid() && scan.hosts == MAX_TRACKED_HOSTS && scan.depth == MAX_TRACKED_PORTS
      && icmp.Valid() && icmp.hosts == MAX_TRACKED_HOSTS && icmp.depth == MAX_TRACKED_EVENTS
      && history.cells.Length == MAX_ALERT_HISTORY
    }

    ghost function Current(): State
      reads this, Repr
      requires Valid()
    {
      State(syn.Contents, scan.Contents, icmp.Contents, history.cells[..])
    }

    constructor (config: Config)
      ensures Valid() && fresh(Repr) && this.config == config
      ensures Current() == Runs.Init()
    {
      var s := new SlotTable<Flow>(MAX_TRACKED_HOSTS, MAX_TRACKED_EVENTS);
      var p := new SlotTable<Pair>(MAX_TRACKED_HOSTS, MAX_TRACKED_PORTS);
      var c := new SlotTable<Pair>(MAX_TRACKED_HOSTS, MAX_TRACKED_EVENTS);
      var h := new AlertHistory<AlertKey>(MAX_ALERT_HISTORY);
      this.config := config;
      syn, scan, icmp, history := s, p, c, h;
      Repr := {s, s.heads, s.cells, p, p.heads, p.cells, c, c.heads, c.cells, h.cells};
    }

    // The alert history before and after a rule was tried, and whether the rule raised an alert.
    ghost predicate Asked(before: seq<Cell<AlertKey>>, after: seq<Cell<AlertKey>>, fired: bool, rule: Rule,
                          pkt: PacketInfo, now: int, alert: bool)
    {
      var verdict := Decide(before, AskFor(if fired then Some(rule) else None, pkt, now), config.alertCooldown);
      after == verdict.cells && alert == verdict.emit
    }

    method CheckSynFlood(pkt: PacketInfo, now: int) returns (fired: bool, result: DetectionResult)
      requires Valid() && pkt.valid
      modifies syn, syn.heads, syn.cells, history.cells
      ensures Valid()
      ensures var o := Observe(old(syn.Contents),
                               if IsSyn(pkt) then Offer(FlowOf(pkt), Hit, now) else Skip(now),
                               SynLimits(config));
              && syn.Contents == o.slots
              && (fired <==> Reaches(o.hit, config.synFloodThreshold))
              && (result.alert ==> o.hit.Some?)
              && result == if result.alert then
                             Evidence(pkt, SynFlood, High, config.synFloodThreshold, false, config.synFloodWindow,
                                      o.hit.value)
                           else Quiet(pkt)
      ensures Asked(old(history.cells[..]), history.cells[..], fired, SynFlood, pkt, now, result.alert)
    {
      hide Lookup, Remember, FirstSeen, LastSeen, Find, FirstAvailable;
      result := Quiet(pkt);
      if !(pkt.protocol == Tcp && pkt.syn && !pkt.ack) {
        return false, result;
      }
      var at := syn.Find(FlowOf(pkt), now, config.synFloodWindow);
      if at == -1 {
        return false, result;
      }
      syn.RememberEvent(at, now);
      var count := syn.Count(at);
      if count >= SizeT(config.synFloodThreshold) {
        var emit := history.ShouldEmit(KeyFor(SynFlood, pkt), now, config.alertCooldown);
        if emit {
          var first, last := syn.TimeBounds(at);
          result := result.(alert := true, rule := Some(SynFlood), severity := High,
                            threshold := config.synFloodThreshold, observedCount := count, uniquePorts := 0,
                            windowSeconds := config.synFloodWindow, firstSeen := first, lastSeen := last);
        }
        return true, result;
      }
      return false, result;
    }

    method CheckPortScan(pkt: PacketInfo, now: int) returns (fired: bool, result: DetectionResult)
      requires Valid() && pkt.valid
      modifies scan, scan.heads, scan.cells, history.cells
      ensures Valid()
      ensures var o := Observe(old(scan.Contents),
                               if IsSyn(pkt) then Offer(PairOf(pkt), Port(pkt.dstPort), now) else Skip(now),
                               ScanLimits(config));
              && scan.Contents == o.slots
              && (fired <==> Reaches(o.hit, config.portScanThreshold))
              && (result.alert ==> o.hit.Some?)
              && result == if result.alert then
                             Evidence(pkt, PortScan, Medium, config.portScanThreshold, true, config.portScanWindow,
                                      o.hit.value)
                           else Quiet(pkt)
      ensures Asked(old(history.cells[..]), history.cells[..], fired, PortScan, pkt, now, result.alert)
    {
      hide Lookup, Remember, FirstSeen, LastSeen, Find, FirstAvailable;
      result := Quiet(pkt);
      if !(pkt.protocol == Tcp && pkt.syn && !pkt.ack) {
        return false, result;
      }
      var at := scan.Find(PairOf(pkt), now, config.portScanWindow);
      if at == -1 {
        return false, result;
      }
      scan.RememberUniquePort(at, pkt.dstPort, now);
      var count := scan.Count(at);
      if count >= SizeT(config.portScanThreshold) {
        var emit := history.ShouldEmit(KeyFor(PortScan, pkt), now, config.alertCooldown);
        if emit {
          var first, last := scan.TimeBounds(at);
          result := result.(alert := true, rule := Some(PortScan), severity := Medium,
                            threshold := config.portScanThreshold, observedCount := count, uniquePorts := count,
                            windowSeconds := config.portScanWindow, firstSeen := first, lastSeen := last);
        }
        return true, result;
      }
      return false, result;
    }

    method CheckIcmpFlood(pkt: PacketInfo, now: int) returns (fired: bool, result: DetectionResult)
      requires Valid() && pkt.valid
      modifies icmp, icmp.heads, icmp.cells, history.cells
      ensures Valid()
      ensures var o := Observe(old(icmp.Contents),
                               if IsEcho(pkt) then Offer(PairOf(pkt), Hit, now) else Skip(now),
                               IcmpLimits(config));
              && icmp.Contents == o.slots
              && (fired <==> Reaches(o.hit, config.icmpFloodThreshold))
              && (result.alert ==> o.hit.Some?)
              && result == if result.alert then
                             Evidence(pkt, IcmpFlood, Medium, config.icmpFloodThreshold, false, config.icmpFloodWindow,
                                      o.hit.value)
                           else Quiet(pkt)
      ensures Asked(old(history.cells[..]), history.cells[..], fired, IcmpFlood, pkt, now, result.alert)
    {
      hide Lookup, Remember, FirstSeen, LastSeen, Find, FirstAvailable;
      result := Quiet(pkt);
      if !(pkt.protocol == Icmp && pkt.icmpType == 8) {
        return false, result;
      }
      var at := icmp.Find(PairOf(pkt), now, config.icmpFloodWindow);
      if at == -1 {
        return false, result;
      }
      icmp.RememberEvent(at, now);
      var count := icmp.Count(at);
      if count >= SizeT(config.icmpFloodThreshold) {
        var emit := history.ShouldEmit(KeyFor(IcmpFlood, pkt), now, config.alertCooldown);
        if emit {
          var first, last := icmp.TimeBounds(at);
          result := result.(alert := true, rule := Some(IcmpFlood), severity := Medium,
                            threshold := config.icmpFloodThreshold, observedCount := count, uniquePorts := 0,
                            windowSeconds := config.icmpFloodWindow, firstSeen := first, lastSeen := last);
        }
        return true, result;
      }
      return false, result;
    }

    method CheckSuspiciousPort(pkt: PacketInfo, now: int) returns (fired: bool, result: DetectionResult)
      requires Valid() && pkt.valid
      modifies history.cells
      ensures fired <==> IsRisky(pkt)
      ensures result.alert ==> RiskOf(pkt.dstPort).Some?
      ensures result ==
              if result.alert then Sighting(pkt, SuspiciousPort, RiskOf(pkt.dstPort).value, now) else Quiet(pkt)
      ensures Asked(old(history.cells[..]), history.cells[..], fired, SuspiciousPort, pkt, now, result.alert)
    {
      hide Find, FirstAvailable;
      result := Quiet(pkt);
      if !(pkt.protocol == Tcp || pkt.protocol == Udp) {
        return false, result;
      }
      for i := 0 to |RISKY_PORTS|
        invariant RiskOf(pkt.dstPort) == RiskOf(pkt.dstPort, i)
        invariant result == Quiet(pkt) && history.cells[..] == old(history.cells[..])
      {
        if pkt.dstPort == RISKY_PORTS[i].port {
          var emit := history.ShouldEmit(KeyFor(SuspiciousPort, pkt), now, config.alertCooldown);
          if emit {
            result := Sighting(pkt, SuspiciousPort, RISKY_PORTS[i].severity, now);
          }
          return true, result;
        }
      }
      return false, result;
    }

    method CheckIcmpEcho(pkt: PacketInfo, now: int) returns (fired: bool, result: DetectionResult)
      requires Valid() && pkt.valid
      modifies history.cells
      ensures fired <==> IsEcho(pkt)
      ensures result == if result.alert then Sighting(pkt, IcmpEcho, Low, now) else Quiet(pkt)
      ensures Asked(old(history.cells[..]), history.cells[..], fired, IcmpEcho, pkt, now, result.alert)
    {
      hide Find, FirstAvailable;
      result := Quiet(pkt);
      if !(pkt.protocol == Icmp && pkt.icmpType == 8) {
        return false, result;
      }
      var emit := history.ShouldEmit(KeyFor(IcmpEcho, pkt), now, config.alertCooldown);
      if emit {
        result := Sighting(pkt, IcmpEcho, Low, now);
      }
      return true, result;
    }

    method CheckSynWatch(pkt: PacketInfo, now: int) returns (fired: bool, result: DetectionResult)
      requires Valid() && pkt.valid
      modifies history.cells
      ensures fired <==> IsSyn(pkt)
      ensures result == if result.alert then Sighting(pkt, SynWatch, Low, now) else Quiet(pkt)
      ensures Asked(old(history.cells[..]), history.cells[..], fired, SynWatch, pkt, now, result.alert)
    {
      hide Find, FirstAvailable;
      result := Quiet(pkt);
      if !(pkt.protocol == Tcp && pkt.syn && !pkt.ack) {
        return false, result;
      }
      var emit := history.ShouldEmit(KeyFor(SynWatch, pkt), now, config.alertCooldown);
      if emit {
        result := Sighting(pkt, SynWatch, Low, now);
      }
      return true, result;
    }

    // The rules that need no table, in priority order.
    method CheckStateless(pkt: PacketInfo, now: int) returns (result: DetectionResult)
      requires Valid() && pkt.valid
      modifies history.cells
      ensures var rule := StatelessRule(config, pkt);
              var verdict := Decide(old(history.cells[..]), AskFor(rule, pkt, now), config.alertCooldown);
              && history.cells[..] == verdict.cells
              && result ==
                 if rule.Some? && verdict.emit then Report(config, pkt, now, rule.value, None, None, None)
                 else Quiet(pkt)
    {
      hide Decide;
      NoAskChangesNothing(history.cells[..], now, config.alertCooldown);
      var fired := false;
      result := Quiet(pkt);
      if config.enableSuspiciousPort != 0 {
        fired, result := CheckSuspiciousPort(pkt, now);
        if fired {
          return;
        }
      }
      if config.enableIcmpEcho != 0 {
        fired, result := CheckIcmpEcho(pkt, now);
        if fired {
          return;
        }
      }
      if config.enableSynWatch != 0 {
        fired, result := CheckSynWatch(pkt, now);
      }
    }

    // The rules that keep tables, in priority order.
    method CheckStateful(pkt: PacketInfo, now: int) returns (fired: bool, result: DetectionResult)
      requires Valid() && pkt.valid
      modifies Repr
      ensures Valid()
      ensures var o := Detect(config, old(Current()), pkt, now);
              && syn.Contents == o.syn.slots && scan.Contents == o.scan.slots && icmp.Contents == o.icmp.slots
              && if fired then history.cells[..] == o.verdict.cells && result == o.result
                 else history.cells[..] == old(history.cells[..]) && o.fired == StatelessRule(config, pkt)
    {
      hide Observe, Decide, FirstSeen, LastSeen;
      SkipChangesNothing(syn.Contents, now, SynLimits(config));
      SkipChangesNothing(scan.Contents, now, ScanLimits(config));
      SkipChangesNothing(icmp.Contents, now, IcmpLimits(config));
      NoAskChangesNothing(history.cells[..], now, config.alertCooldown);
      fired, result := false, Quiet(pkt);
      if config.enableSynFlood != 0 {
        fired, result := CheckSynFlood(pkt, now);
        if fired {
          return;
        }
      }
      if config.enablePortScan != 0 {
        fired, result := CheckPortScan(pkt, now);
        if fired {
          return;
        }
      }
      if config.enableIcmpFlood != 0 {
        fired, result := CheckIcmpFlood(pkt, now);
      }
    }

    // Rules in priority order; the first that matches absorbs the packet.
    method DetectPacket(pkt: PacketInfo, now: int) returns (result: DetectionResult)
      requires Valid()
      modifies Repr
      ensures Valid()
      ensures Current() == Detect(config, old(Current()), pkt, now).After()
      ensures result == Detect(config, old(Current()), pkt, now).result
    {
      if !pkt.valid {
        InvalidChangesNothing(config, Current(), pkt, now);
        return Quiet(pkt);
      }
      hide Detect, Report, Decide;
      StatelessOutcome(config, Current(), pkt, now);
      var fired;
      fired, result := CheckStateful(pkt, now);
      if fired {
        return;
      }
      result := CheckStateless(pkt, now);
    }
  }

  lemma {:induction false} InvalidChangesNothing(config: Config, state: State, pkt: PacketInfo, now: int)
    requires !pkt.valid
    ensures Detect(config, state, pkt, now).After() == state && Detect(config, state, pkt, now).result == Quiet(pkt)
  {
  }

  // When no table rule fires, the tables only matter for what they remember.
  lemma {:induction false} StatelessOutcome(config: Config, state: State, pkt: PacketInfo, now: int)
    ensures var o, rule := Detect(config, state, pkt, now), StatelessRule(config, pkt);
            o.fired == rule ==>
              && o.verdict == Decide(state.history, AskFor(rule, pkt, now), config.alertCooldown)
              && o.result ==
                 if rule.Some? && o.verdict.emit then Report(config, pkt, now, rule.value, None, None, None)
                 else Quiet(pkt)
  {
  }
}
