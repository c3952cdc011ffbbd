/** Runs in which floods are missed and alerts repeated, for lack of room or of order. */
module DetectorOverflow {
  import opened Options
  import opened Packets
  import opened Settings
  import opened Slots
  import opened Cooldown
  import opened DetectorSpec
  import opened DetectorRuns
  import opened DetectorCounts
  import opened DetectorProperties
  import T = TableRuns
  import O = TableOverflow
  import C = CooldownRuns

  // ---------- packets that go unflagged, floods that are missed ----------

  // The window of the n-th arrival, a SYN, holds `threshold` SYNs like it, and the SYN-flood rule does
  // not fire on it.
  ghost predicate SynUnflagged(config: Config, run: seq<Arrival>, n: nat)
    requires n < |run|
  {
    && !Fires(config, run, n, SynFlood) && SynLike(run[n].pkt, run[n].pkt)
    && 0 <= config.synFloodThreshold <= |SynsInWindow(config, run, n)|
  }

  // The run whose SYN log is `log`: `a` for the offers of its flow, `b` for all others.
  ghost function SynRun(log: seq<Offer<Flow>>, a: PacketInfo, b: PacketInfo): (run: seq<Arrival>)
    ensures |run| == |log|
    ensures forall i :: 0 <= i < |log| ==> run[i] == Arrival(if T.IsOf(log[i], FlowOf(a)) then a else b, log[i].now)
  {
    seq(|log|, i requires 0 <= i < |log| => Arrival(if T.IsOf(log[i], FlowOf(a)) then a else b, log[i].now))
  }

  lemma {:induction false} SynRunLog(config: Config, log: seq<Offer<Flow>>, a: PacketInfo, b: PacketInfo)
    requires config.enableSynFlood != 0 && IsSyn(a) && IsSyn(b)
    requires forall i :: 0 <= i < |log| ==>
               log[i] == Offer(FlowOf(a), Hit, log[i].now) || log[i] == Offer(FlowOf(b), Hit, log[i].now)
    ensures SynLog(config, SynRun(log, a, b)) == log
  {
  }

  lemma {:induction false} FewEntriesUnflagged(config: Config, run: seq<Arrival>, n: nat)
    requires Timed(run) && config.enableSynFlood != 0 && config.synFloodWindow > 0 && config.synFloodThreshold >= 2
    requires n < |run| && IsSyn(run[n].pkt)
    requires T.HitAt(SynLog(config, run), n, SynLimits(config)) == Some([Entry(Hit, run[n].now)])
    requires T.Count(SynLog(config, run)[..n + 1], FlowOf(run[n].pkt), run[n].now, config.synFloodWindow) >=
             config.synFloodThreshold
    ensures SynUnflagged(config, run, n)
  {
    hide At, T.HitAt, T.Count, Syns;
    AtFires(config, run, n);
    Answers(config, run, n);
    SynsCounted(config, run, n + 1, run[n].pkt, run[n].now);
  }

  // In a saturated slot a packet at which the log reaches the threshold can go unflagged: 128 SYNs of
  // one flow, then as many as the threshold asks for when those are about to expire, all but the last
  // of them dropped.  The flood itself is noticed: the rule fires earlier in the same window.
  lemma {:induction false} SaturatedUnflagged(config: Config, syn: PacketInfo, t: int)
    requires config.enableSynFlood != 0 && config.synFloodWindow > 0 && config.synFloodThreshold >= 2
    requires IsSyn(syn) && t > 0
    ensures var log := O.Saturating(FlowOf(syn), config.synFloodThreshold - 1, t, SynLimits(config));
            var run := SynRun(log, syn, syn);
            var last := |run| - 1;
            && Timed(run) && Ordered(run) && SynUnflagged(config, run, last)
            && (config.synFloodThreshold <= 128 ==>
                  exists m :: 0 <= m < last && Fires(config, run, m, SynFlood) &&
                              run[last].now - run[m].now <= config.synFloodWindow)
  {
    hide Fires, T.HitAt, T.Count, O.Saturating, T.FewKeys, T.OrderedFor, T.NeverMissed;
    var limits, flow := SynLimits(config), FlowOf(syn);
    var log := O.Saturating(flow, config.synFloodThreshold - 1, t, limits);
    var run := SynRun(log, syn, syn);
    O.SaturatingOffers(flow, config.synFloodThreshold - 1, t, limits);
    O.SaturatedFallsShort(flow, config.synFloodThreshold - 1, t, limits);
    SynRunLog(config, log, syn, syn);
    assert log[..|log|] == log;
    FewEntriesUnflagged(config, run, |run| - 1);
    if config.synFloodThreshold <= 128 {
      T.FewKeysNeverMiss(log, flow, limits);
      O.OrderedOffers(log, flow);
      SynFloodNoticed(config, run, |run| - 1);
    }
  }

  // Disorder misses a flood altogether: a SYN of another flow with a later time expires what is
  // counted, the log reaches the threshold at the last packet, and the rule fires nowhere.
  lemma {:induction false} DisorderedFloodMissed(config: Config, syn: PacketInfo, other: PacketInfo, t: int)
    requires config.enableSynFlood != 0 && config.synFloodWindow > 0 && config.synFloodThreshold >= 2
    requires IsSyn(syn) && IsSyn(other) && FlowOf(syn) != FlowOf(other) && t > 0
    ensures var log := O.Disordered(FlowOf(syn), FlowOf(other), config.synFloodThreshold - 1, t, SynLimits(config));
            var run := SynRun(log, syn, other);
            && Timed(run) && SynUnflagged(config, run, |run| - 1)
            && forall m :: 0 <= m < |run| ==> !Fires(config, run, m, SynFlood)
  {
    hide Fires, T.HitAt, T.Count, O.Disordered, T.FewKeys;
    var limits, flow := SynLimits(config), FlowOf(syn);
    var log := O.Disordered(flow, FlowOf(other), config.synFloodThreshold - 1, t, limits);
    var run := SynRun(log, syn, other);
    O.DisorderFallsShort(flow, FlowOf(other), config.synFloodThreshold - 1, t, limits);
    SynRunLog(config, log, syn, other);
    assert log[..|log|] == log;
    FewEntriesUnflagged(config, run, |run| - 1);
    forall m | 0 <= m < |run|
      ensures !Fires(config, run, m, SynFlood)
    {
      if m < |run| - 1 {
        O.DisorderedBelow(flow, FlowOf(other), config.synFloodThreshold - 1, t, limits, m);
        NoFlood(config, run, m);
      }
    }
  }

  lemma {:induction false} NoFlood(config: Config, run: seq<Arrival>, n: nat)
    requires Timed(run) && config.synFloodWindow > 0 && n < |run| && config.synFloodThreshold >= 0
    requires T.Count(SynLog(config, run)[..n + 1], FlowOf(run[n].pkt), run[n].now, config.synFloodWindow) <
             config.synFloodThreshold
    ensures !Fires(config, run, n, SynFlood)
  {
    hide Fires, T.Count, Syns;
    if Fires(config, run, n, SynFlood) {
      SynFloodSound(config, run, n);
      SynsCounted(config, run, n + 1, run[n].pkt, run[n].now);
    }
  }

  // ---------- a crowded alert history ----------

  // The echo request number i comes from its own source, except that the last source sends two.
  function Source(i: nat): Address {
    Ipv4(10, 0, i / 0x100 % 0x100, i % 0x100)
  }

  predicate EchoesOnly(config: Config) {
    config.enableIcmpEcho != 0 && config.enableIcmpFlood == 0
  }

  ghost function EchoKeys(ping: PacketInfo): (keys: seq<AlertKey>)
    ensures |keys| == MAX_ALERT_HISTORY + 1
    ensures forall i :: 0 <= i <= MAX_ALERT_HISTORY ==> keys[i] == AlertKey(Source(i), ping.dst, IcmpEcho, None)
  {
    seq(MAX_ALERT_HISTORY + 1, i requires 0 <= i => AlertKey(Source(i), ping.dst, IcmpEcho, None))
  }

  // 257 sources send one echo request each, and the last of them another one, all at one time.
  ghost function EchoCrowd(ping: PacketInfo, now: int): (run: seq<Arrival>)
    ensures |run| == MAX_ALERT_HISTORY + 2
    ensures forall i :: 0 <= i <= MAX_ALERT_HISTORY ==> run[i] == Arrival(ping.(src := Source(i)), now)
    ensures run[MAX_ALERT_HISTORY + 1] == run[MAX_ALERT_HISTORY]
  {
    seq(MAX_ALERT_HISTORY + 1, i requires 0 <= i => Arrival(ping.(src := Source(i)), now)) +
    [Arrival(ping.(src := Source(MAX_ALERT_HISTORY)), now)]
  }

  lemma {:induction false} EchoFires(config: Config, state: State, pkt: PacketInfo, now: int)
    requires EchoesOnly(config) && IsEcho(pkt)
    ensures AskFor(Detect(config, state, pkt, now).fired, pkt, now) ==
            Ask(AlertKey(pkt.src, pkt.dst, IcmpEcho, None), now)
  {
  }

  // A run of echo requests asks to alert under the key of each of them.
  lemma {:induction false} EchoAsks(config: Config, run: seq<Arrival>)
    requires EchoesOnly(config) && forall i :: 0 <= i < |run| ==> IsEcho(run[i].pkt)
    ensures forall i :: 0 <= i < |run| ==>
              AskLog(config, run)[i] == Ask(AlertKey(run[i].pkt.src, run[i].pkt.dst, IcmpEcho, None), run[i].now)
  {
    hide Detect, IsEcho;
    forall i | 0 <= i < |run|
      ensures AskAt(config, run, i) == Ask(AlertKey(run[i].pkt.src, run[i].pkt.dst, IcmpEcho, None), run[i].now)
    {
      AtState(config, run, i);
      EchoFires(config, After(config, run[..i]), run[i].pkt, run[i].now);
    }
  }

  lemma {:induction false} CrowdAsks(config: Config, ping: PacketInfo, now: int)
    requires EchoesOnly(config) && IsEcho(ping)
    ensures AskLog(config, EchoCrowd(ping, now)) == C.Crowd(EchoKeys(ping), now)
  {
    hide IsEcho, AskLog, EchoCrowd, EchoKeys, Source, C.Crowd, MAX_ALERT_HISTORY;
    var run := EchoCrowd(ping, now);
    forall i | 0 <= i < |run|
      ensures IsEcho(run[i].pkt)
    {
      SameEcho(ping, run[i].pkt.src);
    }
    EchoAsks(config, run);
  }

  lemma {:induction false} SameEcho(ping: PacketInfo, src: Address)
    ensures IsEcho(ping.(src := src)) <==> IsEcho(ping)
  {
  }

  lemma {:induction false} DistinctSources(ping: PacketInfo)
    ensures C.Distinct(EchoKeys(ping))
  {
    forall i, j | 0 <= i < j <= MAX_ALERT_HISTORY
      ensures Source(i) != Source(j)
    {
    }
  }

  // The cooldown fails in a full history: in this run the last source alerts twice under one key at
  // one time.
  lemma {:induction false} EchoAlertsTwice(config: Config, ping: PacketInfo, now: int)
    requires EchoesOnly(config) && config.alertCooldown > 0 && IsEcho(ping) && now != 0
    ensures Timed(EchoCrowd(ping, now)) && Ordered(EchoCrowd(ping, now))
    ensures AlertsAt(config, EchoCrowd(ping, now), MAX_ALERT_HISTORY, EchoKeys(ping)[MAX_ALERT_HISTORY])
    ensures AlertsAt(config, EchoCrowd(ping, now), MAX_ALERT_HISTORY + 1, EchoKeys(ping)[MAX_ALERT_HISTORY])
  {
    hide At, AlertsAt, C.EmitsAt, C.FewCooling, C.Timed, C.Ordered, C.Distinct;
    var run, keys := EchoCrowd(ping, now), EchoKeys(ping);
    CrowdAsks(config, ping, now);
    DistinctSources(ping);
    C.AlertsTwice(keys, now, config.alertCooldown);
    EmitsIsAlert(config, run, MAX_ALERT_HISTORY, keys[MAX_ALERT_HISTORY]);
    EmitsIsAlert(config, run, MAX_ALERT_HISTORY + 1, keys[MAX_ALERT_HISTORY]);
  }

  // ---------- a disordered alert history ----------

  // One source pings, then another when the alert of the first is expired, then the first again at its
  // first time.
  ghost function EchoDisorder(config: Config, ping: PacketInfo, t: int): seq<Arrival> {
    [Arrival(ping.(src := Source(0)), t), Arrival(ping.(src := Source(1)), t + config.alertCooldown + 1),
     Arrival(ping.(src := Source(0)), t)]
  }

  // Times out of order break the cooldown as well: the first source alerts twice under one key at one
  // time, although every alert is recorded.
  lemma {:induction false} DisorderedAlertsTwice(config: Config, ping: PacketInfo, t: int)
    requires EchoesOnly(config) && config.alertCooldown > 0 && IsEcho(ping) && t > 0
    ensures var run, key := EchoDisorder(config, ping, t), AlertKey(Source(0), ping.dst, IcmpEcho, None);
            && Timed(run) && AlertsAt(config, run, 0, key) && AlertsAt(config, run, 2, key)
            && forall n :: 0 <= n < |run| ==> At(config, run, n).verdict.recorded
  {
    hide At, AlertsAt, C.EmitsAt, C.VerdictAt, IsEcho, AskLog;
    var run, key := EchoDisorder(config, ping, t), AlertKey(Source(0), ping.dst, IcmpEcho, None);
    var other := AlertKey(Source(1), ping.dst, IcmpEcho, None);
    SameEcho(ping, Source(0));
    SameEcho(ping, Source(1));
    EchoAsks(config, run);
    assert AskLog(config, run) == C.Disordered(key, other, t, config.alertCooldown);
    C.DisorderAlertsTwice(key, other, t, MAX_ALERT_HISTORY, config.alertCooldown);
    EmitsIsAlert(config, run, 0, key);
    EmitsIsAlert(config, run, 2, key);
    forall n | 0 <= n < |run|
      ensures At(config, run, n).verdict.recorded
    {
      Answers(config, run, n);
    }
  }
}
