/** What the flood and scan rules count, said of the packets themselves: positions in a run whose packet
    has certain fields and arrived recently enough. */
module DetectorCounts {
  import opened Options
  import opened Windows
  import opened Packets
  import opened Settings
  import opened Slots
  import opened SetSizes
  import opened DetectorSpec
  import opened DetectorRuns
  import T = TableRuns

  // ---------- packets of one kind ----------

  // A SYN from the source of `q` to the destination and destination port of `q`.
  predicate SynLike(p: PacketInfo, q: PacketInfo) {
    && p.valid && p.protocol == Tcp && p.syn && !p.ack
    && p.src == q.src && p.dst == q.dst && p.dstPort == q.dstPort
  }

  // An echo request from the source of `q` to its destination.
  predicate EchoLike(p: PacketInfo, q: PacketInfo) {
    p.valid && p.protocol == Icmp && p.icmpType == 8 && p.src == q.src && p.dst == q.dst
  }

  // A SYN from the source of `q` to its destination, on any port.
  predicate ContactLike(p: PacketInfo, q: PacketInfo) {
    p.valid && p.protocol == Tcp && p.syn && !p.ack && p.src == q.src && p.dst == q.dst
  }

  // The SYN-flood rule fired on the n-th arrival, so that the rules behind it did not see it.
  ghost predicate Absorbed(config: Config, run: seq<Arrival>, n: nat)
    requires n < |run|
  {
    At(config, run, n).fired == Some(SynFlood)
  }

  // ---------- how many there are ----------

  // Where among run[i..j] there are SYNs like `q` that arrived no more than `window` before `now`.
  ghost function Syns(run: seq<Arrival>, i: nat, j: nat, q: PacketInfo, now: int, window: int): set<nat>
    requires j <= |run|
  {
    set k | i <= k < j && SynLike(run[k].pkt, q) && now - run[k].now <= window
  }

  ghost function Echoes(run: seq<Arrival>, i: nat, j: nat, q: PacketInfo, now: int, window: int): set<nat>
    requires j <= |run|
  {
    set k | i <= k < j && EchoLike(run[k].pkt, q) && now - run[k].now <= window
  }

  // The destination ports of such SYNs, on any port, that the SYN-flood rule did not absorb.
  ghost function Ports(config: Config, run: seq<Arrival>, i: nat, j: nat, q: PacketInfo, now: int,
                       window: int): set<nat>
    requires j <= |run|
  {
    set k | i <= k < j && ContactLike(run[k].pkt, q) && !Absorbed(config, run, k) && now - run[k].now <= window ::
      run[k].pkt.dstPort as nat
  }

  // The packets like the n-th that its window holds when it has arrived, itself included.
  ghost function SynsInWindow(config: Config, run: seq<Arrival>, n: nat): set<nat>
    requires n < |run|
  {
    Syns(run, 0, n + 1, run[n].pkt, run[n].now, config.synFloodWindow)
  }

  ghost function EchoesInWindow(config: Config, run: seq<Arrival>, n: nat): set<nat>
    requires n < |run|
  {
    Echoes(run, 0, n + 1, run[n].pkt, run[n].now, config.icmpFloodWindow)
  }

  ghost function PortsInWindow(config: Config, run: seq<Arrival>, n: nat): set<nat>
    requires n < |run|
  {
    Ports(config, run, 0, n + 1, run[n].pkt, run[n].now, config.portScanWindow)
  }

  // ---------- the tables' logs hold exactly these packets ----------

  lemma {:induction false} SynsNext(run: seq<Arrival>, i: nat, j: nat, q: PacketInfo, now: int, window: int)
    requires i <= j < |run|
    ensures |Syns(run, i, j + 1, q, now, window)| ==
            |Syns(run, i, j, q, now, window)| +
            if SynLike(run[j].pkt, q) && now - run[j].now <= window then 1 else 0
  {
    var before, after := Syns(run, i, j, q, now, window), Syns(run, i, j + 1, q, now, window);
    assert after == if SynLike(run[j].pkt, q) && now - run[j].now <= window then before + {j} else before;
  }

  lemma {:induction false} EchoesNext(run: seq<Arrival>, i: nat, j: nat, q: PacketInfo, now: int, window: int)
    requires i <= j < |run|
    ensures |Echoes(run, i, j + 1, q, now, window)| ==
            |Echoes(run, i, j, q, now, window)| +
            if EchoLike(run[j].pkt, q) && now - run[j].now <= window then 1 else 0
  {
    var before, after := Echoes(run, i, j, q, now, window), Echoes(run, i, j + 1, q, now, window);
    assert after == if EchoLike(run[j].pkt, q) && now - run[j].now <= window then before + {j} else before;
  }

  lemma {:induction false} SynLogged(config: Config, run: seq<Arrival>, k: nat, q: PacketInfo)
    requires k < |run| && config.enableSynFlood != 0
    ensures T.IsOf(SynLog(config, run)[k], FlowOf(q)) <==> SynLike(run[k].pkt, q)
    ensures SynLog(config, run)[k].now == run[k].now
  {
  }

  lemma {:induction false} EchoLogged(config: Config, run: seq<Arrival>, k: nat, q: PacketInfo)
    requires k < |run| && config.enableIcmpFlood != 0
    ensures T.IsOf(IcmpLog(config, run)[k], PairOf(q)) <==> EchoLike(run[k].pkt, q)
    ensures IcmpLog(config, run)[k].now == run[k].now
  {
  }

  lemma {:induction false} ContactLogged(config: Config, run: seq<Arrival>, k: nat, q: PacketInfo)
    requires k < |run| && config.enablePortScan != 0
    ensures T.IsOf(ScanLog(config, run)[k], PairOf(q)) <==> ContactLike(run[k].pkt, q) && !Absorbed(config, run, k)
    ensures ScanLog(config, run)[k].Offer? ==> ScanLog(config, run)[k].mark == Port(run[k].pkt.dstPort)
    ensures ScanLog(config, run)[k].now == run[k].now
  {
    hide At;
  }

  lemma {:induction false} SynsCounted(config: Config, run: seq<Arrival>, j: nat, q: PacketInfo, now: int)
    requires Timed(run) && j <= |run| && config.enableSynFlood != 0 && config.synFloodWindow > 0
    ensures T.Count(SynLog(config, run)[..j], FlowOf(q), now, config.synFloodWindow) ==
            |Syns(run, 0, j, q, now, config.synFloodWindow)|
    decreases j
  {
    hide SynLike, FlowOf, SynLog, Syns, T.IsOf;
    if j == 0 {
      NoSyns(run, 0, q, now, config.synFloodWindow);
    } else {
      SynsCounted(config, run, j - 1, q, now);
      SynsNext(run, 0, j - 1, q, now, config.synFloodWindow);
      T.CountNext(SynLog(config, run), j - 1, FlowOf(q), now, config.synFloodWindow);
      SynLogged(config, run, j - 1, q);
    }
  }

  lemma {:induction false} NoSyns(run: seq<Arrival>, i: nat, q: PacketInfo, now: int, window: int)
    requires i <= |run|
    ensures |Syns(run, i, i, q, now, window)| == 0
  {
  }

  lemma {:induction false} EchoesCounted(config: Config, run: seq<Arrival>, j: nat, q: PacketInfo, now: int)
    requires Timed(run) && j <= |run| && config.enableIcmpFlood != 0 && config.icmpFloodWindow > 0
    ensures T.Count(IcmpLog(config, run)[..j], PairOf(q), now, config.icmpFloodWindow) ==
            |Echoes(run, 0, j, q, now, config.icmpFloodWindow)|
    decreases j
  {
    hide EchoLike, PairOf, IcmpLog, Echoes, T.IsOf;
    if j == 0 {
      NoEchoes(run, 0, q, now, config.icmpFloodWindow);
    } else {
      EchoesCounted(config, run, j - 1, q, now);
      EchoesNext(run, 0, j - 1, q, now, config.icmpFloodWindow);
      T.CountNext(IcmpLog(config, run), j - 1, PairOf(q), now, config.icmpFloodWindow);
      EchoLogged(config, run, j - 1, q);
    }
  }

  lemma {:induction false} NoEchoes(run: seq<Arrival>, i: nat, q: PacketInfo, now: int, window: int)
    requires i <= |run|
    ensures |Echoes(run, i, i, q, now, window)| == 0
  {
  }

  lemma {:induction false} PortsCounted(config: Config, run: seq<Arrival>, j: nat, q: PacketInfo, now: int)
    requires Timed(run) && j <= |run| && config.enablePortScan != 0 && config.portScanWindow > 0
    ensures T.LivePorts(ScanLog(config, run)[..j], PairOf(q), now, config.portScanWindow) ==
            Ports(config, run, 0, j, q, now, config.portScanWindow)
  {
    hide ContactLike, PairOf, ScanLog, Absorbed, At;
    var log, window := ScanLog(config, run), config.portScanWindow;
    var live, ports := T.LivePorts(log[..j], PairOf(q), now, window), Ports(config, run, 0, j, q, now, window);
    forall p | p in live
      ensures p in ports
    {
      var k :| 0 <= k < j && T.IsOf(log[k], PairOf(q)) && log[k].mark == Port(p) && Within(now, log[k].now, window);
      ContactLogged(config, run, k, q);
      assert run[k].pkt.dstPort as nat in ports;
    }
    forall p | p in ports
      ensures p in live
    {
      var k :| 0 <= k < j && ContactLike(run[k].pkt, q) && !Absorbed(config, run, k) && now - run[k].now <= window &&
               run[k].pkt.dstPort == p;
      ContactLogged(config, run, k, q);
      assert log[..j][k] == log[k];
      assert log[..j][k].mark.port in live;
    }
  }

  // ---------- the same for the packets of a span, without a window ----------

  ghost function SynsAmong(run: seq<Arrival>, i: nat, j: nat, q: PacketInfo): set<nat>
    requires j <= |run|
  {
    set k | i <= k < j && SynLike(run[k].pkt, q)
  }

  ghost function EchoesAmong(run: seq<Arrival>, i: nat, j: nat, q: PacketInfo): set<nat>
    requires j <= |run|
  {
    set k | i <= k < j && EchoLike(run[k].pkt, q)
  }

  ghost function PortsAmong(config: Config, run: seq<Arrival>, i: nat, j: nat, q: PacketInfo): set<nat>
    requires j <= |run|
  {
    set k | i <= k < j && ContactLike(run[k].pkt, q) && !Absorbed(config, run, k) :: run[k].pkt.dstPort as nat
  }

  lemma {:induction false} SynsAmongNext(run: seq<Arrival>, i: nat, j: nat, q: PacketInfo)
    requires i <= j < |run|
    ensures |SynsAmong(run, i, j + 1, q)| == |SynsAmong(run, i, j, q)| + if SynLike(run[j].pkt, q) then 1 else 0
  {
    var before, after := SynsAmong(run, i, j, q), SynsAmong(run, i, j + 1, q);
    assert after == if SynLike(run[j].pkt, q) then before + {j} else before;
  }

  lemma {:induction false} SynsOffered(config: Config, run: seq<Arrival>, i: nat, j: nat, q: PacketInfo)
    requires i <= j <= |run| && config.enableSynFlood != 0
    ensures T.Offers(SynLog(config, run), FlowOf(q), i, j) == |SynsAmong(run, i, j, q)|
    decreases j
  {
    hide SynLike, FlowOf, SynLog, SynsAmong, T.IsOf;
    if i == j {
      NoneSynsAmong(run, i, q);
    } else {
      SynsOffered(config, run, i, j - 1, q);
      SynLogged(config, run, j - 1, q);
      SynsAmongNext(run, i, j - 1, q);
    }
  }

  lemma {:induction false} NoneSynsAmong(run: seq<Arrival>, i: nat, q: PacketInfo)
    requires i <= |run|
    ensures |SynsAmong(run, i, i, q)| == 0
  {
  }

  lemma {:induction false} EchoesAmongNext(run: seq<Arrival>, i: nat, j: nat, q: PacketInfo)
    requires i <= j < |run|
    ensures |EchoesAmong(run, i, j + 1, q)| == |EchoesAmong(run, i, j, q)| + if EchoLike(run[j].pkt, q) then 1 else 0
  {
    var before, after := EchoesAmong(run, i, j, q), EchoesAmong(run, i, j + 1, q);
    assert after == if EchoLike(run[j].pkt, q) then before + {j} else before;
  }

  lemma {:induction false} EchoesOffered(config: Config, run: seq<Arrival>, i: nat, j: nat, q: PacketInfo)
    requires i <= j <= |run| && config.enableIcmpFlood != 0
    ensures T.Offers(IcmpLog(config, run), PairOf(q), i, j) == |EchoesAmong(run, i, j, q)|
    decreases j
  {
    hide EchoLike, PairOf, IcmpLog, EchoesAmong, T.IsOf;
    if i == j {
      NoneEchoesAmong(run, i, q);
    } else {
      EchoesOffered(config, run, i, j - 1, q);
      EchoLogged(config, run, j - 1, q);
      EchoesAmongNext(run, i, j - 1, q);
    }
  }

  lemma {:induction false} NoneEchoesAmong(run: seq<Arrival>, i: nat, q: PacketInfo)
    requires i <= |run|
    ensures |EchoesAmong(run, i, i, q)| == 0
  {
  }

  lemma {:induction false} PortsOffered(config: Config, run: seq<Arrival>, i: nat, j: nat, q: PacketInfo)
    requires i <= j <= |run| && config.enablePortScan != 0
    ensures T.OfferedPorts(ScanLog(config, run), PairOf(q), i, j) == PortsAmong(config, run, i, j, q)
  {
    hide ContactLike, PairOf, ScanLog, Absorbed, At;
    var log := ScanLog(config, run);
    forall k | i <= k < j
      ensures T.IsOf(log[k], PairOf(q)) <==> ContactLike(run[k].pkt, q) && !Absorbed(config, run, k)
      ensures T.IsOf(log[k], PairOf(q)) ==> log[k].mark == Port(run[k].pkt.dstPort)
    {
      ContactLogged(config, run, k, q);
    }
    var offered, ports := T.OfferedPorts(log, PairOf(q), i, j), PortsAmong(config, run, i, j, q);
    forall p | p in offered
      ensures p in ports
    {
      var k :| i <= k < j && T.IsOf(log[k], PairOf(q)) && log[k].mark == Port(p);
      assert run[k].pkt.dstPort as nat in ports;
    }
    forall p | p in ports
      ensures p in offered
    {
      var k :| i <= k < j && ContactLike(run[k].pkt, q) && !Absorbed(config, run, k) && run[k].pkt.dstPort == p;
      assert log[k].mark.port in offered;
    }
  }

  // ---------- conditions on a run, said of its packets ----------

  // Flows with a SYN in the window of the n-th arrival.
  ghost function FlowsInWindow(config: Config, run: seq<Arrival>, n: nat): set<Flow>
    requires n < |run|
  {
    set k | 0 <= k <= n && SynLike(run[k].pkt, run[k].pkt) && run[n].now - run[k].now <= config.synFloodWindow ::
      Flow(run[k].pkt.src, run[k].pkt.dst, run[k].pkt.dstPort)
  }

  // Pairs with an echo request in the window of the n-th arrival.
  ghost function PingersInWindow(config: Config, run: seq<Arrival>, n: nat): set<Pair>
    requires n < |run|
  {
    set k | 0 <= k <= n && EchoLike(run[k].pkt, run[k].pkt) && run[n].now - run[k].now <= config.icmpFloodWindow ::
      Pair(run[k].pkt.src, run[k].pkt.dst)
  }

  // Pairs with an unabsorbed SYN in the window of the n-th arrival.
  ghost function ScannersInWindow(config: Config, run: seq<Arrival>, n: nat): set<Pair>
    requires n < |run|
  {
    set k | 0 <= k <= n && ContactLike(run[k].pkt, run[k].pkt) && !Absorbed(config, run, k) &&
            run[n].now - run[k].now <= config.portScanWindow ::
      Pair(run[k].pkt.src, run[k].pkt.dst)
  }

  // At every SYN like `q`, no more than 256 flows and no more than 128 SYNs like it are in its window.
  ghost predicate SynRoom(config: Config, run: seq<Arrival>, q: PacketInfo) {
    forall m :: 0 <= m < |run| && SynLike(run[m].pkt, q) ==>
      |FlowsInWindow(config, run, m)| <= 256 && |SynsInWindow(config, run, m)| <= 128
  }

  ghost predicate EchoRoom(config: Config, run: seq<Arrival>, q: PacketInfo) {
    forall m :: 0 <= m < |run| && EchoLike(run[m].pkt, q) ==>
      |PingersInWindow(config, run, m)| <= 256 && |EchoesInWindow(config, run, m)| <= 128
  }

  ghost predicate ScanRoom(config: Config, run: seq<Arrival>, q: PacketInfo) {
    forall m :: 0 <= m < |run| && ContactLike(run[m].pkt, q) && !Absorbed(config, run, m) ==>
      |ScannersInWindow(config, run, m)| <= 256 && |PortsInWindow(config, run, m)| <= 128
  }

  lemma {:induction false} SynRoomIsRoom(config: Config, run: seq<Arrival>, q: PacketInfo)
    requires Timed(run) && config.enableSynFlood != 0 && config.synFloodWindow > 0 && SynRoom(config, run, q)
    ensures T.FewKeys(SynLog(config, run), FlowOf(q), SynLimits(config))
    ensures T.Unsaturated(SynLog(config, run), FlowOf(q), SynLimits(config))
  {
    hide SynLike, FlowOf, SynLog, T.IsOf, T.Count;
    var log, window := SynLog(config, run), config.synFloodWindow;
    forall m | 0 <= m < |run| && T.IsOf(log[m], FlowOf(q))
      ensures |T.LiveKeys(log[..m + 1], log[m].now, window)| <= MAX_TRACKED_HOSTS
      ensures T.Count(log[..m + 1], FlowOf(q), log[m].now, window) <= MAX_TRACKED_EVENTS
    {
      SynLogged(config, run, m, q);
      SynsCounted(config, run, m + 1, q, run[m].now);
      SameSyns(run, m + 1, run[m].pkt, q, run[m].now, window);
      FlowsLogged(config, run, m);
      SubsetSize(T.LiveKeys(log[..m + 1], log[m].now, window), FlowsInWindow(config, run, m));
    }
  }

  lemma {:induction false} SameSyns(run: seq<Arrival>, j: nat, p: PacketInfo, q: PacketInfo, now: int, window: int)
    requires j <= |run| && SynLike(p, q)
    ensures Syns(run, 0, j, p, now, window) == Syns(run, 0, j, q, now, window)
  {
  }

  lemma {:induction false} FlowsLogged(config: Config, run: seq<Arrival>, n: nat)
    requires n < |run| && config.enableSynFlood != 0
    ensures T.LiveKeys(SynLog(config, run)[..n + 1], run[n].now, config.synFloodWindow) <= FlowsInWindow(config, run, n)
  {
    var log := SynLog(config, run);
    forall k | k in T.LiveKeys(log[..n + 1], run[n].now, config.synFloodWindow)
      ensures k in FlowsInWindow(config, run, n)
    {
      var i :| 0 <= i < n + 1 && log[i].Offer? && Within(run[n].now, log[i].now, config.synFloodWindow) &&
        log[i].key == k;
      assert SynLike(run[i].pkt, run[i].pkt);
    }
  }

  lemma {:induction false} EchoRoomIsRoom(config: Config, run: seq<Arrival>, q: PacketInfo)
    requires Timed(run) && config.enableIcmpFlood != 0 && config.icmpFloodWindow > 0 && EchoRoom(config, run, q)
    ensures T.FewKeys(IcmpLog(config, run), PairOf(q), IcmpLimits(config))
    ensures T.Unsaturated(IcmpLog(config, run), PairOf(q), IcmpLimits(config))
  {
    hide EchoLike, PairOf, IcmpLog, T.IsOf, T.Count;
    var log, window := IcmpLog(config, run), config.icmpFloodWindow;
    forall m | 0 <= m < |run| && T.IsOf(log[m], PairOf(q))
      ensures |T.LiveKeys(log[..m + 1], log[m].now, window)| <= MAX_TRACKED_HOSTS
      ensures T.Count(log[..m + 1], PairOf(q), log[m].now, window) <= MAX_TRACKED_EVENTS
    {
      EchoLogged(config, run, m, q);
      EchoesCounted(config, run, m + 1, q, run[m].now);
      SameEchoes(run, m + 1, run[m].pkt, q, run[m].now, window);
      PingersLogged(config, run, m);
      SubsetSize(T.LiveKeys(log[..m + 1], log[m].now, window), PingersInWindow(config, run, m));
    }
  }

  lemma {:induction false} SameEchoes(run: seq<Arrival>, j: nat, p: PacketInfo, q: PacketInfo, now: int, window: int)
    requires j <= |run| && EchoLike(p, q)
    ensures Echoes(run, 0, j, p, now, window) == Echoes(run, 0, j, q, now, window)
  {
  }

  lemma {:induction false} PingersLogged(config: Config, run: seq<Arrival>, n: nat)
    requires n < |run| && config.enableIcmpFlood != 0
    ensures T.LiveKeys(IcmpLog(config, run)[..n + 1], run[n].now, config.icmpFloodWindow) <= PingersInWindow(config,
                                                                                                             run, n)
  {
    var log := IcmpLog(config, run);
    forall k | k in T.LiveKeys(log[..n + 1], run[n].now, config.icmpFloodWindow)
      ensures k in PingersInWindow(config, run, n)
    {
      var i :| 0 <= i < n + 1 && log[i].Offer? && Within(run[n].now, log[i].now, config.icmpFloodWindow) &&
        log[i].key == k;
      assert EchoLike(run[i].pkt, run[i].pkt);
    }
  }

  lemma {:induction false} ScanRoomIsRoom(config: Config, run: seq<Arrival>, q: PacketInfo)
    requires Timed(run) && config.enablePortScan != 0 && config.portScanWindow > 0 && ScanRoom(config, run, q)
    ensures T.FewKeys(ScanLog(config, run), PairOf(q), ScanLimits(config))
    ensures T.FewPorts(ScanLog(config, run), PairOf(q), ScanLimits(config))
  {
    hide ContactLike, Absorbed, PairOf, ScanLog, T.IsOf, T.LivePorts, At;
    var log, window := ScanLog(config, run), config.portScanWindow;
    forall m | 0 <= m < |run| && T.IsOf(log[m], PairOf(q))
      ensures |T.LiveKeys(log[..m + 1], log[m].now, window)| <= MAX_TRACKED_HOSTS
      ensures |T.LivePorts(log[..m + 1], PairOf(q), log[m].now, window)| <= MAX_TRACKED_PORTS
    {
      ContactLogged(config, run, m, q);
      PortsCounted(config, run, m + 1, q, run[m].now);
      SamePorts(config, run, m + 1, run[m].pkt, q, run[m].now, window);
      ScannersLogged(config, run, m);
      SubsetSize(T.LiveKeys(log[..m + 1], log[m].now, window), ScannersInWindow(config, run, m));
    }
  }

  lemma {:induction false} SamePorts(config: Config, run: seq<Arrival>, j: nat, p: PacketInfo, q: PacketInfo, now: int,
                                     window: int)
    requires j <= |run| && ContactLike(p, q)
    ensures Ports(config, run, 0, j, p, now, window) == Ports(config, run, 0, j, q, now, window)
  {
    hide Absorbed;
  }

  lemma {:induction false} ScannersLogged(config: Config, run: seq<Arrival>, n: nat)
    requires n < |run| && config.enablePortScan != 0
    ensures T.LiveKeys(ScanLog(config, run)[..n + 1], run[n].now, config.portScanWindow) <= ScannersInWindow(config,
                                                                                                             run, n)
  {
    hide At;
    var log := ScanLog(config, run);
    forall k | k in T.LiveKeys(log[..n + 1], run[n].now, config.portScanWindow)
      ensures k in ScannersInWindow(config, run, n)
    {
      var i :| 0 <= i < n + 1 && log[i].Offer? && Within(run[n].now, log[i].now, config.portScanWindow) &&
        log[i].key == k;
      assert ContactLike(run[i].pkt, run[i].pkt) && !Absorbed(config, run, i);
    }
  }
}
