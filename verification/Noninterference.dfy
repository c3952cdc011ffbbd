/** Two tables, or two alert histories, that look the same to a chosen family of keys keep looking the
    same, whatever other keys do in the first of them. */
module SameView {
  import opened Options
  import opened Windows
  import opened Slots
  import opened Cooldown
  import opened SetSizes
  import T = TableRuns
  import C = CooldownRuns

  // `b` only ever serves keys of the family; `a` serves others as well.
  ghost predicate SameTable<K(!new)>(a: seq<Slot<K>>, b: seq<Slot<K>>, mine: K -> bool, now: int, window: int) {
    && |a| == |b| && DistinctKeys(a) && DistinctKeys(b)
    && (forall i :: 0 <= i < |b| && b[i].Live? ==> mine(b[i].key))
    && (forall k :: mine(k) ==> Stored(a, k, now, window) == Stored(b, k, now, window))
  }

  ghost predicate SameHistory<K(!new)>(a: seq<Cell<K>>, b: seq<Cell<K>>, mine: K -> bool, now: int, cooldown: int) {
    && |a| == |b| && WellKept(a) && WellKept(b)
    && (forall i :: 0 <= i < |b| && b[i].Used? ==> mine(b[i].key))
    && (forall k :: mine(k) ==> Recent(a, k, now, cooldown) == Recent(b, k, now, cooldown))
  }

  lemma {:induction false} TableLater<K(!new)>(a: seq<Slot<K>>, b: seq<Slot<K>>, mine: K -> bool, t1: int, t2: int,
                                               window: int)
    requires SameTable(a, b, mine, t1, window) && t1 <= t2
    ensures SameTable(a, b, mine, t2, window)
  {
    forall k | mine(k)
      ensures Stored(a, k, t2, window) == Stored(b, k, t2, window)
    {
      StoredLater(a, k, t1, t2, window);
      StoredLater(b, k, t1, t2, window);
    }
  }

  lemma {:induction false} HistoryLater<K(!new)>(a: seq<Cell<K>>, b: seq<Cell<K>>, mine: K -> bool, t1: int, t2: int,
                                                 cooldown: int)
    requires SameHistory(a, b, mine, t1, cooldown) && t1 <= t2
    ensures SameHistory(a, b, mine, t2, cooldown)
  {
  }

  lemma {:induction false} EmptyTables<K(!new)>(hosts: nat, mine: K -> bool, now: int, window: int)
    ensures SameTable(T.EmptyTable(hosts), T.EmptyTable(hosts), mine, now, window)
  {
  }

  lemma {:induction false} EmptyHistories<K(!new)>(size: nat, mine: K -> bool, now: int, cooldown: int)
    ensures SameHistory(C.EmptyHistory(size), C.EmptyHistory(size), mine, now, cooldown)
  {
  }

  // ---------- a key outside the family, in `a` alone ----------

  lemma {:induction false} TableOther<K(!new)>(a: seq<Slot<K>>, b: seq<Slot<K>>, mine: K -> bool, offer: Offer<K>,
                                               limits: Limits, now: int)
    requires SameTable(a, b, mine, now, limits.window) && offer.now <= now && (offer.Offer? ==> !mine(offer.key))
    ensures SameTable(Observe(a, offer, limits).slots, b, mine, now, limits.window)
  {
    hide Observe, Stored;
    ObserveDistinct(a, offer, limits);
    forall k | mine(k)
      ensures Stored(Observe(a, offer, limits).slots, k, now, limits.window) == Stored(b, k, now, limits.window)
    {
      OthersUntouched(a, offer, k, limits);
      StoredLater(a, k, offer.now, now, limits.window);
      StoredLater(Observe(a, offer, limits).slots, k, offer.now, now, limits.window);
    }
  }

  lemma {:induction false} HistoryOther<K(!new)>(a: seq<Cell<K>>, b: seq<Cell<K>>, mine: K -> bool, ask: Ask<K>,
                                                 cooldown: int, now: int)
    requires SameHistory(a, b, mine, now, cooldown) && ask.now <= now && (ask.Ask? ==> !mine(ask.key))
    ensures SameHistory(Decide(a, ask, cooldown).cells, b, mine, now, cooldown)
  {
    hide Decide, Recent;
    DecideWellKept(a, ask, cooldown);
    forall k | mine(k)
      ensures Recent(Decide(a, ask, cooldown).cells, k, now, cooldown) == Recent(b, k, now, cooldown)
    {
      OthersUndisturbed(a, ask, k, cooldown);
      RecentLater(a, k, ask.now, now, cooldown);
      RecentLater(Decide(a, ask, cooldown).cells, k, ask.now, now, cooldown);
    }
  }

  // ---------- a key of the family, in both ----------

  lemma {:induction false} LiveInBoth<K(!new)>(a: seq<Slot<K>>, b: seq<Slot<K>>, mine: K -> bool, now: int, window: int,
                                               i: nat)
    requires SameTable(a, b, mine, now, window) && i < |b| && b[i].Live? && Keep(b[i].entries, now, window) != []
    ensures b[i].key in T.KeySet(CompactAll(a, now, window))
  {
  }

  lemma {:induction false} CrowdInBoth<K(!new)>(a: seq<Slot<K>>, b: seq<Slot<K>>, mine: K -> bool, offer: Offer<K>,
                                                limits: Limits)
    requires SameTable(a, b, mine, offer.now, limits.window) && offer.Offer?
    requires Lookup(b, offer.key, offer.now, limits.window).1.None?
    ensures var others, live := T.KeySet(b), T.KeySet(CompactAll(a, offer.now, limits.window));
            others <= live && offer.key !in others && |others| == |b|
  {
    hide SameTable, Lookup;
    LookupFailsWhenCrowded(b, offer.key, offer.now, limits.window);
    forall k | k in T.KeySet(b)
      ensures k in T.KeySet(CompactAll(a, offer.now, limits.window)) && k != offer.key
    {
      var i :| 0 <= i < |b| && b[i].Live? && b[i].key == k;
      LiveInBoth(a, b, mine, offer.now, limits.window, i);
    }
    SameTableParts(a, b, mine, offer.now, limits.window);
    T.KeySetSize(b);
  }

  lemma {:induction false} SameTableParts<K(!new)>(a: seq<Slot<K>>, b: seq<Slot<K>>, mine: K -> bool, now: int,
                                                   window: int)
    requires SameTable(a, b, mine, now, window)
    ensures |a| == |b| && DistinctKeys(a) && DistinctKeys(b)
  {
  }

  // If the fuller table finds a slot, so does the other: a crowd in `b` would be a crowd in `a`.
  lemma {:induction false} RoomCarriesOver<K(!new)>(a: seq<Slot<K>>, b: seq<Slot<K>>, mine: K -> bool, offer: Offer<K>,
                                                    limits: Limits)
    requires SameTable(a, b, mine, offer.now, limits.window) && offer.Offer?
    requires Lookup(a, offer.key, offer.now, limits.window).1.Some?
    ensures Lookup(b, offer.key, offer.now, limits.window).1.Some?
  {
    hide SameTable, Lookup;
    if Lookup(b, offer.key, offer.now, limits.window).1.None? {
      var live, others := CompactAll(a, offer.now, limits.window), T.KeySet(b);
      SameTableParts(a, b, mine, offer.now, limits.window);
      CrowdInBoth(a, b, mine, offer, limits);
      LookupFailsWhenCrowded(a, offer.key, offer.now, limits.window);
      T.KeySetSize(live);
      SubsetSize(others, T.KeySet(live));
      var i :| 0 <= i < |a| && (live[i].Free? || Holds(live[i], offer.key));
      if live[i].Live? {
        SubsetSize(others + {offer.key}, T.KeySet(live));
      }
    }
  }

  lemma {:induction false} TableOwn<K(!new)>(a: seq<Slot<K>>, b: seq<Slot<K>>, mine: K -> bool, offer: Offer<K>,
                                             limits: Limits)
    requires SameTable(a, b, mine, offer.now, limits.window)
    requires offer.Offer? ==> mine(offer.key) && Observe(a, offer, limits).hit.Some?
    ensures Observe(b, offer, limits).hit == Observe(a, offer, limits).hit
    ensures SameTable(Observe(a, offer, limits).slots, Observe(b, offer, limits).slots, mine, offer.now, limits.window)
  {
    if offer.Offer? {
      RoomCarriesOver(a, b, mine, offer, limits);
      OwnKey(a, offer, limits);
      OwnKey(b, offer, limits);
      ObserveDistinct(a, offer, limits);
      ObserveDistinct(b, offer, limits);
      var a', b' := Observe(a, offer, limits).slots, Observe(b, offer, limits).slots;
      forall i | 0 <= i < |b'| && b'[i].Live?
        ensures mine(b'[i].key)
      {
        ObserveSlot(b, offer, limits, i);
      }
      forall k | mine(k)
        ensures Stored(a', k, offer.now, limits.window) == Stored(b', k, offer.now, limits.window)
      {
        if k != offer.key {
          OthersUntouched(a, offer, k, limits);
          OthersUntouched(b, offer, k, limits);
        }
      }
    }
  }

  lemma {:induction false} RoomInHistory<K>(cells: seq<Cell<K>>, ask: Ask<K>, cooldown: int)
    requires WellKept(cells) && ask.Ask? && cooldown > 0 && Decide(cells, ask, cooldown).recorded
    requires Recent(cells, ask.key, ask.now, cooldown).None?
    ensures |Cooling(cells, ask.now, cooldown)| < |cells|
  {
    UnrecordedWhenCrowded(cells, ask, cooldown);
    var i :| 0 <= i < |cells| &&
      !(cells[i].Used? && cells[i].key != ask.key && Within(ask.now, cells[i].last, cooldown));
    if Keeps(cells[i], ask.key) {
      KeptAt(cells, ask.key, i);
    }
    assert Available(cells[i], ask.now, cooldown);
    CoolingSize(cells, ask.now, cooldown);
  }

  lemma {:induction false} CrowdedHistories<K(!new)>(a: seq<Cell<K>>, b: seq<Cell<K>>, mine: K -> bool, ask: Ask<K>,
                                                     cooldown: int)
    requires SameHistory(a, b, mine, ask.now, cooldown) && ask.Ask? && mine(ask.key) && cooldown > 0
    requires !Decide(b, ask, cooldown).recorded
    ensures Recent(a, ask.key, ask.now, cooldown).None?
    ensures |Cooling(a, ask.now, cooldown)| >= |a|
  {
    UnrecordedWhenCrowded(b, ask, cooldown);
    var keys, cooling := C.UsedKeys(b), Cooling(a, ask.now, cooldown);
    C.UsedKeysSize(b);
    forall k | k in keys
      ensures k in cooling
    {
      var i :| 0 <= i < |b| && Keeps(b[i], k);
      KeptAt(b, k, i);
      assert Recent(a, k, ask.now, cooldown).Some?;
    }
    SubsetSize(keys, cooling);
    assert Recent(b, ask.key, ask.now, cooldown).None?;
  }

  lemma {:induction false} RecordCarriesOver<K(!new)>(a: seq<Cell<K>>, b: seq<Cell<K>>, mine: K -> bool, ask: Ask<K>,
                                                      cooldown: int)
    requires SameHistory(a, b, mine, ask.now, cooldown) && ask.Ask? && mine(ask.key) && cooldown > 0
    requires Decide(a, ask, cooldown).recorded
    ensures Decide(b, ask, cooldown).recorded
  {
    hide Decide, Recent, Cooling;
    if !Decide(b, ask, cooldown).recorded {
      CrowdedHistories(a, b, mine, ask, cooldown);
      RoomInHistory(a, ask, cooldown);
    }
  }

  lemma {:induction false} HistoryOwn<K(!new)>(a: seq<Cell<K>>, b: seq<Cell<K>>, mine: K -> bool, ask: Ask<K>,
                                               cooldown: int)
    requires SameHistory(a, b, mine, ask.now, cooldown) && ask.now != 0
    requires ask.Ask? ==> mine(ask.key)
    requires Decide(a, ask, cooldown).recorded
    ensures Decide(b, ask, cooldown).emit == Decide(a, ask, cooldown).emit
    ensures Decide(b, ask, cooldown).recorded
    ensures SameHistory(Decide(a, ask, cooldown).cells, Decide(b, ask, cooldown).cells, mine, ask.now, cooldown)
  {
    if ask.Ask? && cooldown > 0 {
      RecordCarriesOver(a, b, mine, ask, cooldown);
      OwnVerdict(a, ask, cooldown);
      OwnVerdict(b, ask, cooldown);
      DecideWellKept(a, ask, cooldown);
      DecideWellKept(b, ask, cooldown);
      var a', b' := Decide(a, ask, cooldown).cells, Decide(b, ask, cooldown).cells;
      forall k | mine(k)
        ensures Recent(a', k, ask.now, cooldown) == Recent(b', k, ask.now, cooldown)
      {
        if k != ask.key {
          OthersUndisturbed(a, ask, k, cooldown);
          OthersUndisturbed(b, ask, k, cooldown);
        }
      }
    }
  }
}

/** Hosts do not interfere: what the detector reports for one source and destination does not depend
    on the packets of any other pair, although all pairs share slots, lazy compaction and the alert
    history, as long as no table runs out of room. */
module Noninterference {
  import opened Options
  import opened Packets
  import opened Settings
  import opened Slots
  import opened Cooldown
  import opened DetectorSpec
  import opened DetectorRuns
  import opened SameView
  import P = DetectorProperties
  import T = TableRuns
  import C = CooldownRuns

  ghost function MyFlow(pair: Pair): Flow -> bool {
    (flow: Flow) => flow.src == pair.src && flow.dst == pair.dst
  }

  ghost function MyPair(pair: Pair): Pair -> bool {
    (p: Pair) => p == pair
  }

  ghost function MyKey(pair: Pair): AlertKey -> bool {
    (key: AlertKey) => key.src == pair.src && key.dst == pair.dst
  }

  // The arrivals of one pair.
  ghost function Only(run: seq<Arrival>, pair: Pair): seq<Arrival> {
    if run == [] then []
    else
      var last := run[|run| - 1];
      if PairOf(last.pkt) == pair then Only(run[..|run| - 1], pair) + [last] else Only(run[..|run| - 1], pair)
  }

  // What the detector reports, packet by packet.
  ghost function Results(config: Config, run: seq<Arrival>): seq<DetectionResult> {
    if run == [] then [] else Results(config, run[..|run| - 1]) + [At(config, run, |run| - 1).result]
  }

  // What it reports for the packets of one pair.
  ghost function ResultsFor(config: Config, run: seq<Arrival>, pair: Pair): seq<DetectionResult> {
    if run == [] then []
    else
      var before := ResultsFor(config, run[..|run| - 1], pair);
      if PairOf(run[|run| - 1].pkt) == pair then before + [At(config, run, |run| - 1).result] else before
  }

  ghost predicate NeverStarved(config: Config, run: seq<Arrival>) {
    forall n :: 0 <= n < |run| ==> !Starved(config, run[n].pkt, run[n].now, At(config, run, n))
  }

  // No packet of `pair` lacks room in a table or in the history; packets of other pairs may.
  ghost predicate RoomFor(config: Config, run: seq<Arrival>, pair: Pair) {
    forall n :: 0 <= n < |run| && PairOf(run[n].pkt) == pair ==>
      !Starved(config, run[n].pkt, run[n].now, At(config, run, n))
  }

  ghost predicate Agree(config: Config, a: State, b: State, pair: Pair, now: int) {
    && SameTable(a.syn, b.syn, MyFlow(pair), now, config.synFloodWindow)
    && SameTable(a.scan, b.scan, MyPair(pair), now, config.portScanWindow)
    && SameTable(a.icmp, b.icmp, MyPair(pair), now, config.icmpFloodWindow)
    && SameHistory(a.history, b.history, MyKey(pair), now, config.alertCooldown)
  }

  lemma {:induction false} AgreeLater(config: Config, a: State, b: State, pair: Pair, t1: int, t2: int)
    requires Agree(config, a, b, pair, t1) && t1 <= t2
    ensures Agree(config, a, b, pair, t2)
  {
    hide SameTable, SameHistory;
    TableLater(a.syn, b.syn, MyFlow(pair), t1, t2, config.synFloodWindow);
    TableLater(a.scan, b.scan, MyPair(pair), t1, t2, config.portScanWindow);
    TableLater(a.icmp, b.icmp, MyPair(pair), t1, t2, config.icmpFloodWindow);
    HistoryLater(a.history, b.history, MyKey(pair), t1, t2, config.alertCooldown);
  }

  lemma {:induction false} OtherPair(config: Config, a: State, b: State, pair: Pair, pkt: PacketInfo, time: int,
                                     now: int)
    requires Agree(config, a, b, pair, now) && PairOf(pkt) != pair && time <= now
    ensures Agree(config, Detect(config, a, pkt, time).After(), b, pair, now)
  {
    hide SameTable, SameHistory, Observe, Decide, Detect;
    var o := Detect(config, a, pkt, time);
    DetectParts(config, a, pkt, time);
    TableOther(a.syn, b.syn, MyFlow(pair), SynOffer(config, pkt, time), SynLimits(config), now);
    TableOther(a.scan, b.scan, MyPair(pair), ScanOffer(config, pkt, time, o.fired == Some(SynFlood)),
               ScanLimits(config), now);
    TableOther(a.icmp, b.icmp, MyPair(pair), IcmpOffer(config, pkt, time), IcmpLimits(config), now);
    HistoryOther(a.history, b.history, MyKey(pair), AskFor(o.fired, pkt, time), config.alertCooldown, now);
  }

  // The outcome of a packet depends on the tables only through what they answer.
  lemma {:induction false} SameAnswersSameFired(config: Config, a: State, b: State, pkt: PacketInfo, now: int)
    requires Observe(a.syn, SynOffer(config, pkt, now), SynLimits(config)).hit ==
             Observe(b.syn, SynOffer(config, pkt, now), SynLimits(config)).hit
    requires Observe(a.scan, ScanOffer(config, pkt, now, Detect(config, a, pkt, now).fired == Some(SynFlood)),
                     ScanLimits(config)).hit ==
             Observe(b.scan, ScanOffer(config, pkt, now, Detect(config, a, pkt, now).fired == Some(SynFlood)),
                     ScanLimits(config)).hit
    requires Observe(a.icmp, IcmpOffer(config, pkt, now), IcmpLimits(config)).hit ==
             Observe(b.icmp, IcmpOffer(config, pkt, now), IcmpLimits(config)).hit
    ensures Detect(config, a, pkt, now).fired == Detect(config, b, pkt, now).fired
    ensures Detect(config, a, pkt, now).verdict.emit == Detect(config, b, pkt, now).verdict.emit ==>
              Detect(config, a, pkt, now).result == Detect(config, b, pkt, now).result
  {
  }

  lemma {:induction false} OwnPair(config: Config, a: State, b: State, pair: Pair, pkt: PacketInfo, now: int)
    requires Agree(config, a, b, pair, now) && PairOf(pkt) == pair && now != 0
    requires !Starved(config, pkt, now, Detect(config, a, pkt, now))
    ensures Agree(config, Detect(config, a, pkt, now).After(), Detect(config, b, pkt, now).After(), pair, now)
    ensures Detect(config, b, pkt, now).result == Detect(config, a, pkt, now).result
    ensures !Starved(config, pkt, now, Detect(config, b, pkt, now))
  {
    hide SameTable, SameHistory, Observe, Decide, Detect;
    var o := Detect(config, a, pkt, now);
    DetectParts(config, a, pkt, now);
    DetectParts(config, b, pkt, now);
    P.FiringRule(config, a, pkt, now);
    P.FiringRule(config, b, pkt, now);
    TableOwn(a.syn, b.syn, MyFlow(pair), SynOffer(config, pkt, now), SynLimits(config));
    TableOwn(a.scan, b.scan, MyPair(pair), ScanOffer(config, pkt, now, o.fired == Some(SynFlood)), ScanLimits(config));
    TableOwn(a.icmp, b.icmp, MyPair(pair), IcmpOffer(config, pkt, now), IcmpLimits(config));
    SameAnswersSameFired(config, a, b, pkt, now);
    HistoryOwn(a.history, b.history, MyKey(pair), AskFor(o.fired, pkt, now), config.alertCooldown);
  }

  lemma {:induction false} InitAgrees(config: Config, pair: Pair, now: int)
    ensures After(config, []) == Init() && Agree(config, Init(), Init(), pair, now)
  {
    hide SameTable, SameHistory;
    EmptyTables(MAX_TRACKED_HOSTS, MyFlow(pair), now, config.synFloodWindow);
    EmptyTables(MAX_TRACKED_HOSTS, MyPair(pair), now, config.portScanWindow);
    EmptyTables(MAX_TRACKED_HOSTS, MyPair(pair), now, config.icmpFloodWindow);
    EmptyHistories(MAX_ALERT_HISTORY, MyKey(pair), now, config.alertCooldown);
  }

  lemma {:induction false} AppendArrival(config: Config, run: seq<Arrival>, x: Arrival)
    ensures At(config, run + [x], |run|) == Detect(config, After(config, run), x.pkt, x.now)
    ensures After(config, run + [x]) == Detect(config, After(config, run), x.pkt, x.now).After()
    ensures forall n :: 0 <= n < |run| ==> At(config, run + [x], n) == At(config, run, n)
  {
    hide Detect;
    var more := run + [x];
    assert more[..|run|] == run;
    assert more[..|run| + 1] == more;
    AtState(config, more, |run|);
    forall n | 0 <= n < |run|
      ensures At(config, more, n) == At(config, run, n)
    {
      AtInPrefix(config, more, |run|, n);
    }
  }

  // No arrival before one of `pair` carries a later time; other pairs may be in any order among
  // themselves.
  ghost predicate OrderedFor(run: seq<Arrival>, pair: Pair) {
    forall i, j :: 0 <= i <= j < |run| && PairOf(run[j].pkt) == pair ==> run[i].now <= run[j].now
  }

  ghost predicate AllBy(run: seq<Arrival>, now: int) {
    forall i :: 0 <= i < |run| ==> run[i].now <= now
  }

  lemma {:induction false} OrderedInPrefix(run: seq<Arrival>, pair: Pair, now: int)
    requires run != [] && OrderedFor(run, pair) && AllBy(run, now)
    ensures var m := |run| - 1;
            && OrderedFor(run[..m], pair) && AllBy(run[..m], now)
            && (PairOf(run[m].pkt) == pair ==> AllBy(run[..m], run[m].now))
  {
  }

  lemma {:induction false} Isolated(config: Config, run: seq<Arrival>, pair: Pair, now: int)
    requires Timed(run) && OrderedFor(run, pair) && RoomFor(config, run, pair) && AllBy(run, now)
    ensures Agree(config, After(config, run), After(config, Only(run, pair)), pair, now)
    ensures ResultsFor(config, run, pair) == Results(config, Only(run, pair))
    ensures NeverStarved(config, Only(run, pair))
  {
    hide Agree, Detect, Starved, At, After;
    if run == [] {
      InitAgrees(config, pair, now);
    } else {
      var m := |run| - 1;
      var init, x := run[..m], run[m];
      var only := Only(init, pair);
      assert run == init + [x];
      AppendArrival(config, init, x);
      AppendArrival(config, only, x);
      OrderedInPrefix(run, pair, now);
      Isolated(config, init, pair, if PairOf(x.pkt) == pair then x.now else now);
      var a, b := After(config, init), After(config, only);
      if PairOf(x.pkt) == pair {
        OwnPair(config, a, b, pair, x.pkt, x.now);
        AgreeLater(config, Detect(config, a, x.pkt, x.now).After(), Detect(config, b, x.pkt, x.now).After(), pair,
                   x.now, now);
        assert (only + [x])[..|only|] == only;
      } else {
        OtherPair(config, a, b, pair, x.pkt, x.now, now);
      }
    }
  }

  // When there is room for a pair: at none of its packets are more than 256 keys of a table live, and
  // never more than 256 keys of the alert map.
  lemma {:induction false} RoomEnough(config: Config, run: seq<Arrival>, pair: Pair)
    requires Timed(run) && Ordered(run) && PositiveWindows(config)
    requires forall port: u16 :: T.FewKeys(SynLog(config, run), Flow(pair.src, pair.dst, port), SynLimits(config))
    requires T.FewKeys(ScanLog(config, run), pair, ScanLimits(config))
    requires T.FewKeys(IcmpLog(config, run), pair, IcmpLimits(config))
    requires config.alertCooldown > 0 ==> C.FewCooling(AskLog(config, run), MAX_ALERT_HISTORY, config.alertCooldown)
    ensures RoomFor(config, run, pair)
  {
    hide At, T.HitAt, T.FewKeys, C.FewCooling;
    T.FewKeysNeverMiss(ScanLog(config, run), pair, ScanLimits(config));
    T.FewKeysNeverMiss(IcmpLog(config, run), pair, IcmpLimits(config));
    forall n | 0 <= n < |run| && PairOf(run[n].pkt) == pair
      ensures !Starved(config, run[n].pkt, run[n].now, At(config, run, n))
    {
      Answers(config, run, n);
      P.AtFires(config, run, n);
      T.FewKeysNeverMiss(SynLog(config, run), Flow(pair.src, pair.dst, run[n].pkt.dstPort), SynLimits(config));
      if config.alertCooldown > 0 {
        C.FewCoolingRecorded(AskLog(config, run), n, MAX_ALERT_HISTORY, config.alertCooldown);
      }
    }
  }

  // In a run with room for the packets of this pair, none of which comes after a packet with a later
  // time, deleting all packets of other pairs changes nothing of what is reported for it; and no packet
  // of the shorter run lacks room.
  lemma {:induction false} HostsDoNotInterfere(config: Config, run: seq<Arrival>, pair: Pair)
    requires Timed(run) && OrderedFor(run, pair) && RoomFor(config, run, pair)
    ensures ResultsFor(config, run, pair) == Results(config, Only(run, pair))
    ensures NeverStarved(config, Only(run, pair))
  {
    Isolated(config, run, pair, Latest(run));
  }

  ghost function Latest(run: seq<Arrival>): (now: int)
    ensures AllBy(run, now)
  {
    if run == [] then 0
    else
      var before, last := Latest(run[..|run| - 1]), run[|run| - 1].now;
      if before <= last then last else before
  }
}
