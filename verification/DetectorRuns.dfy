/** Whole runs of the detector: each table and the alert history is a run over the log of what the
    packets ask of it, so what is proved of table runs and cooldown runs holds of the rules. */
module DetectorRuns {
  import opened Options
  import opened Packets
  import opened Settings
  import opened Slots
  import opened Cooldown
  import opened DetectorSpec
  import T = TableRuns
  import C = CooldownRuns

  // A packet together with the non-zero time the detector takes it to have arrived at.
  datatype Arrival = Arrival(pkt: PacketInfo, now: int)

  ghost function Init(): State {
    State(T.EmptyTable(MAX_TRACKED_HOSTS), T.EmptyTable(MAX_TRACKED_HOSTS), T.EmptyTable(MAX_TRACKED_HOSTS),
          C.EmptyHistory(MAX_ALERT_HISTORY))
  }

  ghost function After(config: Config, run: seq<Arrival>): State {
    if run == [] then Init() else At(config, run, |run| - 1).After()
  }

  // What the detector does with the n-th arrival.
  ghost function At(config: Config, run: seq<Arrival>, n: nat): Outcome
    requires n < |run|
    decreases n, 1
  {
    Detect(config, if n == 0 then Init() else At(config, run, n - 1).After(), run[n].pkt, run[n].now)
  }

  ghost predicate Timed(run: seq<Arrival>) {
    forall i :: 0 <= i < |run| ==> run[i].now != 0
  }

  ghost predicate Ordered(run: seq<Arrival>) {
    forall i, j :: 0 <= i <= j < |run| ==> run[i].now <= run[j].now
  }

  // ---------- the logs the tables and the history see ----------

  ghost function SynLog(config: Config, run: seq<Arrival>): (r: seq<Offer<Flow>>)
    ensures |r| == |run|
    ensures forall i :: 0 <= i < |run| ==> r[i] == SynOffer(config, run[i].pkt, run[i].now)
  {
    seq(|run|, i requires 0 <= i < |run| => SynOffer(config, run[i].pkt, run[i].now))
  }

  ghost function ScanOfferAt(config: Config, run: seq<Arrival>, n: nat): Offer<Pair>
    requires n < |run|
  {
    ScanOffer(config, run[n].pkt, run[n].now, At(config, run, n).fired == Some(SynFlood))
  }

  ghost function ScanLog(config: Config, run: seq<Arrival>): (r: seq<Offer<Pair>>)
    ensures |r| == |run|
    ensures forall i :: 0 <= i < |run| ==> r[i] == ScanOfferAt(config, run, i)
  {
    seq(|run|, i requires 0 <= i < |run| => ScanOfferAt(config, run, i))
  }

  ghost function IcmpLog(config: Config, run: seq<Arrival>): (r: seq<Offer<Pair>>)
    ensures |r| == |run|
    ensures forall i :: 0 <= i < |run| ==> r[i] == IcmpOffer(config, run[i].pkt, run[i].now)
  {
    seq(|run|, i requires 0 <= i < |run| => IcmpOffer(config, run[i].pkt, run[i].now))
  }

  ghost function AskAt(config: Config, run: seq<Arrival>, n: nat): Ask<AlertKey>
    requires n < |run|
  {
    AskFor(At(config, run, n).fired, run[n].pkt, run[n].now)
  }

  ghost function AskLog(config: Config, run: seq<Arrival>): (r: seq<Ask<AlertKey>>)
    ensures |r| == |run|
    ensures forall i :: 0 <= i < |run| ==> r[i] == AskAt(config, run, i)
  {
    seq(|run|, i requires 0 <= i < |run| => AskAt(config, run, i))
  }

  lemma {:induction false} AtInPrefix(config: Config, run: seq<Arrival>, m: nat, n: nat)
    requires n < m <= |run|
    ensures At(config, run[..m], n) == At(config, run, n)
    decreases n
  {
    hide Detect;
    if n == 0 {
    } else {
      AtInPrefix(config, run, m, n - 1);
    }
  }

  lemma {:induction false} LogPrefixes(config: Config, run: seq<Arrival>, m: nat)
    requires m <= |run|
    ensures SynLog(config, run[..m]) == SynLog(config, run)[..m]
    ensures ScanLog(config, run[..m]) == ScanLog(config, run)[..m]
    ensures IcmpLog(config, run[..m]) == IcmpLog(config, run)[..m]
    ensures AskLog(config, run[..m]) == AskLog(config, run)[..m]
  {
    forall i | 0 <= i < m
      ensures ScanOfferAt(config, run[..m], i) == ScanOfferAt(config, run, i)
      ensures AskAt(config, run[..m], i) == AskAt(config, run, i)
    {
      AtInPrefix(config, run, m, i);
    }
  }

  // The state after a run is that of four independent runs over the four logs.
  ghost predicate Projects(config: Config, run: seq<Arrival>) {
    && After(config, run).syn == T.After(SynLog(config, run), SynLimits(config))
    && After(config, run).scan == T.After(ScanLog(config, run), ScanLimits(config))
    && After(config, run).icmp == T.After(IcmpLog(config, run), IcmpLimits(config))
    && After(config, run).history == C.After(AskLog(config, run), MAX_ALERT_HISTORY, config.alertCooldown)
  }

  lemma {:induction false} AtState(config: Config, run: seq<Arrival>, n: nat)
    requires n < |run|
    ensures At(config, run, n) == Detect(config, After(config, run[..n]), run[n].pkt, run[n].now)
    ensures After(config, run[..n + 1]) == At(config, run, n).After()
  {
    hide Detect;
    AtInPrefix(config, run, n + 1, n);
    if n > 0 {
      AtInPrefix(config, run, n, n - 1);
    }
  }

  lemma {:induction false} RunProjects(config: Config, run: seq<Arrival>)
    ensures Projects(config, run)
  {
    hide Detect, Observe, Decide;
    if run == [] {
    } else {
      var m := |run| - 1;
      RunProjects(config, run[..m]);
      LogPrefixes(config, run, m);
      AtState(config, run, m);
      DetectParts(config, After(config, run[..m]), run[m].pkt, run[m].now);
      assert run[..m + 1] == run;
    }
  }

  // What each table and the history answers at the n-th arrival.
  lemma {:induction false} Answers(config: Config, run: seq<Arrival>, n: nat)
    requires n < |run|
    ensures At(config, run, n).syn.hit == T.HitAt(SynLog(config, run), n, SynLimits(config))
    ensures At(config, run, n).scan.hit == T.HitAt(ScanLog(config, run), n, ScanLimits(config))
    ensures At(config, run, n).icmp.hit == T.HitAt(IcmpLog(config, run), n, IcmpLimits(config))
    ensures At(config, run, n).verdict == C.VerdictAt(AskLog(config, run), n, MAX_ALERT_HISTORY, config.alertCooldown)
  {
    hide Detect, Observe, Decide;
    RunProjects(config, run[..n]);
    LogPrefixes(config, run, n);
    AtState(config, run, n);
    DetectParts(config, After(config, run[..n]), run[n].pkt, run[n].now);
  }
}
