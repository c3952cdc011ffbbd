/** The alert cooldown: a fixed-size history of the last alert of each key, against an unbounded map
    from keys to last alert times. */
module Cooldown {
  import opened Options
  import opened Windows

  // An entry of the history is never taken out of use, only overwritten.
  datatype Cell<K> = Unused | Used(key: K, last: int)

  // One packet as the cooldown sees it: either no rule matched, or a rule asks to alert under `key`.
  datatype Ask<K> = NoAsk(now: int) | Ask(key: K, now: int)

  // `recorded` is false when an alert is emitted but finds no entry to be remembered in.
  datatype Verdict<K> = Verdict(cells: seq<Cell<K>>, emit: bool, recorded: bool)

  ghost predicate Keeps<K>(cell: Cell<K>, key: K) {
    cell.Used? && cell.key == key
  }

  ghost predicate Available<K>(cell: Cell<K>, now: int, cooldown: int) {
    cell.Used? ==> !Within(now, cell.last, cooldown)
  }

  // The first entry of `key`, or the number of entries.
  ghost function Find<K>(cells: seq<Cell<K>>, key: K): (i: nat)
    ensures i <= |cells|
    ensures i < |cells| ==> Keeps(cells[i], key)
    ensures forall j :: 0 <= j < i ==> !Keeps(cells[j], key)
  {
    if cells == [] || Keeps(cells[0], key) then 0 else 1 + Find(cells[1..], key)
  }

  // The first entry that may be overwritten, or the number of entries.
  ghost function FirstAvailable<K>(cells: seq<Cell<K>>, now: int, cooldown: int): (i: nat)
    ensures i <= |cells|
    ensures i < |cells| ==> Available(cells[i], now, cooldown)
    ensures forall j :: 0 <= j < i ==> !Available(cells[j], now, cooldown)
  {
    if cells == [] || Available(cells[0], now, cooldown) then 0 else 1 + FirstAvailable(cells[1..], now, cooldown)
  }

  // A cooldown of zero or less lets every alert through and remembers nothing.
  ghost function Decide<K>(cells: seq<Cell<K>>, ask: Ask<K>, cooldown: int): (r: Verdict<K>)
    ensures |r.cells| == |cells|
  {
    if ask.NoAsk? then Verdict(cells, false, true)
    else if cooldown <= 0 then Verdict(cells, true, true)
    else
      var at, free := Find(cells, ask.key), FirstAvailable(cells, ask.now, cooldown);
      if at < |cells| then
        if Within(ask.now, cells[at].last, cooldown) then Verdict(cells, false, true)
        else Verdict(cells[at := Used(ask.key, ask.now)], true, true)
      else if free < |cells| then Verdict(cells[free := Used(ask.key, ask.now)], true, true)
      else Verdict(cells, true, false)
  }

  lemma {:induction false} NoAskChangesNothing<K>(cells: seq<Cell<K>>, now: int, cooldown: int)
    ensures Decide(cells, NoAsk(now), cooldown) == Verdict(cells, false, true)
  {
  }

  // ---------- the view of one key ----------

  // The time of the last alert of `key`, if it still holds back alerts at `now`.
  ghost function Recent<K>(cells: seq<Cell<K>>, key: K, now: int, cooldown: int): Option<int> {
    var i := Find(cells, key);
    if i < |cells| && Within(now, cells[i].last, cooldown) then Some(cells[i].last) else None
  }

  // The keys in use are pairwise distinct and occupy the front of the history.
  ghost predicate WellKept<K>(cells: seq<Cell<K>>) {
    && (forall i, j :: 0 <= i < j < |cells| && cells[j].Used? ==> cells[i].Used?)
    && (forall i, j :: 0 <= i < j < |cells| && cells[i].Used? && cells[j].Used? ==> cells[i].key != cells[j].key)
  }

  lemma {:induction false} DecideWellKept<K>(cells: seq<Cell<K>>, ask: Ask<K>, cooldown: int)
    requires WellKept(cells)
    ensures WellKept(Decide(cells, ask, cooldown).cells)
  {
  }

  lemma {:induction false} KeptAt<K>(cells: seq<Cell<K>>, key: K, i: nat)
    requires WellKept(cells) && i < |cells| && Keeps(cells[i], key)
    ensures Find(cells, key) == i
  {
  }

  // Asking for one key leaves the view of every other key unchanged, even when an expired entry of
  // that other key is overwritten in place.
  lemma {:induction false} OthersUndisturbed<K>(cells: seq<Cell<K>>, ask: Ask<K>, key: K, cooldown: int)
    requires WellKept(cells) && (ask.Ask? ==> ask.key != key)
    ensures Recent(Decide(cells, ask, cooldown).cells, key, ask.now, cooldown) == Recent(cells, key, ask.now, cooldown)
  {
    var after := Decide(cells, ask, cooldown).cells;
    DecideWellKept(cells, ask, cooldown);
    var i := Find(cells, key);
    if i < |cells| && Keeps(after[i], key) {
      KeptAt(after, key, i);
    } else {
      assert forall j :: 0 <= j < |cells| ==> !Keeps(after[j], key);
    }
  }

  // The asked key itself: the alert goes out exactly when nothing recent holds it back.
  lemma {:induction false} OwnVerdict<K>(cells: seq<Cell<K>>, ask: Ask<K>, cooldown: int)
    requires WellKept(cells) && ask.Ask? && ask.now != 0 && cooldown > 0
    ensures var r := Decide(cells, ask, cooldown);
            var recent := Recent(cells, ask.key, ask.now, cooldown);
            && (r.emit <==> recent.None?)
            && Recent(r.cells, ask.key, ask.now, cooldown) ==
               if r.emit then (if r.recorded then Some(ask.now) else None) else recent
  {
    var r := Decide(cells, ask, cooldown);
    DecideWellKept(cells, ask, cooldown);
    var at, free := Find(cells, ask.key), FirstAvailable(cells, ask.now, cooldown);
    if at < |cells| {
      KeptAt(r.cells, ask.key, at);
    } else if free < |cells| {
      KeptAt(r.cells, ask.key, free);
    }
  }

  lemma {:induction false} RecentLater<K>(cells: seq<Cell<K>>, key: K, t1: int, t2: int, cooldown: int)
    requires t1 <= t2
    ensures Recent(cells, key, t2, cooldown) ==
            var r := Recent(cells, key, t1, cooldown);
            if r.Some? && Within(t2, r.value, cooldown) then r else None
  {
  }

  // ---------- what a history remembers, recent or not ----------

  ghost function Remembered<K>(cells: seq<Cell<K>>, key: K): Option<int> {
    var i := Find(cells, key);
    if i < |cells| then Some(cells[i].last) else None
  }

  // An ask for another key takes over the entry of `key`.
  ghost predicate Evicts<K>(cells: seq<Cell<K>>, ask: Ask<K>, key: K, cooldown: int) {
    && ask.Ask? && ask.key != key && cooldown > 0
    && Find(cells, ask.key) == |cells|
    && FirstAvailable(cells, ask.now, cooldown) == Find(cells, key) < |cells|
  }

  lemma {:induction false} OtherRemembered<K>(cells: seq<Cell<K>>, ask: Ask<K>, key: K, cooldown: int)
    requires WellKept(cells) && (ask.Ask? ==> ask.key != key)
    ensures Remembered(Decide(cells, ask, cooldown).cells, key) ==
            if Evicts(cells, ask, key, cooldown) then None else Remembered(cells, key)
  {
    var after := Decide(cells, ask, cooldown).cells;
    DecideWellKept(cells, ask, cooldown);
    var i := Find(cells, key);
    if i < |cells| && Keeps(after[i], key) {
      KeptAt(after, key, i);
    } else {
      assert forall j :: 0 <= j < |cells| ==> !Keeps(after[j], key);
    }
  }

  lemma {:induction false} OwnRemembered<K>(cells: seq<Cell<K>>, ask: Ask<K>, cooldown: int)
    requires WellKept(cells) && ask.Ask? && cooldown > 0
    ensures var r := Decide(cells, ask, cooldown);
            var before := Remembered(cells, ask.key);
            && (r.emit <==> before.None? || !Within(ask.now, before.value, cooldown))
            && Remembered(r.cells, ask.key) ==
               if r.emit then (if r.recorded then Some(ask.now) else None) else before
  {
    var r := Decide(cells, ask, cooldown);
    DecideWellKept(cells, ask, cooldown);
    var at, free := Find(cells, ask.key), FirstAvailable(cells, ask.now, cooldown);
    if at < |cells| {
      KeptAt(r.cells, ask.key, at);
    } else if free < |cells| {
      KeptAt(r.cells, ask.key, free);
    }
  }

  // Only an entry that is expired at the time of the ask is taken over.
  lemma {:induction false} EvictedExpired<K>(cells: seq<Cell<K>>, ask: Ask<K>, key: K, cooldown: int)
    requires Evicts(cells, ask, key, cooldown)
    ensures Remembered(cells, key).Some? && !Within(ask.now, Remembered(cells, key).value, cooldown)
  {
  }

  // The keys still cooling down in a history.
  ghost function Cooling<K>(cells: seq<Cell<K>>, now: int, cooldown: int): set<K> {
    set i | 0 <= i < |cells| && cells[i].Used? && Within(now, cells[i].last, cooldown) :: cells[i].key
  }

  lemma {:induction false} CoolingSize<K>(cells: seq<Cell<K>>, now: int, cooldown: int)
    ensures |Cooling(cells, now, cooldown)| <= |cells|
    ensures (exists i :: 0 <= i < |cells| && Available(cells[i], now, cooldown)) ==>
            |Cooling(cells, now, cooldown)| < |cells|
  {
    if cells == [] {
    } else {
      var init, last := cells[..|cells| - 1], cells[|cells| - 1];
      CoolingSize(init, now, cooldown);
      assert forall i :: 0 <= i < |init| ==> init[i] == cells[i];
      if Available(last, now, cooldown) {
        assert Cooling(cells, now, cooldown) == Cooling(init, now, cooldown);
      } else {
        assert Cooling(cells, now, cooldown) == Cooling(init, now, cooldown) + {last.key};
        if i :| 0 <= i < |cells| && Available(cells[i], now, cooldown) {
          assert Available(init[i], now, cooldown);
        }
      }
    }
  }

  // An alert is emitted without being recorded exactly when every entry belongs to another key that
  // is still cooling down.
  lemma {:induction false} UnrecordedWhenCrowded<K>(cells: seq<Cell<K>>, ask: Ask<K>, cooldown: int)
    requires ask.Ask? && cooldown > 0
    ensures !Decide(cells, ask, cooldown).recorded <==>
            forall i :: 0 <= i < |cells| ==>
              cells[i].Used? && cells[i].key != ask.key && Within(ask.now, cells[i].last, cooldown)
  {
  }
}

/** Whole runs of the cooldown. */
module CooldownRuns {
  import opened Options
  import opened Windows
  import opened Cooldown
  import opened SetSizes

  ghost function EmptyHistory<K>(size: nat): (r: seq<Cell<K>>)
    ensures |r| == size && forall i :: 0 <= i < size ==> r[i].Unused?
  {
    seq(size, i => Unused)
  }

  ghost function After<K>(asks: seq<Ask<K>>, size: nat, cooldown: int): (r: seq<Cell<K>>)
    ensures |r| == size
  {
    if asks == [] then EmptyHistory(size)
    else Decide(After(asks[..|asks| - 1], size, cooldown), asks[|asks| - 1], cooldown).cells
  }

  ghost function VerdictAt<K>(asks: seq<Ask<K>>, n: nat, size: nat, cooldown: int): Verdict<K>
    requires n < |asks|
  {
    Decide(After(asks[..n], size, cooldown), asks[n], cooldown)
  }

  ghost predicate Timed<K>(asks: seq<Ask<K>>) {
    forall i :: 0 <= i < |asks| ==> asks[i].now != 0
  }

  ghost predicate Ordered<K>(asks: seq<Ask<K>>) {
    forall i, j :: 0 <= i <= j < |asks| ==> asks[i].now <= asks[j].now
  }

  ghost predicate IsFor<K>(ask: Ask<K>, key: K) {
    ask.Ask? && ask.key == key
  }

  // The ideal: an unbounded map from keys to the time of their last alert.
  ghost function LastAlerts<K>(asks: seq<Ask<K>>, cooldown: int): map<K, int> {
    if asks == [] then map[]
    else
      var before, ask := LastAlerts(asks[..|asks| - 1], cooldown), asks[|asks| - 1];
      if ask.Ask? && MapAllows(before, ask, cooldown) then before[ask.key := ask.now] else before
  }

  ghost predicate MapAllows<K>(last: map<K, int>, ask: Ask<K>, cooldown: int) {
    ask.Ask? && (ask.key in last ==> !Within(ask.now, last[ask.key], cooldown))
  }

  ghost predicate AlwaysRecorded<K>(asks: seq<Ask<K>>, key: K, size: nat, cooldown: int) {
    forall n :: 0 <= n < |asks| && IsFor(asks[n], key) ==> VerdictAt(asks, n, size, cooldown).recorded
  }

  lemma {:induction false} VerdictInPrefix<K>(asks: seq<Ask<K>>, m: nat, n: nat, size: nat, cooldown: int)
    requires n < m <= |asks|
    ensures asks[..m][n] == asks[n] && VerdictAt(asks[..m], n, size, cooldown) == VerdictAt(asks, n, size, cooldown)
  {
    assert asks[..m][..n] == asks[..n];
  }

  lemma {:induction false} RecordedInPrefix<K>(asks: seq<Ask<K>>, m: nat, key: K, size: nat, cooldown: int)
    requires m <= |asks| && AlwaysRecorded(asks, key, size, cooldown)
    ensures AlwaysRecorded(asks[..m], key, size, cooldown)
  {
    forall n | 0 <= n < m && IsFor(asks[..m][n], key)
      ensures VerdictAt(asks[..m], n, size, cooldown).recorded
    {
      VerdictInPrefix(asks, m, n, size, cooldown);
    }
  }

  lemma {:induction false} AfterWellKept<K>(asks: seq<Ask<K>>, size: nat, cooldown: int)
    ensures WellKept(After(asks, size, cooldown))
  {
    if asks == [] {
    } else {
      AfterWellKept(asks[..|asks| - 1], size, cooldown);
      DecideWellKept(After(asks[..|asks| - 1], size, cooldown), asks[|asks| - 1], cooldown);
    }
  }

  // What the map still holds back at `now`.
  ghost function MapRecent<K>(last: map<K, int>, key: K, now: int, cooldown: int): Option<int> {
    if key in last && Within(now, last[key], cooldown) then Some(last[key]) else None
  }

  // With times in order, a key whose alerts were all recorded is seen alike by the history and by
  // the map.
  lemma {:induction false} HistoryIsMap<K>(asks: seq<Ask<K>>, key: K, size: nat, cooldown: int, now: int)
    requires Timed(asks) && Ordered(asks) && cooldown > 0 && AlwaysRecorded(asks, key, size, cooldown)
    requires asks != [] ==> asks[|asks| - 1].now <= now
    ensures Recent(After(asks, size, cooldown), key, now, cooldown) ==
            MapRecent(LastAlerts(asks, cooldown), key, now, cooldown)
  {
    if asks == [] {
      assert Find(After(asks, size, cooldown), key) == size;
    } else {
      var m := |asks| - 1;
      var ask, cells := asks[m], After(asks[..m], size, cooldown);
      AfterWellKept(asks[..m], size, cooldown);
      RecordedInPrefix(asks, m, key, size, cooldown);
      HistoryIsMap(asks[..m], key, size, cooldown, ask.now);
      RecentLater(After(asks, size, cooldown), key, ask.now, now, cooldown);
      if IsFor(ask, key) {
        OwnVerdict(cells, ask, cooldown);
        assert VerdictAt(asks, m, size, cooldown).recorded;
      } else {
        OthersUndisturbed(cells, ask, key, cooldown);
      }
    }
  }

  // ---------- when the history is large enough ----------

  ghost function CoolingKeys<K>(last: map<K, int>, now: int, cooldown: int): set<K> {
    set k | k in last && Within(now, last[k], cooldown)
  }

  // At every ask, no more than `size` keys of the map are cooling down just after it.
  ghost predicate FewCooling<K>(asks: seq<Ask<K>>, size: nat, cooldown: int) {
    forall n :: 0 <= n < |asks| && asks[n].Ask? ==>
      |CoolingKeys(LastAlerts(asks[..n + 1], cooldown), asks[n].now, cooldown)| <= size
  }

  ghost function UsedKeys<K>(cells: seq<Cell<K>>): set<K> {
    set i | 0 <= i < |cells| && cells[i].Used? :: cells[i].key
  }

  lemma {:induction false} UsedKeysSize<K>(cells: seq<Cell<K>>)
    requires WellKept(cells) && forall i :: 0 <= i < |cells| ==> cells[i].Used?
    ensures |UsedKeys(cells)| == |cells|
  {
    if cells == [] {
    } else {
      var init, last := cells[..|cells| - 1], cells[|cells| - 1];
      UsedKeysSize(init);
      assert forall i :: 0 <= i < |init| ==> init[i] == cells[i];
      assert UsedKeys(cells) == UsedKeys(init) + {last.key};
    }
  }

  // A history that no more than `size` keys are cooling down in records every alert.
  lemma {:induction false} FewCoolingRecorded<K>(asks: seq<Ask<K>>, n: nat, size: nat, cooldown: int)
    requires Timed(asks) && Ordered(asks) && cooldown > 0 && FewCooling(asks, size, cooldown)
    requires n < |asks|
    ensures VerdictAt(asks, n, size, cooldown).recorded
    decreases n
  {
    if asks[n].Ask? && !VerdictAt(asks, n, size, cooldown).recorded {
      var ask, cells, last := asks[n], After(asks[..n], size, cooldown), LastAlerts(asks[..n], cooldown);
      AfterWellKept(asks[..n], size, cooldown);
      UnrecordedWhenCrowded(cells, ask, cooldown);
      UsedKeysSize(cells);
      forall k
        ensures Recent(cells, k, ask.now, cooldown) == MapRecent(last, k, ask.now, cooldown)
      {
        forall m | 0 <= m < n && IsFor(asks[..n][m], k)
          ensures VerdictAt(asks[..n], m, size, cooldown).recorded
        {
          FewCoolingRecorded(asks, m, size, cooldown);
          VerdictInPrefix(asks, n, m, size, cooldown);
        }
        HistoryIsMap(asks[..n], k, size, cooldown, ask.now);
      }
      CoolingNext(asks, n, cooldown);
      CrowdedMap(cells, ask, last, cooldown);
    }
  }

  // Every alert is recorded exactly when the map never has more than `size` keys cooling down.
  lemma {:induction false} RecordedIffFewCooling<K>(asks: seq<Ask<K>>, size: nat, cooldown: int)
    requires Timed(asks) && Ordered(asks) && cooldown > 0
    ensures (forall n :: 0 <= n < |asks| ==> VerdictAt(asks, n, size, cooldown).recorded) <==>
            FewCooling(asks, size, cooldown)
  {
    if FewCooling(asks, size, cooldown) {
      forall n | 0 <= n < |asks|
        ensures VerdictAt(asks, n, size, cooldown).recorded
      {
        FewCoolingRecorded(asks, n, size, cooldown);
      }
    }
    if forall n :: 0 <= n < |asks| ==> VerdictAt(asks, n, size, cooldown).recorded {
      forall n | 0 <= n < |asks| && asks[n].Ask?
        ensures |CoolingKeys(LastAlerts(asks[..n + 1], cooldown), asks[n].now, cooldown)| <= size
      {
        RecordedFewCooling(asks, n, size, cooldown);
      }
    }
  }

  lemma {:induction false} RecordedFewCooling<K>(asks: seq<Ask<K>>, n: nat, size: nat, cooldown: int)
    requires Timed(asks) && Ordered(asks) && cooldown > 0 && n < |asks|
    requires forall m :: 0 <= m < |asks| ==> VerdictAt(asks, m, size, cooldown).recorded
    ensures |CoolingKeys(LastAlerts(asks[..n + 1], cooldown), asks[n].now, cooldown)| <= size
  {
    var prefix, now := asks[..n + 1], asks[n].now;
    var cells, last := After(prefix, size, cooldown), LastAlerts(prefix, cooldown);
    forall k | k in CoolingKeys(last, now, cooldown)
      ensures k in Cooling(cells, now, cooldown)
    {
      RecordedInPrefix(asks, n + 1, k, size, cooldown);
      HistoryIsMap(prefix, k, size, cooldown, now);
      assert cells[Find(cells, k)].key == k;
    }
    CoolingSize(cells, now, cooldown);
    SubsetSize(CoolingKeys(last, now, cooldown), Cooling(cells, now, cooldown));
  }

  // Whatever it answers, an ask leaves its own key cooling down.
  lemma {:induction false} CoolingNext<K>(asks: seq<Ask<K>>, n: nat, cooldown: int)
    requires Timed(asks) && cooldown > 0 && n < |asks| && asks[n].Ask?
    ensures CoolingKeys(LastAlerts(asks[..n + 1], cooldown), asks[n].now, cooldown) ==
            CoolingKeys(LastAlerts(asks[..n], cooldown), asks[n].now, cooldown) + {asks[n].key}
  {
    assert asks[..n + 1][..n] == asks[..n];
  }

  lemma {:induction false} CrowdedMap<K>(cells: seq<Cell<K>>, ask: Ask<K>, last: map<K, int>, cooldown: int)
    requires WellKept(cells) && ask.Ask?
    requires forall i :: 0 <= i < |cells| ==>
               cells[i].Used? && cells[i].key != ask.key && Within(ask.now, cells[i].last, cooldown)
    requires forall k :: Recent(cells, k, ask.now, cooldown) == MapRecent(last, k, ask.now, cooldown)
    ensures |CoolingKeys(last, ask.now, cooldown) + {ask.key}| > |cells|
  {
    UsedKeysSize(cells);
    var used, cooling := UsedKeys(cells), CoolingKeys(last, ask.now, cooldown);
    forall k | k in used
      ensures k in cooling
    {
      var i :| 0 <= i < |cells| && Keeps(cells[i], k);
      KeptAt(cells, k, i);
      assert MapRecent(last, k, ask.now, cooldown).Some?;
    }
    assert cooling == used + (cooling - used);
    assert Find(cells, ask.key) == |cells|;
    assert MapRecent(last, ask.key, ask.now, cooldown).None?;
  }

  // ---------- what becomes of one alert ----------

  ghost predicate EmitsAt<K>(asks: seq<Ask<K>>, n: nat, key: K, size: nat, cooldown: int)
    requires n < |asks|
  {
    IsFor(asks[n], key) && VerdictAt(asks, n, size, cooldown).emit
  }

  // No alert of `key` among asks[i..j].
  ghost predicate NoAlerts<K>(asks: seq<Ask<K>>, key: K, i: nat, j: nat, size: nat, cooldown: int)
    requires j <= |asks|
  {
    forall n :: i <= n < j ==> !EmitsAt(asks, n, key, size, cooldown)
  }

  // The n-th ask takes over the entry of `key`.
  ghost predicate EvictedAt<K>(asks: seq<Ask<K>>, n: nat, key: K, size: nat, cooldown: int)
    requires n < |asks|
  {
    Evicts(After(asks[..n], size, cooldown), asks[n], key, cooldown)
  }

  // The i-th ask was recorded, and its entry has not been taken over before the j-th.
  ghost predicate Held<K>(asks: seq<Ask<K>>, key: K, i: nat, j: nat, size: nat, cooldown: int)
    requires i < j <= |asks|
  {
    && VerdictAt(asks, i, size, cooldown).recorded
    && forall n :: i < n < j ==> !EvictedAt(asks, n, key, size, cooldown)
  }

  lemma {:induction false} AfterNext<K>(asks: seq<Ask<K>>, n: nat, size: nat, cooldown: int)
    requires n < |asks|
    ensures After(asks[..n + 1], size, cooldown) == VerdictAt(asks, n, size, cooldown).cells
  {
    assert asks[..n + 1][..n] == asks[..n];
  }

  lemma {:induction false} HeldNext<K>(asks: seq<Ask<K>>, key: K, i: nat, m: nat, size: nat, cooldown: int)
    requires i < m < |asks|
    ensures Held(asks, key, i, m + 1, size, cooldown) <==>
            Held(asks, key, i, m, size, cooldown) && !EvictedAt(asks, m, key, size, cooldown)
  {
    hide VerdictAt, EvictedAt;
  }

  // The history remembers the last alert of a key as long as it is held.
  lemma {:induction false} RememberedLast<K>(asks: seq<Ask<K>>, key: K, i: nat, j: nat, size: nat, cooldown: int)
    requires cooldown > 0 && i < j <= |asks|
    requires EmitsAt(asks, i, key, size, cooldown) && NoAlerts(asks, key, i + 1, j, size, cooldown)
    ensures Remembered(After(asks[..j], size, cooldown), key) ==
            if Held(asks, key, i, j, size, cooldown) then Some(asks[i].now) else None
    decreases j
  {
    hide Remembered, Decide, Evicts;
    var m := j - 1;
    var cells := After(asks[..m], size, cooldown);
    AfterNext(asks, m, size, cooldown);
    AfterWellKept(asks[..m], size, cooldown);
    if m > i {
      RememberedLast(asks, key, i, m, size, cooldown);
      HeldNext(asks, key, i, m, size, cooldown);
    }
    assert EmitsAt(asks, m, key, size, cooldown) <==> m == i;
    if IsFor(asks[m], key) {
      OwnRemembered(cells, asks[m], cooldown);
      NotEvictedByItself(cells, asks[m], cooldown);
    } else {
      OtherRemembered(cells, asks[m], key, cooldown);
    }
  }

  lemma {:induction false} NotEvictedByItself<K>(cells: seq<Cell<K>>, ask: Ask<K>, cooldown: int)
    requires ask.Ask?
    ensures !Evicts(cells, ask, ask.key, cooldown)
  {
  }

  lemma {:induction false} NothingRemembered<K>(asks: seq<Ask<K>>, key: K, j: nat, size: nat, cooldown: int)
    requires cooldown > 0 && j <= |asks| && NoAlerts(asks, key, 0, j, size, cooldown)
    ensures Remembered(After(asks[..j], size, cooldown), key) == None
    decreases j
  {
    if j == 0 {
      assert asks[..0] == [];
      assert Find(After(asks[..0], size, cooldown), key) == size;
    } else {
      hide Remembered, Decide, Evicts;
      var m := j - 1;
      var cells := After(asks[..m], size, cooldown);
      AfterNext(asks, m, size, cooldown);
      AfterWellKept(asks[..m], size, cooldown);
      NothingRemembered(asks, key, m, size, cooldown);
      assert !EmitsAt(asks, m, key, size, cooldown);
      if IsFor(asks[m], key) {
        OwnRemembered(cells, asks[m], cooldown);
      } else {
        OtherRemembered(cells, asks[m], key, cooldown);
      }
    }
  }

  // What an alert does to the asks of its key before the next alert: it holds an ask back if and only
  // if it was recorded, its entry was not taken over, and the ask comes within the cooldown.  Nothing
  // is assumed about the order of times.
  lemma {:induction false} NextAskDecided<K>(asks: seq<Ask<K>>, key: K, i: nat, j: nat, size: nat, cooldown: int)
    requires Timed(asks) && cooldown > 0 && i < j < |asks| && IsFor(asks[j], key)
    requires EmitsAt(asks, i, key, size, cooldown) && NoAlerts(asks, key, i + 1, j, size, cooldown)
    ensures EmitsAt(asks, j, key, size, cooldown) <==>
            !Held(asks, key, i, j, size, cooldown) || asks[j].now - asks[i].now > cooldown
  {
    hide Remembered, Decide, Held;
    RememberedLast(asks, key, i, j, size, cooldown);
    AfterWellKept(asks[..j], size, cooldown);
    OwnRemembered(After(asks[..j], size, cooldown), asks[j], cooldown);
  }

  // A key that has not alerted yet alerts when it asks.
  lemma {:induction false} FirstAskEmits<K>(asks: seq<Ask<K>>, key: K, j: nat, size: nat, cooldown: int)
    requires cooldown > 0 && j < |asks| && IsFor(asks[j], key) && NoAlerts(asks, key, 0, j, size, cooldown)
    ensures EmitsAt(asks, j, key, size, cooldown)
  {
    hide Remembered, Decide;
    NothingRemembered(asks, key, j, size, cooldown);
    AfterWellKept(asks[..j], size, cooldown);
    OwnRemembered(After(asks[..j], size, cooldown), asks[j], cooldown);
  }

  // ---------- exactly when the cooldown holds ----------

  // Any two alerts of `key` are more than the cooldown apart.
  ghost predicate CooldownHolds<K>(asks: seq<Ask<K>>, key: K, size: nat, cooldown: int) {
    forall i, j :: 0 <= i < j < |asks| && (EmitsAt(asks, i, key, size, cooldown) &&
                                           EmitsAt(asks, j, key, size, cooldown)) ==>
      asks[j].now - asks[i].now > cooldown
  }

  // The last alert of `key` before the j-th ask is the i-th ask and no longer held, and `key` asks
  // again within the cooldown.
  ghost predicate Forgotten<K>(asks: seq<Ask<K>>, key: K, i: nat, j: nat, size: nat, cooldown: int) {
    && i < j < |asks| && IsFor(asks[j], key) && asks[j].now - asks[i].now <= cooldown
    && EmitsAt(asks, i, key, size, cooldown) && NoAlerts(asks, key, i + 1, j, size, cooldown)
    && !Held(asks, key, i, j, size, cooldown)
  }

  ghost predicate NeverForgotten<K>(asks: seq<Ask<K>>, key: K, size: nat, cooldown: int) {
    forall i: nat, j: nat :: !Forgotten(asks, key, i, j, size, cooldown)
  }

  ghost function NextAlert<K>(asks: seq<Ask<K>>, key: K, i: nat, size: nat, cooldown: int): (n: nat)
    requires i <= |asks|
    ensures i <= n <= |asks| && NoAlerts(asks, key, i, n, size, cooldown)
    ensures n < |asks| ==> EmitsAt(asks, n, key, size, cooldown)
    decreases |asks| - i
  {
    if i == |asks| || EmitsAt(asks, i, key, size, cooldown) then i else NextAlert(asks, key, i + 1, size, cooldown)
  }

  // Of two alerts that are too close, one was forgotten.
  lemma {:induction false} RepeatIsForgotten<K>(asks: seq<Ask<K>>, key: K, i: nat, j: nat, size: nat, cooldown: int)
    requires Timed(asks) && cooldown > 0 && i < j < |asks| && asks[j].now - asks[i].now <= cooldown
    requires EmitsAt(asks, i, key, size, cooldown) && EmitsAt(asks, j, key, size, cooldown)
    ensures !NeverForgotten(asks, key, size, cooldown)
    decreases j - i
  {
    hide VerdictAt, Held;
    var n := NextAlert(asks, key, i + 1, size, cooldown);
    assert n <= j;
    if asks[n].now - asks[i].now <= cooldown {
      NextAskDecided(asks, key, i, n, size, cooldown);
      assert Forgotten(asks, key, i, n, size, cooldown);
    } else {
      RepeatIsForgotten(asks, key, n, j, size, cooldown);
    }
  }

  lemma {:induction false} ForgottenRepeats<K>(asks: seq<Ask<K>>, key: K, i: nat, j: nat, size: nat, cooldown: int)
    requires Timed(asks) && cooldown > 0 && Forgotten(asks, key, i, j, size, cooldown)
    ensures EmitsAt(asks, j, key, size, cooldown) && !CooldownHolds(asks, key, size, cooldown)
  {
    hide VerdictAt, Held;
    NextAskDecided(asks, key, i, j, size, cooldown);
  }

  // The cooldown of a key holds if and only if none of its alerts is forgotten, unrecorded or taken
  // over, before its key asks again within the cooldown.  Times may be in any order.
  lemma {:induction false} CooldownHoldsExactly<K>(asks: seq<Ask<K>>, key: K, size: nat, cooldown: int)
    requires Timed(asks) && cooldown > 0
    ensures CooldownHolds(asks, key, size, cooldown) <==> NeverForgotten(asks, key, size, cooldown)
  {
    hide EmitsAt, Forgotten;
    if !NeverForgotten(asks, key, size, cooldown) {
      var i: nat, j: nat :| Forgotten(asks, key, i, j, size, cooldown);
      ForgottenRepeats(asks, key, i, j, size, cooldown);
    }
    if !CooldownHolds(asks, key, size, cooldown) {
      var i, j :| 0 <= i < j < |asks| && EmitsAt(asks, i, key, size, cooldown) &&
        EmitsAt(asks, j, key, size, cooldown) &&
                  asks[j].now - asks[i].now <= cooldown;
      RepeatIsForgotten(asks, key, i, j, size, cooldown);
    }
  }

  // ---------- exactly when a key is answered as by the map ----------

  ghost predicate AgreesAt<K>(asks: seq<Ask<K>>, n: nat, key: K, size: nat, cooldown: int)
    requires n < |asks|
  {
    IsFor(asks[n], key) ==>
      (VerdictAt(asks, n, size, cooldown).emit <==> MapAllows(LastAlerts(asks[..n], cooldown), asks[n], cooldown))
  }

  ghost predicate FollowsMap<K>(asks: seq<Ask<K>>, key: K, size: nat, cooldown: int) {
    forall n :: 0 <= n < |asks| ==> AgreesAt(asks, n, key, size, cooldown)
  }

  // While history and map agree on a key, the map holds the last alert of that key.
  lemma {:induction false} MapHoldsLast<K>(asks: seq<Ask<K>>, key: K, i: nat, j: nat, size: nat, cooldown: int)
    requires i < j <= |asks| && forall n :: 0 <= n < j ==> AgreesAt(asks, n, key, size, cooldown)
    requires EmitsAt(asks, i, key, size, cooldown) && NoAlerts(asks, key, i + 1, j, size, cooldown)
    ensures key in LastAlerts(asks[..j], cooldown) && LastAlerts(asks[..j], cooldown)[key] == asks[i].now
    decreases j
  {
    hide VerdictAt;
    var m := j - 1;
    assert asks[..j][..m] == asks[..m];
    if m > i {
      MapHoldsLast(asks, key, i, m, size, cooldown);
    }
    assert AgreesAt(asks, m, key, size, cooldown) && (EmitsAt(asks, m, key, size, cooldown) <==> m == i);
  }

  lemma {:induction false} MapHoldsNone<K>(asks: seq<Ask<K>>, key: K, j: nat, size: nat, cooldown: int)
    requires j <= |asks| && forall n :: 0 <= n < j ==> AgreesAt(asks, n, key, size, cooldown)
    requires NoAlerts(asks, key, 0, j, size, cooldown)
    ensures key !in LastAlerts(asks[..j], cooldown)
    decreases j
  {
    hide VerdictAt;
    if j == 0 {
    } else {
      var m := j - 1;
      assert asks[..j][..m] == asks[..m];
      MapHoldsNone(asks, key, m, size, cooldown);
      assert AgreesAt(asks, m, key, size, cooldown) && !EmitsAt(asks, m, key, size, cooldown);
    }
  }

  ghost function LastAlert<K>(asks: seq<Ask<K>>, key: K, j: nat, size: nat, cooldown: int): (i: Option<nat>)
    requires j <= |asks|
    ensures i.None? ==> NoAlerts(asks, key, 0, j, size, cooldown)
    ensures i.Some? ==> i.value < j && EmitsAt(asks, i.value, key, size, cooldown) &&
                        NoAlerts(asks, key, i.value + 1, j, size, cooldown)
  {
    if j == 0 then None
    else if EmitsAt(asks, j - 1, key, size, cooldown) then Some(j - 1)
    else LastAlert(asks, key, j - 1, size, cooldown)
  }

  lemma {:induction false} AgreesUpTo<K>(asks: seq<Ask<K>>, key: K, j: nat, size: nat, cooldown: int)
    requires Timed(asks) && cooldown > 0 && NeverForgotten(asks, key, size, cooldown) && j <= |asks|
    ensures forall n :: 0 <= n < j ==> AgreesAt(asks, n, key, size, cooldown)
  {
    hide VerdictAt, Held, LastAlerts, LastAlert;
    if j == 0 {
    } else {
      var m := j - 1;
      AgreesUpTo(asks, key, m, size, cooldown);
      var last := LastAlert(asks, key, m, size, cooldown);
      if IsFor(asks[m], key) {
        if last.Some? {
          MapHoldsLast(asks, key, last.value, m, size, cooldown);
          NextAskDecided(asks, key, last.value, m, size, cooldown);
          assert !Forgotten(asks, key, last.value, m, size, cooldown);
        } else {
          MapHoldsNone(asks, key, m, size, cooldown);
          FirstAskEmits(asks, key, m, size, cooldown);
        }
      }
    }
  }

  // The history answers every ask of a key as the unbounded map does if and only if none of its alerts
  // is forgotten, again for times in any order.
  lemma {:induction false} FollowsMapExactly<K>(asks: seq<Ask<K>>, key: K, size: nat, cooldown: int)
    requires Timed(asks) && cooldown > 0
    ensures FollowsMap(asks, key, size, cooldown) <==> NeverForgotten(asks, key, size, cooldown)
  {
    hide AgreesAt, Forgotten;
    if NeverForgotten(asks, key, size, cooldown) {
      AgreesUpTo(asks, key, |asks|, size, cooldown);
    } else {
      var i: nat, j: nat :| Forgotten(asks, key, i, j, size, cooldown);
      ForgottenDisagrees(asks, key, i, j, size, cooldown);
    }
  }

  lemma {:induction false} ForgottenDisagrees<K>(asks: seq<Ask<K>>, key: K, i: nat, j: nat, size: nat, cooldown: int)
    requires Timed(asks) && cooldown > 0 && Forgotten(asks, key, i, j, size, cooldown)
    ensures !FollowsMap(asks, key, size, cooldown)
  {
    hide VerdictAt, Held, LastAlerts;
    ForgottenRepeats(asks, key, i, j, size, cooldown);
    assert AgreesAt(asks, j, key, size, cooldown) ==> MapAllows(LastAlerts(asks[..j], cooldown), asks[j], cooldown);
    if FollowsMap(asks, key, size, cooldown) {
      MapHoldsLast(asks, key, i, j, size, cooldown);
    }
  }

  // ---------- when no alert is forgotten ----------

  // No ask for another key comes with a time at which an alert of `key` is expired that still holds
  // back a later ask of `key`.
  ghost predicate Undisturbed<K>(asks: seq<Ask<K>>, key: K, cooldown: int) {
    forall i, m, j :: 0 <= i < m < j < |asks| && IsFor(asks[i], key) && IsOther(asks[m], key) && IsFor(asks[j], key) ==>
      Within(asks[j].now, asks[i].now, cooldown) ==> Within(asks[m].now, asks[i].now, cooldown)
  }

  ghost predicate IsOther<K>(ask: Ask<K>, key: K) {
    ask.Ask? && ask.key != key
  }

  // No ask before one for `key` carries a later time; asks for other keys may be in any order.
  ghost predicate OrderedFor<K>(asks: seq<Ask<K>>, key: K) {
    forall i, j :: 0 <= i <= j < |asks| && asks[i].Ask? && IsFor(asks[j], key) ==> asks[i].now <= asks[j].now
  }

  lemma {:induction false} OrderedIsUndisturbed<K>(asks: seq<Ask<K>>, key: K, cooldown: int)
    requires OrderedFor(asks, key)
    ensures Undisturbed(asks, key, cooldown)
  {
  }

  // The first ask after the i-th that takes over the entry of `key`, or the j-th.
  ghost function FirstEviction<K>(asks: seq<Ask<K>>, key: K, i: nat, j: nat, size: nat, cooldown: int): (n: nat)
    requires i <= j <= |asks|
    ensures i <= n <= j && forall m :: i <= m < n ==> !EvictedAt(asks, m, key, size, cooldown)
    ensures n < j ==> EvictedAt(asks, n, key, size, cooldown)
    decreases j - i
  {
    if i == j || EvictedAt(asks, i, key, size, cooldown) then i else FirstEviction(asks, key, i + 1, j, size, cooldown)
  }

  // An undisturbed key whose alerts were all recorded never has one forgotten.
  lemma {:induction false} RecordedNotForgotten<K>(asks: seq<Ask<K>>, key: K, size: nat, cooldown: int)
    requires Timed(asks) && cooldown > 0 && AlwaysRecorded(asks, key, size, cooldown) &&
             Undisturbed(asks, key, cooldown)
    ensures NeverForgotten(asks, key, size, cooldown)
  {
    hide AlwaysRecorded, Undisturbed, Forgotten;
    if i: nat, j: nat :| Forgotten(asks, key, i, j, size, cooldown) {
      RecordedHeld(asks, key, i, j, size, cooldown);
    }
  }

  lemma {:induction false} RecordedHeld<K>(asks: seq<Ask<K>>, key: K, i: nat, j: nat, size: nat, cooldown: int)
    requires Timed(asks) && cooldown > 0 && AlwaysRecorded(asks, key, size, cooldown) &&
             Undisturbed(asks, key, cooldown)
    ensures !Forgotten(asks, key, i, j, size, cooldown)
  {
    hide VerdictAt, Remembered, Evicts;
    if Forgotten(asks, key, i, j, size, cooldown) {
      var m := FirstEviction(asks, key, i + 1, j, size, cooldown);
      assert m < j;
      RememberedLast(asks, key, i, m, size, cooldown);
      EvictedExpired(After(asks[..m], size, cooldown), asks[m], key, cooldown);
      EvictedByOther(After(asks[..m], size, cooldown), asks[m], key, cooldown);
    }
  }

  lemma {:induction false} EvictedByOther<K>(cells: seq<Cell<K>>, ask: Ask<K>, key: K, cooldown: int)
    requires Evicts(cells, ask, key, cooldown)
    ensures IsOther(ask, key)
  {
  }

  // Cooldown refinement, key by key: an undisturbed key that is always recorded is answered as by the
  // map.
  lemma {:induction false} CooldownIsMap<K>(asks: seq<Ask<K>>, n: nat, size: nat, cooldown: int)
    requires Timed(asks) && cooldown > 0 && n < |asks| && asks[n].Ask?
    requires AlwaysRecorded(asks, asks[n].key, size, cooldown) && Undisturbed(asks, asks[n].key, cooldown)
    ensures VerdictAt(asks, n, size, cooldown).emit <==> MapAllows(LastAlerts(asks[..n], cooldown), asks[n], cooldown)
  {
    hide VerdictAt, NeverForgotten, AlwaysRecorded, Undisturbed, LastAlerts, MapAllows;
    RecordedNotForgotten(asks, asks[n].key, size, cooldown);
    FollowsMapExactly(asks, asks[n].key, size, cooldown);
    assert AgreesAt(asks, n, asks[n].key, size, cooldown);
  }

  // Cooldown refinement: with times in order and never more than `size` cooling keys, the history
  // answers every ask as the unbounded map does.
  lemma {:induction false} CooldownRefinesMap<K>(asks: seq<Ask<K>>, n: nat, size: nat, cooldown: int)
    requires Timed(asks) && Ordered(asks) && cooldown > 0 && FewCooling(asks, size, cooldown)
    requires n < |asks| && asks[n].Ask?
    ensures VerdictAt(asks, n, size, cooldown).emit <==> MapAllows(LastAlerts(asks[..n], cooldown), asks[n], cooldown)
  {
    hide FewCooling;
    forall m | 0 <= m < |asks|
      ensures VerdictAt(asks, m, size, cooldown).recorded
    {
      FewCoolingRecorded(asks, m, size, cooldown);
    }
    OrderedIsUndisturbed(asks, asks[n].key, cooldown);
    CooldownIsMap(asks, n, size, cooldown);
  }

  // Two alerts of an undisturbed key that is always recorded are more than the cooldown apart.
  lemma {:induction false} AlertsApart<K>(asks: seq<Ask<K>>, key: K, i: nat, j: nat, size: nat, cooldown: int)
    requires Timed(asks) && cooldown > 0 && AlwaysRecorded(asks, key, size, cooldown) &&
             Undisturbed(asks, key, cooldown)
    requires i < j < |asks| && EmitsAt(asks, i, key, size, cooldown) && EmitsAt(asks, j, key, size, cooldown)
    ensures asks[j].now - asks[i].now > cooldown
  {
    hide EmitsAt, NeverForgotten, AlwaysRecorded, Undisturbed;
    RecordedNotForgotten(asks, key, size, cooldown);
    CooldownHoldsExactly(asks, key, size, cooldown);
  }

  // ---------- how often one key can alert ----------

  // How many alerts of `key` go out among asks[i..j].
  ghost function Alerts<K>(asks: seq<Ask<K>>, key: K, i: nat, j: nat, size: nat, cooldown: int): nat
    requires i <= j <= |asks|
  {
    if i == j then 0
    else Alerts(asks, key, i, j - 1, size, cooldown) + if EmitsAt(asks, j - 1, key, size, cooldown) then 1 else 0
  }

  // The least number of seconds that n alerts of one key take.
  ghost function Least(n: nat, cooldown: int): int {
    if n <= 1 then 0 else Least(n - 1, cooldown) + cooldown + 1
  }

  lemma {:induction false} LeastIsProduct(n: nat, cooldown: int)
    requires n >= 1
    ensures Least(n, cooldown) == (n - 1) * (cooldown + 1)
  {
    if n == 1 {
    } else {
      LeastIsProduct(n - 1, cooldown);
    }
  }

  // Every ask of `key` among asks[i..j] lies in the `span` seconds from `start`.
  ghost predicate AsksWithin<K>(asks: seq<Ask<K>>, key: K, i: nat, j: nat, start: int, span: int)
    requires j <= |asks|
  {
    forall m :: i <= m < j && IsFor(asks[m], key) ==> start <= asks[m].now <= start + span
  }

  lemma {:induction false} AlertsSpread<K>(asks: seq<Ask<K>>, key: K, i: nat, j: nat, start: int, span: int, size: nat,
                                           cooldown: int) returns (m: nat)
    requires CooldownHolds(asks, key, size, cooldown) && i <= j <= |asks| && AsksWithin(asks, key, i, j, start, span)
    requires Alerts(asks, key, i, j, size, cooldown) >= 1
    ensures i <= m < j && EmitsAt(asks, m, key, size, cooldown)
    ensures Least(Alerts(asks, key, i, j, size, cooldown), cooldown) <= asks[m].now - start
    decreases j
  {
    hide VerdictAt;
    if !EmitsAt(asks, j - 1, key, size, cooldown) {
      m := AlertsSpread(asks, key, i, j - 1, start, span, size, cooldown);
    } else {
      m := j - 1;
      if Alerts(asks, key, i, j, size, cooldown) >= 2 {
        var earlier := AlertsSpread(asks, key, i, j - 1, start, span, size, cooldown);
        assert asks[m].now - asks[earlier].now > cooldown;
      }
    }
  }

  // Alert-rate bound: if no alert of a key is forgotten, its asks within `span` whole seconds raise at
  // most 1 + span / (cooldown + 1) alerts.
  lemma {:induction false} AlertRate<K>(asks: seq<Ask<K>>, key: K, i: nat, j: nat, start: int, span: nat, size: nat,
                                        cooldown: int)
    requires Timed(asks) && cooldown > 0 && NeverForgotten(asks, key, size, cooldown)
    requires i <= j <= |asks| && AsksWithin(asks, key, i, j, start, span)
    ensures Alerts(asks, key, i, j, size, cooldown) <= 1 + span / (cooldown + 1)
  {
    hide NeverForgotten, VerdictAt;
    var n := Alerts(asks, key, i, j, size, cooldown);
    CooldownHoldsExactly(asks, key, size, cooldown);
    if n >= 1 {
      var m := AlertsSpread(asks, key, i, j, start, span, size, cooldown);
      LeastIsProduct(n, cooldown);
      DivideBound(n - 1, cooldown + 1, span);
    }
  }

  lemma {:induction false} DivideBound(q: nat, d: int, n: nat)
    requires d > 0 && q * d <= n
    ensures q <= n / d
  {
    var k := n / d;
    assert q > k ==> q * d >= (k + 1) * d;
  }

  // ---------- a crowded history ----------

  // All keys ask once at one time, and the last of them asks twice.
  ghost function Crowd<K>(keys: seq<K>, now: int): (asks: seq<Ask<K>>)
    requires keys != []
    ensures |asks| == |keys| + 1
    ensures forall i :: 0 <= i < |keys| ==> asks[i] == Ask(keys[i], now)
    ensures asks[|keys|] == Ask(keys[|keys| - 1], now)
  {
    seq(|keys|, i requires 0 <= i < |keys| => Ask(keys[i], now)) + [Ask(keys[|keys| - 1], now)]
  }

  ghost predicate Distinct<K>(keys: seq<K>) {
    forall i, j :: 0 <= i < j < |keys| ==> keys[i] != keys[j]
  }

  // The first n entries hold the first n keys, all used at one time, and the rest is unused.
  ghost predicate FilledTo<K>(cells: seq<Cell<K>>, keys: seq<K>, n: nat, now: int) {
    && n <= |cells| <= |keys|
    && (forall i :: 0 <= i < n ==> cells[i] == Used(keys[i], now))
    && (forall i :: n <= i < |cells| ==> cells[i].Unused?)
  }

  lemma {:induction false} NextEntry<K>(cells: seq<Cell<K>>, keys: seq<K>, n: nat, now: int, cooldown: int)
    requires Distinct(keys) && n < |cells| && FilledTo(cells, keys, n, now) && now != 0 && cooldown > 0
    ensures FilledTo(Decide(cells, Ask(keys[n], now), cooldown).cells, keys, n + 1, now)
  {
    assert Find(cells, keys[n]) == |cells|;
    assert Available(cells[n], now, cooldown);
    assert FirstAvailable(cells, now, cooldown) == n;
  }

  // The first `size` keys of a crowd take the entries of the history one after the other.
  lemma {:induction false} CrowdFills<K>(keys: seq<K>, now: int, n: nat, size: nat, cooldown: int)
    requires Distinct(keys) && n <= size < |keys| && now != 0 && cooldown > 0
    ensures FilledTo(After(Crowd(keys, now)[..n], size, cooldown), keys, n, now)
  {
    if n == 0 {
    } else {
      hide Decide, FilledTo, Distinct;
      CrowdFills(keys, now, n - 1, size, cooldown);
      AfterNext(Crowd(keys, now), n - 1, size, cooldown);
      NextEntry(After(Crowd(keys, now)[..n - 1], size, cooldown), keys, n - 1, now, cooldown);
    }
  }

  // The last key of a crowd alerts without being recorded.
  lemma {:induction false} CrowdOverflows<K>(keys: seq<K>, now: int, cooldown: int)
    requires Distinct(keys) && keys != [] && now != 0 && cooldown > 0
    ensures var v := VerdictAt(Crowd(keys, now), |keys| - 1, |keys| - 1, cooldown);
            v.emit && !v.recorded
  {
    var asks, size := Crowd(keys, now), |keys| - 1;
    var cells := After(asks[..size], size, cooldown);
    CrowdFills(keys, now, size, size, cooldown);
    assert Find(cells, keys[size]) == size;
    assert FirstAvailable(cells, now, cooldown) == size;
  }

  // In a full history the cooldown fails: one key more than there are entries, all asking at one
  // time, and the last of them alerts twice at that time.
  lemma {:induction false} AlertsTwice<K>(keys: seq<K>, now: int, cooldown: int)
    requires Distinct(keys) && keys != [] && now != 0 && cooldown > 0
    ensures Timed(Crowd(keys, now)) && Ordered(Crowd(keys, now))
    ensures EmitsAt(Crowd(keys, now), |keys| - 1, keys[|keys| - 1], |keys| - 1, cooldown)
    ensures EmitsAt(Crowd(keys, now), |keys|, keys[|keys| - 1], |keys| - 1, cooldown)
    ensures !FewCooling(Crowd(keys, now), |keys| - 1, cooldown)
  {
    hide VerdictAt, FewCooling;
    var asks, key, size := Crowd(keys, now), keys[|keys| - 1], |keys| - 1;
    CrowdOverflows(keys, now, cooldown);
    assert !Held(asks, key, size, size + 1, size, cooldown);
    NextAskDecided(asks, key, size, size + 1, size, cooldown);
    RecordedIffFewCooling(asks, size, cooldown);
  }

  // ---------- a disordered history ----------

  // Key `a` asks, then `b` when the alert of `a` is expired, then `a` again at its first time.
  ghost function Disordered<K>(a: K, b: K, t: int, cooldown: int): seq<Ask<K>> {
    [Ask(a, t), Ask(b, t + cooldown + 1), Ask(a, t)]
  }

  // Times out of order break the cooldown in a history of any size: `b` takes over the entry of `a`,
  // and `a` alerts twice at one time although every alert is recorded.
  lemma {:induction false} DisorderAlertsTwice<K>(a: K, b: K, t: int, size: nat, cooldown: int)
    requires a != b && t > 0 && cooldown > 0 && size >= 2
    ensures var asks := Disordered(a, b, t, cooldown);
            && Timed(asks) && EmitsAt(asks, 0, a, size, cooldown) && EmitsAt(asks, 2, a, size, cooldown)
            && forall n :: 0 <= n < |asks| ==> VerdictAt(asks, n, size, cooldown).recorded
  {
    hide Decide, Available;
    var asks, later := Disordered(a, b, t, cooldown), t + cooldown + 1;
    var none, one, two := After(asks[..0], size, cooldown), After(asks[..1], size, cooldown),
                          After(asks[..2], size, cooldown);
    assert none == EmptyHistory(size);
    FreshEntry(none, 0, t, cooldown);
    TakesEntry(none, a, t, 0, cooldown);
    AfterNext(asks, 0, size, cooldown);
    UsedEntry(one, 0, later, cooldown);
    TakesEntry(one, b, later, 0, cooldown);
    AfterNext(asks, 1, size, cooldown);
    UsedEntry(two, 0, t, cooldown);
    FreshEntry(two, 1, t, cooldown);
    TakesEntry(two, a, t, 1, cooldown);
  }

  lemma {:induction false} FreshEntry<K>(cells: seq<Cell<K>>, i: nat, now: int, cooldown: int)
    requires i < |cells| && cells[i].Unused?
    ensures Available(cells[i], now, cooldown)
  {
  }

  lemma {:induction false} UsedEntry<K>(cells: seq<Cell<K>>, i: nat, now: int, cooldown: int)
    requires i < |cells| && cells[i].Used?
    ensures Available(cells[i], now, cooldown) <==> !Within(now, cells[i].last, cooldown)
  {
  }

  // A key of which there is no entry takes the first available one.
  lemma {:induction false} TakesEntry<K>(cells: seq<Cell<K>>, key: K, now: int, i: nat, cooldown: int)
    requires cooldown > 0 && i < |cells| && Available(cells[i], now, cooldown)
    requires forall j :: 0 <= j < |cells| ==> !Keeps(cells[j], key)
    requires forall j :: 0 <= j < i ==> !Available(cells[j], now, cooldown)
    ensures Decide(cells, Ask(key, now), cooldown) == Verdict(cells[i := Used(key, now)], true, true)
  {
    assert Find(cells, key) == |cells| && FirstAvailable(cells, now, cooldown) == i;
  }

  // ---------- soundness of suppression, whatever the order of times ----------

  ghost predicate Emitted<K>(asks: seq<Ask<K>>, key: K, time: int, size: nat, cooldown: int) {
    exists m :: 0 <= m < |asks| && EmitsAt(asks, m, key, size, cooldown) && asks[m].now == time
  }

  lemma {:induction false} CellsEmitted<K>(asks: seq<Ask<K>>, size: nat, cooldown: int)
    ensures forall i :: 0 <= i < size && After(asks, size, cooldown)[i].Used? ==>
              Emitted(asks, After(asks, size, cooldown)[i].key, After(asks, size, cooldown)[i].last, size, cooldown)
  {
    if asks == [] {
    } else {
      var m := |asks| - 1;
      var before, after := After(asks[..m], size, cooldown), After(asks, size, cooldown);
      CellsEmitted(asks[..m], size, cooldown);
      forall i | 0 <= i < size && after[i].Used?
        ensures Emitted(asks, after[i].key, after[i].last, size, cooldown)
      {
        if after[i] != before[i] {
          assert EmitsAt(asks, m, after[i].key, size, cooldown);
        } else {
          var k :| 0 <= k < m && EmitsAt(asks[..m], k, after[i].key, size, cooldown) &&
            asks[..m][k].now == after[i].last;
          VerdictInPrefix(asks, m, k, size, cooldown);
          assert EmitsAt(asks, k, after[i].key, size, cooldown);
        }
      }
    }
  }

  // An ask is only held back if an alert of the same key really went out, no more than the cooldown
  // before it.
  lemma {:induction false} SuppressionSound<K>(asks: seq<Ask<K>>, n: nat, size: nat, cooldown: int)
    requires n < |asks| && asks[n].Ask? && !VerdictAt(asks, n, size, cooldown).emit
    ensures exists m :: 0 <= m < n && EmitsAt(asks, m, asks[n].key, size, cooldown) &&
                        asks[n].now - asks[m].now <= cooldown
  {
    var cells := After(asks[..n], size, cooldown);
    var at := Find(cells, asks[n].key);
    CellsEmitted(asks[..n], size, cooldown);
    var m :| 0 <= m < n && EmitsAt(asks[..n], m, cells[at].key, size, cooldown) && asks[..n][m].now == cells[at].last;
    VerdictInPrefix(asks, n, m, size, cooldown);
    assert EmitsAt(asks, m, asks[n].key, size, cooldown);
  }
}
