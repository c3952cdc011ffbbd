/** Whole runs of one tracking table, related to the unbounded log of the packets offered to it.

    Nothing here bounds the log: a table has a fixed number of slots and entries, is compacted lazily
    and reuses slots, and the theorems say when none of that can be seen from outside, and what still
    holds when it can. */
module TableRuns {
  import opened Options
  import opened Windows
  import opened Slots
  import opened SetSizes

  // ---------- runs ----------

  ghost function EmptyTable<K>(hosts: nat): (r: seq<Slot<K>>)
    ensures |r| == hosts && forall i :: 0 <= i < hosts ==> r[i].Free?
  {
    seq(hosts, i => Free)
  }

  ghost function After<K>(log: seq<Offer<K>>, limits: Limits): (r: seq<Slot<K>>)
    ensures |r| == limits.hosts
  {
    if log == [] then EmptyTable(limits.hosts)
    else Observe(After(log[..|log| - 1], limits), log[|log| - 1], limits).slots
  }

  // What the n-th offer is answered: the entries of its key after remembering it, or nothing when it
  // found no slot.
  ghost function HitAt<K>(log: seq<Offer<K>>, n: nat, limits: Limits): Option<seq<Entry>>
    requires n < |log|
  {
    Observe(After(log[..n], limits), log[n], limits).hit
  }

  ghost predicate Timed<K>(log: seq<Offer<K>>) {
    forall i :: 0 <= i < |log| ==> log[i].now != 0
  }

  ghost predicate Ordered<K>(log: seq<Offer<K>>) {
    forall i, j :: 0 <= i <= j < |log| ==> log[i].now <= log[j].now
  }

  ghost predicate Positive(limits: Limits) {
    limits.depth > 0 && limits.window > 0
  }

  ghost predicate IsOf<K>(offer: Offer<K>, key: K) {
    offer.Offer? && offer.key == key
  }

  ghost predicate EventsOnly<K>(log: seq<Offer<K>>) {
    forall i :: 0 <= i < |log| && log[i].Offer? ==> log[i].mark == Hit
  }

  ghost predicate PortsOnly<K>(log: seq<Offer<K>>) {
    forall i :: 0 <= i < |log| && log[i].Offer? ==> log[i].mark.Port?
  }

  // ---------- the log seen through the window ----------

  ghost function Count<K>(log: seq<Offer<K>>, key: K, now: int, window: int): nat {
    if log == [] then 0
    else
      var last := log[|log| - 1];
      Count(log[..|log| - 1], key, now, window) + if IsOf(last, key) && Within(now, last.now, window) then 1 else 0
  }

  ghost function LivePorts<K>(log: seq<Offer<K>>, key: K, now: int, window: int): set<nat> {
    set i | 0 <= i < |log| && IsOf(log[i], key) && log[i].mark.Port? && Within(now, log[i].now, window) ::
      log[i].mark.port
  }

  ghost function LiveKeys<K>(log: seq<Offer<K>>, now: int, window: int): set<K> {
    set i | 0 <= i < |log| && log[i].Offer? && Within(now, log[i].now, window) :: log[i].key
  }

  ghost function LastContact<K>(log: seq<Offer<K>>, key: K, port: nat): Option<int> {
    if log == [] then None
    else
      var last := log[|log| - 1];
      if IsOf(last, key) && last.mark == Port(port) then Some(last.now)
      else LastContact(log[..|log| - 1], key, port)
  }

  // ---------- one key on its own, in a table with no other keys ----------

  ghost function Own<K>(log: seq<Offer<K>>, key: K, limits: Limits): seq<Entry> {
    if log == [] then []
    else
      var before := Own(log[..|log| - 1], key, limits);
      var last := log[|log| - 1];
      if IsOf(last, key) then Remember(Keep(before, last.now, limits.window), last.mark, last.now, limits.depth)
      else before
  }

  ghost predicate NeverMissed<K>(log: seq<Offer<K>>, key: K, limits: Limits) {
    forall n :: 0 <= n < |log| && IsOf(log[n], key) ==> HitAt(log, n, limits).Some?
  }

  // ---------- prefixes ----------

  lemma {:induction false} HitInPrefix<K>(log: seq<Offer<K>>, m: nat, n: nat, limits: Limits)
    requires n < m <= |log|
    ensures log[..m][n] == log[n] && HitAt(log[..m], n, limits) == HitAt(log, n, limits)
  {
    assert log[..m][..n] == log[..n];
  }

  lemma {:induction false} AfterNext<K>(log: seq<Offer<K>>, n: nat, limits: Limits)
    requires n < |log|
    ensures After(log[..n + 1], limits) == Observe(After(log[..n], limits), log[n], limits).slots
  {
    assert log[..n + 1][..n] == log[..n];
  }

  lemma {:induction false} NeverMissedInPrefix<K>(log: seq<Offer<K>>, m: nat, key: K, limits: Limits)
    requires m <= |log| && NeverMissed(log, key, limits)
    ensures NeverMissed(log[..m], key, limits)
  {
    forall n | 0 <= n < m && IsOf(log[n], key)
      ensures HitAt(log[..m], n, limits).Some?
    {
      HitInPrefix(log, m, n, limits);
    }
  }

  // ---------- the invariant of every reachable table ----------

  lemma {:induction false} AfterWellFormed<K>(log: seq<Offer<K>>, limits: Limits)
    requires Timed(log) && limits.depth > 0
    ensures WellFormed(After(log, limits), limits)
  {
    if log == [] {
    } else {
      AfterWellFormed(log[..|log| - 1], limits);
      ObserveWellFormed(After(log[..|log| - 1], limits), log[|log| - 1], limits);
    }
  }

  // Every entry a table carries was put there by an offer of the slot's own key.
  ghost predicate Justified<K>(log: seq<Offer<K>>, key: K, e: Entry) {
    exists i :: 0 <= i < |log| && IsOf(log[i], key) && log[i].mark == e.mark && log[i].now == e.seen
  }

  lemma {:induction false} JustifiedLater<K>(log: seq<Offer<K>>, m: nat, key: K, e: Entry)
    requires m <= |log| && Justified(log[..m], key, e)
    ensures Justified(log, key, e)
  {
  }

  // One offer adds at most itself to what is stored of a key.
  lemma {:induction false} StoredBefore<K>(slots: seq<Slot<K>>, offer: Offer<K>, key: K, e: Entry, limits: Limits)
    requires DistinctKeys(slots) && e in Raw(Observe(slots, offer, limits).slots, key)
    ensures e in Raw(slots, key) || (IsOf(offer, key) && e == Entry(offer.mark, offer.now))
  {
    if IsOf(offer, key) {
      OwnKey(slots, offer, limits);
    } else {
      RawStep(slots, offer, key, limits);
    }
    KeepMember(Raw(slots, key), offer.now, limits.window, e);
  }

  lemma {:induction false} EntriesJustified<K>(log: seq<Offer<K>>, key: K, limits: Limits)
    requires Timed(log) && limits.depth > 0
    ensures forall e :: e in Raw(After(log, limits), key) ==> Justified(log, key, e)
  {
    if log == [] {
    } else {
      hide Observe, Raw;
      var m := |log| - 1;
      AfterWellFormed(log[..m], limits);
      EntriesJustified(log[..m], key, limits);
      forall e | e in Raw(After(log, limits), key)
        ensures Justified(log, key, e)
      {
        StoredBefore(After(log[..m], limits), log[m], key, e, limits);
        if e in Raw(After(log[..m], limits), key) {
          JustifiedLater(log, m, key, e);
        } else {
          assert IsOf(log[m], key);
        }
      }
    }
  }

  // The stored entries of a key that is not being looked up either stay or are compacted.
  lemma {:induction false} RawStep<K>(slots: seq<Slot<K>>, offer: Offer<K>, key: K, limits: Limits)
    requires DistinctKeys(slots) && !IsOf(offer, key)
    ensures var raw := Raw(Observe(slots, offer, limits).slots, key);
            raw == Raw(slots, key) || raw == Keep(Raw(slots, key), offer.now, limits.window)
  {
    if offer.Offer? {
      var after := Observe(slots, offer, limits).slots;
      ObserveDistinct(slots, offer, limits);
      var i := IndexOf(after, key);
      if i < |slots| {
        ObserveSlot(slots, offer, limits, i);
        HeldAt(slots, key, i);
      } else {
        var j := IndexOf(slots, key);
        if j < |slots| {
          ObserveSlot(slots, offer, limits, j);
        }
      }
    }
  }

  // ---------- when a lookup can fail ----------

  ghost function KeySet<K>(slots: seq<Slot<K>>): set<K> {
    set i | 0 <= i < |slots| && slots[i].Live? :: slots[i].key
  }

  lemma {:induction false} KeySetSize<K>(slots: seq<Slot<K>>)
    ensures |KeySet(slots)| <= |slots|
    ensures DistinctKeys(slots) && (forall i :: 0 <= i < |slots| ==> slots[i].Live?) ==> |KeySet(slots)| == |slots|
    ensures (exists i :: 0 <= i < |slots| && slots[i].Free?) ==> |KeySet(slots)| < |slots|
  {
    if slots == [] {
    } else {
      var init, last := slots[..|slots| - 1], slots[|slots| - 1];
      KeySetSize(init);
      assert forall i :: 0 <= i < |init| ==> init[i] == slots[i];
      if last.Free? {
        assert KeySet(slots) == KeySet(init);
      } else {
        assert KeySet(slots) == KeySet(init) + {last.key};
        if i :| 0 <= i < |slots| && slots[i].Free? {
          assert init[i].Free?;
        }
      }
    }
  }

  // What a table holds live of a key was offered inside the window.
  lemma {:induction false} LiveIsOffered<K>(log: seq<Offer<K>>, key: K, now: int, e: Entry, limits: Limits)
    requires Timed(log) && limits.depth > 0 && e in Stored(After(log, limits), key, now, limits.window)
    ensures key in LiveKeys(log, now, limits.window)
  {
    KeepMember(Raw(After(log, limits), key), now, limits.window, e);
    EntriesJustified(log, key, limits);
    assert Justified(log, key, e);
  }

  // An offer finds no slot only if at least `hosts` other keys had an offer inside the window.  This
  // needs no ordering of times.
  lemma {:induction false} MissNeedsCrowd<K>(log: seq<Offer<K>>, n: nat, limits: Limits)
    requires Timed(log) && Positive(limits) && n < |log| && log[n].Offer?
    requires HitAt(log, n, limits).None?
    ensures |LiveKeys(log[..n], log[n].now, limits.window) - {log[n].key}| >= limits.hosts
  {
    hide After, LiveKeys;
    var offer, slots := log[n], After(log[..n], limits);
    AfterWellFormed(log[..n], limits);
    LookupFailsWhenCrowded(slots, offer.key, offer.now, limits.window);
    KeySetSize(slots);
    var live := LiveKeys(log[..n], offer.now, limits.window) - {offer.key};
    forall k | k in KeySet(slots)
      ensures k in live
    {
      var i :| 0 <= i < |slots| && Holds(slots[i], k);
      HeldAt(slots, k, i);
      LiveIsOffered(log[..n], k, offer.now, Keep(slots[i].entries, offer.now, limits.window)[0], limits);
    }
    SubsetSize(KeySet(slots), live);
  }

  // Room for a key at each of its offers: no more than `hosts` keys, its own included, have an offer
  // inside the window.
  ghost predicate FewKeys<K>(log: seq<Offer<K>>, key: K, limits: Limits) {
    forall n :: 0 <= n < |log| && IsOf(log[n], key) ==>
      |LiveKeys(log[..n + 1], log[n].now, limits.window)| <= limits.hosts
  }

  lemma {:induction false} FewKeysNeverMiss<K>(log: seq<Offer<K>>, key: K, limits: Limits)
    requires Timed(log) && Positive(limits) && FewKeys(log, key, limits)
    ensures NeverMissed(log, key, limits)
  {
    forall n | 0 <= n < |log| && IsOf(log[n], key)
      ensures HitAt(log, n, limits).Some?
    {
      if HitAt(log, n, limits).None? {
        MissNeedsCrowd(log, n, limits);
        var now, window := log[n].now, limits.window;
        var others := LiveKeys(log[..n], now, window) - {key};
        var all := LiveKeys(log[..n + 1], now, window);
        assert all >= others + {key} by {
          assert log[..n + 1][n] == log[n];
          assert forall i :: 0 <= i < n ==> log[..n + 1][i] == log[..n][i];
        }
        SubsetSize(others + {key}, all);
      }
    }
  }

  // ---------- sharing slots is invisible ----------

  // No offer of another key comes with a time at which something of `key` is expired that is still
  // live at `now`.
  ghost predicate Spared<K>(log: seq<Offer<K>>, key: K, now: int, window: int) {
    forall m, i :: 0 <= m < i < |log| && IsOf(log[m], key) && IsOther(log[i], key) ==>
      Within(now, log[m].now, window) ==> Within(log[i].now, log[m].now, window)
  }

  ghost predicate IsOther<K>(offer: Offer<K>, key: K) {
    offer.Offer? && offer.key != key
  }

  // What is live at an offer of `key` was not expired by an offer of another key before it.
  ghost predicate Undisturbed<K>(log: seq<Offer<K>>, key: K, window: int) {
    forall n :: 0 <= n < |log| && IsOf(log[n], key) ==> Spared(log[..n], key, log[n].now, window)
  }

  // The offers of `key` are in order among themselves.
  ghost predicate OwnOrdered<K>(log: seq<Offer<K>>, key: K) {
    forall i, j :: 0 <= i <= j < |log| && IsOf(log[i], key) && IsOf(log[j], key) ==> log[i].now <= log[j].now
  }

  ghost predicate Steady<K>(log: seq<Offer<K>>, key: K, window: int) {
    OwnOrdered(log, key) && Undisturbed(log, key, window)
  }

  // No offer before one of `key` carries a later time; offers of other keys may be in any order among
  // themselves.
  ghost predicate OrderedFor<K>(log: seq<Offer<K>>, key: K) {
    forall i, j :: 0 <= i <= j < |log| && log[i].Offer? && IsOf(log[j], key) ==> log[i].now <= log[j].now
  }

  lemma {:induction false} OrderedIsSteady<K>(log: seq<Offer<K>>, key: K, window: int)
    requires OrderedFor(log, key)
    ensures Steady(log, key, window)
  {
    forall n | 0 <= n < |log| && IsOf(log[n], key)
      ensures Spared(log[..n], key, log[n].now, window)
    {
      assert forall i :: 0 <= i < n ==> log[..n][i] == log[i];
    }
  }

  lemma {:induction false} UndisturbedInPrefix<K>(log: seq<Offer<K>>, m: nat, key: K, window: int)
    requires m <= |log| && Undisturbed(log, key, window)
    ensures Undisturbed(log[..m], key, window)
  {
    forall n | 0 <= n < m && IsOf(log[..m][n], key)
      ensures Spared(log[..m][..n], key, log[..m][n].now, window)
    {
      assert log[..m][..n] == log[..n];
    }
  }

  // Compacting at a time that spares what is live at `now` cannot be seen at `now`.
  lemma {:induction false} KeepSpared(entries: seq<Entry>, t: int, now: int, window: int)
    requires forall e :: e in entries && Within(now, e.seen, window) ==> Within(t, e.seen, window)
    ensures Keep(Keep(entries, t, window), now, window) == Keep(entries, now, window)
  {
    if entries == [] {
    } else {
      var init, last := entries[..|entries| - 1], entries[|entries| - 1];
      KeepSpared(init, t, now, window);
      if Within(t, last.seen, window) {
        var kept := Keep(entries, t, window);
        assert kept[..|kept| - 1] == Keep(init, t, window);
      }
    }
  }

  // An offer of another key that spares what is live at `now` leaves the view from `now` unchanged.
  lemma {:induction false} OtherSpares<K>(log: seq<Offer<K>>, key: K, limits: Limits, now: int)
    requires Timed(log) && limits.depth > 0 && log != [] && !IsOf(log[|log| - 1], key)
    requires Spared(log, key, now, limits.window)
    ensures Stored(After(log, limits), key, now, limits.window) ==
            Stored(After(log[..|log| - 1], limits), key, now, limits.window)
  {
    var m := |log| - 1;
    var offer, before := log[m], After(log[..m], limits);
    if offer.Skip? {
      SkipChangesNothing(before, offer.now, limits);
    } else {
      AfterWellFormed(log[..m], limits);
      RawStep(before, offer, key, limits);
      EntriesJustified(log[..m], key, limits);
      forall e | e in Raw(before, key) && Within(now, e.seen, limits.window)
        ensures Within(offer.now, e.seen, limits.window)
      {
        var i :| 0 <= i < m && IsOf(log[..m][i], key) && log[..m][i].now == e.seen;
        assert IsOf(log[i], key) && IsOther(log[m], key);
      }
      KeepSpared(Raw(before, key), offer.now, now, limits.window);
    }
  }

  // A key that is never disturbed and whose lookups all found a slot sees exactly what it would see
  // in a table of its own, although slots are shared, reclaimed and compacted lazily.
  lemma {:induction false} SharingInvisible<K>(log: seq<Offer<K>>, key: K, limits: Limits, now: int)
    requires Timed(log) && limits.depth > 0 && NeverMissed(log, key, limits)
    requires Undisturbed(log, key, limits.window) && Spared(log, key, now, limits.window)
    ensures Stored(After(log, limits), key, now, limits.window) == Keep(Own(log, key, limits), now, limits.window)
  {
    hide Stored;
    if log == [] {
      EmptyStored(key, limits, now);
    } else {
      var m := |log| - 1;
      var offer, before := log[m], After(log[..m], limits);
      AfterWellFormed(log[..m], limits);
      NeverMissedInPrefix(log, m, key, limits);
      UndisturbedInPrefix(log, m, key, limits.window);
      if IsOf(offer, key) {
        SharingInvisible(log[..m], key, limits, offer.now);
        OwnKey(before, offer, limits);
        assert HitAt(log, m, limits).Some?;
        StoredIsKept(After(log, limits), key, now, limits.window);
      } else {
        SharingInvisible(log[..m], key, limits, now) by {
          assert forall i :: 0 <= i < m ==> log[..m][i] == log[i];
        }
        OtherSpares(log, key, limits, now);
      }
    }
  }

  lemma {:induction false} StoredIsKept<K>(slots: seq<Slot<K>>, key: K, now: int, window: int)
    ensures Stored(slots, key, now, window) == Keep(Raw(slots, key), now, window)
  {
  }

  lemma {:induction false} EmptyStored<K>(key: K, limits: Limits, now: int)
    ensures Stored(After([], limits), key, now, limits.window) == []
  {
    NotHeld(EmptyTable(limits.hosts), key);
  }

  lemma {:induction false} HitIsOwn<K>(log: seq<Offer<K>>, n: nat, limits: Limits)
    requires Timed(log) && limits.depth > 0 && n < |log| && log[n].Offer?
    requires NeverMissed(log, log[n].key, limits) && Undisturbed(log, log[n].key, limits.window)
    ensures HitAt(log, n, limits) == Some(Own(log[..n + 1], log[n].key, limits))
  {
    var key := log[n].key;
    AfterWellFormed(log[..n], limits);
    NeverMissedInPrefix(log, n, key, limits);
    UndisturbedInPrefix(log, n, key, limits.window);
    assert IsOf(log[n], key);
    SharingInvisible(log[..n], key, limits, log[n].now);
    OwnKey(After(log[..n], limits), log[n], limits);
    OwnNext(log, n, key, limits);
  }

  lemma {:induction false} OwnNext<K>(log: seq<Offer<K>>, n: nat, key: K, limits: Limits)
    requires n < |log|
    ensures Own(log[..n + 1], key, limits) ==
            var before := Own(log[..n], key, limits);
            if IsOf(log[n], key) then Remember(Keep(before, log[n].now, limits.window), log[n].mark, log[n].now,
                                               limits.depth)
            else before
  {
    assert log[..n + 1][..n] == log[..n];
  }

  // ---------- flood tables count the log ----------

  // No offer of `key` has more than `depth` offers of that key inside the window.
  ghost predicate Unsaturated<K>(log: seq<Offer<K>>, key: K, limits: Limits) {
    forall n :: 0 <= n < |log| && IsOf(log[n], key) ==>
      Count(log[..n + 1], key, log[n].now, limits.window) <= limits.depth
  }

  lemma {:induction false} UnsaturatedInPrefix<K>(log: seq<Offer<K>>, m: nat, key: K, limits: Limits)
    requires m <= |log| && Unsaturated(log, key, limits)
    ensures Unsaturated(log[..m], key, limits)
  {
    forall n | 0 <= n < m && IsOf(log[..m][n], key)
      ensures Count(log[..m][..n + 1], key, log[..m][n].now, limits.window) <= limits.depth
    {
      assert log[..m][..n + 1] == log[..n + 1];
    }
  }

  lemma {:induction false} CountNext<K>(log: seq<Offer<K>>, n: nat, key: K, now: int, window: int)
    requires n < |log|
    ensures Count(log[..n + 1], key, now, window) ==
            Count(log[..n], key, now, window) + if IsOf(log[n], key) && Within(now, log[n].now, window) then 1 else 0
  {
    assert log[..n + 1][..n] == log[..n];
  }

  // No offer of `key` is later than `now`.
  ghost predicate OwnBy<K>(log: seq<Offer<K>>, key: K, now: int) {
    forall i :: 0 <= i < |log| && IsOf(log[i], key) ==> log[i].now <= now
  }

  lemma {:induction false} OwnCounts<K>(log: seq<Offer<K>>, key: K, limits: Limits, now: int)
    requires Timed(log) && OwnOrdered(log, key) && EventsOnly(log) && Positive(limits) && Unsaturated(log, key, limits)
    requires OwnBy(log, key, now)
    ensures |Keep(Own(log, key, limits), now, limits.window)| == Count(log, key, now, limits.window)
    decreases |log|, 1
  {
    hide Unsaturated;
    if log == [] {
    } else {
      var m := |log| - 1;
      var offer, before, window := log[m], Own(log[..m], key, limits), limits.window;
      UnsaturatedInPrefix(log, m, key, limits);
      OwnInPrefix(log, m, key, now);
      OwnCounts(log[..m], key, limits, now);
      if IsOf(offer, key) {
        OwnRoom(log, key, limits);
        KeepAppend(Keep(before, offer.now, window), Entry(Hit, offer.now), now, window);
        KeepLater(before, offer.now, now, window);
      }
    }
  }

  lemma {:induction false} OwnInPrefix<K>(log: seq<Offer<K>>, m: nat, key: K, now: int)
    requires m <= |log| && OwnOrdered(log, key)
    ensures OwnOrdered(log[..m], key)
    ensures OwnBy(log, key, now) ==> OwnBy(log[..m], key, now)
    ensures m < |log| && IsOf(log[m], key) ==> OwnBy(log[..m], key, log[m].now)
  {
  }

  // At each of its offers, a key that is not saturated has room for it.
  lemma {:induction false} OwnRoom<K>(log: seq<Offer<K>>, key: K, limits: Limits)
    requires Timed(log) && OwnOrdered(log, key) && EventsOnly(log) && Positive(limits) && Unsaturated(log, key, limits)
    requires log != [] && IsOf(log[|log| - 1], key)
    ensures var m := |log| - 1;
            var live := Keep(Own(log[..m], key, limits), log[m].now, limits.window);
            |live| < limits.depth && Own(log, key, limits) == live + [Entry(Hit, log[m].now)]
    decreases |log|, 0
  {
    var m := |log| - 1;
    UnsaturatedInPrefix(log, m, key, limits);
    OwnInPrefix(log, m, key, log[m].now);
    OwnCounts(log[..m], key, limits, log[m].now);
    assert log[..m + 1] == log;
    CountNext(log, m, key, log[m].now, limits.window);
  }

  // Sliding-window refinement: while no more than `hosts` keys are live and this key is steady and not
  // saturated, an offer is answered with exactly as many entries as the whole unbounded log has
  // offers of its key inside the window.
  lemma {:induction false} FloodCountsLog<K>(log: seq<Offer<K>>, n: nat, limits: Limits)
    requires Timed(log) && EventsOnly(log) && Positive(limits) && n < |log| && log[n].Offer?
    requires Steady(log, log[n].key, limits.window)
    requires FewKeys(log, log[n].key, limits) && Unsaturated(log, log[n].key, limits)
    ensures HitAt(log, n, limits).Some?
    ensures |HitAt(log, n, limits).value| == Count(log[..n + 1], log[n].key, log[n].now, limits.window)
  {
    hide HitAt, Own, Unsaturated, Keep, Count;
    var key, prefix := log[n].key, log[..n + 1];
    FewKeysNeverMiss(log, key, limits);
    HitIsOwn(log, n, limits);
    UnsaturatedInPrefix(log, n + 1, key, limits);
    assert OwnBy(prefix, key, log[n].now) by {
      assert IsOf(log[n], key);
    }
    OwnCounts(prefix, key, limits, log[n].now);
    OwnIsFresh(prefix, key, limits);
  }

  // The bound is exact: with room for its key and no disturbance, a flood table counts the log at
  // every offer of the key if and only if the key is never saturated.
  lemma {:induction false} UnsaturatedExactly<K>(log: seq<Offer<K>>, key: K, limits: Limits)
    requires Timed(log) && EventsOnly(log) && Positive(limits) && Steady(log, key, limits.window) &&
             FewKeys(log, key, limits)
    ensures Unsaturated(log, key, limits) <==>
            forall n :: 0 <= n < |log| && IsOf(log[n], key) ==>
              && HitAt(log, n, limits).Some?
              && |HitAt(log, n, limits).value| == Count(log[..n + 1], key, log[n].now, limits.window)
  {
    hide HitAt, FewKeys, Steady;
    forall n | 0 <= n < |log| && IsOf(log[n], key)
      ensures Unsaturated(log, key, limits) ==>
                && HitAt(log, n, limits).Some?
                && |HitAt(log, n, limits).value| == Count(log[..n + 1], key, log[n].now, limits.window)
      ensures HitAt(log, n, limits).Some? ==> |HitAt(log, n, limits).value| <= limits.depth
    {
      if Unsaturated(log, key, limits) {
        FloodCountsLog(log, n, limits);
      }
      if HitAt(log, n, limits).Some? {
        HitJustified(log, n, limits);
      }
    }
  }

  // Right after an offer of `key`, everything it holds is inside the window.
  lemma {:induction false} OwnIsFresh<K>(log: seq<Offer<K>>, key: K, limits: Limits)
    requires Timed(log) && Positive(limits) && log != [] && IsOf(log[|log| - 1], key)
    ensures var now := log[|log| - 1].now;
            Keep(Own(log, key, limits), now, limits.window) == Own(log, key, limits)
  {
    var offer := log[|log| - 1];
    RememberedIsFresh(Own(log[..|log| - 1], key, limits), offer.mark, offer.now, limits);
  }

  lemma {:induction false} RememberedIsFresh(entries: seq<Entry>, mark: Mark, now: int, limits: Limits)
    requires now != 0 && limits.window > 0
    ensures var after := Remember(Keep(entries, now, limits.window), mark, now, limits.depth);
            && Keep(after, now, limits.window) == after
            && forall i :: 0 <= i < |after| ==> Within(now, after[i].seen, limits.window)
  {
    KeptWithin(entries, now, limits.window);
    KeepEverything(Remember(Keep(entries, now, limits.window), mark, now, limits.depth), now, limits.window);
  }

  // ---------- the port-scan table holds the live ports ----------

  ghost function PortSet(entries: seq<Entry>): set<nat> {
    set i | 0 <= i < |entries| && entries[i].mark.Port? :: entries[i].mark.port
  }

  lemma {:induction false} PortSetSize(entries: seq<Entry>)
    requires DistinctPorts(entries) && forall i :: 0 <= i < |entries| ==> entries[i].mark.Port?
    ensures |PortSet(entries)| == |entries|
  {
    if entries == [] {
    } else {
      var init, last := entries[..|entries| - 1], entries[|entries| - 1];
      PortSetSize(init);
      assert PortSet(entries) == PortSet(init) + {last.mark.port};
    }
  }

  ghost predicate FewPorts<K>(log: seq<Offer<K>>, key: K, limits: Limits) {
    forall n :: 0 <= n < |log| && IsOf(log[n], key) ==>
      |LivePorts(log[..n + 1], key, log[n].now, limits.window)| <= limits.depth
  }

  // `entries` lists exactly the ports whose last contact lies in the window, each once and with the
  // time of that last contact.
  ghost predicate IsPortView<K>(entries: seq<Entry>, log: seq<Offer<K>>, key: K, now: int, window: int) {
    && DistinctPorts(entries)
    && (forall i :: 0 <= i < |entries| ==> entries[i].mark.Port?)
    && (forall p: nat, seen: int :: Entry(Port(p), seen) in entries <==>
          LastContact(log, key, p) == Some(seen) && Within(now, seen, window))
  }

  lemma {:induction false} LastContactLive<K>(log: seq<Offer<K>>, key: K, port: nat, now: int, window: int)
    requires Timed(log) && OwnOrdered(log, key)
    ensures port in LivePorts(log, key, now, window) <==>
            LastContact(log, key, port).Some? && Within(now, LastContact(log, key, port).value, window)
  {
    if log == [] {
    } else {
      var m := |log| - 1;
      LastContactLive(log[..m], key, port, now, window);
      assert forall i :: 0 <= i < m ==> log[..m][i] == log[i];
      if IsOf(log[m], key) && log[m].mark == Port(port) {
        if i :| 0 <= i < |log| && IsOf(log[i], key) && log[i].mark == Port(port) && Within(now, log[i].now, window) {
          assert log[i].now <= log[m].now;
        }
      } else {
        assert port in LivePorts(log, key, now, window) <==> port in LivePorts(log[..m], key, now, window);
      }
    }
  }

  lemma {:induction false} PortViewHas<K>(entries: seq<Entry>, log: seq<Offer<K>>, key: K, port: nat, now: int,
                                          window: int)
    requires Timed(log) && OwnOrdered(log, key) && IsPortView(entries, log, key, now, window)
    ensures port in PortSet(entries) <==> port in LivePorts(log, key, now, window)
  {
    LastContactLive(log, key, port, now, window);
    if port in PortSet(entries) {
      var i :| 0 <= i < |entries| && entries[i].mark.Port? && entries[i].mark.port == port;
      assert entries[i] == Entry(Port(port), entries[i].seen);
      assert Entry(Port(port), entries[i].seen) in entries;
      assert LastContact(log, key, port) == Some(entries[i].seen);
    }
    if port in LivePorts(log, key, now, window) {
      var e := Entry(Port(port), LastContact(log, key, port).value);
      assert e in entries;
      var i :| 0 <= i < |entries| && entries[i] == e;
      assert entries[i].mark.port in PortSet(entries);
    }
  }

  lemma {:induction false} PortViewSize<K>(entries: seq<Entry>, log: seq<Offer<K>>, key: K, now: int, window: int)
    requires Timed(log) && OwnOrdered(log, key) && IsPortView(entries, log, key, now, window)
    ensures |entries| == |LivePorts(log, key, now, window)|
    ensures PortSet(entries) == LivePorts(log, key, now, window)
  {
    PortSetSize(entries);
    forall p: nat
      ensures p in PortSet(entries) <==> p in LivePorts(log, key, now, window)
    {
      PortViewHas(entries, log, key, p, now, window);
    }
    assert PortSet(entries) == LivePorts(log, key, now, window);
  }

  lemma {:induction false} PortViewLater<K>(entries: seq<Entry>, log: seq<Offer<K>>, key: K, t1: int, t2: int,
                                            window: int)
    requires IsPortView(entries, log, key, t1, window) && t1 <= t2
    ensures IsPortView(Keep(entries, t2, window), log, key, t2, window)
  {
    KeptWithin(entries, t2, window);
    KeepDistinct(entries, t2, window);
    forall p: nat, seen: int
      ensures Entry(Port(p), seen) in Keep(entries, t2, window) <==>
              LastContact(log, key, p) == Some(seen) && Within(t2, seen, window)
    {
      KeepMember(entries, t2, window, Entry(Port(p), seen));
    }
  }

  lemma {:induction false} KeepDistinct(entries: seq<Entry>, now: int, window: int)
    requires DistinctPorts(entries)
    ensures DistinctPorts(Keep(entries, now, window))
  {
    if entries == [] {
    } else {
      var init, last := entries[..|entries| - 1], entries[|entries| - 1];
      KeepDistinct(init, now, window);
      KeptWithin(init, now, window);
    }
  }

  // Adding one contact to a port view, by refreshing or by appending.
  lemma {:induction false} PortViewRemembers<K>(live: seq<Entry>, log: seq<Offer<K>>, key: K, limits: Limits)
    requires Timed(log) && Positive(limits) && log != []
    requires IsOf(log[|log| - 1], key) && log[|log| - 1].mark.Port?
    requires IsPortView(live, log[..|log| - 1], key, log[|log| - 1].now, limits.window)
    requires PositionOf(live, log[|log| - 1].mark) == |live| ==> |live| < limits.depth
    ensures var last := log[|log| - 1];
            IsPortView(Remember(live, last.mark, last.now, limits.depth), log, key, last.now, limits.window)
  {
    var last := log[|log| - 1];
    var after := Remember(live, last.mark, last.now, limits.depth);
    var at := PositionOf(live, last.mark);
    assert after == if at < |live| then live[at := Entry(last.mark, last.now)] else live + [Entry(last.mark, last.now)];
    forall p: nat, seen: int
      ensures Entry(Port(p), seen) in after <==>
              LastContact(log, key, p) == Some(seen) && Within(last.now, seen, limits.window)
    {
      var e := Entry(Port(p), seen);
      if Port(p) == last.mark {
        if e in after {
          var i :| 0 <= i < |after| && after[i] == e;
          assert i == if at < |live| then at else |live|;
        } else {
          assert after[if at < |live| then at else |live|] == Entry(last.mark, last.now);
        }
      } else {
        assert e in after <==> e in live by {
          if e in live {
            var i :| 0 <= i < |live| && live[i] == e;
            assert after[i] == e;
          }
        }
      }
    }
  }

  lemma {:induction false} FewPortsInPrefix<K>(log: seq<Offer<K>>, m: nat, key: K, limits: Limits)
    requires m <= |log| && FewPorts(log, key, limits)
    ensures FewPorts(log[..m], key, limits)
  {
    forall n | 0 <= n < m && IsOf(log[..m][n], key)
      ensures |LivePorts(log[..m][..n + 1], key, log[..m][n].now, limits.window)| <= limits.depth
    {
      assert log[..m][..n + 1] == log[..n + 1];
    }
  }

  lemma {:induction false} OwnPortView<K>(log: seq<Offer<K>>, key: K, limits: Limits, now: int)
    requires Timed(log) && OwnOrdered(log, key) && PortsOnly(log) && Positive(limits) && FewPorts(log, key, limits)
    requires OwnBy(log, key, now)
    ensures IsPortView(Keep(Own(log, key, limits), now, limits.window), log, key, now, limits.window)
  {
    hide FewPorts, IsPortView;
    if log == [] {
      NothingInView(key, now, limits.window);
    } else {
      var m := |log| - 1;
      var offer, before, window := log[m], Own(log[..m], key, limits), limits.window;
      FewPortsInPrefix(log, m, key, limits);
      OwnInPrefix(log, m, key, now);
      if IsOf(offer, key) {
        OwnPortView(log[..m], key, limits, offer.now);
        var live := Keep(before, offer.now, window);
        if PositionOf(live, offer.mark) == |live| {
          RoomForPort(live, log, key, limits);
        }
        PortViewRemembers(live, log, key, limits);
        PortViewLater(Own(log, key, limits), log, key, offer.now, now, window);
      } else {
        OwnPortView(log[..m], key, limits, now);
        OtherContact(Keep(before, now, window), log, key, now, window);
      }
    }
  }

  lemma {:induction false} NothingInView<K>(key: K, now: int, window: int)
    ensures IsPortView([], [], key, now, window)
  {
  }

  lemma {:induction false} OtherContact<K>(entries: seq<Entry>, log: seq<Offer<K>>, key: K, now: int, window: int)
    requires log != [] && !IsOf(log[|log| - 1], key) && IsPortView(entries, log[..|log| - 1], key, now, window)
    ensures IsPortView(entries, log, key, now, window)
  {
  }

  lemma {:induction false} LivePortsNext<K>(log: seq<Offer<K>>, key: K, now: int, window: int)
    requires log != [] && IsOf(log[|log| - 1], key) && log[|log| - 1].mark.Port? &&
             Within(now, log[|log| - 1].now, window)
    ensures LivePorts(log, key, now, window) ==
            LivePorts(log[..|log| - 1], key, now, window) + {log[|log| - 1].mark.port}
  {
  }

  // A port that is not in view finds room, because with it there are still few enough live ports.
  lemma {:induction false} RoomForPort<K>(live: seq<Entry>, log: seq<Offer<K>>, key: K, limits: Limits)
    requires Timed(log) && OwnOrdered(log, key) && Positive(limits) && log != []
    requires IsOf(log[|log| - 1], key) && log[|log| - 1].mark.Port?
    requires IsPortView(live, log[..|log| - 1], key, log[|log| - 1].now, limits.window)
    requires FewPorts(log, key, limits)
    requires PositionOf(live, log[|log| - 1].mark) == |live|
    ensures |live| < limits.depth
  {
    var m := |log| - 1;
    PortViewSize(live, log[..m], key, log[m].now, limits.window);
    LivePortsNext(log, key, log[m].now, limits.window);
    assert log[..m + 1] == log;
    assert log[m].mark.port !in PortSet(live);
  }

  // Port-set refinement: while no more than `hosts` pairs are live and no more than `depth` ports of
  // this pair are, the entries a contact is answered with are exactly the live ports of the whole
  // log, each once, with the time of its last contact.
  lemma {:induction false} ScanListsLog<K>(log: seq<Offer<K>>, n: nat, limits: Limits)
    requires Timed(log) && PortsOnly(log) && Positive(limits) && n < |log| && log[n].Offer?
    requires Steady(log, log[n].key, limits.window)
    requires FewKeys(log, log[n].key, limits) && FewPorts(log, log[n].key, limits)
    ensures HitAt(log, n, limits).Some?
    ensures IsPortView(HitAt(log, n, limits).value, log[..n + 1], log[n].key, log[n].now, limits.window)
    ensures PortSet(HitAt(log, n, limits).value) == LivePorts(log[..n + 1], log[n].key, log[n].now, limits.window)
    ensures |HitAt(log, n, limits).value| == |LivePorts(log[..n + 1], log[n].key, log[n].now, limits.window)|
  {
    hide HitAt, Own, FewPorts, Keep, FewKeys, IsPortView, LivePorts, PortSet;
    var key, prefix := log[n].key, log[..n + 1];
    FewKeysNeverMiss(log, key, limits);
    HitIsOwn(log, n, limits);
    FewPortsInPrefix(log, n + 1, key, limits);
    assert OwnBy(prefix, key, log[n].now) by {
      assert IsOf(log[n], key);
    }
    OwnPortView(prefix, key, limits, log[n].now);
    OwnIsFresh(prefix, key, limits);
    PortViewSize(Own(prefix, key, limits), prefix, key, log[n].now, limits.window);
  }

  // That bound is exact too: the ports stored are the live ports of the log at every contact of the
  // pair if and only if the pair never has more live ports than a slot has entries.
  lemma {:induction false} FewPortsExactly<K>(log: seq<Offer<K>>, key: K, limits: Limits)
    requires Timed(log) && PortsOnly(log) && Positive(limits) && Steady(log, key, limits.window) &&
             FewKeys(log, key, limits)
    ensures FewPorts(log, key, limits) <==>
            forall n :: 0 <= n < |log| && IsOf(log[n], key) ==>
              && HitAt(log, n, limits).Some?
              && PortSet(HitAt(log, n, limits).value) == LivePorts(log[..n + 1], key, log[n].now, limits.window)
  {
    hide HitAt, FewKeys, Steady, LivePorts, PortSet;
    forall n | 0 <= n < |log| && IsOf(log[n], key)
      ensures FewPorts(log, key, limits) ==>
                && HitAt(log, n, limits).Some?
                && PortSet(HitAt(log, n, limits).value) == LivePorts(log[..n + 1], key, log[n].now, limits.window)
      ensures HitAt(log, n, limits).Some? ==> |PortSet(HitAt(log, n, limits).value)| <= limits.depth
    {
      if FewPorts(log, key, limits) {
        ScanListsLog(log, n, limits);
      }
      if HitAt(log, n, limits).Some? {
        HitJustified(log, n, limits);
        PortSetBound(HitAt(log, n, limits).value);
      }
    }
  }

  // ---------- soundness, whatever the order of times and however full the table ----------

  lemma {:induction false} KeepTwice(entries: seq<Entry>, t1: int, t2: int, window: int)
    ensures |Keep(Keep(entries, t1, window), t2, window)| <= |Keep(entries, t2, window)|
  {
    if entries == [] {
    } else {
      var init, last := entries[..|entries| - 1], entries[|entries| - 1];
      KeepTwice(init, t1, t2, window);
      if Within(t1, last.seen, window) {
        KeepAppend(Keep(init, t1, window), last, t2, window);
      }
    }
  }

  lemma {:induction false} StoredAtMostLogged<K>(log: seq<Offer<K>>, key: K, limits: Limits, now: int)
    requires Timed(log) && EventsOnly(log) && Positive(limits)
    ensures |Stored(After(log, limits), key, now, limits.window)| <= Count(log, key, now, limits.window)
  {
    if log == [] {
      NotHeld(After(log, limits), key);
    } else {
      var m := |log| - 1;
      var offer, before, window := log[m], After(log[..m], limits), limits.window;
      AfterWellFormed(log[..m], limits);
      StoredAtMostLogged(log[..m], key, limits, now);
      KeepTwice(Raw(before, key), offer.now, now, window);
      if IsOf(offer, key) {
        OwnKey(before, offer, limits);
        KeepAppend(Stored(before, key, offer.now, window), Entry(Hit, offer.now), now, window);
      } else {
        RawStep(before, offer, key, limits);
      }
    }
  }

  // A flood table never counts more than the log really contains inside the window.
  lemma {:induction false} FloodSound<K>(log: seq<Offer<K>>, n: nat, limits: Limits)
    requires Timed(log) && EventsOnly(log) && Positive(limits) && n < |log| && log[n].Offer?
    requires HitAt(log, n, limits).Some?
    ensures |HitAt(log, n, limits).value| <= Count(log[..n + 1], log[n].key, log[n].now, limits.window)
  {
    var before := After(log[..n], limits);
    AfterWellFormed(log[..n], limits);
    OwnKey(before, log[n], limits);
    AfterNext(log, n, limits);
    StoredAtMostLogged(log[..n + 1], log[n].key, limits, log[n].now);
    RememberedIsFresh(Raw(before, log[n].key), log[n].mark, log[n].now, limits);
  }

  // Every entry an offer is answered with was really offered, and lies inside the window.
  lemma {:induction false} HitJustified<K>(log: seq<Offer<K>>, n: nat, limits: Limits)
    requires Timed(log) && Positive(limits) && n < |log| && log[n].Offer?
    requires HitAt(log, n, limits).Some?
    ensures forall e :: e in HitAt(log, n, limits).value ==>
              Justified(log[..n + 1], log[n].key, e) && Within(log[n].now, e.seen, limits.window)
    ensures GoodEntries(HitAt(log, n, limits).value, limits.depth) && HitAt(log, n, limits).value != []
  {
    var before := After(log[..n], limits);
    AfterWellFormed(log[..n], limits);
    OwnKey(before, log[n], limits);
    AfterNext(log, n, limits);
    EntriesJustified(log[..n + 1], log[n].key, limits);
    RememberedIsFresh(Raw(before, log[n].key), log[n].mark, log[n].now, limits);
    ObserveWellFormed(before, log[n], limits);
  }

  // The port-scan table never counts more ports than were really contacted inside the window.
  lemma {:induction false} ScanSound<K>(log: seq<Offer<K>>, n: nat, limits: Limits)
    requires Timed(log) && PortsOnly(log) && Positive(limits) && n < |log| && log[n].Offer?
    requires HitAt(log, n, limits).Some?
    ensures PortSet(HitAt(log, n, limits).value) <= LivePorts(log[..n + 1], log[n].key, log[n].now, limits.window)
    ensures |HitAt(log, n, limits).value| <= |LivePorts(log[..n + 1], log[n].key, log[n].now, limits.window)|
  {
    var entries, key := HitAt(log, n, limits).value, log[n].key;
    HitJustified(log, n, limits);
    forall i | 0 <= i < |entries|
      ensures entries[i].mark.Port? && entries[i].mark.port in LivePorts(log[..n + 1], key, log[n].now, limits.window)
    {
      assert Justified(log[..n + 1], key, entries[i]);
    }
    PortSetSize(entries);
    SubsetSize(PortSet(entries), LivePorts(log[..n + 1], key, log[n].now, limits.window));
  }

  // ---------- completeness, however full the tables are ----------

  // How many offers of `key` there are among log[i..j].
  ghost function Offers<K>(log: seq<Offer<K>>, key: K, i: nat, j: nat): nat
    requires i <= j <= |log|
  {
    if i == j then 0 else Offers(log, key, i, j - 1) + if IsOf(log[j - 1], key) then 1 else 0
  }

  ghost function OfferedPorts<K>(log: seq<Offer<K>>, key: K, i: nat, j: nat): set<nat>
    requires i <= j <= |log|
  {
    set m | i <= m < j && IsOf(log[m], key) && log[m].mark.Port? :: log[m].mark.port
  }

  // Some offer of `key` among log[i..j] was answered with at least `threshold` entries.
  ghost predicate Reached<K>(log: seq<Offer<K>>, key: K, i: nat, j: nat, threshold: nat, limits: Limits)
    requires j <= |log|
  {
    exists m :: i <= m < j && IsOf(log[m], key) && HitAt(log, m, limits).Some? &&
                |HitAt(log, m, limits).value| >= threshold
  }

  // Nothing offered among log[i..j] is later than the window of its first offer reaches, and no offer
  // of `key` is earlier than that first one.
  ghost predicate InSpan<K>(log: seq<Offer<K>>, key: K, i: nat, j: nat, window: int)
    requires i < j <= |log|
  {
    forall m :: i <= m < j && log[m].Offer? ==>
      log[m].now <= log[i].now + window && (log[m].key == key ==> log[i].now <= log[m].now)
  }

  // log[i..j] is such a span and starts with an offer of `key` that found a slot.
  ghost predicate IsSpan<K>(log: seq<Offer<K>>, key: K, i: nat, j: nat, threshold: nat, limits: Limits) {
    && Timed(log) && Positive(limits) && 1 <= threshold <= limits.depth
    && i < j <= |log| && IsOf(log[i], key) && HitAt(log, i, limits).Some? && InSpan(log, key, i, j, limits.window)
  }

  lemma {:induction false} ShorterSpan<K>(log: seq<Offer<K>>, key: K, i: nat, j: nat, threshold: nat, limits: Limits)
    requires IsSpan(log, key, i, j, threshold, limits) && i < j - 1
    ensures IsSpan(log, key, i, j - 1, threshold, limits)
    ensures !Reached(log, key, i, j, threshold, limits) ==> !Reached(log, key, i, j - 1, threshold, limits)
  {
  }

  // The view of `key` from the last moment, `horizon`, at which the start of a span is still live.
  ghost function FromHorizon<K>(log: seq<Offer<K>>, m: nat, key: K, horizon: int, limits: Limits): seq<Entry>
    requires m <= |log|
  {
    Stored(After(log[..m], limits), key, horizon, limits.window)
  }

  // Within the span, offers of other keys leave that view unchanged.
  lemma {:induction false} SpanOther<K>(log: seq<Offer<K>>, key: K, m: nat, horizon: int, limits: Limits)
    requires Timed(log) && Positive(limits) && m < |log| && !IsOf(log[m], key)
    requires log[m].Offer? ==> log[m].now <= horizon
    ensures FromHorizon(log, m + 1, key, horizon, limits) == FromHorizon(log, m, key, horizon, limits)
  {
    AfterNext(log, m, limits);
    if log[m].Offer? {
      AfterWellFormed(log[..m], limits);
      OthersUntouched(After(log[..m], limits), log[m], key, limits);
      StoredLater(After(log[..m], limits), key, log[m].now, horizon, limits.window);
      StoredLater(After(log[..m + 1], limits), key, log[m].now, horizon, limits.window);
    } else {
      SkipChangesNothing(After(log[..m], limits), log[m].now, limits);
    }
  }

  // Within the span, an offer of `key` finds a slot as soon as something is in view, and then what is
  // in view is what is live of the entries it is answered with.
  lemma {:induction false} SpanOwn<K>(log: seq<Offer<K>>, key: K, m: nat, horizon: int, limits: Limits)
    requires Timed(log) && Positive(limits) && m < |log| && log[m].now <= horizon && IsOf(log[m], key)
    ensures FromHorizon(log, m, key, horizon, limits) != [] ==> HitAt(log, m, limits).Some?
    ensures HitAt(log, m, limits).Some? ==>
              var live := Stored(After(log[..m], limits), key, log[m].now, limits.window);
              && FromHorizon(log, m, key, horizon, limits) == Keep(live, horizon, limits.window)
              && HitAt(log, m, limits).value == Remember(live, log[m].mark, log[m].now, limits.depth)
              && FromHorizon(log, m + 1, key, horizon, limits) ==
                 Keep(HitAt(log, m, limits).value, horizon, limits.window)
  {
    AfterWellFormed(log[..m], limits);
    AfterNext(log, m, limits);
    OwnKey(After(log[..m], limits), log[m], limits);
    StoredLater(After(log[..m], limits), key, log[m].now, horizon, limits.window);
  }

  // Remembering without dropping, seen from a later time at which the new entry is still live.
  lemma {:induction false} RememberKeeps(live: seq<Entry>, mark: Mark, now: int, horizon: int, limits: Limits)
    requires Within(horizon, now, limits.window) && now <= horizon
    requires |Remember(live, mark, now, limits.depth)| < limits.depth
    ensures var after := Keep(Remember(live, mark, now, limits.depth), horizon, limits.window);
            var before := Keep(live, horizon, limits.window);
            && PortSet(after) >= PortSet(before) + PortSet([Entry(mark, now)])
            && (mark == Hit ==> |after| == |before| + 1)
  {
    var remembered := Remember(live, mark, now, limits.depth);
    var after, before := Keep(remembered, horizon, limits.window), Keep(live, horizon, limits.window);
    if mark == Hit {
      KeepAppend(live, Entry(mark, now), horizon, limits.window);
    }
    forall p | p in PortSet(before) + PortSet([Entry(mark, now)])
      ensures p in PortSet(after)
    {
      var e: Entry;
      if Port(p) == mark {
        var at := PositionOf(live, mark);
        e := Entry(mark, now);
        assert remembered[if at < |live| then at else |live|] == e;
      } else {
        var i :| 0 <= i < |before| && before[i].mark == Port(p);
        e := before[i];
        KeepMember(live, horizon, limits.window, e);
        var k :| 0 <= k < |live| && live[k] == e;
        assert remembered[k] == e;
      }
      KeepMember(remembered, horizon, limits.window, e);
    }
  }

  lemma {:induction false} FloodSpan<K>(log: seq<Offer<K>>, key: K, i: nat, j: nat, threshold: nat, limits: Limits)
    requires EventsOnly(log) && IsSpan(log, key, i, j, threshold, limits)
    requires !Reached(log, key, i, j, threshold, limits)
    ensures 1 <= Offers(log, key, i, j) <= |FromHorizon(log, j, key, log[i].now + limits.window, limits)| < threshold
    decreases j
  {
    hide HitAt, Stored, After;
    var m, horizon := j - 1, log[i].now + limits.window;
    if m > i {
      ShorterSpan(log, key, i, j, threshold, limits);
      FloodSpan(log, key, i, m, threshold, limits);
    } else {
      assert Offers(log, key, i, i) == 0;
    }
    if IsOf(log[m], key) {
      SpanOwn(log, key, m, horizon, limits);
      RememberKeeps(Stored(After(log[..m], limits), key, log[m].now, limits.window), Hit, log[m].now, horizon, limits);
    } else {
      SpanOther(log, key, m, horizon, limits);
    }
  }

  // Completeness of a flood table despite saturation and crowding: if the first offer of a span found
  // a slot and the span, no longer than the window, has at least `threshold` offers of the key, then
  // one of them is answered with at least `threshold` entries.
  lemma {:induction false} FloodNeverMissed<K>(log: seq<Offer<K>>, key: K, i: nat, j: nat, threshold: nat,
                                               limits: Limits)
    requires EventsOnly(log) && IsSpan(log, key, i, j, threshold, limits)
    requires Offers(log, key, i, j) >= threshold
    ensures Reached(log, key, i, j, threshold, limits)
  {
    if !Reached(log, key, i, j, threshold, limits) {
      FloodSpan(log, key, i, j, threshold, limits);
    }
  }

  lemma {:induction false} OfferedPortsNext<K>(log: seq<Offer<K>>, key: K, i: nat, m: nat)
    requires i <= m < |log| && PortsOnly(log)
    ensures OfferedPorts(log, key, i, m + 1) ==
            if IsOf(log[m], key) then OfferedPorts(log, key, i, m) + {log[m].mark.port}
            else OfferedPorts(log, key, i, m)
  {
  }

  lemma {:induction false} NothingOffered<K>(log: seq<Offer<K>>, key: K, i: nat)
    requires i <= |log|
    ensures OfferedPorts(log, key, i, i) == {}
  {
  }

  // A contact that is not dropped puts its port in view, and keeps the ports already there.
  lemma {:induction false} SpanOwnPort<K>(log: seq<Offer<K>>, key: K, m: nat, horizon: int, limits: Limits)
    requires Timed(log) && Positive(limits) && m < |log| && horizon - limits.window <= log[m].now <= horizon
    requires IsOf(log[m], key) && log[m].mark.Port?
    requires HitAt(log, m, limits).Some? && |HitAt(log, m, limits).value| < limits.depth
    ensures PortSet(FromHorizon(log, m + 1, key, horizon, limits)) >=
            PortSet(FromHorizon(log, m, key, horizon, limits)) + {log[m].mark.port}
    ensures 1 <= |FromHorizon(log, m + 1, key, horizon, limits)| <= |HitAt(log, m, limits).value|
  {
    var e := Entry(log[m].mark, log[m].now);
    SpanOwn(log, key, m, horizon, limits);
    RememberKeeps(Stored(After(log[..m], limits), key, log[m].now, limits.window), e.mark, e.seen, horizon, limits);
    assert [e][0].mark.port in PortSet([e]);
    assert e.mark.port in PortSet(FromHorizon(log, m + 1, key, horizon, limits));
  }

  lemma {:induction false} ScanSpanStep<K>(log: seq<Offer<K>>, key: K, i: nat, m: nat, horizon: int, threshold: nat,
                                           limits: Limits)
    requires Timed(log) && PortsOnly(log) && Positive(limits) && 1 <= threshold <= limits.depth
    requires i <= m < |log| && (log[m].Offer? ==> log[m].now <= horizon)
    requires IsOf(log[m], key) ==> horizon - limits.window <= log[m].now
    requires OfferedPorts(log, key, i, m) <= PortSet(FromHorizon(log, m, key, horizon, limits))
    requires if i == m then IsOf(log[m], key) && HitAt(log, m, limits).Some?
             else 1 <= |FromHorizon(log, m, key, horizon, limits)| < threshold
    requires IsOf(log[m], key) && HitAt(log, m, limits).Some? ==> |HitAt(log, m, limits).value| < threshold
    ensures OfferedPorts(log, key, i, m + 1) <= PortSet(FromHorizon(log, m + 1, key, horizon, limits))
    ensures 1 <= |FromHorizon(log, m + 1, key, horizon, limits)| < threshold
  {
    OfferedPortsNext(log, key, i, m);
    if IsOf(log[m], key) {
      SpanOwn(log, key, m, horizon, limits);
      SpanOwnPort(log, key, m, horizon, limits);
    } else {
      SpanOther(log, key, m, horizon, limits);
    }
  }

  lemma {:induction false} ScanSpan<K>(log: seq<Offer<K>>, key: K, i: nat, j: nat, threshold: nat, limits: Limits)
    requires PortsOnly(log) && IsSpan(log, key, i, j, threshold, limits)
    requires !Reached(log, key, i, j, threshold, limits)
    ensures OfferedPorts(log, key, i, j) <= PortSet(FromHorizon(log, j, key, log[i].now + limits.window, limits))
    ensures 1 <= |FromHorizon(log, j, key, log[i].now + limits.window, limits)| < threshold
    decreases j
  {
    hide HitAt, FromHorizon;
    var m, horizon := j - 1, log[i].now + limits.window;
    if m > i {
      ShorterSpan(log, key, i, j, threshold, limits);
      ScanSpan(log, key, i, m, threshold, limits);
    } else {
      NothingOffered(log, key, i);
    }
    assert IsOf(log[m], key) && HitAt(log, m, limits).Some? ==> |HitAt(log, m, limits).value| < threshold;
    ScanSpanStep(log, key, i, m, horizon, threshold, limits);
  }

  // Completeness of the port-scan table, whatever ports are refreshed, expired or dropped in between.
  lemma {:induction false} ScanNeverMissed<K>(log: seq<Offer<K>>, key: K, i: nat, j: nat, threshold: nat,
                                              limits: Limits)
    requires PortsOnly(log) && IsSpan(log, key, i, j, threshold, limits)
    requires |OfferedPorts(log, key, i, j)| >= threshold
    ensures Reached(log, key, i, j, threshold, limits)
  {
    if !Reached(log, key, i, j, threshold, limits) {
      ScanSpan(log, key, i, j, threshold, limits);
      var stored := FromHorizon(log, j, key, log[i].now + limits.window, limits);
      PortSetBound(stored);
      SubsetSize(OfferedPorts(log, key, i, j), PortSet(stored));
    }
  }

  lemma {:induction false} PortSetBound(entries: seq<Entry>)
    ensures |PortSet(entries)| <= |entries|
  {
    if entries == [] {
    } else {
      var init, last := entries[..|entries| - 1], entries[|entries| - 1];
      PortSetBound(init);
      assert forall i :: 0 <= i < |init| ==> init[i] == entries[i];
      if last.mark.Port? {
        assert PortSet(entries) == PortSet(init) + {last.mark.port};
      } else {
        assert PortSet(entries) == PortSet(init);
      }
    }
  }

  // ---------- what the log reaches is noticed ----------

  // The first offer of `key` from the i-th on that is live at `now`, or the length of the log.
  ghost function FirstLive<K>(log: seq<Offer<K>>, key: K, i: nat, now: int, window: int): (m: nat)
    requires i <= |log|
    ensures i <= m <= |log|
    ensures forall k :: i <= k < m ==> !(IsOf(log[k], key) && Within(now, log[k].now, window))
    ensures m < |log| ==> IsOf(log[m], key) && Within(now, log[m].now, window)
    decreases |log| - i
  {
    if i == |log| || (IsOf(log[i], key) && Within(now, log[i].now, window)) then i
    else FirstLive(log, key, i + 1, now, window)
  }

  lemma {:induction false} CountsFromFirst<K>(log: seq<Offer<K>>, key: K, i: nat, j: nat, now: int, window: int)
    requires i <= j <= |log|
    requires forall k :: 0 <= k < i ==> !(IsOf(log[k], key) && Within(now, log[k].now, window))
    ensures Count(log[..j], key, now, window) <= Offers(log, key, i, j)
    decreases j
  {
    if j == i {
      CountsNone(log[..i], key, now, window);
    } else {
      CountNext(log, j - 1, key, now, window);
      CountsFromFirst(log, key, i, j - 1, now, window);
    }
  }

  lemma {:induction false} CountsNone<K>(log: seq<Offer<K>>, key: K, now: int, window: int)
    requires forall k :: 0 <= k < |log| ==> !(IsOf(log[k], key) && Within(now, log[k].now, window))
    ensures Count(log, key, now, window) == 0
  {
    if log == [] {
    } else {
      CountsNone(log[..|log| - 1], key, now, window);
    }
  }

  // Some offer of `key` up to the n-th, in the window of the n-th, was answered with at least
  // `threshold` entries.
  ghost predicate Noticed<K>(log: seq<Offer<K>>, key: K, n: nat, threshold: nat, limits: Limits)
    requires n < |log|
  {
    exists m :: 0 <= m <= n && IsOf(log[m], key) && Within(log[n].now, log[m].now, limits.window) &&
                HitAt(log, m, limits).Some? && |HitAt(log, m, limits).value| >= threshold
  }

  // What the window of the n-th offer holds of its key is a span.
  lemma {:induction false} WindowIsSpan<K>(log: seq<Offer<K>>, n: nat, i: nat, threshold: nat, limits: Limits)
    requires Timed(log) && Positive(limits) && n < |log| && log[n].Offer? && OrderedFor(log, log[n].key)
    requires NeverMissed(log, log[n].key, limits) && 1 <= threshold <= limits.depth
    requires i <= n && IsOf(log[i], log[n].key) && Within(log[n].now, log[i].now, limits.window)
    ensures IsSpan(log, log[n].key, i, n + 1, threshold, limits)
    ensures Reached(log, log[n].key, i, n + 1, threshold, limits) ==> Noticed(log, log[n].key, n, threshold, limits)
  {
    hide HitAt;
    var key := log[n].key;
    forall m | i <= m < n + 1 && log[m].Offer?
      ensures log[m].now <= log[i].now + limits.window && (log[m].key == key ==> log[i].now <= log[m].now)
    {
      assert IsOf(log[n], key) && log[m].now <= log[n].now;
    }
    if Reached(log, key, i, n + 1, threshold, limits) {
      var m :| i <= m < n + 1 && IsOf(log[m], key) && HitAt(log, m, limits).Some? &&
               |HitAt(log, m, limits).value| >= threshold;
      assert log[i].now <= log[m].now;
    }
  }

  // However full the slot is, a flood that the log shows is noticed at some offer in the same window.
  lemma {:induction false} FloodNoticed<K>(log: seq<Offer<K>>, n: nat, threshold: nat, limits: Limits)
    requires Timed(log) && EventsOnly(log) && Positive(limits) && n < |log| && log[n].Offer?
    requires OrderedFor(log, log[n].key) && NeverMissed(log, log[n].key, limits) && 1 <= threshold <= limits.depth
    requires Count(log[..n + 1], log[n].key, log[n].now, limits.window) >= threshold
    ensures Noticed(log, log[n].key, n, threshold, limits)
  {
    hide HitAt, Count, Noticed, Reached, NeverMissed, OrderedFor, IsSpan;
    var key, now, window := log[n].key, log[n].now, limits.window;
    var i := FirstLive(log, key, 0, now, window);
    assert IsOf(log[n], key) && Within(now, log[n].now, window);
    assert i <= n;
    CountsFromFirst(log, key, i, n + 1, now, window);
    WindowIsSpan(log, n, i, threshold, limits);
    FloodNeverMissed(log, key, i, n + 1, threshold, limits);
  }

  // The same for distinct ports.
  lemma {:induction false} ScanNoticed<K>(log: seq<Offer<K>>, n: nat, threshold: nat, limits: Limits)
    requires Timed(log) && PortsOnly(log) && Positive(limits) && n < |log| && log[n].Offer?
    requires OrderedFor(log, log[n].key) && NeverMissed(log, log[n].key, limits) && 1 <= threshold <= limits.depth
    requires |LivePorts(log[..n + 1], log[n].key, log[n].now, limits.window)| >= threshold
    ensures Noticed(log, log[n].key, n, threshold, limits)
  {
    hide HitAt, Noticed, Reached, NeverMissed, OrderedFor, IsSpan;
    var key, now, window := log[n].key, log[n].now, limits.window;
    var i := FirstLive(log, key, 0, now, window);
    assert IsOf(log[n], key) && Within(now, log[n].now, window);
    assert i <= n;
    SubsetSize(LivePorts(log[..n + 1], key, now, window), OfferedPorts(log, key, i, n + 1));
    WindowIsSpan(log, n, i, threshold, limits);
    ScanNeverMissed(log, key, i, n + 1, threshold, limits);
  }

  // So a flood table reaches a threshold for a key at some time if and only if the log does.
  lemma {:induction false} FloodNoticedExactly<K>(log: seq<Offer<K>>, key: K, threshold: nat, limits: Limits)
    requires Timed(log) && EventsOnly(log) && Positive(limits)
    requires OrderedFor(log, key) && NeverMissed(log, key, limits) && 1 <= threshold <= limits.depth
    ensures (exists n :: 0 <= n < |log| && IsOf(log[n], key) &&
                         Count(log[..n + 1], key, log[n].now, limits.window) >= threshold)
            <==> Reached(log, key, 0, |log|, threshold, limits)
  {
    hide HitAt, Count, OrderedFor;
    if n :| 0 <= n < |log| && IsOf(log[n], key) && Count(log[..n + 1], key, log[n].now, limits.window) >= threshold {
      FloodNoticed(log, n, threshold, limits);
    }
    if Reached(log, key, 0, |log|, threshold, limits) {
      var m :| 0 <= m < |log| && IsOf(log[m], key) && HitAt(log, m, limits).Some? &&
               |HitAt(log, m, limits).value| >= threshold;
      FloodSound(log, m, limits);
    }
  }

  lemma {:induction false} ScanNoticedExactly<K>(log: seq<Offer<K>>, key: K, threshold: nat, limits: Limits)
    requires Timed(log) && PortsOnly(log) && Positive(limits)
    requires OrderedFor(log, key) && NeverMissed(log, key, limits) && 1 <= threshold <= limits.depth
    ensures (exists n :: 0 <= n < |log| && IsOf(log[n], key) &&
                         |LivePorts(log[..n + 1], key, log[n].now, limits.window)| >= threshold)
            <==> Reached(log, key, 0, |log|, threshold, limits)
  {
    hide HitAt, LivePorts, OrderedFor;
    if n :| 0 <= n < |log| && IsOf(log[n], key) &&
            |LivePorts(log[..n + 1], key, log[n].now, limits.window)| >= threshold {
      ScanNoticed(log, n, threshold, limits);
    }
    if Reached(log, key, 0, |log|, threshold, limits) {
      var m :| 0 <= m < |log| && IsOf(log[m], key) && HitAt(log, m, limits).Some? &&
               |HitAt(log, m, limits).value| >= threshold;
      ScanSound(log, m, limits);
    }
  }
}
