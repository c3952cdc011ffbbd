/** What a tracking table gets wrong, and exactly when: disturbed keys, saturated slots. */
module TableOverflow {
  import opened Options
  import opened Windows
  import opened Slots
  import opened SetSizes
  import opened TableRuns

  // ---------- sharing slots becomes visible ----------

  lemma {:induction false} StrangerNotFound<K>(slots: seq<Slot<K>>, key: K, now: int, window: int)
    requires DistinctKeys(slots) && Stored(slots, key, now, window) == []
    ensures IndexOf(CompactAll(slots, now, window), key) == |slots|
  {
    var compacted := CompactAll(slots, now, window);
    forall i | 0 <= i < |slots|
      ensures !Holds(compacted[i], key)
    {
      if Holds(slots[i], key) {
        HeldAt(slots, key, i);
      }
    }
  }

  // A lookup of a key of which nothing is live sweeps the whole table.
  lemma {:induction false} StrangerSweeps<K>(slots: seq<Slot<K>>, offer: Offer<K>, key: K, limits: Limits)
    requires DistinctKeys(slots) && IsOther(offer, key) && Stored(slots, offer.key, offer.now, limits.window) == []
    ensures Raw(Observe(slots, offer, limits).slots, key) == Keep(Raw(slots, key), offer.now, limits.window)
  {
    var compacted, after := CompactAll(slots, offer.now, limits.window), Observe(slots, offer, limits).slots;
    StrangerNotFound(slots, offer.key, offer.now, limits.window);
    ObserveDistinct(slots, offer, limits);
    var i := IndexOf(slots, key);
    if i < |slots| && compacted[i].Live? {
      HeldAt(after, key, i);
    } else {
      forall j | 0 <= j < |slots|
        ensures !Holds(after[j], key)
      {
        if Holds(slots[j], key) {
          HeldAt(slots, key, j);
        }
      }
      NotHeld(after, key);
    }
  }

  // Every offer of another key comes when no earlier offer of that key is inside the window.
  ghost predicate Strangers<K>(log: seq<Offer<K>>, key: K, window: int) {
    forall i :: 0 <= i < |log| && IsOther(log[i], key) ==> log[i].key !in LiveKeys(log[..i], log[i].now, window)
  }

  lemma {:induction false} StrangerUnknown<K>(log: seq<Offer<K>>, n: nat, limits: Limits)
    requires Timed(log) && limits.depth > 0 && n < |log| && log[n].Offer?
    requires log[n].key !in LiveKeys(log[..n], log[n].now, limits.window)
    ensures Stored(After(log[..n], limits), log[n].key, log[n].now, limits.window) == []
  {
    var live := Stored(After(log[..n], limits), log[n].key, log[n].now, limits.window);
    if live != [] {
      LiveIsOffered(log[..n], log[n].key, log[n].now, live[0], limits);
    }
  }

  // After a sweep, everything stored of `key` is inside the window of the sweep until `key` is
  // offered again.
  lemma {:induction false} SweptUntilNext<K>(log: seq<Offer<K>>, key: K, i: nat, n: nat, limits: Limits)
    requires Timed(log) && limits.depth > 0 && i < n <= |log|
    requires Strangers(log, key, limits.window) && IsOther(log[i], key)
    requires forall k :: i <= k < n ==> !IsOf(log[k], key)
    ensures forall e :: e in Raw(After(log[..n], limits), key) ==> Within(log[i].now, e.seen, limits.window)
    decreases n
  {
    var m := n - 1;
    var before := After(log[..m], limits);
    AfterWellFormed(log[..m], limits);
    AfterNext(log, m, limits);
    if m == i {
      StrangerUnknown(log, i, limits);
      StrangerSweeps(before, log[i], key, limits);
      KeptWithin(Raw(before, key), log[i].now, limits.window);
    } else {
      SweptUntilNext(log, key, i, m, limits);
      RawStep(before, log[m], key, limits);
      KeptWithin(Raw(before, key), log[m].now, limits.window);
    }
  }

  ghost function NextOf<K>(log: seq<Offer<K>>, key: K, i: nat): (n: nat)
    requires i <= |log|
    ensures i <= n <= |log| && forall k :: i <= k < n ==> !IsOf(log[k], key)
    ensures n < |log| ==> IsOf(log[n], key)
    decreases |log| - i
  {
    if i == |log| || IsOf(log[i], key) then i else NextOf(log, key, i + 1)
  }

  // What this key alone would hold contains each of its offers that is still live.
  lemma {:induction false} OwnHas<K>(log: seq<Offer<K>>, key: K, m: nat, limits: Limits, now: int)
    requires Timed(log) && OwnOrdered(log, key) && EventsOnly(log) && Positive(limits) && Unsaturated(log, key, limits)
    requires m < |log| && IsOf(log[m], key) && Within(now, log[m].now, limits.window) && OwnBy(log, key, now)
    ensures Entry(Hit, log[m].now) in Own(log, key, limits)
  {
    var last, e := |log| - 1, Entry(Hit, log[m].now);
    var before := Own(log[..last], key, limits);
    UnsaturatedInPrefix(log, last, key, limits);
    OwnInPrefix(log, last, key, now);
    if m == last {
      OwnRoom(log, key, limits);
      var live := Keep(before, log[m].now, limits.window);
      assert Own(log, key, limits)[|live|] == e;
    } else {
      OwnHas(log[..last], key, m, limits, now);
      if IsOf(log[last], key) {
        KeepMember(before, log[last].now, limits.window, e);
      }
    }
  }

  // An offer of another key that expires what is still live at a later offer of `key` is noticed by
  // the next offer of `key`.
  lemma {:induction false} DisturbanceSeen<K>(log: seq<Offer<K>>, key: K, m: nat, i: nat, n: nat, limits: Limits)
    requires Timed(log) && OwnOrdered(log, key) && EventsOnly(log) && Positive(limits)
    requires Unsaturated(log, key, limits) && Strangers(log, key, limits.window)
    requires m < i < n < |log| && IsOf(log[m], key) && IsOther(log[i], key) && IsOf(log[n], key)
    requires forall k :: i <= k < n ==> !IsOf(log[k], key)
    requires Within(log[n].now, log[m].now, limits.window) && !Within(log[i].now, log[m].now, limits.window)
    ensures HitAt(log, n, limits) != Some(Own(log[..n + 1], key, limits))
  {
    hide Unsaturated, Observe, Own;
    var now, e, prefix := log[n].now, Entry(Hit, log[m].now), log[..n + 1];
    var raw, own := Raw(After(log[..n], limits), key), Own(log[..n], key, limits);
    SweptUntilNext(log, key, i, n, limits);
    AfterWellFormed(log[..n], limits);
    OwnKey(After(log[..n], limits), log[n], limits);
    UnsaturatedInPrefix(log, n, key, limits);
    UnsaturatedInPrefix(log, n + 1, key, limits);
    OwnInPrefix(log, n, key, now);
    OwnInPrefix(log, n + 1, key, now);
    OwnHas(log[..n], key, m, limits, now);
    assert prefix[..n] == log[..n];
    OwnRoom(prefix, key, limits);
    KeepMember(own, now, limits.window, e);
    var live, seen := Keep(own, now, limits.window), Keep(raw, now, limits.window);
    KeptWithin(raw, now, limits.window);
    var at :| 0 <= at < |live| && live[at] == e;
    assert (live + [Entry(Hit, now)])[at] == e;
    assert e !in seen;
    if HitAt(log, n, limits).Some? {
      assert HitAt(log, n, limits).value == Remember(seen, Hit, now, limits.depth);
      RememberedElsewhere(live, seen, at, now, limits.depth);
    }
  }

  lemma {:induction false} RememberedElsewhere(live: seq<Entry>, seen: seq<Entry>, at: nat, now: int, depth: nat)
    requires at < |live| && live[at] !in seen
    ensures Remember(seen, Hit, now, depth) != live + [Entry(Hit, now)]
  {
    var remembered := Remember(seen, Hit, now, depth);
    assert forall k :: 0 <= k < |seen| ==> remembered[k] == seen[k];
    assert (live + [Entry(Hit, now)])[at] == live[at];
  }

  lemma {:induction false} DisturbedSeen<K>(log: seq<Offer<K>>, key: K, limits: Limits)
    requires Timed(log) && OwnOrdered(log, key) && EventsOnly(log) && Positive(limits)
    requires Unsaturated(log, key, limits) && Strangers(log, key, limits.window) &&
             !Undisturbed(log, key, limits.window)
    ensures exists n :: 0 <= n < |log| && IsOf(log[n], key) &&
              HitAt(log, n, limits) != Some(Own(log[..n + 1], key, limits))
  {
    hide HitAt, Own, Unsaturated, Strangers, OwnOrdered, IsOf, IsOther;
    var n :| 0 <= n < |log| && IsOf(log[n], key) && !Spared(log[..n], key, log[n].now, limits.window);
    var m, i := Disturber(log, key, n, limits.window);
    var next := NextOf(log, key, i);
    OwnStep(log, key, next, n);
    DisturbanceSeen(log, key, m, i, next, limits);
  }

  lemma {:induction false} OwnStep<K>(log: seq<Offer<K>>, key: K, i: nat, j: nat)
    requires OwnOrdered(log, key) && i <= j < |log| && IsOf(log[i], key) && IsOf(log[j], key)
    ensures log[i].now <= log[j].now
  {
  }

  lemma {:induction false} Disturber<K>(log: seq<Offer<K>>, key: K, n: nat, window: int) returns (m: nat, i: nat)
    requires n < |log| && !Spared(log[..n], key, log[n].now, window)
    ensures m < i < n && IsOf(log[m], key) && IsOther(log[i], key)
    ensures Within(log[n].now, log[m].now, window) && !Within(log[i].now, log[m].now, window)
  {
    m, i :| 0 <= m < i < n && IsOf(log[..n][m], key) && IsOther(log[..n][i], key) &&
            Within(log[n].now, log[..n][m].now, window) && !Within(log[..n][i].now, log[..n][m].now, window);
  }

  // When sharing shows: if no other key is offered while it is live, a flood table answers every
  // offer of an unsaturated key as a table of its own would if and only if no offer of another key
  // expires what a later offer of this key still counts.
  lemma {:induction false} SharingExactly<K>(log: seq<Offer<K>>, key: K, limits: Limits)
    requires Timed(log) && OwnOrdered(log, key) && EventsOnly(log) && Positive(limits) && NeverMissed(log, key, limits)
    requires Unsaturated(log, key, limits) && Strangers(log, key, limits.window)
    ensures (forall n :: 0 <= n < |log| && IsOf(log[n], key) ==>
             HitAt(log, n, limits) == Some(Own(log[..n + 1], key, limits)))
            <==> Undisturbed(log, key, limits.window)
  {
    hide HitAt, Own, Unsaturated, Strangers, NeverMissed;
    if Undisturbed(log, key, limits.window) {
      forall n | 0 <= n < |log| && IsOf(log[n], key)
        ensures HitAt(log, n, limits) == Some(Own(log[..n + 1], key, limits))
      {
        HitIsOwn(log, n, limits);
      }
    } else {
      DisturbedSeen(log, key, limits);
    }
  }

  // ---------- exactly when there is room ----------

  // A key that always finds a slot and is not saturated is in the table as long as it is live.
  lemma {:induction false} LiveIsStored<K>(log: seq<Offer<K>>, key: K, now: int, limits: Limits)
    requires Timed(log) && EventsOnly(log) && Positive(limits) && Steady(log, key, limits.window)
    requires NeverMissed(log, key, limits) && Unsaturated(log, key, limits)
    requires OwnBy(log, key, now) && Spared(log, key, now, limits.window) && key in LiveKeys(log, now, limits.window)
    ensures key in KeySet(After(log, limits))
  {
    hide Own, Unsaturated, NeverMissed, Undisturbed, Spared, After;
    var m :| 0 <= m < |log| && IsOf(log[m], key) && Within(now, log[m].now, limits.window);
    var slots, e := After(log, limits), Entry(Hit, log[m].now);
    OwnHas(log, key, m, limits, now);
    SharingInvisible(log, key, limits, now);
    KeepMember(Own(log, key, limits), now, limits.window, e);
    KeepMember(Raw(slots, key), now, limits.window, e);
    assert slots[IndexOf(slots, key)].key in KeySet(slots);
  }

  lemma {:induction false} LiveKeysFit<K(!new)>(log: seq<Offer<K>>, n: nat, limits: Limits)
    requires Timed(log) && Ordered(log) && EventsOnly(log) && Positive(limits) && n < |log|
    requires forall k :: NeverMissed(log, k, limits) && Unsaturated(log, k, limits)
    ensures |LiveKeys(log[..n + 1], log[n].now, limits.window)| <= limits.hosts
  {
    hide Unsaturated, NeverMissed, LiveKeys, KeySet, After, Steady;
    var prefix, now := log[..n + 1], log[n].now;
    var live, stored := LiveKeys(prefix, now, limits.window), KeySet(After(prefix, limits));
    forall k | k in live
      ensures k in stored
    {
      UnsaturatedInPrefix(log, n + 1, k, limits);
      NeverMissedInPrefix(log, n + 1, k, limits);
      OrderedIsSteady(prefix, k, limits.window);
      LiveIsStored(prefix, k, now, limits);
    }
    SubsetSize(live, stored);
    KeySetSize(After(prefix, limits));
  }

  // With times in order and no key saturated, every packet finds a slot if and only if never more than
  // `hosts` keys are live.
  lemma {:induction false} RoomExactly<K(!new)>(log: seq<Offer<K>>, limits: Limits)
    requires Timed(log) && Ordered(log) && EventsOnly(log) && Positive(limits)
    requires forall k :: Unsaturated(log, k, limits)
    ensures (forall k :: NeverMissed(log, k, limits)) <==> (forall k :: FewKeys(log, k, limits))
  {
    hide Unsaturated, NeverMissed;
    if forall k :: NeverMissed(log, k, limits) {
      forall k
        ensures FewKeys(log, k, limits)
      {
        forall n | 0 <= n < |log| && IsOf(log[n], k)
          ensures |LiveKeys(log[..n + 1], log[n].now, limits.window)| <= limits.hosts
        {
          LiveKeysFit(log, n, limits);
        }
      }
    }
    if forall k :: FewKeys(log, k, limits) {
      forall k
        ensures NeverMissed(log, k, limits)
      {
        FewKeysNeverMiss(log, k, limits);
      }
    }
  }

  // ---------- a slot that is never reached ----------

  lemma {:induction false} KeepOne(e: Entry, now: int, window: int)
    ensures Keep([e], now, window) == if Within(now, e.seen, window) then [e] else []
    ensures Keep([], now, window) == []
  {
  }

  // A key of which nothing is left takes the first free slot i.
  lemma {:induction false} ClaimsSlot<K>(slots: seq<Slot<K>>, key: K, now: int, limits: Limits, i: nat)
    requires i < |slots| && limits.depth > 0
    requires CompactAll(slots, now, limits.window)[i].Free?
    requires forall j :: 0 <= j < i ==> CompactAll(slots, now, limits.window)[j].Live?
    requires forall j :: 0 <= j < |slots| ==> !Holds(CompactAll(slots, now, limits.window)[j], key)
    ensures Observe(slots, Offer(key, Hit, now), limits).slots ==
            CompactAll(slots, now, limits.window)[i := Live(key, [Entry(Hit, now)])]
  {
    hide CompactAll;
    var compacted := CompactAll(slots, now, limits.window);
    assert IndexOf(compacted, key) == |slots| && FirstFree(compacted) == i;
    EventAppended([], now, limits.depth);
    assert [] + [Entry(Hit, now)] == [Entry(Hit, now)];
  }

  // A search that ends before slot i leaves that slot alone.
  lemma {:induction false} StopsEarly<K>(slots: seq<Slot<K>>, offer: Offer<K>, limits: Limits, i: nat)
    requires offer.Offer? && 0 < i < |slots| && Holds(CompactAll(slots, offer.now, limits.window)[0], offer.key)
    ensures Observe(slots, offer, limits).slots[i] == slots[i]
  {
    assert IndexOf(CompactAll(slots, offer.now, limits.window), offer.key) == 0;
  }

  // Key 1 has the first slot and is live when it comes at a time at which key 0, in the second slot,
  // is expired.
  ghost function Shielded(window: int): seq<Offer<int>> {
    [Offer(1, Hit, window + 1), Offer(0, Hit, 1), Offer(1, Hit, window + 2), Offer(0, Hit, 1)]
  }

  lemma {:induction false} ShieldedTable(limits: Limits)
    requires Positive(limits) && limits.hosts > 1
    ensures Raw(After(Shielded(limits.window)[..1], limits), 0) == []
    ensures Raw(After(Shielded(limits.window)[..3], limits), 0) == [Entry(Hit, 1)]
  {
    hide Observe, CompactAll, Raw;
    var log, window := Shielded(limits.window), limits.window;
    var none: seq<Offer<int>> := [];
    var empty, one, two := After(none, limits), After(log[..1], limits), After(log[..2], limits);
    assert log[..0] == none;
    KeepOne(Entry(Hit, window + 1), 1, window);
    KeepOne(Entry(Hit, window + 1), window + 2, window);
    ClaimsSlot(empty, 1, window + 1, limits, 0);
    AfterNext(log, 0, limits);
    assert one == empty[0 := Live(1, [Entry(Hit, window + 1)])];
    NotHeld(one, 0);
    assert CompactAll(one, 1, window) == one;
    ClaimsSlot(one, 0, 1, limits, 1);
    AfterNext(log, 1, limits);
    assert two == one[1 := Live(0, [Entry(Hit, 1)])];
    StopsEarly(two, log[2], limits, 1);
    AfterNext(log, 2, limits);
    AfterWellFormed(log[..3], limits);
    HeldAt(After(log[..3], limits), 0, 1);
  }

  // That other keys are only offered when nothing of them is live is needed for `SharingExactly`: an
  // earlier slot can end the search before it comes to the expired one.
  lemma {:induction false} EarlierSlotShields(limits: Limits)
    requires Positive(limits) && limits.hosts > 1 && limits.depth > 1
    ensures var log := Shielded(limits.window);
            && Timed(log) && OwnOrdered(log, 0) && EventsOnly(log)
            && NeverMissed(log, 0, limits) && Unsaturated(log, 0, limits)
            && !Undisturbed(log, 0, limits.window)
            && forall n :: 0 <= n < |log| && IsOf(log[n], 0) ==>
               HitAt(log, n, limits) == Some(Own(log[..n + 1], 0, limits))
  {
    hide HitAt, Keep, Own, Count, FewKeys, Raw, After;
    var log, window, e := Shielded(limits.window), limits.window, Entry(Hit, 1);
    FewOffered(log, {0, 1}, 0, limits);
    FewKeysNeverMiss(log, 0, limits);
    ShieldedTable(limits);
    SweptHit(log, 1, limits);
    KeepOne(e, 1, window);
    KeepNothing([], 1, window);
    AfterWellFormed(log[..3], limits);
    RawHit(log, 3, limits);
    ShieldedOwn(limits);
    ShieldedUnsaturated(limits);
    EventAppended([e], 1, limits.depth);
    assert [e] + [e] == [e, e];
    assert HitAt(log, 1, limits) == Some(Own(log[..2], 0, limits)) &&
           HitAt(log, 3, limits) == Some(Own(log[..4], 0, limits));
    forall n | 0 <= n < |log| && IsOf(log[n], 0)
      ensures HitAt(log, n, limits) == Some(Own(log[..n + 1], 0, limits))
    {
      assert n == 1 || n == 3;
    }
    assert IsOf(log[..3][1], 0) && IsOther(log[..3][2], 0) && !Spared(log[..3], 0, 1, window);
  }

  lemma {:induction false} ShieldedOwn(limits: Limits)
    requires Positive(limits) && limits.depth > 1
    ensures var log := Shielded(limits.window);
            && Own(log[..2], 0, limits) == [Entry(Hit, 1)]
            && Own(log[..4], 0, limits) == [Entry(Hit, 1), Entry(Hit, 1)]
  {
    hide Keep, Own, Remember;
    assert Own<int>([], 0, limits) == [] by {
      OwnOfNothing(0, limits);
    }
    var e := Entry(Hit, 1);
    EventAppended([], 1, limits.depth);
    EventAppended([e], 1, limits.depth);
    KeepNothing([], 1, limits.window);
    assert [] + [e] == [e] && [e] + [e] == [e, e];
    var log := Shielded(limits.window);
    assert log[..0] == [];
    OwnNext(log, 0, 0, limits);
    OwnNext(log, 1, 0, limits);
    OwnNext(log, 2, 0, limits);
    OwnNext(log, 3, 0, limits);
    KeepOne(e, 1, limits.window);
  }

  lemma {:induction false} OwnOfNothing<K>(key: K, limits: Limits)
    ensures Own([], key, limits) == []
  {
  }

  lemma {:induction false} ShieldedUnsaturated(limits: Limits)
    requires Positive(limits) && limits.depth > 1
    ensures Unsaturated(Shielded(limits.window), 0, limits)
  {
    var log := Shielded(limits.window);
    assert log[..0] == [];
    CountNext(log, 0, 0, 1, limits.window);
    CountNext(log, 1, 0, 1, limits.window);
    CountNext(log, 2, 0, 1, limits.window);
    CountNext(log, 3, 0, 1, limits.window);
    forall n | 0 <= n < |log| && IsOf(log[n], 0)
      ensures Count(log[..n + 1], 0, log[n].now, limits.window) <= limits.depth
    {
      assert n == 1 || n == 3;
    }
  }

  lemma {:induction false} RawHit<K>(log: seq<Offer<K>>, n: nat, limits: Limits)
    requires Timed(log) && Positive(limits) && n < |log| && log[n].Offer? && HitAt(log, n, limits).Some?
    ensures HitAt(log, n, limits).value ==
            Remember(Keep(Raw(After(log[..n], limits), log[n].key), log[n].now, limits.window), log[n].mark, log[n].now,
                     limits.depth)
  {
    AfterWellFormed(log[..n], limits);
    OwnKey(After(log[..n], limits), log[n], limits);
  }

  // ---------- what an offer is answered with, entry by entry ----------

  // What is live of the key of the n-th offer when it arrives.
  ghost function LiveAt<K>(log: seq<Offer<K>>, n: nat, limits: Limits): seq<Entry>
    requires n < |log| && log[n].Offer?
  {
    Stored(After(log[..n], limits), log[n].key, log[n].now, limits.window)
  }

  lemma {:induction false} AnsweredFromLive<K>(log: seq<Offer<K>>, n: nat, limits: Limits)
    requires Timed(log) && limits.depth > 0 && n < |log| && log[n].Offer?
    ensures LiveAt(log, n, limits) != [] ==> HitAt(log, n, limits).Some?
    ensures HitAt(log, n, limits).Some? ==>
              HitAt(log, n, limits).value == Remember(LiveAt(log, n, limits), log[n].mark, log[n].now, limits.depth)
    ensures GoodEntries(LiveAt(log, n, limits), limits.depth)
  {
    var before := After(log[..n], limits);
    AfterWellFormed(log[..n], limits);
    OwnKey(before, log[n], limits);
    var i := IndexOf(before, log[n].key);
    if i < |before| {
      KeepGood(before[i].entries, log[n].now, limits.window, limits.depth);
    }
  }

  // A full slot answers an event, or a port it does not hold, with exactly what is live in it.
  lemma {:induction false} FullSlotDrops<K>(log: seq<Offer<K>>, n: nat, limits: Limits)
    requires Timed(log) && limits.depth > 0 && n < |log| && log[n].Offer? && |LiveAt(log, n, limits)| == limits.depth
    requires log[n].mark.Port? ==> forall e :: e in LiveAt(log, n, limits) ==> e.mark != log[n].mark
    ensures HitAt(log, n, limits) == Some(LiveAt(log, n, limits))
  {
    hide LiveAt, HitAt, Remember;
    AnsweredFromLive(log, n, limits);
    match log[n].mark
    case Hit => EventAppended(LiveAt(log, n, limits), log[n].now, limits.depth);
    case Port(port) => NewPortAppended(LiveAt(log, n, limits), port, log[n].now, limits.depth);
  }

  // A slot with room that is found answers with what is live in it and the new entry behind.
  lemma {:induction false} RoomySlotAppends<K>(log: seq<Offer<K>>, n: nat, limits: Limits)
    requires Timed(log) && n < |log| && log[n].Offer? && |LiveAt(log, n, limits)| < limits.depth
    requires log[n].mark.Port? ==> forall e :: e in LiveAt(log, n, limits) ==> e.mark != log[n].mark
    requires HitAt(log, n, limits).Some?
    ensures HitAt(log, n, limits) == Some(LiveAt(log, n, limits) + [Entry(log[n].mark, log[n].now)])
  {
    hide LiveAt, HitAt, Remember;
    AnsweredFromLive(log, n, limits);
    match log[n].mark
    case Hit => EventAppended(LiveAt(log, n, limits), log[n].now, limits.depth);
    case Port(port) => NewPortAppended(LiveAt(log, n, limits), port, log[n].now, limits.depth);
  }

  // A port that is live already is answered with the same ports in the same places, its own with the
  // new time.
  lemma {:induction false} KnownPortAnswered<K>(log: seq<Offer<K>>, n: nat, i: nat, limits: Limits)
    requires Timed(log) && limits.depth > 0 && n < |log| && log[n].Offer? && log[n].mark.Port?
    requires i < |LiveAt(log, n, limits)| && LiveAt(log, n, limits)[i].mark == log[n].mark
    ensures HitAt(log, n, limits) == Some(LiveAt(log, n, limits)[i := Entry(log[n].mark, log[n].now)])
  {
    hide LiveAt, HitAt, Remember;
    var live := LiveAt(log, n, limits);
    AnsweredFromLive(log, n, limits);
    KnownPortRefreshed(live, log[n].mark.port, log[n].now, limits.depth, i);
    assert HitAt(log, n, limits).value == live[i := Entry(log[n].mark, log[n].now)];
  }

  // With a window of zero or less nothing is ever live, and every packet stands alone.
  lemma {:induction false} ClosedWindow<K>(log: seq<Offer<K>>, n: nat, limits: Limits)
    requires Timed(log) && limits.depth > 0 && limits.window <= 0 && n < |log| && HitAt(log, n, limits).Some?
    requires log[n].Offer?
    ensures HitAt(log, n, limits) == Some([Entry(log[n].mark, log[n].now)])
  {
    hide HitAt, After;
    KeepNothing(Raw(After(log[..n], limits), log[n].key), log[n].now, limits.window);
    assert LiveAt(log, n, limits) == [];
    RoomySlotAppends(log, n, limits);
    assert [] + [Entry(log[n].mark, log[n].now)] == [Entry(log[n].mark, log[n].now)];
  }

  // ---------- when the count falls below the log ----------

  // `log` followed by `n` events of `key` at time `t`.
  ghost function Burst<K>(log: seq<Offer<K>>, key: K, n: nat, t: int): (r: seq<Offer<K>>)
    ensures |r| == |log| + n && forall i :: 0 <= i < |log| ==> r[i] == log[i]
    ensures forall i :: |log| <= i < |r| ==> r[i] == Offer(key, Hit, t)
  {
    if n == 0 then log else Burst(log, key, n - 1, t) + [Offer(key, Hit, t)]
  }

  ghost function Copies(n: nat, now: int): (entries: seq<Entry>)
    ensures |entries| == n && forall i :: 0 <= i < n ==> entries[i] == Entry(Hit, now)
  {
    seq(n, i => Entry(Hit, now))
  }

  lemma {:induction false} KeepNothing(entries: seq<Entry>, now: int, window: int)
    requires forall i :: 0 <= i < |entries| ==> !Within(now, entries[i].seen, window)
    ensures Keep(entries, now, window) == []
  {
    if entries == [] {
    } else {
      KeepNothing(entries[..|entries| - 1], now, window);
    }
  }

  lemma {:induction false} BurstCounts<K>(log: seq<Offer<K>>, key: K, n: nat, t: int, asked: K, now: int, window: int)
    ensures Count(Burst(log, key, n, t), asked, now, window) ==
            Count(log, asked, now, window) + if key == asked && Within(now, t, window) then n else 0
  {
    if n == 0 {
    } else {
      BurstCounts(log, key, n - 1, t, asked, now, window);
    }
  }

  lemma {:induction false} OwnBurst<K>(log: seq<Offer<K>>, key: K, n: nat, t: int, limits: Limits)
    requires n > 0
    ensures Own(Burst(log, key, n, t), key, limits) ==
            Remember(Keep(Own(Burst(log, key, n - 1, t), key, limits), t, limits.window), Hit, t, limits.depth)
  {
    var before, more := Burst(log, key, n - 1, t), Burst(log, key, n, t);
    OwnNext(more, |before|, key, limits);
    assert more == before + [Offer(key, Hit, t)];
    assert more[..|before|] == before && more[..|before| + 1] == more;
  }

  lemma {:induction false} OwnBurstNone<K>(log: seq<Offer<K>>, key: K, t: int, limits: Limits)
    ensures Own(Burst(log, key, 0, t), key, limits) == Own(log, key, limits)
  {
  }

  // Events at one time fill an empty slot.
  lemma {:induction false} BurstFills<K>(log: seq<Offer<K>>, key: K, n: nat, t: int, limits: Limits)
    requires t != 0 && limits.window > 0 && Own(log, key, limits) == [] && n <= limits.depth
    ensures Own(Burst(log, key, n, t), key, limits) == Copies(n, t)
  {
    hide Own, Burst, Keep, Remember;
    if n == 0 {
      OwnBurstNone(log, key, t, limits);
    } else {
      BurstFills(log, key, n - 1, t, limits);
      OwnBurst(log, key, n, t, limits);
      KeepEverything(Copies(n - 1, t), t, limits.window);
      EventAppended(Copies(n - 1, t), t, limits.depth);
      assert Copies(n - 1, t) + [Entry(Hit, t)] == Copies(n, t);
    }
  }

  // A full slot drops events as long as all it holds is live.
  lemma {:induction false} BurstDropped<K>(log: seq<Offer<K>>, key: K, n: nat, t: int, limits: Limits)
    requires Keep(Own(log, key, limits), t, limits.window) == Own(log, key, limits) &&
             |Own(log, key, limits)| == limits.depth
    ensures Own(Burst(log, key, n, t), key, limits) == Own(log, key, limits)
  {
    hide Own, Burst, Keep, Remember;
    if n == 0 {
      OwnBurstNone(log, key, t, limits);
    } else {
      BurstDropped(log, key, n - 1, t, limits);
      OwnBurst(log, key, n, t, limits);
      EventAppended(Own(log, key, limits), t, limits.depth);
    }
  }

  ghost function Filled<K>(key: K, t: int, limits: Limits): (log: seq<Offer<K>>)
    ensures |log| == limits.depth
    ensures forall i :: 0 <= i < limits.depth ==> log[i] == Offer(key, Hit, t)
  {
    Burst([], key, limits.depth, t)
  }

  // `depth` events at one time, `extra` more when that time is about to expire, and one right after it
  // has.
  ghost function Saturating<K>(key: K, extra: nat, t: int, limits: Limits): (log: seq<Offer<K>>)
    ensures |log| == limits.depth + extra + 1 && log[limits.depth + extra] == Offer(key, Hit, t + limits.window + 1)
  {
    Burst(Burst(Filled(key, t, limits), key, extra, t + limits.window), key, 1, t + limits.window + 1)
  }

  lemma {:induction false} SaturatingOffers<K>(key: K, extra: nat, t: int, limits: Limits)
    requires Positive(limits) && t > 0
    ensures var log := Saturating(key, extra, t, limits);
            && Timed(log) && Ordered(log) && EventsOnly(log) && OnlyOffers(log, {key})
            && forall i :: 0 <= i < |log| ==> log[i] == Offer(key, Hit, log[i].now)
  {
  }

  lemma {:induction false} FilledOwn<K>(key: K, t: int, limits: Limits)
    requires t != 0 && limits.window > 0
    ensures Own(Filled(key, t, limits), key, limits) == Copies(limits.depth, t)
  {
    var none: seq<Offer<K>> := [];
    BurstFills(none, key, limits.depth, t, limits);
  }

  lemma {:induction false} SaturatedOwn<K>(key: K, extra: nat, t: int, limits: Limits)
    requires Positive(limits) && t > 0
    ensures Own(Saturating(key, extra, t, limits), key, limits) == [Entry(Hit, t + limits.window + 1)]
  {
    hide Keep, Own, Burst, Remember, Filled;
    var window, copies, first := limits.window, Copies(limits.depth, t), Filled(key, t, limits);
    FilledOwn(key, t, limits);
    KeepEverything(copies, t + window, window);
    BurstDropped(first, key, extra, t + window, limits);
    KeepNothing(copies, t + window + 1, window);
    OwnEmptied(Burst(first, key, extra, t + window), key, t + window + 1, limits);
  }

  lemma {:induction false} OwnEmptied<K>(log: seq<Offer<K>>, key: K, t: int, limits: Limits)
    requires limits.depth > 0 && Keep(Own(log, key, limits), t, limits.window) == []
    ensures Own(Burst(log, key, 1, t), key, limits) == [Entry(Hit, t)]
  {
    assert Burst(log, key, 0, t) == log;
    OwnBurst(log, key, 1, t, limits);
    assert PositionOf([], Hit) == 0;
  }

  ghost predicate OnlyOffers<K>(log: seq<Offer<K>>, keys: set<K>) {
    forall i :: 0 <= i < |log| && log[i].Offer? ==> log[i].key in keys
  }

  lemma {:induction false} FewOffered<K>(log: seq<Offer<K>>, keys: set<K>, key: K, limits: Limits)
    requires OnlyOffers(log, keys) && |keys| <= limits.hosts
    ensures FewKeys(log, key, limits)
  {
    forall n | 0 <= n < |log| && IsOf(log[n], key)
      ensures |LiveKeys(log[..n + 1], log[n].now, limits.window)| <= limits.hosts
    {
      SubsetSize(LiveKeys(log[..n + 1], log[n].now, limits.window), keys);
    }
  }

  lemma {:induction false} FilledCount<K>(key: K, t: int, now: int, limits: Limits)
    ensures Count(Filled(key, t, limits), key, now, limits.window) ==
            if Within(now, t, limits.window) then limits.depth else 0
  {
    var none: seq<Offer<K>> := [];
    BurstCounts(none, key, limits.depth, t, key, now, limits.window);
  }

  lemma {:induction false} SaturatedCount<K>(key: K, extra: nat, t: int, limits: Limits)
    requires Positive(limits) && t > 0
    ensures Count(Saturating(key, extra, t, limits), key, t + limits.window + 1, limits.window) == extra + 1
  {
    hide Count, Burst, Filled;
    var window, first := limits.window, Filled(key, t, limits);
    var now := t + window + 1;
    FilledCount(key, t, now, limits);
    BurstCounts(first, key, extra, t + window, key, now, window);
    BurstCounts(Burst(first, key, extra, t + window), key, 1, now, key, now, window);
  }

  // The count of a saturated slot falls below the log, by as much as `extra`, although times are in
  // order and the table is otherwise empty.
  lemma {:induction false} SaturatedFallsShort<K>(key: K, extra: nat, t: int, limits: Limits)
    requires Positive(limits) && limits.hosts > 0 && t > 0
    ensures var log := Saturating(key, extra, t, limits);
            && Timed(log) && Ordered(log) && EventsOnly(log) && FewKeys(log, key, limits)
            && HitAt(log, limits.depth + extra, limits) == Some([Entry(Hit, t + limits.window + 1)])
            && Count(log, key, t + limits.window + 1, limits.window) == extra + 1
  {
    hide HitAt, Own, Count, FewKeys, Saturating, Ordered, Timed, EventsOnly, Undisturbed;
    var log := Saturating(key, extra, t, limits);
    SaturatingOffers(key, extra, t, limits);
    FewOffered(log, {key}, key, limits);
    FewKeysNeverMiss(log, key, limits);
    OrderedOffers(log, key);
    OrderedIsSteady(log, key, limits.window);
    HitIsOwn(log, |log| - 1, limits);
    SaturatedOwn(key, extra, t, limits);
    SaturatedCount(key, extra, t, limits);
    assert log[..|log|] == log;
  }

  lemma {:induction false} OrderedOffers<K>(log: seq<Offer<K>>, key: K)
    requires Ordered(log)
    ensures OrderedFor(log, key)
  {
  }

  // ---------- the same for ports ----------

  // `log` followed by `n` contacts at time `t`, each of the port that is its position in the log.
  ghost function Sweep<K>(log: seq<Offer<K>>, key: K, n: nat, t: int): (r: seq<Offer<K>>)
    ensures |r| == |log| + n && forall i :: 0 <= i < |log| ==> r[i] == log[i]
    ensures forall i :: |log| <= i < |r| ==> r[i] == Offer(key, Port(i), t)
  {
    if n == 0 then log else Sweep(log, key, n - 1, t) + [Offer(key, Port(|log| + n - 1), t)]
  }

  // One entry for each of the first `n` ports.
  ghost function Contacts(n: nat, t: int): (entries: seq<Entry>)
    ensures |entries| == n && forall i :: 0 <= i < n ==> entries[i] == Entry(Port(i), t)
  {
    seq(n, i requires 0 <= i => Entry(Port(i), t))
  }

  lemma {:induction false} OwnSweep<K>(log: seq<Offer<K>>, key: K, n: nat, t: int, limits: Limits)
    requires n > 0
    ensures Own(Sweep(log, key, n, t), key, limits) ==
            Remember(Keep(Own(Sweep(log, key, n - 1, t), key, limits), t, limits.window), Port(|log| + n - 1), t,
                     limits.depth)
  {
    var before, more := Sweep(log, key, n - 1, t), Sweep(log, key, n, t);
    OwnNext(more, |before|, key, limits);
    assert more == before + [Offer(key, Port(|log| + n - 1), t)];
    assert more[..|before|] == before && more[..|before| + 1] == more;
  }

  lemma {:induction false} OwnSweepNone<K>(log: seq<Offer<K>>, key: K, t: int, limits: Limits)
    ensures Own(Sweep(log, key, 0, t), key, limits) == Own(log, key, limits)
  {
  }

  lemma {:induction false} SweepFills<K>(key: K, n: nat, t: int, limits: Limits)
    requires t != 0 && limits.window > 0 && n <= limits.depth
    ensures Own(Sweep([], key, n, t), key, limits) == Contacts(n, t)
  {
    hide Own, Sweep, Keep, Remember;
    if n == 0 {
      OwnSweepNone([], key, t, limits);
      OwnOfNothing(key, limits);
    } else {
      SweepFills(key, n - 1, t, limits);
      OwnSweep([], key, n, t, limits);
      KeepEverything(Contacts(n - 1, t), t, limits.window);
      NewPortAppended(Contacts(n - 1, t), n - 1, t, limits.depth);
      assert Contacts(n - 1, t) + [Entry(Port(n - 1), t)] == Contacts(n, t);
    }
  }

  // A full slot drops new ports as long as all it holds is live.
  lemma {:induction false} SweepDropped<K>(log: seq<Offer<K>>, key: K, n: nat, t: int, limits: Limits)
    requires Keep(Own(log, key, limits), t, limits.window) == Own(log, key, limits) &&
             |Own(log, key, limits)| == limits.depth
    requires forall e :: e in Own(log, key, limits) ==> e.mark.Port? && e.mark.port < |log|
    ensures Own(Sweep(log, key, n, t), key, limits) == Own(log, key, limits)
  {
    hide Own, Sweep, Keep, Remember;
    if n == 0 {
      OwnSweepNone(log, key, t, limits);
    } else {
      SweepDropped(log, key, n - 1, t, limits);
      OwnSweep(log, key, n, t, limits);
      NewPortAppended(Own(log, key, limits), |log| + n - 1, t, limits.depth);
    }
  }

  // `depth` ports at one time.
  ghost function SweptFull<K>(key: K, t: int, limits: Limits): (log: seq<Offer<K>>)
    ensures |log| == limits.depth
    ensures forall i :: 0 <= i < |log| ==> log[i] == Offer(key, Port(i), t)
  {
    Sweep([], key, limits.depth, t)
  }

  // Then `extra` further ones when that time is about to expire, and one more right after it has.
  ghost function Scanning<K>(key: K, extra: nat, t: int, limits: Limits): (log: seq<Offer<K>>)
    ensures |log| == limits.depth + extra + 1
    ensures forall i :: 0 <= i < limits.depth ==> log[i] == Offer(key, Port(i), t)
    ensures forall i :: limits.depth <= i < |log| - 1 ==> log[i] == Offer(key, Port(i), t + limits.window)
    ensures log[|log| - 1] == Offer(key, Port(|log| - 1), t + limits.window + 1)
  {
    Sweep(Sweep(SweptFull(key, t, limits), key, extra, t + limits.window), key, 1, t + limits.window + 1)
  }

  lemma {:induction false} SweptFullOwn<K>(key: K, t: int, limits: Limits)
    requires t != 0 && limits.window > 0
    ensures Own(SweptFull(key, t, limits), key, limits) == Contacts(limits.depth, t)
  {
    SweepFills(key, limits.depth, t, limits);
  }

  lemma {:induction false} ScanningOwn<K>(key: K, extra: nat, t: int, limits: Limits)
    requires Positive(limits) && t > 0
    ensures Own(Scanning(key, extra, t, limits), key, limits) ==
            [Entry(Port(limits.depth + extra), t + limits.window + 1)]
  {
    hide Own, Sweep, Keep, Remember, SweptFull;
    var held, last := Contacts(limits.depth, t), t + limits.window + 1;
    var first := SweptFull(key, t, limits);
    var second := Sweep(first, key, extra, t + limits.window);
    SweptFullOwn(key, t, limits);
    KeepEverything(held, t + limits.window, limits.window);
    SweepDropped(first, key, extra, t + limits.window, limits);
    KeepNothing(held, last, limits.window);
    OwnSweepNone(second, key, last, limits);
    OwnSweep(second, key, 1, last, limits);
    NewPortAppended([], limits.depth + extra, last, limits.depth);
    assert [] + [Entry(Port(limits.depth + extra), last)] == [Entry(Port(limits.depth + extra), last)];
  }

  lemma {:induction false} ScanningOffers<K>(key: K, extra: nat, t: int, limits: Limits)
    requires Positive(limits) && t > 0
    ensures var log := Scanning(key, extra, t, limits);
            Timed(log) && Ordered(log) && PortsOnly(log) && OnlyOffers(log, {key})
  {
    hide Scanning;
  }

  // A pair that contacts more ports than its slot has entries is counted short: right after the first
  // ports expire, the slot answers with the last port alone, while the log has `extra` + 1 of them.
  lemma {:induction false} ScanFallsShort<K>(key: K, extra: nat, t: int, limits: Limits)
    requires Positive(limits) && limits.hosts > 0 && t > 0
    ensures var log, last := Scanning(key, extra, t, limits), limits.depth + extra;
            && Timed(log) && Ordered(log) && PortsOnly(log) && FewKeys(log, key, limits)
            && HitAt(log, last, limits) == Some([Entry(Port(last), log[last].now)])
            && |LivePorts(log, key, log[last].now, limits.window)| == extra + 1
  {
    hide HitAt, Own, FewKeys, Scanning, Undisturbed, Ordered, Timed, PortsOnly, OnlyOffers, LivePorts, PortRange;
    var log := Scanning(key, extra, t, limits);
    ScanningOffers(key, extra, t, limits);
    FewOffered(log, {key}, key, limits);
    FewKeysNeverMiss(log, key, limits);
    OrderedOffers(log, key);
    OrderedIsSteady(log, key, limits.window);
    HitIsOwn(log, |log| - 1, limits);
    ScanningOwn(key, extra, t, limits);
    assert log[..|log|] == log;
    ScanningPorts(key, extra, t, limits);
  }

  ghost function PortRange(first: nat, n: nat): (ports: set<nat>)
    ensures |ports| == n && forall p :: p in ports <==> first <= p < first + n
  {
    if n == 0 then {} else PortRange(first, n - 1) + {first + n - 1}
  }

  lemma {:induction false} ScanningPorts<K>(key: K, extra: nat, t: int, limits: Limits)
    requires Positive(limits) && t > 0
    ensures LivePorts(Scanning(key, extra, t, limits), key, t + limits.window + 1, limits.window) ==
            PortRange(limits.depth, extra + 1)
  {
    hide Scanning, PortRange;
    var log, last := Scanning(key, extra, t, limits), limits.depth + extra;
    var live := LivePorts(log, key, t + limits.window + 1, limits.window);
    forall p: nat | limits.depth <= p <= last
      ensures p in live
    {
      assert IsOf(log[p], key) && log[p].mark == Port(p);
    }
  }

  // ---------- disorder ----------

  // Disorder: `n` events of a key at one time, one of another key when they are expired, and one more
  // of the first key at the first time.
  ghost function Disordered<K>(key: K, other: K, n: nat, t: int, limits: Limits): (log: seq<Offer<K>>)
    ensures |log| == n + 2 && log[n] == Offer(other, Hit, t + limits.window + 1) && log[n + 1] == Offer(key, Hit, t)
    ensures forall i :: 0 <= i < n ==> log[i] == Offer(key, Hit, t)
  {
    Burst(Burst(Filled(key, t, limits.(depth := n)), other, 1, t + limits.window + 1), key, 1, t)
  }

  ghost predicate AllAt<K>(log: seq<Offer<K>>, key: K, t: int) {
    forall i :: 0 <= i < |log| && IsOf(log[i], key) ==> log[i].now == t
  }

  lemma {:induction false} DisorderedOffers<K>(key: K, other: K, n: nat, t: int, limits: Limits)
    requires Positive(limits) && key != other && t > 0
    ensures var log := Disordered(key, other, n, t, limits);
            && Timed(log) && EventsOnly(log) && OnlyOffers(log, {key, other}) && OwnOrdered(log, key)
            && Strangers(log, key, limits.window)
            && AllAt(log[..n + 1], key, t)
  {
  }

  lemma {:induction false} DisorderedSwept<K>(key: K, other: K, n: nat, t: int, limits: Limits)
    requires Positive(limits) && key != other && t > 0
    ensures Raw(After(Disordered(key, other, n, t, limits)[..n + 1], limits), key) == []
  {
    hide After, Raw, Disordered, Strangers;
    var log := Disordered(key, other, n, t, limits);
    var raw := Raw(After(log[..n + 1], limits), key);
    DisorderedOffers(key, other, n, t, limits);
    SweptUntilNext(log, key, n, n + 1, limits);
    EntriesJustified(log[..n + 1], key, limits);
    if raw != [] {
      NoneSeen(log[..n + 1], key, raw[0], t);
    }
  }

  lemma {:induction false} NoneSeen<K>(log: seq<Offer<K>>, key: K, e: Entry, t: int)
    requires Justified(log, key, e) && AllAt(log, key, t)
    ensures e.seen == t
  {
  }

  lemma {:induction false} DisorderedCount<K>(key: K, other: K, n: nat, t: int, limits: Limits)
    requires Positive(limits) && key != other && t > 0
    ensures Count(Disordered(key, other, n, t, limits), key, t, limits.window) == n + 1
  {
    hide Count, Burst, Filled;
    var window, first := limits.window, Filled(key, t, limits.(depth := n));
    FilledCount(key, t, t, limits.(depth := n));
    BurstCounts(first, other, 1, t + window + 1, key, t, window);
    BurstCounts(Burst(first, other, 1, t + window + 1), key, 1, t, key, t, window);
  }

  // One packet of another key with a later time makes the table forget what it counted, although the
  // log still holds it inside the window and every lookup succeeds.
  lemma {:induction false} DisorderFallsShort<K>(key: K, other: K, n: nat, t: int, limits: Limits)
    requires Positive(limits) && limits.hosts > 1 && key != other && t > 0
    ensures var log := Disordered(key, other, n, t, limits);
            && Timed(log) && EventsOnly(log) && OwnOrdered(log, key) && FewKeys(log, key, limits)
            && HitAt(log, n + 1, limits) == Some([Entry(Hit, t)])
            && Count(log, key, t, limits.window) == n + 1
  {
    hide HitAt, Count, FewKeys, Raw, After, Disordered, Timed, EventsOnly, OwnOrdered, Strangers;
    var log := Disordered(key, other, n, t, limits);
    DisorderedOffers(key, other, n, t, limits);
    FewOffered(log, {key, other}, key, limits);
    FewKeysNeverMiss(log, key, limits);
    DisorderedSwept(key, other, n, t, limits);
    DisorderedCount(key, other, n, t, limits);
    SweptHit(log, n + 1, limits);
  }

  // Up to the offer of the other key, the log holds less than `n` + 1 events of any key.
  lemma {:induction false} DisorderedBelow<K>(key: K, other: K, n: nat, t: int, limits: Limits, m: nat)
    requires key != other && n >= 1 && m <= n
    ensures var log := Disordered(key, other, n, t, limits);
            Count(log[..m + 1], log[m].key, log[m].now, limits.window) <= n
  {
    hide Count, Disordered;
    var log := Disordered(key, other, n, t, limits);
    if m < n {
      CountAtMost(log[..m + 1], log[m].key, log[m].now, limits.window);
    } else {
      CountNext(log, n, other, log[n].now, limits.window);
      CountsNone(log[..n], other, log[n].now, limits.window);
    }
  }

  lemma {:induction false} CountAtMost<K>(log: seq<Offer<K>>, key: K, now: int, window: int)
    ensures Count(log, key, now, window) <= |log|
  {
    if log == [] {
    } else {
      CountAtMost(log[..|log| - 1], key, now, window);
    }
  }

  lemma {:induction false} SweptHit<K>(log: seq<Offer<K>>, n: nat, limits: Limits)
    requires Timed(log) && Positive(limits) && n < |log| && log[n].Offer? && log[n].mark == Hit
    requires HitAt(log, n, limits).Some? && Raw(After(log[..n], limits), log[n].key) == []
    ensures HitAt(log, n, limits) == Some([Entry(Hit, log[n].now)])
  {
    AfterWellFormed(log[..n], limits);
    OwnKey(After(log[..n], limits), log[n], limits);
    KeepNothing([], log[n].now, limits.window);
    assert PositionOf([], Hit) == 0;
    assert [] + [Entry(Hit, log[n].now)] == [Entry(Hit, log[n].now)];
  }
}
