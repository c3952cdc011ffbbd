/** Option values, used wherever the C code returns a pointer that may be NULL. */
module Options {
  datatype Option<+T> = None | Some(value: T)
}

/** Sizes of sets. */
module SetSizes {
  lemma {:induction false} SubsetSize<T>(a: set<T>, b: set<T>)
    requires a <= b
    ensures |a| <= |b|
  {
    assert b == a + (b - a);
  }
}

/** The sliding-window test shared by every stateful rule and by the alert cooldown. */
module Windows {
  // A time of zero means "never", a non-positive window holds nothing, and a time later than `now`
  // counts as inside the window.
  predicate Within(now: int, seen: int, window: int) {
    seen != 0 && window > 0 && now - seen <= window
  }
}

/** The value-level meaning of one fixed-size tracking table: what a lookup does to the slots, and
    what a lookup followed by remembering one packet does.

    The SYN-flood, port-scan and ICMP-flood tables run the same search loop; they differ in the key
    and in what they remember.  A flood table remembers bare events (`Hit`), the port-scan table
    remembers ports. */
module Slots {
  import opened Options
  import opened Windows

  datatype Mark = Hit | Port(port: nat)
  datatype Entry = Entry(mark: Mark, seen: int)
  datatype Slot<K> = Free | Live(key: K, entries: seq<Entry>)

  // One packet as a table sees it: either the packet does not reach the table, or it asks the table
  // to remember `mark` under `key` at time `now`.
  datatype Offer<K> = Skip(now: int) | Offer(key: K, mark: Mark, now: int)

  // Number of slots, entries per slot, and window length of a table.
  datatype Limits = Limits(hosts: nat, depth: nat, window: int)

  datatype Observation<K> = Observation(slots: seq<Slot<K>>, hit: Option<seq<Entry>>)

  // ---------- what the operations compute ----------

  ghost function Keep(entries: seq<Entry>, now: int, window: int): (kept: seq<Entry>)
    ensures |kept| <= |entries|
  {
    if entries == [] then []
    else
      var last := entries[|entries| - 1];
      var kept := Keep(entries[..|entries| - 1], now, window);
      if Within(now, last.seen, window) then kept + [last] else kept
  }

  ghost function Compact<K>(slot: Slot<K>, now: int, window: int): Slot<K> {
    if slot.Free? || Keep(slot.entries, now, window) == [] then Free
    else Live(slot.key, Keep(slot.entries, now, window))
  }

  ghost function CompactAll<K>(slots: seq<Slot<K>>, now: int, window: int): (r: seq<Slot<K>>)
    ensures |r| == |slots|
    ensures forall i :: 0 <= i < |r| ==> r[i] == Compact(slots[i], now, window)
  {
    seq(|slots|, i requires 0 <= i < |slots| => Compact(slots[i], now, window))
  }

  ghost predicate Holds<K>(slot: Slot<K>, key: K) {
    slot.Live? && slot.key == key
  }

  // The first slot holding `key`, or the number of slots.
  ghost function IndexOf<K>(slots: seq<Slot<K>>, key: K): (i: nat)
    ensures i <= |slots|
    ensures i < |slots| ==> Holds(slots[i], key)
    ensures forall j :: 0 <= j < i ==> !Holds(slots[j], key)
  {
    if slots == [] then 0
    else if Holds(slots[0], key) then 0
    else 1 + IndexOf(slots[1..], key)
  }

  // The first free slot, or the number of slots.
  ghost function FirstFree<K>(slots: seq<Slot<K>>): (i: nat)
    ensures i <= |slots|
    ensures i < |slots| ==> slots[i].Free?
    ensures forall j :: 0 <= j < i ==> slots[j].Live?
  {
    if slots == [] then 0
    else if slots[0].Free? then 0
    else 1 + FirstFree(slots[1..])
  }

  // The search stops at the slot of `key`, so later slots are not compacted; without such a slot
  // everything is compacted and the first free slot is claimed.
  ghost function Lookup<K>(slots: seq<Slot<K>>, key: K, now: int, window: int): (r: (seq<Slot<K>>, Option<nat>))
    ensures |r.0| == |slots|
    ensures r.1.Some? ==> r.1.value < |slots| && Holds(r.0[r.1.value], key)
  {
    var compacted := CompactAll(slots, now, window);
    var at := IndexOf(compacted, key);
    var free := FirstFree(compacted);
    if at < |slots| then (compacted[..at + 1] + slots[at + 1..], Some(at))
    else if free < |slots| then (compacted[free := Live(key, [])], Some(free))
    else (compacted, None)
  }

  // The position of a port mark, or the number of entries.  Events are never merged.
  ghost function PositionOf(entries: seq<Entry>, mark: Mark): (i: nat)
    ensures i <= |entries|
    ensures i < |entries| ==> mark.Port? && entries[i].mark == mark
    ensures mark.Port? ==> forall j :: 0 <= j < i ==> entries[j].mark != mark
    ensures mark.Hit? ==> i == |entries|
  {
    if entries == [] then 0
    else if mark.Port? && entries[0].mark == mark then 0
    else 1 + PositionOf(entries[1..], mark)
  }

  // A known port is refreshed; anything else is appended, unless the slot is full, in which case the
  // newest packet is the one that is dropped.
  ghost function Remember(entries: seq<Entry>, mark: Mark, now: int, depth: nat): seq<Entry> {
    var at := PositionOf(entries, mark);
    if at < |entries| then entries[at := Entry(mark, now)]
    else if |entries| >= depth then entries
    else entries + [Entry(mark, now)]
  }

  ghost function Observe<K>(slots: seq<Slot<K>>, offer: Offer<K>, limits: Limits): (r: Observation<K>)
    ensures |r.slots| == |slots|
  {
    if offer.Skip? then Observation(slots, None)
    else
      var (searched, at) := Lookup(slots, offer.key, offer.now, limits.window);
      if at.None? then Observation(searched, None)
      else
        var entries := Remember(searched[at.value].entries, offer.mark, offer.now, limits.depth);
        Observation(searched[at.value := Live(offer.key, entries)], Some(entries))
  }

  lemma {:induction false} SkipChangesNothing<K>(slots: seq<Slot<K>>, now: int, limits: Limits)
    ensures Observe(slots, Skip(now), limits) == Observation(slots, None)
  {
  }

  // ---------- the view of one key ----------

  ghost function Raw<K>(slots: seq<Slot<K>>, key: K): seq<Entry> {
    var i := IndexOf(slots, key);
    if i < |slots| then slots[i].entries else []
  }

  // What the table knows about `key` at time `now`, whatever stale entries it still carries.
  ghost function Stored<K>(slots: seq<Slot<K>>, key: K, now: int, window: int): seq<Entry> {
    Keep(Raw(slots, key), now, window)
  }

  // ---------- invariants ----------

  ghost predicate DistinctKeys<K>(slots: seq<Slot<K>>) {
    forall i, j :: 0 <= i < j < |slots| && slots[i].Live? && slots[j].Live? ==> slots[i].key != slots[j].key
  }

  ghost predicate DistinctPorts(entries: seq<Entry>) {
    forall i, j :: 0 <= i < j < |entries| && entries[i].mark.Port? ==> entries[i].mark != entries[j].mark
  }

  ghost predicate GoodEntries(entries: seq<Entry>, depth: nat) {
    && |entries| <= depth
    && DistinctPorts(entries)
    && forall i :: 0 <= i < |entries| ==> entries[i].seen != 0
  }

  // Every reachable table: keys in use are pairwise distinct and every slot in use holds between one
  // and `depth` entries with real times, no port twice.
  ghost predicate WellFormed<K>(slots: seq<Slot<K>>, limits: Limits) {
    && |slots| == limits.hosts
    && DistinctKeys(slots)
    && forall i :: 0 <= i < |slots| && slots[i].Live? ==>
         slots[i].entries != [] && GoodEntries(slots[i].entries, limits.depth)
  }

  // ---------- facts about compaction ----------

  lemma {:induction false} KeepMember(entries: seq<Entry>, now: int, window: int, e: Entry)
    ensures e in Keep(entries, now, window) <==> e in entries && Within(now, e.seen, window)
  {
    if entries == [] {
    } else {
      var init, last := entries[..|entries| - 1], entries[|entries| - 1];
      assert entries == init + [last];
      KeepMember(init, now, window, e);
    }
  }

  // Compacting at t1 and again at a later t2 is the same as compacting once at t2.
  lemma {:induction false} KeepLater(entries: seq<Entry>, t1: int, t2: int, window: int)
    requires t1 <= t2
    ensures Keep(Keep(entries, t1, window), t2, window) == Keep(entries, t2, window)
  {
    if entries == [] {
    } else {
      var init, last := entries[..|entries| - 1], entries[|entries| - 1];
      KeepLater(init, t1, t2, window);
      if Within(t1, last.seen, window) {
        var kept := Keep(entries, t1, window);
        assert kept[..|kept| - 1] == Keep(init, t1, window);
      }
    }
  }

  lemma {:induction false} KeepEverything(entries: seq<Entry>, now: int, window: int)
    requires forall i :: 0 <= i < |entries| ==> Within(now, entries[i].seen, window)
    ensures Keep(entries, now, window) == entries
  {
    if entries == [] {
    } else {
      KeepEverything(entries[..|entries| - 1], now, window);
    }
  }

  lemma {:induction false} KeepAppend(entries: seq<Entry>, e: Entry, now: int, window: int)
    ensures Keep(entries + [e], now, window) ==
            if Within(now, e.seen, window) then Keep(entries, now, window) + [e] else Keep(entries, now, window)
  {
  }

  lemma {:induction false} KeepGood(entries: seq<Entry>, now: int, window: int, depth: nat)
    requires GoodEntries(entries, depth)
    ensures GoodEntries(Keep(entries, now, window), depth)
  {
    if entries == [] {
    } else {
      var init, last := entries[..|entries| - 1], entries[|entries| - 1];
      KeepGood(init, now, window, depth);
      forall e | e in Keep(init, now, window)
        ensures last.mark.Port? ==> e.mark != last.mark
      {
        KeepMember(init, now, window, e);
      }
    }
  }

  lemma {:induction false} KeptWithin(entries: seq<Entry>, now: int, window: int)
    ensures forall i :: 0 <= i < |Keep(entries, now, window)| ==>
              Within(now, Keep(entries, now, window)[i].seen, window)
    ensures forall i :: 0 <= i < |Keep(entries, now, window)| ==> Keep(entries, now, window)[i] in entries
  {
    forall i | 0 <= i < |Keep(entries, now, window)|
      ensures Within(now, Keep(entries, now, window)[i].seen, window) && Keep(entries, now, window)[i] in entries
    {
      KeepMember(entries, now, window, Keep(entries, now, window)[i]);
    }
  }

  lemma {:induction false} RememberGood(entries: seq<Entry>, mark: Mark, now: int, depth: nat)
    requires GoodEntries(entries, depth) && now != 0
    ensures GoodEntries(Remember(entries, mark, now, depth), depth)
    ensures depth > 0 ==> Remember(entries, mark, now, depth) != []
  {
  }

  // A port that is known keeps its place and takes the new time.
  lemma {:induction false} KnownPortRefreshed(entries: seq<Entry>, port: nat, now: int, depth: nat, i: nat)
    requires DistinctPorts(entries) && i < |entries| && entries[i].mark == Port(port)
    ensures var after := Remember(entries, Port(port), now, depth);
            && |after| == |entries| && after[i] == Entry(Port(port), now)
            && forall j :: 0 <= j < |entries| && j != i ==> after[j] == entries[j]
  {
  }

  // A port that is not known goes to the end while there is room, and is dropped when there is none.
  lemma {:induction false} NewPortAppended(entries: seq<Entry>, port: nat, now: int, depth: nat)
    requires forall i :: 0 <= i < |entries| ==> entries[i].mark != Port(port)
    ensures |entries| < depth ==> Remember(entries, Port(port), now, depth) == entries + [Entry(Port(port), now)]
    ensures |entries| >= depth ==> Remember(entries, Port(port), now, depth) == entries
  {
  }

  // Every event goes to the end while there is room, and is dropped when there is none.
  lemma {:induction false} EventAppended(entries: seq<Entry>, now: int, depth: nat)
    ensures |entries| < depth ==> Remember(entries, Hit, now, depth) == entries + [Entry(Hit, now)]
    ensures |entries| >= depth ==> Remember(entries, Hit, now, depth) == entries
  {
  }

  // ---------- facts about lookups ----------

  lemma {:induction false} HeldAt<K>(slots: seq<Slot<K>>, key: K, i: nat)
    requires DistinctKeys(slots) && i < |slots| && Holds(slots[i], key)
    ensures IndexOf(slots, key) == i && Raw(slots, key) == slots[i].entries
  {
  }

  lemma {:induction false} NotHeld<K>(slots: seq<Slot<K>>, key: K)
    requires forall i :: 0 <= i < |slots| ==> !Holds(slots[i], key)
    ensures IndexOf(slots, key) == |slots| && Raw(slots, key) == []
  {
  }

  // The pure lookup keeps the table well formed, except that a freshly claimed slot is still empty.
  lemma {:induction false} LookupDistinct<K>(slots: seq<Slot<K>>, key: K, now: int, window: int)
    requires DistinctKeys(slots)
    ensures DistinctKeys(Lookup(slots, key, now, window).0)
  {
  }

  // A lookup fails exactly when every slot holds another key that is live at `now`.
  lemma {:induction false} LookupFailsWhenCrowded<K>(slots: seq<Slot<K>>, key: K, now: int, window: int)
    ensures Lookup(slots, key, now, window).1.None? <==>
            forall i :: 0 <= i < |slots| ==>
              slots[i].Live? && slots[i].key != key && Keep(slots[i].entries, now, window) != []
  {
  }

  // A successful lookup yields the entries of `key` that are live at `now`; a failing one means there
  // are none.
  lemma {:induction false} LookupFinds<K>(slots: seq<Slot<K>>, key: K, now: int, window: int)
    requires DistinctKeys(slots)
    ensures var (searched, at) := Lookup(slots, key, now, window);
            if at.Some? then searched[at.value].entries == Stored(slots, key, now, window)
            else Stored(slots, key, now, window) == []
  {
  }

  lemma {:induction false} ObserveDistinct<K>(slots: seq<Slot<K>>, offer: Offer<K>, limits: Limits)
    requires DistinctKeys(slots)
    ensures DistinctKeys(Observe(slots, offer, limits).slots)
  {
    if offer.Offer? {
      LookupDistinct(slots, offer.key, offer.now, limits.window);
    }
  }

  // Everything a search leaves in the table is good, and only a slot just claimed is empty.
  lemma {:induction false} LookupGood<K>(slots: seq<Slot<K>>, key: K, now: int, limits: Limits, j: nat)
    requires WellFormed(slots, limits) && j < |slots|
    ensures var (searched, at) := Lookup(slots, key, now, limits.window);
            searched[j].Live? ==>
              GoodEntries(searched[j].entries, limits.depth) && (at != Some(j) ==> searched[j].entries != [])
  {
    if slots[j].Live? {
      KeepGood(slots[j].entries, now, limits.window, limits.depth);
    }
    assert CompactAll(slots, now, limits.window)[j] == Compact(slots[j], now, limits.window);
  }

  lemma {:induction false} ObserveWellFormed<K>(slots: seq<Slot<K>>, offer: Offer<K>, limits: Limits)
    requires WellFormed(slots, limits) && offer.now != 0 && limits.depth > 0
    ensures WellFormed(Observe(slots, offer, limits).slots, limits)
    ensures Observe(slots, offer, limits).hit.Some? ==>
              Observe(slots, offer, limits).hit.value != [] &&
              GoodEntries(Observe(slots, offer, limits).hit.value, limits.depth)
  {
    ObserveDistinct(slots, offer, limits);
    if offer.Offer? {
      var (searched, at) := Lookup(slots, offer.key, offer.now, limits.window);
      var after := Observe(slots, offer, limits).slots;
      if at.Some? {
        LookupGood(slots, offer.key, offer.now, limits, at.value);
        RememberGood(searched[at.value].entries, offer.mark, offer.now, limits.depth);
      }
      forall j | 0 <= j < |after| && after[j].Live?
        ensures after[j].entries != [] && GoodEntries(after[j].entries, limits.depth)
      {
        LookupGood(slots, offer.key, offer.now, limits, j);
      }
    }
  }

  // Slot by slot, a lookup leaves a slot alone, compacts it, or gives it to the looked-up key.
  lemma {:induction false} ObserveSlot<K>(slots: seq<Slot<K>>, offer: Offer<K>, limits: Limits, j: nat)
    requires offer.Offer? && j < |slots|
    ensures var after := Observe(slots, offer, limits).slots[j];
            var compacted := Compact(slots[j], offer.now, limits.window);
            after == slots[j] || after == compacted ||
            (Holds(after, offer.key) && (compacted.Free? || Holds(slots[j], offer.key)))
  {
  }

  // Looking up one key leaves the view of every other key unchanged, whether the lookup succeeds,
  // claims a slot, reclaims stale slots on the way, or fails.
  lemma {:induction false} OthersUntouched<K>(slots: seq<Slot<K>>, offer: Offer<K>, key: K, limits: Limits)
    requires DistinctKeys(slots)
    requires offer.Offer? ==> offer.key != key
    ensures Stored(Observe(slots, offer, limits).slots, key, offer.now, limits.window) ==
            Stored(slots, key, offer.now, limits.window)
  {
    if offer.Offer? {
      var after := Observe(slots, offer, limits).slots;
      ObserveDistinct(slots, offer, limits);
      var i := IndexOf(slots, key);
      forall j | 0 <= j < |slots| && j != i
        ensures !Holds(after[j], key)
      {
        ObserveSlot(slots, offer, limits, j);
        if i < |slots| {
          assert j < i ==> slots[j].Live? ==> slots[j].key != key;
        }
      }
      if i < |slots| {
        ObserveSlot(slots, offer, limits, i);
        if Holds(after[i], key) {
          HeldAt(after, key, i);
          KeepLater(slots[i].entries, offer.now, offer.now, limits.window);
        } else {
          NotHeld(after, key);
        }
      } else {
        NotHeld(after, key);
      }
    }
  }

  // The looked-up key: the entries it ends up with are what was live, plus the new packet; when no
  // slot is found nothing was live and nothing is remembered.
  lemma {:induction false} OwnKey<K>(slots: seq<Slot<K>>, offer: Offer<K>, limits: Limits)
    requires DistinctKeys(slots) && offer.Offer?
    ensures var r := Observe(slots, offer, limits);
            var live := Stored(slots, offer.key, offer.now, limits.window);
            if r.hit.Some? then
              r.hit.value == Remember(live, offer.mark, offer.now, limits.depth) == Raw(r.slots, offer.key)
            else live == [] == Raw(r.slots, offer.key)
  {
    var now, window := offer.now, limits.window;
    var r := Observe(slots, offer, limits);
    LookupFinds(slots, offer.key, now, window);
    LookupDistinct(slots, offer.key, now, window);
    var (searched, at) := Lookup(slots, offer.key, now, window);
    if at.Some? {
      assert DistinctKeys(r.slots);
      HeldAt(r.slots, offer.key, at.value);
    } else {
      LookupFailsWhenCrowded(slots, offer.key, now, window);
      NotHeld(r.slots, offer.key);
    }
  }

  // What was live at an earlier time determines what is live later.
  lemma {:induction false} StoredLater<K>(slots: seq<Slot<K>>, key: K, t1: int, t2: int, window: int)
    requires t1 <= t2
    ensures Stored(slots, key, t2, window) == Keep(Stored(slots, key, t1, window), t2, window)
  {
    KeepLater(Raw(slots, key), t1, t2, window);
  }

  // ---------- the times an alert reports ----------

  // The earliest and the latest stored time, skipping times of zero; zero when there is none.
  ghost function FirstSeen(entries: seq<Entry>): int {
    if entries == [] then 0
    else
      var first, t := FirstSeen(entries[..|entries| - 1]), entries[|entries| - 1].seen;
      if t != 0 && (first == 0 || t < first) then t else first
  }

  ghost function LastSeen(entries: seq<Entry>): int {
    if entries == [] then 0
    else
      var last, t := LastSeen(entries[..|entries| - 1]), entries[|entries| - 1].seen;
      if t != 0 && (last == 0 || t > last) then t else last
  }

  lemma {:induction false} FirstSeenIsMinimum(entries: seq<Entry>)
    requires entries != [] && forall i :: 0 <= i < |entries| ==> entries[i].seen != 0
    ensures exists i :: 0 <= i < |entries| && entries[i].seen == FirstSeen(entries)
    ensures forall i :: 0 <= i < |entries| ==> FirstSeen(entries) <= entries[i].seen
  {
    var init, last := entries[..|entries| - 1], entries[|entries| - 1];
    assert entries[|entries| - 1] == last;
    if init == [] {
      assert FirstSeen(init) == 0 && FirstSeen(entries) == entries[0].seen;
    } else {
      FirstSeenIsMinimum(init);
      var i :| 0 <= i < |init| && init[i].seen == FirstSeen(init);
      assert entries[i] == init[i];
      forall j | 0 <= j < |entries|
        ensures FirstSeen(entries) <= entries[j].seen
      {
        assert j < |init| ==> entries[j] == init[j];
      }
    }
  }

  lemma {:induction false} LastSeenIsMaximum(entries: seq<Entry>)
    requires entries != [] && forall i :: 0 <= i < |entries| ==> entries[i].seen != 0
    ensures exists i :: 0 <= i < |entries| && entries[i].seen == LastSeen(entries)
    ensures forall i :: 0 <= i < |entries| ==> entries[i].seen <= LastSeen(entries)
  {
    var init, last := entries[..|entries| - 1], entries[|entries| - 1];
    assert entries[|entries| - 1] == last;
    if init == [] {
      assert LastSeen(init) == 0 && LastSeen(entries) == entries[0].seen;
    } else {
      LastSeenIsMaximum(init);
      var i :| 0 <= i < |init| && init[i].seen == LastSeen(init);
      assert entries[i] == init[i];
      forall j | 0 <= j < |entries|
        ensures entries[j].seen <= LastSeen(entries)
      {
        assert j < |init| ==> entries[j] == init[j];
      }
    }
  }
}
