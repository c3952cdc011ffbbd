/** A tracking table as the C code keeps it: fixed arrays of slot headers and entries, compacted,
    reclaimed and overwritten in place. */
module SlotTables {
  import opened Options
  import opened Windows
  import opened Slots

  // The fixed part of a slot.  When it is not in use, `key` and `count` are whatever was left behind.
  datatype Head<K> = Head(inUse: bool, key: K, count: nat)

  lemma {:induction false} FreeStaysFree<K>(slot: Slot<K>, now: int, window: int)
    requires slot.Free?
    ensures Compact(slot, now, window) == slot
  {
  }

  lemma {:induction false} LookupParts<K>(slots: seq<Slot<K>>, key: K, now: int, window: int)
    ensures var compacted := CompactAll(slots, now, window);
            var at, free := IndexOf(compacted, key), FirstFree(compacted);
            Lookup(slots, key, now, window) ==
              if at < |slots| then (compacted[..at + 1] + slots[at + 1..], Some(at))
              else if free < |slots| then (compacted[free := Live(key, [])], Some(free))
              else (compacted, None)
  {
  }

  class SlotTable<K(==, 0)> {
    const hosts: nat
    const depth: nat
    const heads: array<Head<K>>
    const cells: array2<Entry>
    ghost var Contents: seq<Slot<K>>

    ghost predicate Shows(i: nat)
      requires i < heads.Length == |Contents| == cells.Length0
      reads this, heads, cells
    {
      if heads[i].inUse then
        && Contents[i].Live? && Contents[i].key == heads[i].key
        && |Contents[i].entries| == heads[i].count <= cells.Length1
        && forall j :: 0 <= j < heads[i].count ==> cells[i, j] == Contents[i].entries[j]
      else Contents[i].Free?
    }

    ghost predicate Valid()
      reads this, heads, cells
    {
      && heads.Length == cells.Length0 == |Contents| == hosts && cells.Length1 == depth
      && forall i :: 0 <= i < hosts ==> Shows(i)
    }

    constructor (hosts: nat, depth: nat)
      ensures Valid() && this.hosts == hosts && this.depth == depth
      ensures fresh(heads) && fresh(cells)
      ensures forall i :: 0 <= i < hosts ==> Contents[i].Free?
    {
      this.hosts, this.depth := hosts, depth;
      heads := new Head<K>[hosts];
      cells := new Entry[hosts, depth];
      Contents := seq(hosts, i => Free);
      new;
      for i := 0 to hosts
        invariant |Contents| == hosts && forall k :: 0 <= k < hosts ==> Contents[k].Free?
        invariant forall k :: 0 <= k < i ==> !heads[k].inUse
      {
        heads[i] := heads[i].(inUse := false);
      }
    }

    // Moves the entries of slot `i` that are still in the window to the front of its row, in order.
    method CompactEntries(i: nat, now: int, window: int) returns (write: nat)
      requires Valid() && i < hosts && Contents[i].Live?
      modifies cells
      ensures write == |Keep(Contents[i].entries, now, window)| <= depth
      ensures forall j :: 0 <= j < write ==> cells[i, j] == Keep(Contents[i].entries, now, window)[j]
      ensures forall r, j :: 0 <= r < hosts && r != i && 0 <= j < depth ==> cells[r, j] == old(cells[r, j])
    {
      hide Keep;
      assert Shows(i);
      var count, read := heads[i].count, 0;
      ghost var entries := Contents[i].entries;
      ghost var kept := Keep(entries[..0], now, window);
      write := 0;
      while read < count
        invariant read <= count && kept == Keep(entries[..read], now, window)
        invariant write == |kept| <= read
        invariant forall j :: 0 <= j < write ==> cells[i, j] == kept[j]
        invariant forall j :: read <= j < count ==> cells[i, j] == entries[j]
        invariant forall r, j :: 0 <= r < hosts && r != i && 0 <= j < depth ==> cells[r, j] == old(cells[r, j])
      {
        assert entries[..read + 1] == entries[..read] + [entries[read]];
        KeepAppend(entries[..read], entries[read], now, window);
        if Within(now, cells[i, read].seen, window) {
          if write != read {
            cells[i, write] := cells[i, read];
          }
          write := write + 1;
          kept := kept + [entries[read]];
        }
        read := read + 1;
      }
      assert entries[..count] == entries;
    }

    // Drops the entries of slot `i` that have left the window and gives the slot up when none is left.
    method CompactSlot(i: nat, now: int, window: int)
      requires Valid() && i < hosts && heads[i].inUse
      modifies heads, cells, this`Contents
      ensures Valid() && Contents == old(Contents)[i := Compact(old(Contents)[i], now, window)]
    {
      hide Keep;
      assert Shows(i);
      var count := CompactEntries(i, now, window);
      heads[i] := heads[i].(count := count, inUse := count != 0);
      Contents := Contents[i := Compact(Contents[i], now, window)];
      assert forall r :: 0 <= r < hosts && r != i ==> old(Shows(r)) ==> Shows(r);
    }

    lemma HeadShows(i: nat)
      requires Valid() && i < hosts
      ensures heads[i].inUse <==> Contents[i].Live?
      ensures heads[i].inUse ==> heads[i].key == Contents[i].key
    {
      assert Shows(i);
    }

    // The search loop shared by the three tables: every slot passed on the way is compacted, and the
    // search stops at the slot of `key`, if there is one.
    method Search(key: K, now: int, window: int) returns (at: int, available: int)
      requires Valid()
      modifies heads, cells, this`Contents
      ensures Valid()
      ensures var compacted := CompactAll(old(Contents), now, window);
              if at == -1 then
                && Contents == compacted && IndexOf(compacted, key) == hosts
                && available == if FirstFree(compacted) == hosts then -1 else FirstFree(compacted)
              else
                && at == IndexOf(compacted, key) < hosts
                && Contents == compacted[..at + 1] + old(Contents)[at + 1..]
    {
      hide Shows, Compact, CompactAll, IndexOf, FirstFree;
      available := -1;
      ghost var compacted := CompactAll(Contents, now, window);
      var i := 0;
      while i < hosts
        invariant i <= hosts && Valid()
        invariant forall j :: 0 <= j < i ==> Contents[j] == compacted[j]
        invariant forall j :: i <= j < hosts ==> Contents[j] == old(Contents)[j]
        invariant forall j :: 0 <= j < i ==> !Holds(compacted[j], key)
        invariant if available < 0 then available == -1 && forall j :: 0 <= j < i ==> compacted[j].Live?
                  else available < i && available == FirstFree(compacted)
      {
        HeadShows(i);
        assert compacted[i] == Compact(Contents[i], now, window);
        if heads[i].inUse {
          CompactSlot(i, now, window);
        } else {
          FreeStaysFree(Contents[i], now, window);
        }
        assert Contents[i] == compacted[i];
        HeadShows(i);
        if heads[i].inUse {
          if heads[i].key == key {
            assert Contents == compacted[..i + 1] + old(Contents)[i + 1..];
            return i, available;
          }
        } else if available == -1 {
          available := i;
        }
        i := i + 1;
      }
      assert Contents == compacted;
      return -1, available;
    }

    // Without a slot of `key` the first free slot is claimed.  A result of -1 stands for the null
    // pointer.
    method Find(key: K, now: int, window: int) returns (at: int)
      requires Valid()
      modifies heads, cells, this`Contents
      ensures Valid()
      ensures var (slots, found) := Lookup(old(Contents), key, now, window);
              Contents == slots && at == if found.Some? then found.value else -1
    {
      hide Shows, Compact, Lookup, IndexOf, FirstFree;
      LookupParts(Contents, key, now, window);
      var available;
      at, available := Search(key, now, window);
      if at == -1 && available != -1 {
        Claim(available, key);
        at := available;
      }
    }

    // Takes over a free slot for `key`.
    method Claim(i: nat, key: K)
      requires Valid() && i < hosts
      modifies heads, this`Contents
      ensures Valid() && Contents == old(Contents)[i := Live(key, [])]
    {
      heads[i] := Head(true, key, 0);
      Contents := Contents[i := Live(key, [])];
      assert forall r :: 0 <= r < hosts && r != i ==> old(Shows(r)) ==> Shows(r);
    }

    // A full slot drops the newest event.
    method RememberEvent(i: nat, now: int)
      requires Valid() && i < hosts && Contents[i].Live?
      modifies heads, cells, this`Contents
      ensures Valid()
      ensures Contents ==
              old(Contents)[i := Live(old(Contents)[i].key, Remember(old(Contents)[i].entries, Hit, now, depth))]
    {
      assert Shows(i);
      var count := heads[i].count;
      if count >= depth {
        return;
      }
      cells[i, count] := Entry(Hit, now);
      heads[i] := heads[i].(count := count + 1);
      Contents := Contents[i := Live(Contents[i].key, Contents[i].entries + [Entry(Hit, now)])];
      assert forall r :: 0 <= r < hosts && r != i ==> old(Shows(r)) ==> Shows(r);
    }

    // A port already known is refreshed in place; a full slot drops a new port.
    method RememberUniquePort(i: nat, port: nat, now: int)
      requires Valid() && i < hosts && Contents[i].Live?
      modifies heads, cells, this`Contents
      ensures Valid()
      ensures Contents ==
              old(Contents)[i := Live(old(Contents)[i].key, Remember(old(Contents)[i].entries, Port(port), now, depth))]
    {
      assert Shows(i);
      var count, j := heads[i].count, 0;
      ghost var entries, key := Contents[i].entries, Contents[i].key;
      while j < count
        invariant j <= count
        invariant forall k :: 0 <= k < j ==> entries[k].mark != Port(port)
      {
        if cells[i, j].mark == Port(port) {
          cells[i, j] := Entry(Port(port), now);
          assert PositionOf(entries, Port(port)) == j;
          Contents := Contents[i := Live(key, entries[j := Entry(Port(port), now)])];
          assert forall r :: 0 <= r < hosts && r != i ==> old(Shows(r)) ==> Shows(r);
          return;
        }
        j := j + 1;
      }
      assert PositionOf(entries, Port(port)) == |entries|;
      if count >= depth {
        return;
      }
      cells[i, count] := Entry(Port(port), now);
      heads[i] := heads[i].(count := count + 1);
      Contents := Contents[i := Live(key, entries + [Entry(Port(port), now)])];
      assert forall r :: 0 <= r < hosts && r != i ==> old(Shows(r)) ==> Shows(r);
    }

    method Count(i: nat) returns (count: nat)
      requires Valid() && i < hosts && Contents[i].Live?
      ensures count == |Contents[i].entries|
    {
      assert Shows(i);
      count := heads[i].count;
    }

    // The earliest and latest stored times of a slot.
    method TimeBounds(i: nat) returns (first: int, last: int)
      requires Valid() && i < hosts && Contents[i].Live?
      ensures first == FirstSeen(Contents[i].entries) && last == LastSeen(Contents[i].entries)
    {
      assert Shows(i);
      ghost var entries := Contents[i].entries;
      first, last := 0, 0;
      var j := 0;
      while j < heads[i].count
        invariant j <= heads[i].count
        invariant first == FirstSeen(entries[..j]) && last == LastSeen(entries[..j])
      {
        assert entries[..j + 1][..j] == entries[..j];
        var seen := cells[i, j].seen;
        if seen != 0 {
          if first == 0 || seen < first {
            first := seen;
          }
          if last == 0 || seen > last {
            last := seen;
          }
        }
        j := j + 1;
      }
      assert entries[..j] == entries;
    }
  }
}
