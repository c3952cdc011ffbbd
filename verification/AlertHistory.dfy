/** The alert history as the C code keeps it: a fixed array that is searched and overwritten in place. */
module AlertHistories {
  import opened Windows
  import opened Cooldown

  class AlertHistory<K(==)> {
    const cells: array<Cell<K>>

    constructor (size: nat)
      ensures fresh(cells) && cells.Length == size
      ensures forall i :: 0 <= i < size ==> cells[i] == Unused
    {
      cells := new Cell<K>[size](_ => Unused);
    }

    // Whether an alert under `key` may go out now; if so its time is remembered, where there is room.
    method ShouldEmit(key: K, now: int, cooldown: int) returns (emit: bool)
      modifies cells
      ensures var verdict := Decide(old(cells[..]), Ask(key, now), cooldown);
              cells[..] == verdict.cells && emit == verdict.emit
    {
      hide Find, FirstAvailable;
      if cooldown <= 0 {
        return true;
      }
      ghost var before := cells[..];
      var available := -1;
      var i := 0;
      while i < cells.Length
        invariant i <= cells.Length && cells[..] == before
        invariant forall j :: 0 <= j < i ==> !Keeps(before[j], key)
        invariant if available < 0
                  then available == -1 && forall j :: 0 <= j < i ==> !Available(before[j], now, cooldown)
                  else available < i && available == FirstAvailable(before, now, cooldown)
      {
        match cells[i] {
          case Unused =>
            if available == -1 {
              available := i;
            }
          case Used(k, last) =>
            if k == key {
              if Within(now, last, cooldown) {
                return false;
              }
              cells[i] := Used(key, now);
              return true;
            }
            if !Within(now, last, cooldown) && available == -1 {
              available := i;
            }
        }
        i := i + 1;
      }
      if available != -1 {
        cells[available] := Used(key, now);
      }
      return true;
    }
  }
}
