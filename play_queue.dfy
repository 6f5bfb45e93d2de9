/** The play queue object: the current row and the three containers as fields
    that its methods update in place, over a play list of `count` tracks whose
    items are referred to by row. Each method is proved to return and leave
    exactly what the corresponding function of `Sequencer` says. */
module Playback {
  import opened Rows
  import opened Sequencer

  class PlayQueue {
    /** `play_list->count()`; the list does not change while the queue refers into it. */
    const count: nat
    const config: Config

    var currentRow: int
    var defaultQueue: seq<int>
    var userQueue: seq<int>
    var historyStack: seq<int>

    function Snapshot(): State
      reads this
    {
      State(currentRow, defaultQueue, userQueue, historyStack)
    }

    ghost predicate Valid()
      reads this
    {
      config.Valid() && Inv(config, count, Snapshot())
    }

    /** A new queue starts at row 0 with all three containers empty. */
    constructor (count: nat, config: Config)
      requires config.Valid()
      ensures this.count == count && this.config == config
      ensures Snapshot() == Initial() && Valid()
    {
      this.count := count;
      this.config := config;
      currentRow := 0;
      defaultQueue := [];
      userQueue := [];
      historyStack := [];
    }

    /** Rebuilds the default queue from `row` and empties the user queue; does
        nothing on an empty list. */
    method UpdatePlayingQueue(row: int)
      requires Valid() && row >= 0
      modifies this
      ensures Valid()
      ensures count == 0 ==> Snapshot() == old(Snapshot())
      ensures count > 0 ==> Snapshot() == old(Snapshot()).(defaultQueue := Refill(config, count, row), userQueue := [])
    {
      if count == 0 {
        return;
      }
      defaultQueue := [];
      userQueue := [];
      var r := row;
      for cnt := 0 to config.queueBatch
        invariant r == if cnt == 0 then row else ScanRow(row, count, cnt - 1) + 1
        invariant defaultQueue == BoundedScan(row, count, cnt, config.queueSize)
        invariant |defaultQueue| <= config.queueSize
        invariant userQueue == [] && currentRow == old(currentRow) && historyStack == old(historyStack)
      {
        if r >= count {
          r := 0;
        }
        assert r == ScanRow(row, count, cnt);
        if |defaultQueue| >= config.queueSize {
          defaultQueue := defaultQueue[1..];
        }
        defaultQueue := defaultQueue + [r];
        r := r + 1;
      }
      assert defaultQueue == Refill(config, count, row);
      assert RowsIn(defaultQueue, count);
    }

    /** Rebuilds the history by scanning forwards from `stackBatch` rows before
        `row`; does nothing on an empty list. */
    method SetHistoryStack(row: int)
      requires Valid()
      modifies this
      ensures Valid()
      ensures count == 0 ==> Snapshot() == old(Snapshot())
      ensures count > 0 ==> Snapshot() == old(Snapshot()).(history := Backfill(config, count, row))
    {
      if count == 0 {
        return;
      }
      historyStack := [];
      var r := row - config.stackBatch;
      while r < 0
        invariant Lift(r, count) == Lift(row - config.stackBatch, count)
        invariant historyStack == [] && currentRow == old(currentRow)
        invariant defaultQueue == old(defaultQueue) && userQueue == old(userQueue)
        decreases -r
      {
        r := r + count;
      }
      ghost var start := r;
      for cnt := 0 to config.stackBatch
        invariant r == if cnt == 0 then start else ScanRow(start, count, cnt - 1) + 1
        invariant historyStack == BoundedScan(start, count, cnt, config.historySize)
        invariant |historyStack| <= config.historySize
        invariant currentRow == old(currentRow) && defaultQueue == old(defaultQueue) && userQueue == old(userQueue)
      {
        if r >= count {
          r := 0;
        }
        assert r == ScanRow(start, count, cnt);
        if |historyStack| >= config.historySize {
          historyStack := historyStack[1..];
        }
        historyStack := historyStack + [r];
        r := r + 1;
      }
      assert historyStack == Backfill(config, count, row);
      assert RowsIn(historyStack, count);
    }

    /** Back to row 0 with all three containers empty, as after construction. */
    method Clear()
      requires Valid()
      modifies this
      ensures Valid() && Snapshot() == Initial()
    {
      currentRow := 0;
      defaultQueue := [];
      userQueue := [];
      historyStack := [];
    }

    /** Appends the selected items, in selection order, to the user queue until it
        is full; `selected` holds the rows of the list's selected items. */
    method AddToUserQueue(selected: seq<int>)
      requires Valid() && RowsIn(selected, count)
      modifies this
      ensures Valid()
      ensures Snapshot() == old(Snapshot()).(userQueue := Enqueued(old(userQueue), selected, config.queueSize))
    {
      for i := 0 to |selected|
        invariant Enqueued(userQueue, selected[i..], config.queueSize)
               == Enqueued(old(userQueue), selected, config.queueSize)
        invariant RowsIn(userQueue, count) && |userQueue| <= config.queueSize
        invariant currentRow == old(currentRow) && defaultQueue == old(defaultQueue)
        invariant historyStack == old(historyStack)
      {
        if |userQueue| >= config.queueSize {
          break;
        }
        assert selected[i..][1..] == selected[i + 1..];
        userQueue := userQueue + [selected[i]];
      }
    }

    /** The item at the current row, or none when the list is empty. */
    method Current() returns (item: Option<int>)
      requires Valid()
      ensures item == CurrentItem(count, Snapshot())
      ensures item == None <==> count == 0
      ensures item.Some? ==> item.value == currentRow && 0 <= item.value < count
    {
      if count <= 0 {
        return None;
      }
      item := Some(currentRow);
    }

    /** Plays on: see `Sequencer.NextStep`. */
    method Next() returns (item: Option<int>)
      requires Valid()
      modifies this
      ensures Valid()
      ensures (item, Snapshot()) == NextStep(config, count, old(Snapshot()))
    {
      if count <= 0 {
        return None;
      }
      var nextRow: int;
      if userQueue != [] {
        nextRow := userQueue[0];
        userQueue := userQueue[1..];
      } else {
        if defaultQueue == [] {
          UpdatePlayingQueue(currentRow + 1);
        }
        nextRow := defaultQueue[0];
        defaultQueue := defaultQueue[1..];
      }
      historyStack := historyStack + [currentRow];
      currentRow := nextRow;
      item := Some(nextRow);
    }

    /** Steps back: see `Sequencer.PreviousStep`. */
    method Previous() returns (item: Option<int>)
      requires Valid()
      modifies this
      ensures (item, Snapshot()) == PreviousStep(config, count, old(Snapshot()))
      ensures Valid()
    {
      if count <= 0 {
        return None;
      }
      item := None;
      if historyStack != [] && Last(historyStack) == currentRow {
        historyStack := DropLast(historyStack);
      }
      assert historyStack == Guarded(old(historyStack), currentRow);
      if historyStack == [] {
        SetHistoryStack(currentRow);
      }
      if historyStack != [] {
        var top := Last(historyStack);
        historyStack := DropLast(historyStack);
        item := Some(top);
        currentRow := top;
      }
    }

    /** Moves the current row without touching any container. */
    method SetCurrentItemRow(row: int)
      requires Valid() && 0 <= row < count
      modifies this
      ensures Valid() && Snapshot() == old(Snapshot()).(current := row)
    {
      currentRow := row;
    }
  }
}
