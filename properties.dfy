/** What the play queue promises across calls: the shape of a refill, the
    priority of the user queue, the forward order of `next()`, and how
    `previous()` undoes `next()`. */
module Properties {
  import opened Rows
  import opened Sequencer

  /** On an empty list `current()`, `next()` and `previous()` return no item and
      change nothing. This reads back the first branch of each operation; Dafny
      needs no proof steps for it. */
  lemma EmptyListIsInert(c: Config, s: State)
    requires c.Valid() && Inv(c, 0, s)
    ensures CurrentItem(0, s) == None
    ensures NextStep(c, 0, s) == (None, s)
    ensures PreviousStep(c, 0, s) == (None, s)
  {
  }

  /** A refill of the default queue holds the rows `(r + i) mod n` that its scan
      read last, where `r` is the start row (0 if the requested row is past the
      end); when the batch fits the queue, that is exactly `queueBatch` rows
      `r, r + 1, ...` wrapping around the end of the list. */
  lemma RefillRows(c: Config, n: nat, row: int)
    requires c.Valid() && n > 0 && row >= 0
    ensures var q := Refill(c, n, row);
      forall i :: 0 <= i < |q| ==> q[i] == (StartRow(row, n) + c.queueBatch - |q| + i) % n
    ensures c.queueBatch <= c.queueSize ==>
      var q := Refill(c, n, row);
      |q| == c.queueBatch && forall i :: 0 <= i < |q| ==> q[i] == (StartRow(row, n) + i) % n
  {
    var q := Refill(c, n, row);
    forall i | 0 <= i < |q| ensures q[i] == (StartRow(row, n) + c.queueBatch - |q| + i) % n {
      ScanRowClosedForm(row, n, c.queueBatch - |q| + i);
    }
  }

  /** Adding `k` rows to a row already reduced modulo `n` lands where adding
      them before reducing does. */
  lemma ReduceThenAdd(a: int, s: int, k: int, n: nat)
    requires n > 0 && s == a % n
    ensures StartRow(s, n) + k == s + k && (s + k) % n == (a + k) % n
  {
    ModAddLeft(a, k, n);
  }

  /** One row of a history refill, bottom to top. */
  lemma BackfillRow(c: Config, n: nat, row: int, i: nat)
    requires c.Valid() && n > 0 && 0 <= row < n && i < |Backfill(c, n, row)|
    ensures Backfill(c, n, row)[i] == (row - |Backfill(c, n, row)| + i) % n
  {
    var h := Backfill(c, n, row);
    var a := row - c.stackBatch;
    var start := Lift(a, n);
    var k := c.stackBatch - |h| + i;
    assert h[i] == ScanRow(start, n, k);
    LiftClosedForm(a, n);
    ScanRowClosedForm(start, n, k);
    ReduceThenAdd(a, start, k, n);
    assert a + k == row - |h| + i;
  }

  /** A history refill from row `r` holds, bottom to top, the rows
      `(r - |h| + i) mod n`, so the row just before `r` is on top; when the batch
      fits the stack, it holds exactly `stackBatch` rows. */
  lemma BackfillRows(c: Config, n: nat, row: int)
    requires c.Valid() && n > 0 && 0 <= row < n
    ensures var h := Backfill(c, n, row);
      forall i :: 0 <= i < |h| ==> h[i] == (row - |h| + i) % n
    ensures c.stackBatch <= c.historySize ==> |Backfill(c, n, row)| == c.stackBatch
    ensures c.stackBatch >= 1 ==> Last(Backfill(c, n, row)) == (row - 1) % n
  {
    var h := Backfill(c, n, row);
    forall i | 0 <= i < |h| ensures h[i] == (row - |h| + i) % n {
      BackfillRow(c, n, row, i);
    }
    if c.stackBatch >= 1 {
      BackfillRow(c, n, row, |h| - 1);
    }
  }

  /** `next()` takes the front of the user queue whenever there is one and then
      leaves the default queue alone; otherwise it takes the front of the default
      queue, refilling it from the row after the current one only when it is
      empty. Either way the row left is pushed on the history and the row returned
      becomes current. This reads back the branches of one call; the priority of
      the user queue over a run of calls is `UserQueueDrainsFirst`. */
  lemma NextSelection(c: Config, n: nat, s: State)
    requires c.Valid() && Inv(c, n, s) && n > 0
    ensures var (item, t) := NextStep(c, n, s);
      && item.Some? && t.current == item.value && t.history == s.history + [s.current]
      && (s.userQueue != [] ==>
            item.value == s.userQueue[0] && t.userQueue == s.userQueue[1..]
            && t.defaultQueue == s.defaultQueue)
      && (s.userQueue == [] && s.defaultQueue != [] ==>
            item.value == s.defaultQueue[0] && t.defaultQueue == s.defaultQueue[1..] && t.userQueue == [])
      && (s.userQueue == [] && s.defaultQueue == [] ==>
            var q := Refill(c, n, s.current + 1);
            item.value == q[0] && t.defaultQueue == q[1..] && t.userQueue == [])
  {
  }

  /** The user queue is drained first: `k` calls of `next()` with at least `k`
      entries in the user queue return those entries in order and leave the
      default queue as it was. */
  lemma {:induction false} UserQueueDrainsFirst(c: Config, n: nat, s: State, k: nat)
    requires c.Valid() && Inv(c, n, s) && n > 0 && k <= |s.userQueue|
    ensures var (items, t) := NextRun(c, n, s, k);
      && (forall i :: 0 <= i < k ==> items[i] == Some(s.userQueue[i]))
      && t.userQueue == s.userQueue[k..] && t.defaultQueue == s.defaultQueue
    decreases k
  {
    if k > 0 {
      var (item, s1) := NextStep(c, n, s);
      UserQueueDrainsFirst(c, n, s1, k - 1);
      var (items, t) := NextRun(c, n, s1, k - 1);
      assert s1.userQueue[k - 1..] == s.userQueue[k..];
      forall i | 0 <= i < k ensures ([item] + items)[i] == Some(s.userQueue[i]) {
        if i > 0 {
          assert items[i - 1] == Some(s1.userQueue[i - 1]);
        }
      }
    }
  }

  /** The state from which `next()` plays the list in order: no user request is
      pending and the default queue holds the rows a forward scan from the row
      after the current one reads first. */
  predicate InOrder(n: nat, s: State)
  {
    n > 0 && 0 <= s.current < n && s.userQueue == []
    && forall i :: 0 <= i < |s.defaultQueue| ==> s.defaultQueue[i] == ScanRow(s.current + 1, n, i)
  }

  /** The row after `cur` in list order, wrapping to row 0 after the last row, is
      where a refill requested from `cur + 1` starts. */
  lemma SuccessorRow(cur: int, n: nat)
    requires 0 <= cur < n
    ensures StartRow(cur + 1, n) == (cur + 1) % n
  {
    ModUnique(cur + 1, if cur + 1 == n then 1 else 0, StartRow(cur + 1, n), n);
  }

  /** A queue holding a forward scan from `row`, once its front is taken, holds
      the forward scan from the row after that front. */
  lemma ScanTail(q: seq<int>, row: int, n: nat)
    requires n > 0 && row >= 0 && q != []
    requires forall i :: 0 <= i < |q| ==> q[i] == ScanRow(row, n, i)
    ensures forall i :: 0 <= i < |q| - 1 ==> q[1..][i] == ScanRow(ScanRow(row, n, 0) + 1, n, i)
  {
    forall i | 0 <= i < |q| - 1 ensures q[1..][i] == ScanRow(ScanRow(row, n, 0) + 1, n, i) {
      ScanRowShift(row, n, 0, i);
    }
  }

  /** In-order step served from a non-empty default queue. */
  lemma InOrderStepQueued(c: Config, n: nat, s: State)
    requires c.Valid() && Inv(c, n, s) && InOrder(n, s) && s.defaultQueue != []
    ensures NextStep(c, n, s).0 == Some(ScanRow(s.current + 1, n, 0))
    ensures InOrder(n, NextStep(c, n, s).1)
  {
    ScanTail(s.defaultQueue, s.current + 1, n);
  }

  /** In-order step that refills an empty default queue. */
  lemma InOrderStepRefill(c: Config, n: nat, s: State)
    requires c.Valid() && c.queueBatch <= c.queueSize && Inv(c, n, s) && InOrder(n, s)
    requires s.defaultQueue == []
    ensures NextStep(c, n, s).0 == Some(ScanRow(s.current + 1, n, 0))
    ensures InOrder(n, NextStep(c, n, s).1)
  {
    var q := Refill(c, n, s.current + 1);
    assert |q| == c.queueBatch;
    ScanTail(q, s.current + 1, n);
  }

  /** From an in-order state `next()` returns the row after the current one,
      wrapping to row 0 after the last, and the state stays in order. This needs
      the queue batch to fit the queue: otherwise a refill drops its first rows. */
  lemma InOrderStep(c: Config, n: nat, s: State)
    requires c.Valid() && c.queueBatch <= c.queueSize && Inv(c, n, s) && InOrder(n, s)
    ensures NextStep(c, n, s).0 == Some(ScanRow(s.current + 1, n, 0))
    ensures InOrder(n, NextStep(c, n, s).1)
  {
    if s.defaultQueue == [] {
      InOrderStepRefill(c, n, s);
    } else {
      InOrderStepQueued(c, n, s);
    }
  }

  /** `k` calls of `next()` are one call followed by `k - 1` more. */
  lemma NextRunCons(c: Config, n: nat, s: State, k: nat)
    requires c.Valid() && Inv(c, n, s) && k > 0
    ensures NextRun(c, n, s, k).0 == [NextStep(c, n, s).0] + NextRun(c, n, NextStep(c, n, s).1, k - 1).0
  {
  }

  /** The first row of a forward scan followed by the scan from the row after it
      is the whole scan. */
  lemma ScanCons(row: int, n: nat, items: seq<Option<int>>, r: seq<Option<int>>)
    requires n > 0 && row >= 0 && r == [Some(ScanRow(row, n, 0))] + items
    requires forall j :: 0 <= j < |items| ==> items[j] == Some(ScanRow(ScanRow(row, n, 0) + 1, n, j))
    ensures forall i :: 0 <= i < |r| ==> r[i] == Some(ScanRow(row, n, i))
  {
    forall i | 0 < i < |r| ensures r[i] == Some(ScanRow(row, n, i)) {
      assert r[i] == items[i - 1];
      ScanRowShift(row, n, 0, i - 1);
    }
  }

  /** From an in-order state, successive calls of `next()` return the rows of a
      forward scan from the row after the current one. */
  lemma {:induction false} InOrderRun(c: Config, n: nat, s: State, k: nat)
    requires c.Valid() && c.queueBatch <= c.queueSize && Inv(c, n, s) && InOrder(n, s)
    ensures forall i :: 0 <= i < k ==> NextRun(c, n, s, k).0[i] == Some(ScanRow(s.current + 1, n, i))
    decreases k
  {
    if k > 0 {
      InOrderStep(c, n, s);
      var s1 := NextStep(c, n, s).1;
      InOrderRun(c, n, s1, k - 1);
      NextRunCons(c, n, s, k);
      ScanCons(s.current + 1, n, NextRun(c, n, s1, k - 1).0, NextRun(c, n, s, k).0);
    }
  }

  /** From an in-order state at row `r`, successive calls of `next()` return
      `(r + 1) mod n`, `(r + 2) mod n`, and so on. */
  lemma InOrderWraps(c: Config, n: nat, s: State, k: nat)
    requires c.Valid() && c.queueBatch <= c.queueSize && Inv(c, n, s) && InOrder(n, s)
    ensures forall i :: 0 <= i < k ==> NextRun(c, n, s, k).0[i] == Some((s.current + 1 + i) % n)
  {
    InOrderRun(c, n, s, k);
    forall i | 0 <= i < k ensures NextRun(c, n, s, k).0[i] == Some((s.current + 1 + i) % n) {
      ScanRowClosedForm(s.current + 1, n, i);
      SuccessorRow(s.current, n);
      ReduceThenAdd(s.current + 1, StartRow(s.current + 1, n), i, n);
    }
  }

  /** After construction or `clear()`, successive calls of `next()` play rows
      1, 2, ... in list order, wrapping around the end of the list. */
  lemma ClearedRun(c: Config, n: nat, k: nat)
    requires c.Valid() && c.queueBatch <= c.queueSize && n > 0
    ensures forall i :: 0 <= i < k ==> NextRun(c, n, Initial(), k).0[i] == Some((1 + i) % n)
  {
    InOrderWraps(c, n, Initial(), k);
  }

  /** With the source's constants on a list of five tracks, the first `next()`
      after `clear()` refills ten rows 1, 2, 3, 4, 0, 1, ..., plays row 1 and keeps
      the other nine queued. */
  lemma FiveTracksFirstNext()
    ensures NextStep(Defaults, 5, Initial())
         == (Some(1), State(1, [2, 3, 4, 0, 1, 2, 3, 4, 0], [], [0]))
  {
    var c := Defaults;
    var q := Refill(c, 5, 1);
    RefillRows(c, 5, 1);
    assert |q| == 10 && StartRow(1, 5) == 1;
    assert q[1..] == [2, 3, 4, 0, 1, 2, 3, 4, 0];
    var h: seq<int> := [];
    assert h + [0] == [0];
    assert NextStep(c, 5, Initial()) == (Some(q[0]), State(q[0], q[1..], [], h + [0]));
  }

  /** `previous()` right after a `next()` that moved to another row returns the
      row that was left, and restores the current row and the history. */
  lemma PreviousUndoesNext(c: Config, n: nat, s: State)
    requires c.Valid() && Inv(c, n, s) && n > 0
    requires NextStep(c, n, s).0 != Some(s.current)
    ensures var t := NextStep(c, n, s).1;
      PreviousStep(c, n, t) == (Some(s.current), t.(current := s.current, history := s.history))
  {
    var t := NextStep(c, n, s).1;
    assert Guarded(t.history, t.current) == t.history;
    assert DropLast(t.history) == s.history;
  }

  /** The self-reference guard: when the top of the history is the current row,
      `previous()` skips it and returns the entry below it. */
  lemma PreviousSkipsCurrent(c: Config, n: nat, s: State)
    requires c.Valid() && Inv(c, n, s) && n > 0
    requires |s.history| >= 2 && Last(s.history) == s.current
    ensures var h := s.history;
      PreviousStep(c, n, s) == (Some(h[|h| - 2]), s.(current := h[|h| - 2], history := h[..|h| - 2]))
  {
    var h := s.history;
    assert DropLast(DropLast(h)) == h[..|h| - 2];
  }

  /** From a history that is empty, or holds only the current row and so is emptied
      by the guard, `previous()` refills it and returns the row before the current
      one, wrapping to the last row from row 0; on a list of two or more tracks
      that is never the current row. */
  lemma PreviousFromEmptyHistory(c: Config, n: nat, s: State)
    requires c.Valid() && Inv(c, n, s) && n > 0 && c.stackBatch >= 1
    requires Guarded(s.history, s.current) == []
    ensures PreviousStep(c, n, s).0 == Some((s.current - 1) % n)
    ensures PreviousStep(c, n, s).1.history == DropLast(Backfill(c, n, s.current))
    ensures n >= 2 ==> PreviousStep(c, n, s).0 != Some(s.current)
  {
    BackfillRows(c, n, s.current);
    if s.current >= 1 {
      ModUnique(s.current - 1, 0, s.current - 1, n);
    } else {
      ModUnique(s.current - 1, -1, n - 1, n);
    }
  }
}
