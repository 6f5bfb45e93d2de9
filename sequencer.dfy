/** The playback sequencer's state as a value, and one function per operation of
    the play queue saying what the operation returns and what state it leaves.
    A track reference is the track's row in the play list: the list holds `n`
    distinct items and the item of row `r` reports row `r` back. */
module Sequencer {
  import opened Rows

  datatype Option<T> = None | Some(value: T)

  /** The queue's compile-time constants: history capacity, queue capacity, and the
      number of rows scanned by one refill of the default queue and of the history. */
  datatype Config = Config(historySize: nat, queueSize: nat, queueBatch: nat, stackBatch: nat)
  {
    /** Both capacities admit one element and a refill of the default queue yields
        one row; otherwise `next()` would dequeue from an empty queue. */
    predicate Valid() { historySize >= 1 && queueSize >= 1 && queueBatch >= 1 }
  }

  /** HISTORYSIZE, QUEUESIZE, AUTO_QUEUE_BATCH and AUTO_STACK_BATCH as defined in the
      header the play queue is compiled with. */
  const Defaults: Config := Config(200, 200, 10, 10)

  /** `current_item_row`, `default_queue`, `user_added_queue` and `history_stack`.
      A queue's front is index 0; the stack's top is its last element. */
  datatype State = State(current: int, defaultQueue: seq<int>, userQueue: seq<int>, history: seq<int>)

  /** The state after construction and after `clear()`: row 0 and nothing queued
      or stacked, which every operation may start from whatever the list length
      and the constants. */
  function Initial(): (s: State)
    ensures forall c: Config, n: nat :: Inv(c, n, s)
  {
    State(0, [], [], [])
  }

  predicate RowsIn(q: seq<int>, n: nat) { forall i :: 0 <= i < |q| ==> 0 <= q[i] < n }

  /** What every operation keeps: the current row and every queued or stacked
      reference are rows of the list, and both queues respect the queue capacity.
      The history has no bound: `next()` pushes without checking it. */
  predicate Inv(c: Config, n: nat, s: State)
  {
    (n > 0 ==> 0 <= s.current < n)
    && RowsIn(s.defaultQueue, n) && RowsIn(s.userQueue, n) && RowsIn(s.history, n)
    && |s.defaultQueue| <= c.queueSize && |s.userQueue| <= c.queueSize
  }

  function Last(h: seq<int>): int requires h != [] { h[|h| - 1] }

  function DropLast(h: seq<int>): seq<int> requires h != [] { h[..|h| - 1] }

  /** The default queue built by `updatePlayingQueue(row)`: `queueBatch` rows scanned
      forwards from `row` (from row 0 if `row` is past the end), of which a queue
      bounded at `queueSize` keeps the newest. */
  function Refill(c: Config, n: nat, row: int): (q: seq<int>)
    requires c.Valid() && n > 0 && row >= 0
    ensures |q| == Min(c.queueBatch, c.queueSize) && 1 <= |q| <= c.queueSize
    ensures RowsIn(q, n)
  {
    BoundedScan(row, n, c.queueBatch, c.queueSize)
  }

  /** The history built by `setHistoryStack(row)`, bottom to top: a scan of
      `stackBatch` rows forwards from `stackBatch` rows before `row` (lifted by whole
      list lengths while negative), of which a stack bounded at `historySize` keeps
      the newest. A row at or past the end is wrapped to row 0 by the scan. */
  function Backfill(c: Config, n: nat, row: int): (h: seq<int>)
    requires c.Valid() && n > 0
    ensures |h| == Min(c.stackBatch, c.historySize) && |h| <= c.historySize
    ensures RowsIn(h, n)
  {
    BoundedScan(Lift(row - c.stackBatch, n), n, c.stackBatch, c.historySize)
  }

  /** The user queue after `addToUserQueue()` with the selection `selected`: each
      selected reference is appended in turn until the queue holds `cap` entries. */
  function Enqueued(q: seq<int>, selected: seq<int>, cap: nat): (r: seq<int>)
    ensures |q| <= |r| <= |q| + |selected| && r[..|q|] == q
    ensures r[|q|..] == selected[..|r| - |q|]
    ensures |q| >= cap ==> r == q
    ensures |q| < cap ==> |r| == Min(cap, |q| + |selected|)
    decreases selected
  {
    if selected == [] || |q| >= cap then q
    else
      var r := Enqueued(q + [selected[0]], selected[1..], cap);
      assert r[|q|..] == [selected[0]] + r[|q| + 1..];
      r
  }

  /** `current()`: the item at the current row, or none when the list is empty. */
  function CurrentItem(n: nat, s: State): (item: Option<int>)
    ensures item == None <==> n == 0
    ensures item.Some? ==> item.value == s.current
  {
    if n == 0 then None else Some(s.current)
  }

  /** `next()`: the front of the user queue if there is one, else the front of the
      default queue, which is first refilled from the row after the current one when
      empty; the row being left is pushed onto the history. */
  function NextStep(c: Config, n: nat, s: State): (r: (Option<int>, State))
    requires c.Valid() && Inv(c, n, s)
    ensures Inv(c, n, r.1)
    ensures n > 0 ==> r.0 == Some(r.1.current) && r.1.history == s.history + [s.current]
  {
    if n == 0 then (None, s)
    else if s.userQueue != [] then
      (Some(s.userQueue[0]),
       State(s.userQueue[0], s.defaultQueue, s.userQueue[1..], s.history + [s.current]))
    else
      var q := if s.defaultQueue == [] then Refill(c, n, s.current + 1) else s.defaultQueue;
      (Some(q[0]), State(q[0], q[1..], [], s.history + [s.current]))
  }

  /** The self-reference guard of `previous()`: a top of the history equal to the
      current row is discarded once. */
  function Guarded(h: seq<int>, current: int): (r: seq<int>)
    ensures |h| - 1 <= |r| <= |h| && r == h[..|r|]
    ensures |r| < |h| <==> h != [] && Last(h) == current
  {
    if h != [] && Last(h) == current then DropLast(h) else h
  }

  /** `previous()`: discard a top of the history equal to the current row, refill the
      history backwards from the current row when it is empty, then pop the top and
      make it current. */
  function PreviousStep(c: Config, n: nat, s: State): (r: (Option<int>, State))
    requires c.Valid() && Inv(c, n, s)
    ensures Inv(c, n, r.1)
    ensures r.1.defaultQueue == s.defaultQueue && r.1.userQueue == s.userQueue
    ensures r.1.current == (if r.0.Some? then r.0.value else s.current)
  {
    if n == 0 then (None, s)
    else
      var h1 := Guarded(s.history, s.current);
      var h2 := if h1 == [] then Backfill(c, n, s.current) else h1;
      if h2 == [] then (None, s.(history := h2))
      else (Some(Last(h2)), s.(current := Last(h2), history := DropLast(h2)))
  }

  /** The items returned by `k` successive calls of `next()`, and the state they leave. */
  function NextRun(c: Config, n: nat, s: State, k: nat): (r: (seq<Option<int>>, State))
    requires c.Valid() && Inv(c, n, s)
    ensures |r.0| == k && Inv(c, n, r.1)
    decreases k
  {
    if k == 0 then ([], s)
    else
      var (item, s1) := NextStep(c, n, s);
      var (items, s2) := NextRun(c, n, s1, k - 1);
      ([item] + items, s2)
  }
}
