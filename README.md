# PlayQueue playback sequencer

This project models the `PlayQueue` class of a Qt music player. Given an ordered
play list and a current row, `PlayQueue` decides which track plays on "next" and
which on "previous". It keeps four pieces of state:

- `current_item_row`, the row now playing;
- `default_queue`, a FIFO of upcoming rows refilled ten at a time, wrapping past
  the end of the list;
- `user_added_queue`, a FIFO of rows the user asked for, always drained first;
- `history_stack`, a LIFO of rows already played, refilled backwards from the
  current row when it runs empty.

The play list is `n` distinct items, and the item of row `r` reports row `r`
back. A track reference is therefore its row.

The project has four modules:

- `Rows` (rows.dfy) holds the wrap-around scan arithmetic that both refill loops
  share. `ScanRow` and `BoundedScan` follow the loops step by step and use no
  `%`. The lemmas `ScanRowClosedForm`, `LiftClosedForm` and `ScanRowShift` turn
  them into `(start + k) mod n` and relate two scans to each other.
- `Sequencer` (sequencer.dfy) holds the state as a value (`State`) and one
  function per operation. These functions are the specification. `Inv` is the
  invariant every operation keeps: all rows are valid and both queues stay
  within the queue capacity.
- `Playback` (play_queue.dfy) holds the class `PlayQueue`. Its fields are
  updated in place by methods that follow the C++ line by line. Each method is
  proved to return and leave exactly what its `Sequencer` function says.
- `Properties` (properties.dfy) holds the lemmas about those functions: refill
  contents, queue priority, in-order playback, and how `previous()` undoes
  `next()`.

The compile-time constants are the parameter `Config`. `Sequencer.Defaults` is
the header's 200/200/10/10 (`HISTORYSIZE`, `QUEUESIZE`, `AUTO_QUEUE_BATCH`,
`AUTO_STACK_BATCH`). mainwindow.h:95-98 defines its own macros (`QUEUESIZE`
300, batches of 20) for the window's older copy of this logic; playqueue.cpp
includes only playqueue.h, so 200/200/10/10 is in force. Three further facts
about the code shape the model:

- `next()` pushes onto the history without a size check, so the history is
  bounded only right after a refill (`Inv` does not bound it).
- `updatePlayingQueue` also empties the user queue.
- There is no mode flag: only in-order playback exists.

## Model

| member | source | states |
|---|---|---|
| Playback.PlayQueue.constructor | playqueue.cpp:3-10 | a new queue is at row 0 with all three containers empty, the state `clear()` also produces |
| Playback.PlayQueue.UpdatePlayingQueue | playqueue.cpp:26-37 | on an empty list nothing changes; otherwise the loop leaves the default queue equal to `Refill` from the given row and empties the user queue, and the queue never holds more than the queue capacity while it is filled |
| Playback.PlayQueue.SetHistoryStack | playqueue.cpp:39-51 | on an empty list nothing changes; otherwise, for any row, the lift loop and the scan leave the history equal to `Backfill` from that row, never above the history capacity, and touch nothing else |
| Playback.PlayQueue.Clear | playqueue.cpp:53-59 | row 0 and all three containers empty |
| Playback.PlayQueue.AddToUserQueue | playqueue.cpp:61-69 | the user queue becomes `Enqueued` of its old value and the selection; nothing else changes |
| Playback.PlayQueue.Current | playqueue.cpp:71-75 | none exactly when the list is empty, otherwise the item at the current row |
| Playback.PlayQueue.Next | playqueue.cpp:77-98 | returned item and new state are those of `NextStep`, and the invariant is kept |
| Playback.PlayQueue.Previous | playqueue.cpp:100-120 | returned item and new state are those of `PreviousStep`, and the invariant is kept |
| Playback.PlayQueue.SetCurrentItemRow | playqueue.cpp:123-126 | only the current row changes |
| Rows.StartRowInRange | playqueue.cpp:33 | the wrap at the top of each refill iteration (also playqueue.cpp:47) keeps a non-negative row inside the list and leaves a row before the end unchanged |
| Rows.Push | playqueue.cpp:34-35 | one drop-oldest push (also playqueue.cpp:48-49): a container within its capacity grows by one up to the capacity, and the pushed row is on top |
| Rows.PushKeepsNewest | playqueue.cpp:34-35 | below the pushed row, the container keeps its newest elements in their order |
| Rows.Lift | playqueue.cpp:44 | the row after `while (row < 0) row += count` is non-negative, and inside the list when the row was below its end |
| Rows.ScanRow | playqueue.cpp:31-36 | each row the refill loop reads is a valid row of the list |
| Rows.BoundedScan | playqueue.cpp:31-36 | a container bounded at `cap` and filled by `k` drop-oldest pushes holds the newest `min(k, cap)` rows the scan read, in reading order |
| Rows.ScanRowClosedForm | playqueue.cpp:33-35 | iteration `k` of the scan reads row `(s + k) mod n`, where `s` is the start row after the first wrap to row 0 |
| Rows.LiftClosedForm | playqueue.cpp:44 | lifting a negative row by whole list lengths reduces it modulo the list length |
| Rows.ScanRowShift | playqueue.cpp:33-35 | a scan restarted just after the row read by iteration `a` continues the original scan |
| Sequencer.Refill | playqueue.cpp:29-36 | the refilled default queue holds `min(batch, capacity)` valid rows, at least one and at most the queue capacity |
| Sequencer.Backfill | playqueue.cpp:42-50 | the refilled history holds `min(batch, capacity)` valid rows, at most the history capacity |
| Sequencer.Enqueued | playqueue.cpp:63-68 | the old queue is kept as a prefix and followed by a prefix of the selection in selection order; a full queue is unchanged; otherwise the queue grows to `min(capacity, old + selected)`, so it never exceeds the capacity it started within |
| Sequencer.Initial | playqueue.cpp:55-58 | row 0 with nothing queued or stacked (also the constructor at playqueue.cpp:6), a state that keeps the invariant for every list length and every set of constants |
| Sequencer.CurrentItem | playqueue.cpp:71-75 | none exactly when the list is empty, otherwise the current row |
| Sequencer.Guarded | playqueue.cpp:106-107 | the guard leaves a prefix of the history, one entry shorter exactly when the top is the current row |
| Sequencer.NextStep | playqueue.cpp:77-98 | `next()` keeps the invariant; on a non-empty list it returns the new current row and pushes the row left onto the history |
| Sequencer.PreviousStep | playqueue.cpp:100-120 | `previous()` keeps the invariant and both queues; the current row becomes the returned row, or stays when none is returned |
| Sequencer.NextRun | playqueue.cpp:77-98 | `k` calls of `next()` return `k` results and keep the invariant |
| Properties.EmptyListIsInert | playqueue.cpp:73-104 | on an empty list `current()`, `next()` and `previous()` return none and change nothing |
| Properties.RefillRows | playqueue.cpp:29-36 | a refill from `r` holds rows `(r' + i) mod n`, with `r' = 0` when `r` is past the end; when the batch fits the queue it holds exactly `queueBatch` such rows |
| Properties.BackfillRow | playqueue.cpp:43-50 | entry `i` of a history refill of length `m` from a valid row `r` is `(r - m + i) mod n` |
| Properties.BackfillRows | playqueue.cpp:42-50 | a history refill of length `m` from a valid row `r` holds rows `(r - m + i) mod n` bottom to top, exactly `stackBatch` of them when the batch fits, with `(r - 1) mod n` on top |
| Properties.NextSelection | playqueue.cpp:84-95 | `next()` takes the user queue's front whenever there is one and leaves the default queue alone; otherwise it takes the default queue's front, refilling from the row after the current one only when that queue is empty |
| Properties.UserQueueDrainsFirst | playqueue.cpp:84-87 | `k` calls of `next()` with at least `k` user requests return those requests in order and leave the default queue as it was |
| Properties.ScanTail | playqueue.cpp:91 | dequeuing the front of a scanned queue leaves the scan that starts after that front |
| Properties.InOrderStep | playqueue.cpp:88-95 | with no user request pending and the batch fitting the queue, `next()` returns the next row of the forward scan and stays in order |
| Properties.InOrderStepQueued | playqueue.cpp:91 | the in-order step when the default queue is not empty |
| Properties.InOrderStepRefill | playqueue.cpp:90-91 | the in-order step when the default queue is refilled |
| Properties.InOrderRun | playqueue.cpp:88-95 | successive calls of `next()` from an in-order state return the rows of the forward scan from the row after the current one |
| Properties.InOrderWraps | playqueue.cpp:88-95 | from an in-order state at row `r`, successive `next()` calls return `(r + 1) mod n`, `(r + 2) mod n`, ... |
| Properties.ClearedRun | playqueue.cpp:53-59 | after `clear()` successive `next()` calls play rows 1, 2, ... wrapping around the end of the list |
| Properties.FiveTracksFirstNext | playqueue.cpp:90-95 | with the header's constants and five tracks, the first `next()` after `clear()` plays row 1, queues 2, 3, 4, 0, 1, 2, 3, 4, 0 and pushes row 0 |
| Properties.PreviousUndoesNext | playqueue.cpp:106-117 | `previous()` right after a `next()` that moved to another row returns the row left and restores the current row and the history |
| Properties.PreviousSkipsCurrent | playqueue.cpp:106-113 | a top of the history equal to the current row is skipped once and the entry below it is returned |
| Properties.PreviousFromEmptyHistory | playqueue.cpp:106-117 | from a history that is empty, or that the guard empties because it holds only the current row, `previous()` returns `(current - 1) mod n`, which on two or more tracks is never the current row, and leaves the rest of the refilled history |

## Left out

- `setPlayList` (playqueue.cpp:19-23) and any structural change of the list: the list length `count` is a constant of the queue, and a queue over a changed list must be cleared.
- Dangling item references and `row()` returning -1 for removed items: every reference in the model is a valid row.
- `nextRand` is declared in playqueue.h but never defined. Shuffle and single modes and a jump operation do not exist in the code.
- `addToUserQueue` reads the list widget's selection. The model takes the selected rows as the parameter `selected`, in selection order.
- Playback.PlayQueue.UpdatePlayingQueue: requires a row `>= 0`. With a negative row the C++ enqueues the null item returned for an out-of-range row, and null items are not modelled. Its one caller passes `current_item_row + 1`.
- The default argument `row = 0` of `updatePlayingQueue` and `setHistoryStack` (playqueue.h:24-25): callers of the model pass the row explicitly.
- Playback.PlayQueue.SetCurrentItemRow: requires `0 <= row < count`. The C++ does not check, and a later `current()` would return null.
- Properties.BackfillRows: the closed form is stated for a valid current row only, which is what `previous()` passes. For other rows `Backfill` states only the size and validity of the result.
- Properties.InOrderStep: assumes `queueBatch <= queueSize`, which holds for the header's constants. Otherwise a refill drops its first rows.
- The history stack has no bound after `next()`, as in the code.
- mainwindow.cpp, musicPlayer.cpp and main.cpp are not part of this model. They hold the Qt user interface, media playback, settings persistence and the floating-point volume curve.
- QObject and signal machinery, and the destructor, which does nothing.
