# A verified model of the 99-game solver

The 99 game is a solitaire played on a grid of digits, nine cells wide and
read row by row as one sequence. A move either crosses out two live cells
whose values match, or duplicates the board. Two values match when they are
equal or sum to 10. A cross move may pair a cell with the nearest live cell
below it in its column, or with the next live cell in reading order. The
duplicate move appends a copy of every live cell to the end. Crossing out
can leave dead runs, and whole rows of such a run are removed. The game is
won when no live cell is left.

The solver in `src/main.rs` runs A* over boards. Boards are rebuilt on
demand from an append-only arena of `(prev_index, move_index)` nodes. A
node's move is stored as its ordinal in the order the move enumerator
yields moves, so that order is load-bearing.

The Dafny project models four parts of that file:

- `boards.dfy`, module `Boards`: `FullBoard` and its operations. This
  covers the opening board, duplication, removal of a matching pair,
  dead-row compaction (`clean_dead_around`), the three nearest-live-cell
  searches, `apply_move`, the goal test and the heuristic. It also holds
  `is_match`.
- `enumeration.dfy`, module `Enumeration`: the `MovesIter` state machine,
  step by step. It is proved to yield exactly a reference list `Moves(b)`
  and then stop. `Moves(b)` takes the live cells in ascending order. For
  each one it lists the down cross, if that pair matches, then the right
  cross, if that pair matches. `Duplicate` comes last.
- `heuristic.dfy`, module `Heuristic`: how `compute_h_score` changes along
  each enumerated move.
- `paths.dfy`, module `Paths`: `IncrementalNode`, `reconstruct_rev_moves`,
  `reconstruct_path` and `reconstruct_state`, and their round trip against
  an arena recorded from a list of moves.
- `search.dfy`, module `Search`: one turn of the loop in `run`. A turn pops
  the smallest bucket, skips a tombstone, and expands with the goal test at
  generation time. Each successor is admitted in one of three ways: new,
  discarded, or improving. An improving successor tombstones its old slot
  and rewrites its arena entry.

How the code's types are represented:

- Cells, indices and costs are `nat`. A board is `seq<nat>` with `0` for a
  dead cell.
- The u32 sentinel `BoardIndex::max_value()` in the open set is a
  `Tombstone` constructor.
- The `seen` map is keyed by the board itself.
- Every place where the code would panic is an explicit error result:
  - a failed `unwrap` or `expect`;
  - an index out of range;
  - a parent walk that would never reach index 0.

  `ReconstructRevMoves` and `Replay` return `None` in these cases.
  `Step` and `Visit` return `Panicked`, and `Admit` returns `None`.
- The `assert!`s of `new_without` (lines 84 and 88) are preconditions.

Two points of the move order follow the code closely:

- `Duplicate` is yielded last, once the scan pointer passes the end of the
  board (src/main.rs:223-229). This holds even though the field name
  `reported_first` suggests it comes first.
- Every live cell is a start position, including the partner of a
  `CrossDown` that was just yielded. After a `CrossRight`, the partner
  becomes the next start (src/main.rs:256-263).

## Model

| member | source | states |
|---|---|---|
| Boards.IsMatchSymmetric | src/main.rs:271-273 | whether two values match does not depend on their order |
| Boards.New | src/main.rs:57-68 | the opening board has 27 cells: 1..9 in the first row, then the pairs (1, j) for j = 1..9; every cell is live and below BASE |
| Boards.NewDuplicated | src/main.rs:70-79 | the parent is kept as an exact prefix, and exactly its live cells follow in order; the length grows by the live count, the live count doubles, and cell values stay below BASE |
| Boards.KillCell | src/main.rs:92-93 | zeroing one cell removes exactly that cell from the sequence of live cells and lowers the live count by one if it was live |
| Boards.FindFirst | src/main.rs:129-136 | a found index lies at or after the start, in range, on a live cell |
| Boards.FindFirstNearest | src/main.rs:129-136 | every cell from the start up to the found index is dead; with no result, every cell from the start on is dead |
| Boards.FindPrev | src/main.rs:138-145 | a found index lies strictly before the start, on a live cell |
| Boards.FindPrevNearest | src/main.rs:138-145 | every cell between the found index and the start is dead; with no result, every cell before the start is dead |
| Boards.FindDown | src/main.rs:147-154 | a found index lies strictly below the start in the same column (a positive multiple of 9 further on), on a live cell |
| Boards.FindDownNearest | src/main.rs:147-154 | every cell of that column between the start and the found index is dead; with no result, the rest of the column is dead |
| Boards.RunStart | src/main.rs:105-109 | `first_dead` is at or before the position, every cell from it to the position is dead, and the cell before it (if any) is live |
| Boards.RunEnd | src/main.rs:110-114 | `last_dead` is at or after the position, every cell from the position to it is dead, and the cell after it (if any) is live |
| Boards.DeadRunUnique | src/main.rs:105-114 | the maximal dead run containing a position is unique |
| Boards.CleanDeadAround | src/main.rs:99-127 | an out-of-range or live position leaves the board unchanged; otherwise the board shrinks by a whole number of rows |
| Boards.CleanCutsMaximalRun | src/main.rs:99-127 | on a dead position, exactly floor(runLength/9)*9 cells are removed, from the start of the maximal dead run containing it |
| Boards.RemoveDeadSpan | src/main.rs:122-124 | removing a span of dead cells leaves the sequence of live cells unchanged |
| Boards.CleanKeepsLive | src/main.rs:99-127 | compaction never changes the sequence of live cells |
| Boards.CleanWellFormed | src/main.rs:99-127 | compaction keeps every cell value below BASE |
| Boards.NewWithoutLive | src/main.rs:81-97 | the live cells of the result are those of the parent with the two crossed positions removed; for two distinct live cells the live count drops by exactly 2 |
| Boards.NewWithoutWellFormed | src/main.rs:81-97 | removing a pair keeps every cell value below BASE |
| Boards.ApplyMove | src/main.rs:170-179 | `Duplicate` lengthens the board by its live count, and a cross move never lengthens it |
| Boards.ApplyMoveWellFormed | src/main.rs:170-179 | every move keeps all cell values in [0, BASE) |
| Boards.NoLiveIffAllDead | src/main.rs:181-184 | a board has no live cell exactly when every cell is 0 |
| Boards.IsGoal | src/main.rs:181-184 | the goal test holds exactly when the live count is 0 |
| Boards.HScore | src/main.rs:186-196 | the heuristic is 0 exactly on a goal board, and twice it is at least the live count (each cross removes only two cells) |
| Enumeration.YieldedIsLegal | src/main.rs:236-263 | every cross move the scan can yield has start < partner, and both cells are in range, live and matching, which meets the asserts of `new_without` |
| Enumeration.Moves | src/main.rs:221-268 | a non-goal board has at least one move; the last is `Duplicate`, all others are legal crosses, and there are at most 2·live + 1 of them |
| Enumeration.MovesFromComplete | src/main.rs:221-268 | every cross the scan can yield from a cell at or after `c` is in the moves listed from `c` |
| Enumeration.MovesExactlyYielded | src/main.rs:221-268 | a cross move is enumerated if and only if it pairs a live cell with its nearest live cell below, or with the next live cell, and the two match |
| Enumeration.CrossDownYielded | src/main.rs:236-245 | `CrossDown(s, p)` is enumerated if and only if `s` is live, `p` is the nearest live cell below it, and their values match |
| Enumeration.CrossRightYielded | src/main.rs:250-265 | `CrossRight(s, p)` is enumerated if and only if `s` is live, `p` is the next live cell after it, and their values match; partners are not skipped as starts |
| Enumeration.MovesOrdered | src/main.rs:221-268 | the crosses come in strictly increasing order of start cell, and a cell's down cross comes before its right cross |
| Enumeration.MovesApplicable | src/main.rs:394-395 | every enumerated move can be applied by `apply_move`, and a cross never names the same cell twice |
| Enumeration.IterNew | src/main.rs:207-214 | the new iterator points at the first live cell with nothing reported yet, and every earlier cell is dead |
| Enumeration.IterNext | src/main.rs:221-268 | one call keeps the iterator on a live cell or at the end; it returns None exactly when it is past the end and `Duplicate` has been reported, and then the state does not change; each Some makes progress; every yielded cross is legal |
| Enumeration.DrainYieldsMoves | src/main.rs:207-268 | calling `next` from `new` until None yields exactly the reference list: crosses by ascending start cell, down before right, then one `Duplicate` |
| Enumeration.DrainFinished | src/main.rs:223-229 | once the scan pointer is past the end, the iterator yields `Duplicate` and then stops |
| Enumeration.IterFused | src/main.rs:217-230 | after the first None, `next` keeps returning None, as the `FusedIterator` marker promises |
| Enumeration.OrdinalsFitMoveIndex | src/main.rs:399-402 | on a board with at most 127 live cells, every move ordinal fits the u8 `move_index` |
| Heuristic.CrossLowersHByOne | src/main.rs:186-196 | a cross move lowers the live count by exactly 2 and the heuristic by exactly 1 |
| Heuristic.DuplicateLowersHAtMostOne | src/main.rs:186-196 | `Duplicate` doubles the live count and lowers the heuristic by at most 1 |
| Heuristic.HConsistent | src/main.rs:403-405 | along every enumerated move the heuristic drops by at most 1, which makes it consistent for unit move cost |
| Paths.RankedWalk | src/main.rs:281-293 | in an arena where every entry's parent is one level shallower, the parent walk from an entry reaches index 0 and collects one move index per level |
| Paths.RevMovesDepth | src/main.rs:281-293 | in such an arena, `reconstruct_rev_moves` succeeds and returns as many move indices as the entry's depth |
| Paths.FuelMonotone | src/main.rs:286-290 | a walk that ends at the root gives the same moves however many more steps it is allowed |
| Paths.WalkInPrefix | src/main.rs:286-290 | appending arena entries never changes the walk from an existing entry |
| Paths.ReplayIsFold | src/main.rs:299-307 | replay produces one move per ordinal, and applying those moves in turn from the start board gives the board it returns |
| Paths.ReplayAdmissible | src/main.rs:186-196 | the start board's heuristic is at most the number of replayed moves plus the heuristic of the board reached |
| Paths.RootIsStart | src/main.rs:281-314 | index 0 rebuilds as the start board with no moves and cost 0 |
| Paths.StateCostIsDepth | src/main.rs:310-314 | the cost `reconstruct_state` returns is the entry's depth in the arena |
| Paths.ExtendPath | src/main.rs:399-408 | a new entry (prev = cur, move = k) rebuilds as cur's path followed by the k-th enumerated move of cur's board |
| Paths.RecordWalk | src/main.rs:281-293 | an arena recorded as a chain of ordinals walks back from entry j to exactly the first j ordinals, reversed |
| Paths.ReplayOrdinals | src/main.rs:295-308 | replaying the ordinals of a list of enumerable moves yields exactly those moves and the board they reach |
| Paths.RecordRoundTrip | src/main.rs:281-314 | an arena built by recording each move's index in the enumeration rebuilds exactly those moves and their final board |
| Search.Seed | src/main.rs:352-354 | the search starts with only the root entry (0, 0) in the arena, a single bucket under score 0 holding that root, and nothing seen |
| Search.SeedValid | src/main.rs:352-354 | the starting state has no empty bucket, and every queued index names an arena entry |
| Search.MinKey | src/main.rs:360-362 | the first key of the ordered open set is the smallest score |
| Search.Push | src/main.rs:433-435 | pushing to a score's bucket creates it if needed and appends only on top of that bucket; every other bucket is unchanged |
| Search.PopTakesMinTop | src/main.rs:357-373 | pop takes the top slot of the smallest score's bucket and deletes the key exactly when the bucket held one slot; other buckets are untouched, and no empty bucket remains |
| Search.PopValid | src/main.rs:357-373 | popping a valid open set succeeds and keeps the state valid |
| Search.StepExhausted | src/main.rs:360-361 | a turn returns the empty path exactly when the open set is empty |
| Search.StepSkipsTombstone | src/main.rs:374-377 | a popped tombstone is skipped; the only change is the pop |
| Search.AdmitDiscards | src/main.rs:414-419 | a successor already seen with a score no greater than the new one changes nothing |
| Search.AdmitNew | src/main.rs:437-446 | an unseen successor grows the arena by exactly its node and `seen` by exactly its key; it is pushed on top of the bucket for its score, and `seen` records that score and position; every other bucket and every earlier slot is unchanged |
| Search.AdmitRewrites | src/main.rs:420-436 | a cheaper rediscovery tombstones the old slot, overwrites the same arena index (the arena length is unchanged), pushes that index on the new score's bucket, and records the new score and position in `seen`; every other slot, bucket and `seen` entry is unchanged |
| Search.AdmitPanics | src/main.rs:414-436 | admission fails exactly when a cheaper rediscovery finds its recorded slot missing, already a tombstone, or naming no arena entry |
| Search.PushValid | src/main.rs:433-444 | pushing an arena index keeps every bucket non-empty and every queued index inside the arena |
| Search.AdmitValid | src/main.rs:414-446 | admission keeps the state valid, and the arena grows by at most one entry |
| Search.ExpandStopsAtFirstGoal | src/main.rs:394-409 | when expansion stops on a goal, it is the first goal among the neighbours in enumeration order |
| Search.ExpandDoneNoGoal | src/main.rs:394-448 | an expansion that handles every neighbour met no goal |
| Search.ExpandValid | src/main.rs:394-448 | an expansion that does not panic keeps the state valid |
| Search.VisitValid | src/main.rs:379-448 | expanding the popped entry keeps the state valid |
| Search.StepValid | src/main.rs:356-449 | a valid state always pops, and a turn that skips or expands leaves a valid state |
| Search.Finish | src/main.rs:405-409 | on a goal, the turn either returns a path or panics, and never continues the loop |
| Search.FinishIsLegal | src/main.rs:405-409 | the path returned for a goal is a legal play from the start board |
| Search.FoundIsLegal | src/main.rs:405-409 | whatever path a turn returns is a legal play from the start board |
| Search.GoalPath | src/main.rs:405-408 | if the parent's chain is undisturbed and at most 127 cells are live, the goal branch returns the parent's moves plus the goal move, and playing that path from the start board ends on a goal |
| Paths.AsMoveIndex | src/main.rs:401 | the recorded ordinal is below 256, and equals the ordinal whenever that fits in a u8 |
| Search.MoveIndexLossless | src/main.rs:399-402 | on a board with at most 127 live cells, every enumerated move's ordinal is recorded exactly |

## Left out

- Printing is not modelled: `main`, every `println!`, the memory-statistics
  block with its `f32` estimates, progress reporting, and the `Debug`
  formatting of boards and moves. None of it affects the result.
- `get_hash` (SHA-256 over the `Debug` text, cut to 16 bytes) is not
  modelled. The board itself is the `seen` key, so hash collisions are not
  modelled.
- The outer `loop` of `run` is not iterated. The model is one turn (`Step`)
  plus the invariant it keeps (`Valid`), not termination or global
  optimality of A*.
- Search.GoalPath: takes as a hypothesis that cur's chain is undisturbed,
  because an earlier improving admission in the same expansion could
  rewrite an arena entry on that chain. Ruling this out needs the A*
  argument that a consistent heuristic never improves an ancestor. Only
  the consistency itself is proved (`Heuristic.HConsistent`). It also
  assumes at most 127 live cells. Beyond that, `move_index as u8` can
  wrap, and the recorded ordinal names a different move.
- Search.FoundIsLegal: states that the returned path is legal, not that it
  ends on a goal, for the same reason as `Search.GoalPath`.
- Search.FinishIsLegal: states that the path returned by the goal branch is
  legal, not that it ends on a goal, for the same reason as
  `Search.GoalPath`.
- Machine widths are mostly not modelled as wrap-around. The u8 `Cost`
  and `CellIndex` and the u32 `BoardIndex` are `nat`s.
  - `g + 1 + h` and `moves.len() as Cost` are unbounded in the model. The
    source computes them in u8 and can overflow there.
  - The iterator functions `IterNew` and `IterNext` require boards of at
    most 255 cells (`|b| <= MAX_CELLS`). Beyond that, `as CellIndex`
    truncates (lines 211, 242, 253 and 263), and `next_cell + 1`
    overflows (line 250).
  - The reference list `Moves`, which `Replay`, `Neighbours`, `Expand`,
    `Visit` and `Step` use, has no such bound. On a board of more than 255
    cells, they model the untruncated enumeration, which the source does
    not perform.
  - `move_index as u8` (line 401) is modelled: `Expand` and `Finish`
    record `AsMoveIndex(k)`, the ordinal modulo 256. It is lossless for
    boards of at most 127 live cells (`Search.MoveIndexLossless`).
- Enumeration.IterNew: requires a non-goal board. The source panics there
  (`expect("Moves for empty Board?!")`, line 208) and no caller reaches it.
- Boards.NewWithout: requires both indices in range and a match, which are
  the `assert!`s of lines 84 and 88.
- The `assert!(oldneighbor_open_index != BoardIndex::max_value())` of
  line 415 is not modelled. A slot position is a `nat` and can never equal
  the sentinel.
- `reconstruct_rev_moves` walks with fuel equal to the arena size. A
  cyclic arena, on which the source would loop forever, gives `None`.
- `HashMap` and `BTreeMap` internals are not modelled. They are Dafny
  `map`s, and the smallest key is taken by `MinKey`.
