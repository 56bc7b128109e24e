# Flood-fill path history

A Dafny model of `History`, the bounded-undo log of a flood-fill maze
mouse. While the mouse travels, the log keeps four containers in lockstep:

- the **path** travelled since the checkpoint (checkpoint cell first);
- the **snapshot queue**: the frontier stacks the search pushed, oldest
  first, each with a **reference count** of the path steps that depend on it;
- the **modified-cells log**: one list of `(cell, wallTag)` records per step;
- the **checkpoint stack**: always the oldest retained snapshot.

Each step the search calls `moved`, `stackUpdate` and `modifiedCellsUpdate`.
`moved` slides the window when the path grows past the short-term memory
`stm`. `resetModifiedCells` rolls back to the checkpoint: for every logged
record it clears the cell's predecessor and the inspected-wall flag the tag
names (tag 4 clears all four), then re-seeds the log at the checkpoint.

Files:

- `cells.dfy` (module `Cells`): the maze's cells as an arena of ids. A cell
  pointer is an index; `prev: array<int>` holds predecessors (`NULL` is -1)
  and `walls: array2<bool>` holds the four inspected-wall flags per cell.
- `history.dfy` (module `FloodFillHistory`): the `History` class with one
  `seq` field per container. A queue or list is a sequence whose oldest
  entry is at index 0. A stack is a sequence whose top is its last element.
  The module also holds the functions that specify the reference-count
  updates, the flattened log with what it names and clears, and the
  characterisation of the checkpoint path.

`History.Valid()` is the lockstep invariant:

- `stm >= 1`;
- `1 <= |path| <= stm + 1`, so `0 <= Size() <= stm`;
- the sum of the reference counts equals `|path|`;
- the snapshot queue and the count queue have the same length;
- the checkpoint stack equals the oldest snapshot;
- the log has at most `stm` entries;
- every snapshot is non-empty, and every stored cell lies in the arena.

`Moved`, `StackUpdate`, `ModifiedCellsUpdate` and `ResetModifiedCells`
require `Valid()`, keep it, and state their whole new state in terms of the
old one. `Initialize` establishes `Valid()` from any state. The helpers state
less: `EraseContainers` only empties the four containers it pops, and
`RevertRecord`, `RevertList` and `RevertLog` require only a valid maze and
state their effect on the cells' links and wall flags. A consequence of
`Valid()`: the queue is never empty, so
the "zero stack references" guards in `moved` and `stackUpdate` can never
fire, and `m_stacks.front()` after a retirement is always defined.

## Model

| member | source | states |
|---|---|---|
| `FloodFillHistory.History.Initialize` | src/algo/floodFill/History.cpp:5-51 | establishes the invariant with path `[origin]`, snapshots `[[origin]]`, counts `[1]`, checkpoint `[origin]`, empty log, `Size() == 0`, and, when the origin has no predecessor, checkpoint cell `origin` and the same seeded state `AtCheckpoint()` that a rollback leaves |
| `FloodFillHistory.History.EraseContainers` | src/algo/floodFill/History.cpp:10-22 | the pop-until-empty loops leave path, snapshot queue, counts and log empty and touch nothing else |
| `FloodFillHistory.History.Size` | src/algo/floodFill/History.cpp:53-56 | the number of steps since the checkpoint lies in `0..stm` and is one less than the sum of the reference counts |
| `FloodFillHistory.History.GetCheckpointCell` | src/algo/floodFill/History.cpp:58-74 | the predecessor of the checkpoint snapshot's top cell when it has one, otherwise that top cell; always a cell of the arena |
| `FloodFillHistory.History.GetCheckpointPath` | src/algo/floodFill/History.cpp:76-104 | the result is the predecessor chain from the checkpoint cell without the origin: bottom is the checkpoint cell, each entry links to the next, the top links to a cell without predecessor; empty exactly when the checkpoint cell is the origin |
| `FloodFillHistory.CheckpointPathUnique` | src/algo/floodFill/History.cpp:85-92 | the links determine the checkpoint path: two sequences that both satisfy the characterisation are equal |
| `FloodFillHistory.History.GetCheckpointStack` | src/algo/floodFill/History.cpp:106-120 | the returned snapshot is the oldest retained one and is non-empty |
| `FloodFillHistory.History.Moved` | src/algo/floodFill/History.cpp:122-167 | keeps the invariant and the `Size() <= stm` bound; appends the cell and evicts the oldest path entry exactly when the old path already held `stm + 1` cells; credits the newest count and debits the oldest on eviction; retires exactly one snapshot when the oldest count reaches 0; appends an empty log entry and drops the oldest when the log exceeds `stm` |
| `FloodFillHistory.IncNewest` | src/algo/floodFill/History.cpp:133-135 | the newest count grows by one, all other counts are kept, the sum grows by one |
| `FloodFillHistory.DecOldest` | src/algo/floodFill/History.cpp:153-155 | the oldest count shrinks by one, all other counts are kept, the sum shrinks by one |
| `FloodFillHistory.Counted` | src/algo/floodFill/History.cpp:133-156 | a move adds one step to the counts' sum, and a move with eviction keeps the sum |
| `FloodFillHistory.History.StackUpdate` | src/algo/floodFill/History.cpp:169-203 | keeps the invariant; appends the snapshot and moves one unit from the old newest count to a new count of 1; path, log and checkpoint unchanged |
| `FloodFillHistory.Reattribute` | src/algo/floodFill/History.cpp:186-189 | one more count, the same sum, the old newest count one lower, the new count 1, the older counts kept |
| `FloodFillHistory.History.ModifiedCellsUpdate` | src/algo/floodFill/History.cpp:205-217 | the newest log entry becomes the given list, or the list is appended to an empty log; older entries and the other containers are unchanged |
| `FloodFillHistory.History.RevertRecord` | src/algo/floodFill/History.cpp:229-240 | the record's cell loses its predecessor; tag 4 clears its four wall flags, a tag `d` below 4 clears only flag `d`; every other cell and flag is unchanged |
| `FloodFillHistory.History.RevertList` | src/algo/floodFill/History.cpp:226-241 | every cell the list names loses its predecessor and every other cell keeps its link; a wall flag is cleared when some record of the list asks for it, and otherwise keeps its value |
| `FloodFillHistory.History.RevertLog` | src/algo/floodFill/History.cpp:221-242 | every cell named by some step of the log loses its predecessor and every other cell keeps its link; a wall flag is cleared when some logged record asks for it, and otherwise keeps its value; both stated over the flattened log |
| `FloodFillHistory.FlattenHoldsLoggedRecords` | src/algo/floodFill/History.cpp:221-226 | the flattened log holds exactly the records of the log's steps |
| `FloodFillHistory.History.ResetModifiedCells` | src/algo/floodFill/History.cpp:219-267 | reverts exactly the cells and flags named in the log; then the log is empty, the snapshots are `[checkpoint]` with counts `[1]`, the checkpoint is kept, the path is `[GetCheckpointCell()]` on the reverted cells, and `Size() == 0`; the checkpoint cell is unchanged when no record names the checkpoint snapshot's top; a call that starts from this rolled-back state changes nothing (idempotence) |
| `FloodFillHistory.RollbackMovesCheckpointCell` | src/algo/floodFill/History.cpp:221-265 | with checkpoint top 1, `prev[1] == 0` and `Record(1, 4)` in the last log step, the checkpoint cell is 0 before the rollback and 1 after it, and the path is re-seeded as `[1]` |

## Notes

- The checkpoint cell that re-seeds the path is computed after the cells are
  reverted (src/algo/floodFill/History.cpp:265). If a logged record names the
  checkpoint snapshot's top cell, its predecessor is cleared first, and the
  checkpoint cell becomes that top cell, so the rollback does not in general
  restore the checkpoint cell reported before it. The model follows the code.
  `ResetModifiedCells` proves the cell unchanged only when no record names
  the top cell, and `RollbackMovesCheckpointCell` exhibits a state in which
  it moves: top cell 1 with predecessor 0, and a last log step holding
  `Record(1, 4)`. `RollbackAfterOneStep` reaches that state from a fresh
  three-cell maze through the search's own call order (`initialize`,
  `stackUpdate`, `modifiedCellsUpdate`, `moved`, `stackUpdate`,
  `modifiedCellsUpdate`) before rolling back.
- The log copy processed by the rollback is walked list by list and record by
  record, as in the source. Clearing a predecessor or a flag is idempotent,
  so the final cell state depends only on which records are logged.

## Left out

- `printS`, `printC` and the console output at src/algo/floodFill/History.cpp:83: debug output only.
- The `exit(0)` branches at src/algo/floodFill/History.cpp:129-132 and 174-177: `Valid()` is required and proves both guards false, so the model has no such branch.
- `Initialize` requires `stm >= 1`. With `stm == 0`, an eviction can push a count below 0 and it is never retired, and the log can hold one entry more than `stm`.
- `StackUpdate` requires a non-empty snapshot, because an empty checkpoint stack has no top to read.
- Cell pointers are arena ids. The requirement that every cell handed to the log lies in the arena stands for pointer validity.
- Wall tags are the type `WallTag` (0..4). A larger tag would index past the source's four flags.
- `GetCheckpointPath` takes a ghost `rank` on the whole arena that decreases along every predecessor link. The source loops forever only when the chain from the checkpoint cell never reaches NULL, so this requirement is stronger than what the source needs: it also rules out cycles elsewhere in the arena.
- `Moved` computes the new containers on local copies and writes them back together. No one observes the intermediate states, so nothing is lost.
- Reference counts are not proved to stay positive. Right after `initialize` the search calls `stackUpdate` without a preceding `moved`, which leaves a 0 count at the front until the next move retires it. The invariants above hold for any order of calls.
- The `History` constructor and header are not part of this model. The model's constructor only binds the maze arena. `initialize` must be called before use.
- src/sim/World.cpp, src/sim/Wheel.cpp and src/sim/MouseInterface.h are simulator code, real-time loops and floating-point geometry. They are outside the log.
- The flood-fill algorithm that calls `History` is not part of this model.
