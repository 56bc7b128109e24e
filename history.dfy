/**
 * The bounded undo log of the flood-fill mouse. `History` keeps four
 * containers in lockstep: the path travelled since the checkpoint, the
 * queue of retained frontier snapshots with the number of path steps that
 * depend on each, one list of modified-cell records per step, and the
 * checkpoint snapshot, which is always the oldest retained snapshot.
 *
 * Queues and lists are sequences whose oldest entry is at index 0; a
 * stack is a sequence whose top is its last element.
 */
module FloodFillHistory {
  import opened Cells

  /** Wall tag asking the rollback to clear all four wall flags of a cell. */
  const ALL_WALLS: int := 4

  /** The tag of a modified-cell record: a direction 0..3, or ALL_WALLS. */
  type WallTag = t: int | 0 <= t <= 4

  /** One (cell, wallTag) entry of a step's modified-cells list. */
  datatype Record = Record(cell: Cell, tag: WallTag)

  /** A frontier snapshot: a stack of cells whose top is the last element. */
  type Snapshot = seq<Cell>

  // ---------------------------------------------------------------------
  // Reference counts

  /** Total of a sequence of reference counts. */
  function Sum(s: seq<int>): int
  {
    if s == [] then 0 else s[0] + Sum(s[1..])
  }

  lemma {:induction false} SumSnoc(s: seq<int>, x: int)
    ensures Sum(s + [x]) == Sum(s) + x
  {
    if s == [] {
      assert [] + [x] == [x];
    } else {
      assert (s + [x])[1..] == s[1..] + [x];
      SumSnoc(s[1..], x);
    }
  }

  /** The counts after a move: the newest snapshot gains the new step. */
  function IncNewest(counts: seq<int>): (r: seq<int>)
    requires counts != []
    ensures |r| == |counts| && Sum(r) == Sum(counts) + 1
    ensures forall i :: 0 <= i < |counts| - 1 ==> r[i] == counts[i]
    ensures r[|r| - 1] == counts[|counts| - 1] + 1
  {
    var n := |counts| - 1;
    SumSnoc(counts[..n], counts[n]);
    SumSnoc(counts[..n], counts[n] + 1);
    assert counts[..n] + [counts[n]] == counts;
    counts[..n] + [counts[n] + 1]
  }

  /** The counts after an eviction: the oldest snapshot loses one step. */
  function DecOldest(counts: seq<int>): (r: seq<int>)
    requires counts != []
    ensures |r| == |counts| && Sum(r) == Sum(counts) - 1
    ensures r[0] == counts[0] - 1
    ensures forall i :: 0 < i < |counts| ==> r[i] == counts[i]
  {
    [counts[0] - 1] + counts[1..]
  }

  /** The counts after a move and, when the window overflowed, an eviction
      (before an oldest entry that reached 0 is retired). */
  function Counted(counts: seq<int>, evicted: bool): (r: seq<int>)
    requires counts != []
    ensures |r| == |counts| && Sum(r) == Sum(counts) + (if evicted then 0 else 1)
  {
    if evicted then DecOldest(IncNewest(counts)) else IncNewest(counts)
  }

  /** The counts after a stack update: the step last credited to the old
      newest snapshot is moved to a new entry of count 1. */
  function Reattribute(counts: seq<int>): (r: seq<int>)
    requires counts != []
    ensures |r| == |counts| + 1 && Sum(r) == Sum(counts)
    ensures forall i :: 0 <= i < |counts| - 1 ==> r[i] == counts[i]
    ensures r[|counts| - 1] == counts[|counts| - 1] - 1 && r[|counts|] == 1
  {
    var n := |counts| - 1;
    SumSnoc(counts[..n], counts[n]);
    SumSnoc(counts[..n], counts[n] - 1);
    SumSnoc(counts[..n] + [counts[n] - 1], 1);
    assert counts[..n] + [counts[n]] == counts;
    counts[..n] + [counts[n] - 1] + [1]
  }

  // ---------------------------------------------------------------------
  // Modified-cell records

  /** All records of a log, oldest step first. */
  function Flatten(log: seq<seq<Record>>): seq<Record>
  {
    if log == [] then [] else log[0] + Flatten(log[1..])
  }

  /** The flattened log holds exactly the records of the log's steps. */
  lemma {:induction false} FlattenHoldsLoggedRecords(log: seq<seq<Record>>, r: Record)
    ensures r in Flatten(log) <==> exists i :: 0 <= i < |log| && r in log[i]
  {
    if log != [] {
      FlattenHoldsLoggedRecords(log[1..], r);
      if r in Flatten(log[1..]) {
        var i :| 0 <= i < |log[1..]| && r in log[1..][i];
        assert r in log[i + 1];
      }
      if exists i :: 0 <= i < |log| && r in log[i] {
        var i :| 0 <= i < |log| && r in log[i];
        if i > 0 {
          assert r in log[1..][i - 1];
        }
      }
    }
  }

  /** Some record of rs names cell c. */
  ghost predicate Names(rs: seq<Record>, c: Cell)
  {
    exists k :: 0 <= k < |rs| && rs[k].cell == c
  }

  /** Some record of rs asks to clear wall d of cell c: its tag is d or ALL_WALLS. */
  ghost predicate Clears(rs: seq<Record>, c: Cell, d: int)
  {
    exists k :: 0 <= k < |rs| && rs[k].cell == c && (rs[k].tag == ALL_WALLS || rs[k].tag == d)
  }

  lemma NamesSnoc(rs: seq<Record>, r: Record, c: Cell)
    ensures Names(rs + [r], c) <==> Names(rs, c) || r.cell == c
  {
    if Names(rs, c) {
      var k :| 0 <= k < |rs| && rs[k].cell == c;
      assert (rs + [r])[k] == rs[k];
    }
    if r.cell == c {
      assert (rs + [r])[|rs|] == r;
    }
  }

  lemma ClearsSnoc(rs: seq<Record>, r: Record, c: Cell, d: int)
    ensures Clears(rs + [r], c, d) <==> Clears(rs, c, d) || (r.cell == c && (r.tag == ALL_WALLS || r.tag == d))
  {
    if Clears(rs, c, d) {
      var k :| 0 <= k < |rs| && rs[k].cell == c && (rs[k].tag == ALL_WALLS || rs[k].tag == d);
      assert (rs + [r])[k] == rs[k];
    }
    if r.cell == c && (r.tag == ALL_WALLS || r.tag == d) {
      assert (rs + [r])[|rs|] == r;
    }
  }

  lemma NamesAppend(rs: seq<Record>, qs: seq<Record>, c: Cell)
    ensures Names(rs + qs, c) <==> Names(rs, c) || Names(qs, c)
  {
    if Names(rs, c) {
      var k :| 0 <= k < |rs| && rs[k].cell == c;
      assert (rs + qs)[k] == rs[k];
    }
    if Names(qs, c) {
      var k :| 0 <= k < |qs| && qs[k].cell == c;
      assert (rs + qs)[|rs| + k] == qs[k];
    }
    if Names(rs + qs, c) {
      var k :| 0 <= k < |rs + qs| && (rs + qs)[k].cell == c;
      if k >= |rs| {
        assert qs[k - |rs|] == (rs + qs)[k];
      }
    }
  }

  lemma ClearsAppend(rs: seq<Record>, qs: seq<Record>, c: Cell, d: int)
    ensures Clears(rs + qs, c, d) <==> Clears(rs, c, d) || Clears(qs, c, d)
  {
    if Clears(rs, c, d) {
      var k :| 0 <= k < |rs| && rs[k].cell == c && (rs[k].tag == ALL_WALLS || rs[k].tag == d);
      assert (rs + qs)[k] == rs[k];
    }
    if Clears(qs, c, d) {
      var k :| 0 <= k < |qs| && qs[k].cell == c && (qs[k].tag == ALL_WALLS || qs[k].tag == d);
      assert (rs + qs)[|rs| + k] == qs[k];
    }
    if Clears(rs + qs, c, d) {
      var k :| 0 <= k < |rs + qs| && (rs + qs)[k].cell == c && ((rs + qs)[k].tag == ALL_WALLS || (rs + qs)[k].tag == d);
      if k >= |rs| {
        assert qs[k - |rs|] == (rs + qs)[k];
      }
    }
  }

  /** Every record names a cell of an arena of n cells. */
  ghost predicate RecordsIn(rs: seq<Record>, n: nat)
  {
    forall k :: 0 <= k < |rs| ==> rs[k].cell < n
  }

  /** Every cell of s belongs to an arena of n cells. */
  ghost predicate CellsIn(s: seq<Cell>, n: nat)
  {
    forall k :: 0 <= k < |s| ==> s[k] < n
  }

  // ---------------------------------------------------------------------
  // The checkpoint path

  /** p is the checkpoint path of cp under the predecessor links prev, as a
      stack read bottom first: the chain cp, prev[cp], prev[prev[cp]], ...
      without its last cell, the origin (the one whose predecessor is NULL). */
  ghost predicate IsCheckpointPath(prev: seq<int>, cp: Cell, p: seq<Cell>)
  {
    cp < |prev| && CellsIn(p, |prev|) &&
    (p == [] <==> prev[cp] == NULL) &&
    (p != [] ==> p[0] == cp && 0 <= prev[p[|p| - 1]] < |prev| && prev[prev[p[|p| - 1]]] == NULL) &&
    forall k :: 0 <= k < |p| - 1 ==> prev[p[k]] == p[k + 1]
  }

  lemma {:induction false} CheckpointPathsAgree(prev: seq<int>, cp: Cell, p: seq<Cell>, q: seq<Cell>, k: nat)
    requires IsCheckpointPath(prev, cp, p) && IsCheckpointPath(prev, cp, q)
    requires k < |p| && k < |q|
    ensures p[k] == q[k]
  {
    if k > 0 {
      CheckpointPathsAgree(prev, cp, p, q, k - 1);
      assert p[k] == prev[p[k - 1]] == prev[q[k - 1]] == q[k];
    }
  }

  /** Below its top, every cell of a checkpoint path is linked to the next
      one, and that one has a predecessor. */
  lemma CheckpointPathLinked(prev: seq<int>, cp: Cell, q: seq<Cell>, k: nat)
    requires IsCheckpointPath(prev, cp, q) && k + 1 < |q|
    ensures prev[q[k]] == q[k + 1] && 0 <= prev[q[k + 1]] < |prev|
  {
    if k + 2 < |q| {
      assert prev[q[k + 1]] == q[k + 2];
    }
  }

  lemma CheckpointPathNoShorter(prev: seq<int>, cp: Cell, p: seq<Cell>, q: seq<Cell>)
    requires IsCheckpointPath(prev, cp, p) && IsCheckpointPath(prev, cp, q)
    ensures |p| >= |q|
  {
    if p != [] && |p| < |q| {
      CheckpointPathsAgree(prev, cp, p, q, |p| - 1);
      CheckpointPathLinked(prev, cp, q, |p| - 1);
    }
  }

  /** The checkpoint path is determined by the links: at most one exists. */
  lemma CheckpointPathUnique(prev: seq<int>, cp: Cell, p: seq<Cell>, q: seq<Cell>)
    requires IsCheckpointPath(prev, cp, p) && IsCheckpointPath(prev, cp, q)
    ensures p == q
  {
    CheckpointPathNoShorter(prev, cp, p, q);
    CheckpointPathNoShorter(prev, cp, q, p);
    forall k | 0 <= k < |p|
      ensures p[k] == q[k]
    {
      CheckpointPathsAgree(prev, cp, p, q, k);
    }
  }

  // ---------------------------------------------------------------------
  // The log

  class History {
    /** The arena every cell pointer of this log points into. */
    const maze: Maze
    /** The short-term memory: how many steps are retained. */
    var stm: int
    /** Cells travelled since the checkpoint, checkpoint cell first. */
    var path: seq<Cell>
    /** Retained frontier snapshots, oldest first. */
    var stacks: seq<Snapshot>
    /** refCounts[i]: the number of path steps depending on stacks[i]. */
    var refCounts: seq<int>
    /** One list of modified-cell records per step, oldest first. */
    var modified: seq<seq<Record>>
    /** The snapshot the algorithm resumes from after a rollback. */
    var checkpointStack: Snapshot

    /** The lockstep invariant of the four containers. */
    ghost predicate Consistent()
      reads this
    {
      stm >= 1 &&
      1 <= |path| <= stm + 1 &&
      |stacks| == |refCounts| && Sum(refCounts) == |path| &&
      stacks != [] && checkpointStack == stacks[0] &&
      |modified| <= stm &&
      (forall i :: 0 <= i < |stacks| ==> stacks[i] != [] && CellsIn(stacks[i], maze.Size())) &&
      CellsIn(path, maze.Size()) &&
      (forall i :: 0 <= i < |modified| ==> RecordsIn(modified[i], maze.Size()))
    }

    ghost predicate Valid()
      reads this, maze.prev
    {
      Consistent() && maze.Valid()
    }

    /** The freshly seeded state at the current checkpoint: an empty log, the
        checkpoint snapshot alone with one reference, and the path holding only
        the checkpoint cell. */
    ghost predicate AtCheckpoint()
      reads this, maze.prev
      requires Valid()
    {
      modified == [] && stacks == [checkpointStack] && refCounts == [1] &&
      path == [GetCheckpointCell()]
    }

    /** A log over the cells of `maze`; `Initialize` must be called before use. */
    constructor (maze: Maze)
      ensures this.maze == maze
    {
      this.maze := maze;
      stm := 0;
      path, stacks, refCounts, modified, checkpointStack := [], [], [], [], [];
    }

    /** Pops every entry off the path, the snapshot queue, the reference
        counts and the modified-cells log. */
    method EraseContainers()
      modifies this`path, this`stacks, this`refCounts, this`modified
      ensures path == [] && stacks == [] && refCounts == [] && modified == []
    {
      while path != []
        modifies this`path
        decreases |path|
      {
        path := path[1..];
      }
      while stacks != []
        modifies this`stacks
        decreases |stacks|
      {
        stacks := stacks[1..];
      }
      while refCounts != []
        modifies this`refCounts
        decreases |refCounts|
      {
        refCounts := refCounts[1..];
      }
      while modified != []
        modifies this`modified
        decreases |modified|
      {
        modified := modified[1..];
      }
    }

    /** Starts the log at `origin`, as if the mouse had just moved there. */
    method Initialize(stm: int, origin: Cell)
      requires stm >= 1 && origin < maze.Size() && maze.Valid()
      modifies this
      ensures Valid()
      ensures this.stm == stm && path == [origin] && stacks == [[origin]] && refCounts == [1]
      ensures checkpointStack == [origin] && modified == []
      ensures Size() == 0
      ensures maze.prev[origin] == NULL ==> GetCheckpointCell() == origin && AtCheckpoint()
    {
      this.stm := stm;
      EraseContainers();
      var temp: Snapshot := [origin];
      stacks := stacks + [temp];
      refCounts := refCounts + [1];
      checkpointStack := temp;
      path := path + [origin];
    }

    /** The number of steps taken since the checkpoint. */
    function Size(): (r: int)
      reads this
      requires Consistent()
      ensures 0 <= r <= stm
      ensures r + 1 == Sum(refCounts)
    {
      |path| - 1
    }

    /** The predecessor of the checkpoint snapshot's top cell, or that top
        cell itself when it has no predecessor (it is the origin). */
    function GetCheckpointCell(): (r: Cell)
      reads this, maze.prev
      requires maze.Valid() && checkpointStack != []
      requires checkpointStack[|checkpointStack| - 1] < maze.Size()
      ensures r < maze.Size()
      ensures var top := checkpointStack[|checkpointStack| - 1];
              (maze.prev[top] == NULL ==> r == top) && (maze.prev[top] != NULL ==> r == maze.prev[top])
    {
      var top := checkpointStack[|checkpointStack| - 1];
      if maze.prev[top] != NULL then maze.prev[top] else top
    }

    /** The path from the origin to the checkpoint cell, origin excluded:
        the bottom is the checkpoint cell, the top the origin's successor. */
    method GetCheckpointPath(ghost rank: seq<nat>) returns (p: seq<Cell>)
      requires Valid() && maze.RankedBy(rank)
      ensures IsCheckpointPath(maze.prev[..], GetCheckpointCell(), p)
    {
      var cp := GetCheckpointCell();
      var stack: seq<Cell> := [];
      var runner: int := cp;
      while runner != NULL
        invariant runner == NULL || 0 <= runner < maze.Size()
        invariant CellsIn(stack, maze.Size())
        invariant stack == [] ==> runner == cp
        invariant stack != [] ==> stack[0] == cp && runner == maze.prev[stack[|stack| - 1]]
        invariant forall k :: 0 <= k < |stack| - 1 ==> maze.prev[stack[k]] == stack[k + 1]
        decreases if runner == NULL then 0 else rank[runner] + 1
      {
        stack := stack + [runner];
        runner := maze.prev[runner];
      }
      // The chain always ends at the origin, which is dropped.
      if |stack| > 1 {
        assert maze.prev[stack[0]] == stack[1];
      }
      p := stack[..|stack| - 1];
    }

    /** A copy of the checkpoint snapshot: the oldest retained one. */
    function GetCheckpointStack(): (r: Snapshot)
      reads this
      requires Consistent()
      ensures r == stacks[0] && r != []
    {
      checkpointStack
    }

    /** Advances the window by the step to `movedTo`. */
    method Moved(movedTo: Cell)
      requires Valid() && movedTo < maze.Size()
      modifies this
      ensures Valid()
      ensures path == (if |old(path)| > stm then old(path)[1..] else old(path)) + [movedTo]
      ensures var counted := Counted(old(refCounts), |old(path)| > stm);
              refCounts == (if counted[0] == 0 then counted[1..] else counted)
      ensures var counted := Counted(old(refCounts), |old(path)| > stm);
              stacks == (if counted[0] == 0 then old(stacks)[1..] else old(stacks))
      ensures modified == (if |old(modified)| + 1 > stm then old(modified)[1..] + [[]] else old(modified) + [[]])
      ensures stm == old(stm)
    {
      // The containers are updated on local copies, written back at the end.
      var p, counts, st, log, cps := path + [movedTo], refCounts, stacks, modified, checkpointStack;

      var srefCount := counts[|counts| - 1];
      counts := counts[..|counts| - 1];
      counts := counts + [srefCount + 1];
      assert counts == IncNewest(refCounts);

      var empty: seq<Record> := [];
      log := log + [empty];

      if |p| - 1 > stm {
        p := p[1..];
        var srefCount2 := counts[0];
        counts := counts[1..];
        counts := [srefCount2 - 1] + counts;
        assert counts == Counted(refCounts, true);
        assert p == path[1..] + [movedTo];
      } else {
        assert counts == Counted(refCounts, false);
      }
      assert Sum(counts) == |p|;
      if counts[0] == 0 {
        assert Sum(counts) == Sum(counts[1..]);
        counts := counts[1..];
        st := st[1..];
        cps := st[0];
      }

      if |log| > stm {
        log := log[1..];
        assert log == modified[1..] + [empty];
      }
      path, refCounts, stacks, modified, checkpointStack := p, counts, st, log, cps;
    }

    /** Records the frontier snapshot that follows the last move. */
    method StackUpdate(newStack: Snapshot)
      requires Valid() && newStack != [] && CellsIn(newStack, maze.Size())
      modifies this
      ensures Valid()
      ensures stacks == old(stacks) + [newStack] && refCounts == Reattribute(old(refCounts))
      ensures path == old(path) && modified == old(modified) && checkpointStack == old(checkpointStack)
      ensures stm == old(stm)
    {
      stacks := stacks + [newStack];
      var temp := refCounts[|refCounts| - 1];
      refCounts := refCounts[..|refCounts| - 1];
      refCounts := refCounts + [temp - 1];
      refCounts := refCounts + [1];
      assert refCounts == Reattribute(old(refCounts));
    }

    /** Stores the modified cells of the current step in its log entry. */
    method ModifiedCellsUpdate(cells: seq<Record>)
      requires Valid() && RecordsIn(cells, maze.Size())
      modifies this
      ensures Valid()
      ensures |modified| == if old(modified) == [] then 1 else |old(modified)|
      ensures modified[|modified| - 1] == cells
      ensures forall i :: 0 <= i < |modified| - 1 ==> modified[i] == old(modified)[i]
      ensures path == old(path) && stacks == old(stacks) && refCounts == old(refCounts)
      ensures checkpointStack == old(checkpointStack) && stm == old(stm)
    {
      if |modified| > 0 {
        modified := modified[..|modified| - 1];
      }
      modified := modified + [cells];
    }

    /** Reverts one record: clears the cell's predecessor and the wall flag
        its tag names, or all four flags for ALL_WALLS. */
    method RevertRecord(r: Record)
      requires maze.Valid() && r.cell < maze.Size()
      modifies maze.prev, maze.walls
      ensures maze.Valid()
      ensures forall c :: 0 <= c < maze.Size() ==>
                maze.prev[c] == if c == r.cell then NULL else old(maze.prev[c])
      ensures forall c, d :: 0 <= c < maze.Size() && 0 <= d < DIRECTIONS ==>
                maze.walls[c, d] == if c == r.cell && (r.tag == ALL_WALLS || r.tag == d) then false else old(maze.walls[c, d])
    {
      maze.prev[r.cell] := NULL;
      if r.tag == ALL_WALLS {
        for i := 0 to DIRECTIONS
          modifies maze.walls
          invariant forall c, d :: 0 <= c < maze.Size() && 0 <= d < DIRECTIONS ==>
                      maze.walls[c, d] == if c == r.cell && d < i then false else old(maze.walls[c, d])
        {
          maze.walls[r.cell, i] := false;
        }
      } else {
        maze.walls[r.cell, r.tag] := false;
      }
    }

    /** Reverts the records of one step's list, in order. */
    method RevertList(cellList: seq<Record>)
      requires maze.Valid() && RecordsIn(cellList, maze.Size())
      modifies maze.prev, maze.walls
      ensures maze.Valid()
      ensures forall c :: 0 <= c < maze.Size() ==>
                maze.prev[c] == if Names(cellList, c) then NULL else old(maze.prev[c])
      ensures forall c, d :: 0 <= c < maze.Size() && 0 <= d < DIRECTIONS ==>
                maze.walls[c, d] == if Clears(cellList, c, d) then false else old(maze.walls[c, d])
    {
      for j := 0 to |cellList|
        invariant maze.Valid()
        invariant forall c :: 0 <= c < maze.Size() ==>
                    maze.prev[c] == if Names(cellList[..j], c) then NULL else old(maze.prev[c])
        invariant forall c, d :: 0 <= c < maze.Size() && 0 <= d < DIRECTIONS ==>
                    maze.walls[c, d] == if Clears(cellList[..j], c, d) then false else old(maze.walls[c, d])
      {
        assert cellList[..j + 1] == cellList[..j] + [cellList[j]];
        forall c | 0 <= c < maze.Size() {
          NamesSnoc(cellList[..j], cellList[j], c);
        }
        forall c, d | 0 <= c < maze.Size() && 0 <= d < DIRECTIONS {
          ClearsSnoc(cellList[..j], cellList[j], c, d);
        }
        RevertRecord(cellList[j]);
      }
      assert cellList[..|cellList|] == cellList;
    }

    /** Reverts every record of a log, step by step: the loop over the
        copy of the log taken by the rollback. */
    method RevertLog(log: seq<seq<Record>>)
      requires maze.Valid() && forall i :: 0 <= i < |log| ==> RecordsIn(log[i], maze.Size())
      modifies maze.prev, maze.walls
      ensures maze.Valid()
      ensures forall c :: 0 <= c < maze.Size() ==>
                maze.prev[c] == if Names(Flatten(log), c) then NULL else old(maze.prev[c])
      ensures forall c, d :: 0 <= c < maze.Size() && 0 <= d < DIRECTIONS ==>
                maze.walls[c, d] == if Clears(Flatten(log), c, d) then false else old(maze.walls[c, d])
    {
      var temp := log;
      ghost var done: seq<Record> := [];
      while temp != []
        invariant maze.Valid()
        invariant done + Flatten(temp) == Flatten(log)
        invariant temp == log[|log| - |temp|..]
        invariant forall c :: 0 <= c < maze.Size() ==>
                    maze.prev[c] == if Names(done, c) then NULL else old(maze.prev[c])
        invariant forall c, d :: 0 <= c < maze.Size() && 0 <= d < DIRECTIONS ==>
                    maze.walls[c, d] == if Clears(done, c, d) then false else old(maze.walls[c, d])
        decreases |temp|
      {
        var cellList := temp[0];
        assert cellList == log[|log| - |temp|];
        temp := temp[1..];
        RevertList(cellList);
        forall c | 0 <= c < maze.Size() {
          NamesAppend(done, cellList, c);
        }
        forall c, d | 0 <= c < maze.Size() && 0 <= d < DIRECTIONS {
          ClearsAppend(done, cellList, c, d);
        }
        done := done + cellList;
      }
      assert done == Flatten(log);
    }

    /** Rolls back to the checkpoint: reverts every logged record, then
        re-seeds the log at the checkpoint. */
    method ResetModifiedCells()
      requires Valid()
      modifies this, maze.prev, maze.walls
      ensures Valid() && AtCheckpoint()
      ensures forall c :: 0 <= c < maze.Size() ==>
                maze.prev[c] == if Names(Flatten(old(modified)), c) then NULL else old(maze.prev[c])
      ensures forall c, d :: 0 <= c < maze.Size() && 0 <= d < DIRECTIONS ==>
                maze.walls[c, d] == if Clears(Flatten(old(modified)), c, d) then false else old(maze.walls[c, d])
      ensures checkpointStack == old(checkpointStack) && stm == old(stm)
      ensures Size() == 0
      ensures !Names(Flatten(old(modified)), checkpointStack[|checkpointStack| - 1]) ==>
                GetCheckpointCell() == old(GetCheckpointCell())
      ensures old(AtCheckpoint()) ==>
                unchanged(this) && maze.prev[..] == old(maze.prev[..]) &&
                forall c, d :: 0 <= c < maze.Size() && 0 <= d < DIRECTIONS ==> maze.walls[c, d] == old(maze.walls[c, d])
    {
      ghost var wasAtCheckpoint := AtCheckpoint();
      RevertLog(modified);
      if wasAtCheckpoint {
        assert Flatten(old(modified)) == [];
        assert maze.prev[..] == old(maze.prev[..]);
      }

      EraseContainers();

      stacks := stacks + [checkpointStack];
      refCounts := refCounts + [1];
      path := path + [GetCheckpointCell()];
      if wasAtCheckpoint {
        assert forall c, d :: 0 <= c < maze.Size() && 0 <= d < DIRECTIONS ==> maze.walls[c, d] == old(maze.walls[c, d]);
        assert path == old(path) && stacks == old(stacks) && refCounts == old(refCounts) && modified == old(modified);
      }
    }
  }

  /** A rollback can move the checkpoint cell. When the last step logged the
      checkpoint snapshot's top cell 1, whose predecessor is 0, the revert
      clears that link before the path is re-seeded, so the checkpoint cell
      goes from 0 to 1. */
  method RollbackMovesCheckpointCell(h: History)
    requires h.Valid() && h.maze.Size() > 1 && h.maze.prev[1] == 0
    requires h.checkpointStack[|h.checkpointStack| - 1] == 1
    requires h.modified != [] && h.modified[|h.modified| - 1] == [Record(1, ALL_WALLS)]
    modifies h, h.maze.prev, h.maze.walls
    ensures h.Valid()
    ensures old(h.GetCheckpointCell()) == 0 && h.GetCheckpointCell() == 1
    ensures h.AtCheckpoint() && h.path == [1]
  {
    ghost var log := h.modified;
    FlattenHoldsLoggedRecords(log, Record(1, ALL_WALLS));
    assert Record(1, ALL_WALLS) in log[|log| - 1];
    ghost var k :| 0 <= k < |Flatten(log)| && Flatten(log)[k] == Record(1, ALL_WALLS);
    assert Names(Flatten(log), 1);
    h.ResetModifiedCells();
  }

  /** The search's own call order reaches the state above: from the origin 0
      the mouse moves to cell 1, whose predecessor is 0, and the step logs
      cell 1 with all its walls; the rollback then reports cell 1. */
  method RollbackAfterOneStep()
  {
    var maze := new Maze(3);
    maze.prev[1] := 0;
    var h := new History(maze);
    h.Initialize(2, 0);
    h.StackUpdate([1]);
    h.ModifiedCellsUpdate([]);
    h.Moved(1);
    h.StackUpdate([2]);
    h.ModifiedCellsUpdate([Record(1, ALL_WALLS)]);
    RollbackMovesCheckpointCell(h);
    assert h.GetCheckpointCell() == 1 && h.path == [1];
  }
}
