/**
 * The maze's cells, seen by the history log as an arena of ids.
 * A cell pointer is its index in the arena; the two mutable fields the
 * log touches, the predecessor link and the four wall-inspected flags,
 * are arrays indexed by that id.
 */
module Cells {

  /** A cell is named by its index in the maze's arena. */
  type Cell = nat

  /** The null predecessor (the origin has none). */
  const NULL: int := -1

  /** Number of wall directions of a cell. */
  const DIRECTIONS: nat := 4

  class Maze {
    /** prev[c] is the predecessor of cell c on the current path, or NULL. */
    const prev: array<int>
    /** walls[c, d] holds whether wall d of cell c has been inspected. */
    const walls: array2<bool>

    /** Every predecessor link is NULL or names a cell of this maze. */
    ghost predicate Valid()
      reads prev
    {
      walls.Length0 == prev.Length && walls.Length1 == DIRECTIONS &&
      forall c :: 0 <= c < prev.Length ==> prev[c] == NULL || 0 <= prev[c] < prev.Length
    }

    /** Number of cells in the maze. */
    function Size(): nat
    {
      prev.Length
    }

    /** A fresh maze of n cells, none linked and no wall inspected. */
    constructor (n: nat)
      ensures Valid() && Size() == n && fresh(prev) && fresh(walls)
      ensures forall c :: 0 <= c < n ==> prev[c] == NULL
      ensures forall c, d :: 0 <= c < n && 0 <= d < DIRECTIONS ==> !walls[c, d]
    {
      prev := new int[n](_ => NULL);
      walls := new bool[n, DIRECTIONS]((_, _) => false);
    }

    /** `rank` strictly decreases along every predecessor link, so following
        the links from any cell reaches NULL. */
    ghost predicate RankedBy(rank: seq<nat>)
      reads prev
    {
      |rank| == prev.Length &&
      forall c :: 0 <= c < prev.Length && 0 <= prev[c] < prev.Length ==> rank[prev[c]] < rank[c]
    }
  }
}
