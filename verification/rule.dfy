/**
 The reference semantics of one generation: Conway's B3/S23 rule on a bounded
 board, stated over sets of live cells and independent of how life.js
 scans its list.
 */
module Rule {
  import opened Cells

  /** `p` is one of the eight positions surrounding `c`. */
  predicate Adjacent(p: Cell, c: Cell) {
    p != c && -1 <= p.x - c.x <= 1 && -1 <= p.y - c.y <= 1
  }

  /** The live cells of `live` that lie on the board and surround `c`. */
  function LiveNeighbourSet(live: set<Cell>, width: int, height: int, c: Cell): set<Cell> {
    set p | p in live && InBoard(width, height, p) && Adjacent(p, c)
  }

  /** Number of live on-board neighbours of `c`: nothing is counted through the board's edge. */
  function LiveNeighbours(live: set<Cell>, width: int, height: int, c: Cell): nat {
    |LiveNeighbourSet(live, width, height, c)|
  }

  /** B3/S23: born with exactly three neighbours, survives with two or three. */
  predicate NextLive(live: bool, n: int) {
    n == 3 || (live && n == 2)
  }

  /** `next` is the B3/S23 successor of `live` on the board. */
  ghost predicate IsSuccessor(live: set<Cell>, next: set<Cell>, width: int, height: int) {
    forall c :: c in next <==>
      InBoard(width, height, c) && NextLive(c in live, LiveNeighbours(live, width, height, c))
  }

  /**
   The deletion and birth conditions life.js tests (a live cell with at most one
   or at least four neighbours dies, a dead cell with exactly three is born,
   every other cell keeps its state) describe B3/S23.
   */
  lemma ScheduleIsRule(live: bool, n: int)
    ensures NextLive(live, n) <==>
            (live && !(n <= 1 || n >= 4)) || (!live && n == 3)
  {
  }
}
