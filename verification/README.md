# Game of Life engine — a Dafny model

This project models the simulation engine of `life.js`, a browser Game of Life on a
fixed `width` × `height` board. It covers these parts:

- the live-cell list `aliveCells` and its linear-scan lookup `cellExists`;
- the add/remove toggle of a click;
- the neighbour count `calcNeigbNum`;
- the generation step `iterate`;
- the board mutations `setFigure` and `clear`.

The board is a `seq<Cell>` and every operation is a pure function over it. The
engine state (`Engine.Life`) holds the board size, the list and the generation
counter.

Each piece of the list-based code is tied to an independent reference:

- **Lookup.** `CellExists` is characterised by "−1 exactly when absent, otherwise
  the first matching index".
- **Neighbour count.** `calcNeigbNum` is modelled as written: the window's upper
  clamp is `min(height, row+1)` / `min(width, col+1)` and is inclusive, so row
  `height` and column `width` are scanned. Its result is proved equal to the number
  of live cells in that window. When every live cell lies on the board, that number
  equals the strict count of live on-board neighbours (`Rule.LiveNeighbours`).
- **Deletion pass.** The pass sorts the indices in descending order and splices
  them out. It is proved to remove exactly the elements at the collected indices
  and to keep all others in order (`Deletion.Keep`).
- **Step.** The step is proved to produce the B3/S23 successor (`Rule.IsSuccessor`)
  of the live set, for a list that lies on the board and has no repeated cell. Both
  conditions are kept by a step, by a click on the board, and by `clear`.

Places where the code does something other than a plain reading of its design,
modelled as the code does it:

- `clear` empties the list and does not reset `generation` (life.js:174-178).
- A click and `setFigure` do no bounds check. `setFigure` does not remove repeated
  cells either. A figure can therefore put cells off the board or list a cell twice.
  - A live cell off the board is never visited by `iterate`, so it is never
    deleted. It still counts as a neighbour when it lies in row `height` or
    column `width` (`Neighbours.PhantomColumnCounted`).
  - A cell listed twice loses only its first copy to a click or to a death
    (`Cells.ToggleTwice`).
- Membership is a linear scan returning the first index, not a set lookup.

## Model

| member | source | states |
|---|---|---|
| Cells.CellExists | life.js:29-37 | returns −1 exactly when no element is (x, y); otherwise an in-range index holding (x, y) with no earlier element equal to it |
| Cells.Splice | life.js:43 | `splice(index, 1)` shortens the list by one: elements before the index stay in place, those after it move down by one, and exactly one copy of the removed element goes |
| Cells.Toggle | life.js:41-47 | a present cell is spliced out at the first index the scan finds: the list is one shorter, the elements before that index stay in place and those after it move down by one, so exactly one copy goes (multiset minus one); an absent one is appended at the end; every other position keeps its membership; the clicked position is present afterwards exactly when it was not held exactly once |
| Cells.ToggleTwice | life.js:41-47 | two clicks on one position restore its membership if and only if the list did not hold it exactly twice |
| Cells.ToggleFlips | life.js:41-47 | on a list without repeats a click flips the clicked position's membership and leaves the list without repeats |
| Cells.ToggleInvolution | life.js:41-47 | on a list without repeats two clicks on one position give back the same set of live cells |
| Cells.Translate | life.js:183-186 | the placed figure has the figure's length, and element i is figure cell i shifted by the offset |
| Cells.TranslateRoundTrip | life.js:183-186 | shifting back by the opposite offset recovers the figure |
| Cells.TranslateMembers | life.js:183-186 | a position is on the placed figure exactly when the position minus the offset is on the figure |
| Cells.TranslateNoDup | life.js:183-186 | the placed figure repeats a cell exactly when the figure does |
| Cells.GliderAtFive | life.js:180-188 | the glider (0,0),(1,0),(2,0),(2,−1),(1,−2) placed at (5,5) covers exactly (5,5),(6,5),(7,5),(7,4),(6,3) |
| Neighbours.CountCols | life.js:112-118 | the inner loop counts exactly the live cells of its row segment, skipping the cell itself, and at most the number of positions it visits |
| Neighbours.CountRows | life.js:111-119 | the nested loops count exactly the live cells of the rectangle other than the cell itself, and at most the positions visited |
| Neighbours.CalcNeighbours | life.js:103-121 | the count equals the number of live cells in the clamped window (inclusive upper clamp at height/width) other than (col, row); it is at most the number of positions examined, which is at most 8 |
| Neighbours.ScanSizeAtMostEight | life.js:106-112 | for any arguments the clamped window examines at most eight positions |
| Neighbours.CornerScan | life.js:106-112 | at (0, 0) the window examines exactly (1,0), (0,1) and (1,1), so the count is at most 3 |
| Neighbours.PhantomColumnCounted | life.js:107-112 | a live cell in column `width`, one past the board, is counted as a neighbour of the last column |
| Neighbours.StrictCount | life.js:103-121 | when every live cell lies on the board, the as-written count equals the number of live on-board neighbours |
| Rule.ScheduleIsRule | life.js:133-140 | "delete when live with ≤1 or ≥4 neighbours, add when dead with exactly 3, otherwise leave" is the B3/S23 rule |
| Deletion.SpliceKeep | life.js:147 | removing one index keeps exactly the elements at every other index, in order |
| Deletion.KeepSplice | life.js:144-148 | splicing out an index and then lower indices removes exactly those indices, because a higher splice never shifts a lower element |
| Deletion.SortDescending | life.js:144 | the sorted indices are a permutation of the collected ones, in non-increasing order |
| Deletion.SortNoDup | life.js:144 | sorting distinct indices gives a strictly decreasing list without repeats |
| Deletion.RemoveDescending | life.js:146-148 | splicing strictly descending in-range indices one by one removes exactly the elements at those indices (length drops by their number) and keeps the rest in order |
| Deletion.RemoveSorted | life.js:144-148 | sorting distinct in-range indices and splicing them out removes exactly the elements at those indices, shortens the list by their number and keeps every other element in its original order |
| Generation.Positions | life.js:127-128 | the two loops visit every board position and nothing else, each once |
| Generation.Deletions | life.js:130-136 | an index is collected exactly when it is the first copy of a visited position that is live and has ≤1 or ≥4 neighbours; the indices are in range and distinct |
| Generation.Births | life.js:130-140 | a position is collected exactly when it is visited, absent and has exactly 3 neighbours; no position is collected twice |
| Generation.StepCells | life.js:123-151 | both lists are computed from the pre-step list; the result is the pre-step elements at uncollected indices, in order, followed by the births |
| Generation.KeptUnlessDying | life.js:130-148 | on a list without repeats, a live cell survives the deletion pass exactly when it is not a visited position that dies |
| Generation.StepAsWritten | life.js:127-151 | on a list without repeats, a board position is live afterwards exactly when B3/S23 holds for its as-written count; a cell off the board keeps its membership |
| Generation.StepIsSuccessor | life.js:127-151 | for an on-board list without repeats the new live set is exactly the B3/S23 successor of the old one |
| Generation.StepKeepsInvariant | life.js:138-151 | births lie on the board and are new, so a step keeps the list on the board and without repeats |
| Generation.StepEmpty | life.js:127-151 | stepping an empty board yields an empty board |
| Engine.Click | life.js:39-49 | only the clicked position may change membership; on a well-formed board it flips; the counter is unchanged |
| Engine.Iterate | life.js:123-154 | generation goes up by exactly 1; a well-formed board stays well-formed and becomes the B3/S23 successor; an empty board stays empty |
| Engine.SetFigure | life.js:180-190 | element i of the board is figure cell i shifted by the offset, so the board keeps the figure's length and order; a position is on the board exactly when the position minus the offset is in the figure; it is well-formed exactly when the figure has no repeat and lands on the board; the counter is unchanged |
| Engine.Clear | life.js:174-178 | the board becomes empty and the generation counter is left as it was |

## Left out

- Rendering is not modelled: `drawAliveCellCircle`, `drawAliveCellRect`, `getDrawFunc`, `drawBoard` and the `pixelWidth`/`pixelHeight` getters (life.js:13-14, life.js:51-101). They only draw, using floating-point geometry.
- Pointer input is not modelled: `getCursorPosition` and the DOM wiring in `initialize` (life.js:23-27, life.js:156-163). A click is modelled on already-translated integer coordinates.
- Timers are not modelled: `run`, `pause` and the `clearInterval` in `clear` (life.js:165-175). They are plumbing over `setInterval`/`clearInterval`.
- Configuration merging in `init` is not modelled (life.js:193-198). Width and height are plain parameters.
- The `offset || 0` fallback is not modelled (life.js:181). Without an offset it yields NaN coordinates, so the model always takes an offset.
- The exported `generation` field is not modelled (life.js:202). It is a copy taken when the module is created and never changes.
- Aliasing in `setFigure` is not modelled. The source rewrites the caller's figure objects in place and adopts the caller's array as the board; the model uses values.
- Glider periodicity (four steps move a glider by (+1, +1)) is not stated. It is a fact about one concrete run of the rule, not a contract of any operation; the rule itself is covered by `Generation.StepIsSuccessor`.
- Generation.StepAsWritten: requires a list without repeated cells. With a repeat, only the first copy of a dying cell is deleted, so the later copy survives. `StepKeepsInvariant`, `Cells.ToggleFlips` and `Engine.Clear` show that only `setFigure` can introduce a repeat.
- Generation.StepIsSuccessor: additionally requires every live cell to lie on the board. Off-board cells are never visited, and row `height` / column `width` are counted.
- Engine.Clear: models `clear` once `run` has started the timer. Before any `run`, `intervalId` is undeclared (it is only assigned at life.js:167), so `clearInterval(intervalId)` at life.js:175 throws a ReferenceError and the board is kept. That failure path is not modelled.
- Engine.SetFigure: coordinates are integers. In JavaScript they are double-precision numbers or whatever the caller supplies. A string offset or coordinate makes `setFigure`'s `+` (life.js:184-185) concatenate instead of add, so `"1"` shifted by 5 becomes `"51"`. `cellExists` compares with the loose `==` (life.js:31-32), so a numeric string such as `"51"` acts as the integer it spells: `iterate`, `calcNeigbNum` and a click find it and can delete it. Fractional values, NaN and non-numeric strings never match an integer position, so such a cell is never visited, counted or clicked away. The model represents none of these values.
- Engine.Iterate: the counter is an unbounded natural number. In the source `generation++` (life.js:153) works on a double and stops changing at 2^53.
- Deletion.RemoveDescending: requires strictly descending in-range indices. `iterate` always hands it such a list: the collected indices are distinct first-indices, then sorted. The splice loop is not modelled on other index lists.
- Deletion.RemoveSorted: requires distinct in-range indices, which is what `iterate` collects (`Generation.Deletions`). The pass is not modelled on index lists with repeats.
