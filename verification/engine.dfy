/**
 The state held by life.js's module closure and the entry points that change
 it: a click, one generation, placing a figure and clearing the board.
 */
module Engine {
  import opened Cells
  import opened Rule
  import opened Generation

  /** Board size, the live-cell list and the generation counter. */
  datatype Life = Life(width: int, height: int, cells: seq<Cell>, generation: nat)

  /** The well-formed states: every live cell on the board, none listed twice. */
  predicate Valid(g: Life) {
    NoDup(g.cells) && AllInBoard(g.width, g.height, g.cells)
  }

  /**
   A click on board position (x, y): the position's membership flips on a
   well-formed board and no other position changes; the counter is untouched.
   */
  function Click(g: Life, x: int, y: int): (r: Life)
    ensures r.width == g.width && r.height == g.height && r.generation == g.generation
    ensures forall c :: c != Cell(x, y) ==> (c in r.cells <==> c in g.cells)
    ensures Valid(g) ==> (Cell(x, y) in r.cells <==> Cell(x, y) !in g.cells)
    ensures Valid(g) && InBoard(g.width, g.height, Cell(x, y)) ==> Valid(r)
  {
    var next := Toggle(g.cells, x, y);
    assert Valid(g) ==> NoDup(next) && (Cell(x, y) in next <==> Cell(x, y) !in g.cells) by {
      if Valid(g) {
        ToggleFlips(g.cells, x, y);
      }
    }
    g.(cells := next)
  }

  /**
   `iterate`: one generation. The counter goes up by exactly one; a
   well-formed board stays well-formed and becomes the B3/S23 successor of
   its live set; an empty board stays empty.
   */
  function Iterate(g: Life): (r: Life)
    ensures r.width == g.width && r.height == g.height
    ensures r.generation == g.generation + 1
    ensures Valid(g) ==> Valid(r)
    ensures Valid(g) ==> IsSuccessor(Elems(g.cells), Elems(r.cells), g.width, g.height)
    ensures g.cells == [] ==> r.cells == []
  {
    var next := StepCells(g.cells, g.width, g.height);
    StepKeepsInvariant(g.cells, g.width, g.height);
    StepEmpty(g.width, g.height);
    assert Valid(g) ==> IsSuccessor(Elems(g.cells), Elems(next), g.width, g.height) by {
      if Valid(g) {
        StepIsSuccessor(g.cells, g.width, g.height);
      }
    }
    Life(g.width, g.height, next, g.generation + 1)
  }

  /**
   `setFigure(offset, cells)`: the board becomes the figure shifted by the
   offset, in the figure's order and with its length. The result is
   well-formed exactly when the figure has no repeated cell and every shifted
   cell lands on the board.
   */
  function SetFigure(g: Life, offset: Cell, fig: seq<Cell>): (r: Life)
    ensures r.width == g.width && r.height == g.height && r.generation == g.generation
    ensures |r.cells| == |fig|
    ensures forall i :: 0 <= i < |fig| ==> r.cells[i] == Cell(offset.x + fig[i].x, offset.y + fig[i].y)
    ensures forall c :: c in r.cells <==> Cell(c.x - offset.x, c.y - offset.y) in fig
    ensures Valid(r) <==>
      NoDup(fig) && forall c :: c in fig ==> InBoard(g.width, g.height, Cell(offset.x + c.x, offset.y + c.y))
  {
    var placed := Translate(fig, offset);
    forall c
      ensures c in placed <==> Cell(c.x - offset.x, c.y - offset.y) in fig
    {
      TranslateMembers(fig, offset, c);
    }
    TranslateNoDup(fig, offset);
    TranslateOnBoard(fig, offset, g.width, g.height);
    g.(cells := placed)
  }

  /** `clear`: the board is emptied; the generation counter is left as it was. */
  function Clear(g: Life): (r: Life)
    ensures r.width == g.width && r.height == g.height && r.generation == g.generation
    ensures Valid(r) && Elems(r.cells) == {}
  {
    g.(cells := [])
  }
}
