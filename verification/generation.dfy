/**
 `iterate`: one generation. Every board position is visited row by row
 against the unchanged pre-step list; live cells to remove are collected as
 indices and cells to create as positions. Only after both collections are
 complete are the indices spliced out in descending order and the births
 appended.
 */
module Generation {
  import opened Cells
  import opened Rule
  import opened Neighbours
  import opened Deletion

  /** Row `y` of the board, columns 0..width-1 from left to right. */
  function Row(y: int, width: int): (r: seq<Cell>)
    ensures forall c :: c in r <==> c.y == y && 0 <= c.x < width
    ensures NoDup(r)
    decreases width
  {
    if width <= 0 then []
    else
      var front := Row(y, width - 1);
      NoDupConcat(front, [Cell(width - 1, y)]);
      front + [Cell(width - 1, y)]
  }

  /** The board positions in the order of `iterate`'s two loops: row by row. */
  function Positions(width: int, height: int): (r: seq<Cell>)
    ensures forall c :: c in r <==> InBoard(width, height, c)
    ensures NoDup(r)
    decreases height
  {
    if height <= 0 then []
    else
      var front := Positions(width, height - 1);
      var last := Row(height - 1, width);
      NoDupConcat(front, last);
      front + last
  }

  /** A live position with at most one or at least four neighbours dies. */
  predicate Dies(cells: seq<Cell>, width: int, height: int, p: Cell) {
    var n := CalcNeighbours(cells, width, height, p.x, p.y);
    CellExists(cells, p.x, p.y) != -1 && (n <= 1 || n >= 4)
  }

  /** A dead position with exactly three neighbours is born. */
  predicate Born(cells: seq<Cell>, width: int, height: int, p: Cell) {
    CellExists(cells, p.x, p.y) == -1 && CalcNeighbours(cells, width, height, p.x, p.y) == 3
  }

  /** Index `i` holds the first copy of a position of `ps` that dies. */
  predicate FirstDying(cells: seq<Cell>, width: int, height: int, ps: seq<Cell>, i: int) {
    0 <= i < |cells| && cells[i] in ps && Dies(cells, width, height, cells[i])
    && CellExists(cells, cells[i].x, cells[i].y) == i
  }

  /**
   The `del` list collected over the positions `ps`: the first index of each
   dying live position. An index is collected exactly when the element there
   is the first copy of a position of `ps` that dies.
   */
  function Deletions(cells: seq<Cell>, width: int, height: int, ps: seq<Cell>): (r: seq<int>)
    ensures forall k :: 0 <= k < |r| ==> 0 <= r[k] < |cells|
    ensures forall i :: i in r <==> FirstDying(cells, width, height, ps, i)
    ensures NoDup(ps) ==> NoDup(r)
    decreases |ps|
  {
    if |ps| == 0 then []
    else
      var n := |ps| - 1;
      var p := ps[n];
      var front := Deletions(cells, width, height, ps[..n]);
      var here := if Dies(cells, width, height, p) then [CellExists(cells, p.x, p.y)] else [];
      CollectStep(cells, width, height, ps, front, here);
      assert NoDup(ps) ==> NoDup(front + here) by {
        if NoDup(ps) {
          PrefixNoDup(ps, n);
          NoDupConcat(front, here);
        }
      }
      front + here
  }

  /** Visiting one more position `p` adds its first index exactly when `p` dies. */
  lemma CollectStep(cells: seq<Cell>, width: int, height: int, ps: seq<Cell>, front: seq<int>, here: seq<int>)
    requires |ps| > 0
    requires forall i :: i in front <==> FirstDying(cells, width, height, ps[..|ps| - 1], i)
    requires here == if Dies(cells, width, height, ps[|ps| - 1])
                     then [CellExists(cells, ps[|ps| - 1].x, ps[|ps| - 1].y)] else []
    ensures forall i :: i in front + here <==> FirstDying(cells, width, height, ps, i)
  {
    var p := ps[|ps| - 1];
    LastSplit(ps);
    forall i
      ensures i in front + here <==> FirstDying(cells, width, height, ps, i)
    {
      if i in here {
        assert cells[i] == p;
      }
    }
  }

  /** The `add` list collected over the positions `ps`: every position of `ps` that is born. */
  function Births(cells: seq<Cell>, width: int, height: int, ps: seq<Cell>): (r: seq<Cell>)
    ensures forall c :: c in r <==> c in ps && Born(cells, width, height, c)
    ensures NoDup(ps) ==> NoDup(r)
    decreases |ps|
  {
    if |ps| == 0 then []
    else
      var n := |ps| - 1;
      var p := ps[n];
      var front := Births(cells, width, height, ps[..n]);
      LastSplit(ps);
      var here := if Born(cells, width, height, p) then [p] else [];
      assert NoDup(ps) ==> NoDup(front + here) by {
        if NoDup(ps) {
          PrefixNoDup(ps, n);
          NoDupConcat(front, here);
        }
      }
      front + here
  }

  /**
   The new cell list of `iterate`: the descending splice pass over the sorted
   `del` list, then the births pushed in visiting order. Both lists are read
   off the pre-step list; the result keeps, in their original order, exactly
   the elements whose index was not collected, followed by the births.
   */
  function StepCells(cells: seq<Cell>, width: int, height: int): (r: seq<Cell>)
    ensures r == Keep(cells, set i | i in Deletions(cells, width, height, Positions(width, height)))
                 + Births(cells, width, height, Positions(width, height))
  {
    var ps := Positions(width, height);
    var del := Deletions(cells, width, height, ps);
    var add := Births(cells, width, height, ps);
    RemoveSorted(cells, del) + add
  }

  /**
   The step as written, on a list without duplicates: a board position is live
   afterwards exactly when B3/S23 applied to the as-written neighbour count
   says so, and a live cell off the board is never visited and so is kept.
   */
  lemma StepAsWritten(cells: seq<Cell>, width: int, height: int, c: Cell)
    requires NoDup(cells)
    ensures c in StepCells(cells, width, height) <==>
      if InBoard(width, height, c)
      then NextLive(c in cells, CalcNeighbours(cells, width, height, c.x, c.y))
      else c in cells
  {
    var ps := Positions(width, height);
    var kept := Keep(cells, set i | i in Deletions(cells, width, height, ps));
    var add := Births(cells, width, height, ps);
    assert StepCells(cells, width, height) == kept + add;
    ScheduleIsRule(c in cells, CalcNeighbours(cells, width, height, c.x, c.y));
    if c in cells {
      assert c !in add;
      KeptUnlessDying(cells, width, height, c);
    } else {
      assert c !in kept;
    }
  }

  /** A live cell of a list without duplicates survives the deletion pass exactly when it is not a visited dying cell. */
  lemma KeptUnlessDying(cells: seq<Cell>, width: int, height: int, c: Cell)
    requires NoDup(cells) && c in cells
    ensures c in Keep(cells, set i | i in Deletions(cells, width, height, Positions(width, height)))
        <==> !(InBoard(width, height, c) && Dies(cells, width, height, c))
  {
    var gone := set i | i in Deletions(cells, width, height, Positions(width, height));
    var i := CellExists(cells, c.x, c.y);
    assert cells[i] == c;
    forall j | 0 <= j < |cells| && cells[j] == c
      ensures j == i
    {
      CellExistsDistinct(cells, j);
    }
    if i in gone {
      assert InBoard(width, height, c) && Dies(cells, width, height, c);
    } else {
      assert c in Keep(cells, gone);
    }
  }

  /**
   When every live cell lies on the board and none is listed twice, one step
   yields exactly the B3/S23 successor of the live set.
   */
  lemma StepIsSuccessor(cells: seq<Cell>, width: int, height: int)
    requires NoDup(cells) && AllInBoard(width, height, cells)
    ensures IsSuccessor(Elems(cells), Elems(StepCells(cells, width, height)), width, height)
  {
    forall c
      ensures c in Elems(StepCells(cells, width, height)) <==>
        InBoard(width, height, c) && NextLive(c in Elems(cells), LiveNeighbours(Elems(cells), width, height, c))
    {
      StepAsWritten(cells, width, height, c);
      StrictCount(cells, width, height, c.x, c.y);
    }
  }

  /**
   Births always lie on the board and are new, so a step keeps the list on the
   board and free of duplicates.
   */
  lemma StepKeepsInvariant(cells: seq<Cell>, width: int, height: int)
    ensures AllInBoard(width, height, cells) ==> AllInBoard(width, height, StepCells(cells, width, height))
    ensures NoDup(cells) ==> NoDup(StepCells(cells, width, height))
  {
    var ps := Positions(width, height);
    var gone := set i | i in Deletions(cells, width, height, ps);
    var kept := Keep(cells, gone);
    var add := Births(cells, width, height, ps);
    assert forall c :: c in add ==> InBoard(width, height, c) && c !in cells;
    assert forall c :: c in kept ==> c in cells;
    if NoDup(cells) {
      KeepNoDup(cells, gone);
      NoDupConcat(kept, add);
    }
  }

  /** Keeping a subsequence of a list without duplicates leaves none. */
  lemma {:induction false} KeepNoDup(s: seq<Cell>, gone: set<int>)
    requires NoDup(s)
    ensures NoDup(Keep(s, gone))
    decreases |s|
  {
    if |s| > 0 {
      var n := |s| - 1;
      PrefixNoDup(s, n);
      KeepNoDup(s[..n], gone);
      if n !in gone {
        assert s[n] !in Keep(s[..n], gone);
        NoDupConcat(Keep(s[..n], gone), [s[n]]);
      }
    }
  }

  /** On an empty board no visited position is born. */
  lemma {:induction false} NoBirthsOnEmpty(width: int, height: int, ps: seq<Cell>)
    ensures Births([], width, height, ps) == []
    decreases |ps|
  {
    if |ps| > 0 {
      var p := ps[|ps| - 1];
      NoBirthsOnEmpty(width, height, ps[..|ps| - 1]);
      assert ScannedLive([], width, height, p.x, p.y) == {};
    }
  }

  /** Stepping an empty board yields an empty board. */
  lemma StepEmpty(width: int, height: int)
    ensures StepCells([], width, height) == []
  {
    NoBirthsOnEmpty(width, height, Positions(width, height));
  }
}
