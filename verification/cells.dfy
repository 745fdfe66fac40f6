/**
 The live-cell list of the board (`aliveCells` in life.js): cells, the board
 rectangle, the linear-scan membership test, the click toggle and the figure
 translation used by `setFigure`.
 */
module Cells {

  /** A board position; two cells are the same exactly when both coordinates agree. */
  datatype Cell = Cell(x: int, y: int)

  /** True when `c` lies on the `width` × `height` board. */
  predicate InBoard(width: int, height: int, c: Cell) {
    0 <= c.x < width && 0 <= c.y < height
  }

  /** Every element of the list lies on the board. */
  predicate AllInBoard(width: int, height: int, cells: seq<Cell>) {
    forall c :: c in cells ==> InBoard(width, height, c)
  }

  /** No element occurs twice. */
  predicate NoDup<T(==)>(s: seq<T>) {
    forall i, j :: 0 <= i < j < |s| ==> s[i] != s[j]
  }

  /** The set of positions the list holds. */
  function Elems(cells: seq<Cell>): set<Cell> {
    set c | c in cells
  }

  lemma NoDupConcat<T>(a: seq<T>, b: seq<T>)
    requires NoDup(a) && NoDup(b)
    requires forall c :: c in a ==> c !in b
    ensures NoDup(a + b)
  {
    forall i, j | 0 <= i < j < |a + b|
      ensures (a + b)[i] != (a + b)[j]
    {
      if i < |a| && |a| <= j {
        assert (a + b)[i] in a;
        assert (a + b)[j] == b[j - |a|];
      }
    }
  }

  /**
   `cellExists`: a linear scan returning the first index whose element is
   (x, y), or -1 when no element is.
   */
  function CellExists(cells: seq<Cell>, x: int, y: int): (r: int)
    ensures -1 <= r < |cells|
    ensures r == -1 <==> Cell(x, y) !in cells
    ensures 0 <= r ==> cells[r] == Cell(x, y)
    ensures 0 <= r ==> forall j :: 0 <= j < r ==> cells[j] != Cell(x, y)
  {
    if |cells| == 0 then -1
    else if cells[0].y == y && cells[0].x == x then 0
    else
      var r := CellExists(cells[1..], x, y);
      assert forall j :: 1 <= j < |cells| ==> cells[j] == cells[1..][j - 1];
      if r == -1 then -1 else r + 1
  }

  /** In a list without duplicates the first index of an element is its only index. */
  lemma CellExistsDistinct(cells: seq<Cell>, i: int)
    requires NoDup(cells)
    requires 0 <= i < |cells|
    ensures CellExists(cells, cells[i].x, cells[i].y) == i
  {
  }

  /** A list without duplicates holds each element at most once, counted as a multiset. */
  lemma {:induction false} NoDupCount(cells: seq<Cell>)
    requires NoDup(cells)
    ensures forall c :: multiset(cells)[c] <= 1
  {
    if |cells| > 0 {
      assert cells == [cells[0]] + cells[1..];
      assert NoDup(cells[1..]) by {
        forall i, j | 0 <= i < j < |cells[1..]|
          ensures cells[1..][i] != cells[1..][j]
        {
          assert cells[1..][i] == cells[i + 1] && cells[1..][j] == cells[j + 1];
        }
      }
      NoDupCount(cells[1..]);
      assert cells[0] !in cells[1..] by {
        forall j | 0 <= j < |cells[1..]|
          ensures cells[1..][j] != cells[0]
        {
          assert cells[1..][j] == cells[j + 1];
        }
      }
    }
  }

  /**
   `splice(index, 1)`: the list without its element at `index`. It is one
   element shorter, the elements before `index` stay put, the ones after move
   down by one, and exactly one copy of the element at `index` is gone.
   */
  function Splice(cells: seq<Cell>, index: int): (r: seq<Cell>)
    requires 0 <= index < |cells|
    ensures |r| == |cells| - 1
    ensures forall j :: 0 <= j < index ==> r[j] == cells[j]
    ensures forall j :: index <= j < |r| ==> r[j] == cells[j + 1]
    ensures multiset(r) == multiset(cells) - multiset{cells[index]}
  {
    assert cells == cells[..index] + [cells[index]] + cells[index + 1..];
    cells[..index] + cells[index + 1..]
  }

  /** Splicing one element out of a list without duplicates leaves none. */
  lemma SpliceNoDup(cells: seq<Cell>, index: int)
    requires NoDup(cells)
    requires 0 <= index < |cells|
    ensures NoDup(Splice(cells, index))
  {
    var r := Splice(cells, index);
    forall i, j | 0 <= i < j < |r|
      ensures r[i] != r[j]
    {
      var i' := if i < index then i else i + 1;
      var j' := if j < index then j else j + 1;
      assert r[i] == cells[i'] && r[j] == cells[j'];
    }
  }

  /**
   The toggle of a click: a present cell is spliced out at the index the scan
   found, an absent one is pushed at the end.
   */
  function Toggle(cells: seq<Cell>, x: int, y: int): (r: seq<Cell>)
    ensures Cell(x, y) in cells ==> multiset(r) == multiset(cells) - multiset{Cell(x, y)}
    ensures Cell(x, y) in cells ==>
      var i := CellExists(cells, x, y);
      && |r| == |cells| - 1
      && (forall j :: 0 <= j < i ==> r[j] == cells[j])
      && (forall j :: i <= j < |r| ==> r[j] == cells[j + 1])
    ensures Cell(x, y) !in cells ==> r == cells + [Cell(x, y)]
    ensures forall c :: c != Cell(x, y) ==> (c in r <==> c in cells)
    ensures Cell(x, y) in r <==> multiset(cells)[Cell(x, y)] != 1
  {
    var index := CellExists(cells, x, y);
    if index != -1 then
      var r := Splice(cells, index);
      assert Cell(x, y) in r <==> Cell(x, y) in multiset(r);
      r
    else
      cells + [Cell(x, y)]
  }

  /**
   Clicking the same position twice restores its membership except when the
   list held it exactly twice (only the first copy is removed per click).
   */
  lemma ToggleTwice(cells: seq<Cell>, x: int, y: int)
    ensures (Cell(x, y) in Toggle(Toggle(cells, x, y), x, y) <==> Cell(x, y) in cells)
            <==> multiset(cells)[Cell(x, y)] != 2
  {
    var c := Cell(x, y);
    var once := Toggle(cells, x, y);
    if c in cells {
      assert multiset(once)[c] == multiset(cells)[c] - 1;
    } else {
      assert multiset(once) == multiset(cells) + multiset{c};
    }
  }

  /** On a list without duplicates a click flips exactly the clicked position's membership. */
  lemma ToggleFlips(cells: seq<Cell>, x: int, y: int)
    requires NoDup(cells)
    ensures NoDup(Toggle(cells, x, y))
    ensures Cell(x, y) in Toggle(cells, x, y) <==> Cell(x, y) !in cells
  {
    var index := CellExists(cells, x, y);
    NoDupCount(cells);
    if index != -1 {
      SpliceNoDup(cells, index);
    } else {
      NoDupConcat(cells, [Cell(x, y)]);
    }
  }

  /** On a list without duplicates two clicks on one position restore the set of live cells. */
  lemma ToggleInvolution(cells: seq<Cell>, x: int, y: int)
    requires NoDup(cells)
    ensures Elems(Toggle(Toggle(cells, x, y), x, y)) == Elems(cells)
  {
    var once := Toggle(cells, x, y);
    var twice := Toggle(once, x, y);
    ToggleFlips(cells, x, y);
    ToggleFlips(once, x, y);
    forall c | c != Cell(x, y)
      ensures c in twice <==> c in cells
    {
      assert c in twice <==> c in once;
    }
  }

  /** `setFigure`'s loop: every cell of the figure shifted by the offset, order kept. */
  function Translate(fig: seq<Cell>, offset: Cell): (r: seq<Cell>)
    ensures |r| == |fig|
    ensures forall i :: 0 <= i < |fig| ==> r[i] == Cell(offset.x + fig[i].x, offset.y + fig[i].y)
  {
    if |fig| == 0 then []
    else [Cell(offset.x + fig[0].x, offset.y + fig[0].y)] + Translate(fig[1..], offset)
  }

  /** Translating back by the opposite offset recovers the figure. */
  lemma TranslateRoundTrip(fig: seq<Cell>, offset: Cell)
    ensures Translate(Translate(fig, offset), Cell(-offset.x, -offset.y)) == fig
  {
  }

  /** A position is on the translated figure exactly when its pre-image is on the figure. */
  lemma TranslateMembers(fig: seq<Cell>, offset: Cell, c: Cell)
    ensures c in Translate(fig, offset) <==> Cell(c.x - offset.x, c.y - offset.y) in fig
  {
    var r := Translate(fig, offset);
    var pre := Cell(c.x - offset.x, c.y - offset.y);
    if c in r {
      var i :| 0 <= i < |r| && r[i] == c;
      assert fig[i] == pre;
    }
    if pre in fig {
      var i :| 0 <= i < |fig| && fig[i] == pre;
      assert r[i] == c;
    }
  }

  /** Translation is one-to-one, so it neither creates nor removes duplicates. */
  lemma TranslateNoDup(fig: seq<Cell>, offset: Cell)
    ensures NoDup(Translate(fig, offset)) <==> NoDup(fig)
  {
    var r := Translate(fig, offset);
    assert forall i, j :: 0 <= i < j < |r| ==> (r[i] == r[j] <==> fig[i] == fig[j]);
  }

  /** Every proper prefix of a list without repeats has none and lacks the next element. */
  lemma PrefixNoDup<T>(s: seq<T>, n: int)
    requires NoDup(s) && 0 <= n < |s|
    ensures NoDup(s[..n]) && s[n] !in s[..n]
  {
    forall i, j | 0 <= i < j < n
      ensures s[..n][i] != s[..n][j]
    {
      assert s[..n][i] == s[i] && s[..n][j] == s[j];
    }
    forall j | 0 <= j < n
      ensures s[..n][j] != s[n]
    {
      assert s[..n][j] == s[j];
    }
  }

  /** An element of a non-empty list is in its front part or is its last element. */
  lemma LastSplit<T>(s: seq<T>)
    requires |s| > 0
    ensures forall c :: c in s <==> c in s[..|s| - 1] || c == s[|s| - 1]
  {
    assert s == s[..|s| - 1] + [s[|s| - 1]];
  }

  /** The placed figure lies on the board exactly when every figure cell shifted by the offset does. */
  lemma TranslateOnBoard(fig: seq<Cell>, offset: Cell, width: int, height: int)
    ensures AllInBoard(width, height, Translate(fig, offset)) <==>
      forall c :: c in fig ==> InBoard(width, height, Cell(offset.x + c.x, offset.y + c.y))
  {
    var r := Translate(fig, offset);
    if AllInBoard(width, height, r) {
      forall c | c in fig
        ensures InBoard(width, height, Cell(offset.x + c.x, offset.y + c.y))
      {
        var i :| 0 <= i < |fig| && fig[i] == c;
        assert r[i] in r;
      }
    }
  }

  /** The standard five-cell glider placed at (5, 5). */
  lemma GliderAtFive()
    ensures Elems(Translate([Cell(0, 0), Cell(1, 0), Cell(2, 0), Cell(2, -1), Cell(1, -2)], Cell(5, 5)))
            == {Cell(5, 5), Cell(6, 5), Cell(7, 5), Cell(7, 4), Cell(6, 3)}
  {
    var fig := [Cell(0, 0), Cell(1, 0), Cell(2, 0), Cell(2, -1), Cell(1, -2)];
    var r := Translate(fig, Cell(5, 5));
    assert r[0] == Cell(5, 5) && r[1] == Cell(6, 5) && r[2] == Cell(7, 5) && r[3] == Cell(7, 4) && r[4] == Cell(6, 3);
    assert r == [Cell(5, 5), Cell(6, 5), Cell(7, 5), Cell(7, 4), Cell(6, 3)];
  }
}
