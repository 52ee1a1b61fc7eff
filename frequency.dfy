/**
 * The frequency grid of the Monte Carlo player: one counter per cell of how
 * many sampled placements covered it, with a GUESSED sentinel below every
 * count, and the query for the cells with the highest count.
 */
module Frequency {
  import opened Boards
  import opened Grids

  /** The sentinel of an already guessed cell: below every count. */
  const GUESSED := -1

  /** The largest value among the cells `cs`. */
  function MaxOf(b: Board, cs: seq<Cell>): (m: int)
    requires cs != [] && forall c :: c in cs ==> InGrid(b, c)
    ensures forall c :: c in cs ==> Value(b, c) <= m
    ensures exists c :: c in cs && Value(b, c) == m
  {
    if |cs| == 1 then Value(b, cs[0])
    else
      var m := MaxOf(b, cs[1..]);
      if Value(b, cs[0]) >= m then Value(b, cs[0]) else m
  }

  /**
   * The cells holding the highest value of the grid, in row-major order;
   * `None` for a grid without cells, which has no highest value.
   */
  function BestCells(b: Board): (r: Option<seq<Cell>>)
    ensures r.None? <==> Cells(b) == []
    ensures r.Some? ==> r.value != [] && RowMajor(r.value)
    ensures r.Some? ==> forall c :: c in r.value <==>
      InGrid(b, c) && forall d :: InGrid(b, d) ==> Value(b, d) <= Value(b, c)
  {
    var cs := Cells(b);
    if cs == [] then None
    else
      var best := MaxOf(b, cs);
      FilterRowMajor(cs, Holds(b, AtLeast(best)));
      Some(Filter(cs, Holds(b, AtLeast(best))))
  }

  /**
   * On a grid whose guessed cells `g` hold GUESSED and whose other cells
   * hold counts (never below zero), the best cells avoid `g` whenever some
   * cell lies outside it.
   */
  lemma BestAvoidsGuessed(b: Board, g: seq<Cell>)
    requires forall c :: InGrid(b, c) ==> (c in g ==> Value(b, c) == GUESSED) && (c !in g ==> Value(b, c) >= 0)
    requires exists c :: InGrid(b, c) && c !in g
    ensures BestCells(b).Some?
    ensures forall c :: c in BestCells(b).value ==> c !in g
  {
    var free :| InGrid(b, free) && free !in g;
    assert free in Cells(b);
    forall c | c in BestCells(b).value ensures c !in g {
      assert Value(b, free) <= Value(b, c);
    }
  }

  /**
   * When no count was taken (every other cell still 0), the best cells are
   * exactly the cells outside `g`, in row-major order.
   */
  lemma BestWithoutSamples(b: Board, g: seq<Cell>)
    requires forall c :: InGrid(b, c) ==> Value(b, c) == if c in g then GUESSED else 0
    requires exists c :: InGrid(b, c) && c !in g
    ensures BestCells(b) == Some(Filter(Cells(b), NotIn(g)))
  {
    var free :| InGrid(b, free) && free !in g;
    var cs := Cells(b);
    assert free in cs;
    var best := MaxOf(b, cs);
    assert best == 0 by {
      assert Value(b, free) <= best;
      var top :| top in cs && Value(b, top) == best;
    }
    FilterCongruent(cs, Holds(b, AtLeast(best)), NotIn(g));
  }

  /** The value pattern of the example below: 1 at (1, 1), 2 at (5, 5) and (9, 9), 0 elsewhere. */
  ghost predicate TwoPeaks(b: Board) {
    Shaped(b, ROWS, COLS) &&
    forall c :: InGrid(b, c) ==>
      Value(b, c) == if c == Cell(1, 1) then 1 else if c == Cell(5, 5) || c == Cell(9, 9) then 2 else 0
  }

  lemma TwoPeaksBest(b: Board)
    requires TwoPeaks(b)
    ensures BestCells(b).Some?
    ensures forall c :: c in BestCells(b).value <==> c == Cell(5, 5) || c == Cell(9, 9)
  {
    assert InGrid(b, Cell(5, 5)) && InGrid(b, Cell(9, 9));
    assert Cell(5, 5) in Cells(b);
    forall c | c in BestCells(b).value ensures c == Cell(5, 5) || c == Cell(9, 9) {
      assert Value(b, Cell(5, 5)) <= Value(b, c);
    }
    assert forall d :: InGrid(b, d) ==> Value(b, d) <= 2;
  }

  /** Counts of 1 at (1, 1) and 2 at (5, 5) and (9, 9): the best cells are the two holding 2. */
  lemma TwoBestCells(b: Board)
    requires Shaped(b, ROWS, COLS)
    requires forall c :: InGrid(b, c) ==>
      Value(b, c) == if c == Cell(1, 1) then 1 else if c == Cell(5, 5) || c == Cell(9, 9) then 2 else 0
    ensures BestCells(b) == Some([Cell(5, 5), Cell(9, 9)])
  {
    TwoPeaksBest(b);
    RowMajorUnique(BestCells(b).value, [Cell(5, 5), Cell(9, 9)]);
  }

  class FrequencyGrid {
    const grid: Grid

    ghost predicate Valid()
      reads this, grid
    {
      grid.Valid()
    }

    constructor (rows: nat, cols: nat)
      ensures Valid() && fresh(grid)
      ensures grid.rows == rows && grid.cols == cols
      ensures grid.cells == Filled(rows, cols, 0)
    {
      grid := new Grid(rows, cols);
    }

    /**
     * Sets each of `cs` to GUESSED, in order. A cell off the grid stops the
     * walk there (the IndexError), after the cells before it were set.
     */
    method SetGuessedCells(cs: seq<Cell>) returns (ok: bool)
      requires Valid()
      modifies grid
      ensures Valid()
      ensures ok <==> forall c :: c in cs ==> InGrid(old(grid.cells), c)
      ensures grid.cells == WriteAll(old(grid.cells), cs[..InGridPrefix(old(grid.cells), cs)], GUESSED)
      ensures ok ==> grid.cells == WriteAll(old(grid.cells), cs, GUESSED)
    {
      ghost var start := grid.cells;
      ghost var n := InGridPrefix(start, cs);
      var i := 0;
      while i < |cs|
        invariant 0 <= i <= n
        invariant Valid()
        invariant forall c :: c in cs[..i] ==> InGrid(start, c)
        invariant grid.cells == WriteAll(start, cs[..i], GUESSED)
      {
        var written := grid.SetCell(cs[i].row, cs[i].col, GUESSED);
        if !written {
          assert i == n && cs[i] in cs;
          return false;
        }
        assert cs[..i + 1] == cs[..i] + [cs[i]];
        i := i + 1;
      }
      assert cs[..i] == cs;
      ok := true;
    }

    /** Adds one to the count at (row, col); `false` and no change when off the grid. */
    method Increment(row: int, col: int) returns (ok: bool)
      requires Valid()
      modifies grid
      ensures Valid()
      ensures ok <==> InGrid(old(grid.cells), Cell(row, col))
      ensures grid.cells == if ok then Write(old(grid.cells), Cell(row, col), Value(old(grid.cells), Cell(row, col)) + 1)
                            else old(grid.cells)
    {
      var current := grid.GetCell(row, col);
      if current.None? {
        return false;
      }
      ok := grid.SetCell(row, col, current.value + 1);
    }
  }
}
