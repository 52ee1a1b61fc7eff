/**
 * The shots grid: the attacking player's record of guesses against the
 * opponent's placement grid, the cell lists derived from it, win detection
 * and the estimate of which ships remain.
 */
module Shots {
  import opened Boards
  import opened Grids
  import opened Placement

  const UNGUESSED := 0
  const HIT := 1
  const MISS := 2

  /** The trials the remaining-ships estimate makes before it falls back to the fleet. */
  const REMAINING_SHIP_TRIALS := 999

  /** A value that records no guess. */
  function Unmarked(): int -> bool {
    x => x != HIT && x != MISS
  }

  function HitCells(b: Board): (r: seq<Cell>)
    ensures forall c :: c in r <==> InGrid(b, c) && Value(b, c) == HIT
    ensures RowMajor(r)
  {
    Matching(b, Is(HIT))
  }

  function MissedCells(b: Board): (r: seq<Cell>)
    ensures forall c :: c in r <==> InGrid(b, c) && Value(b, c) == MISS
    ensures RowMajor(r)
  {
    Matching(b, Is(MISS))
  }

  /** The hit cells followed by the missed cells. */
  function GuessedCells(b: Board): (r: seq<Cell>)
    ensures forall c :: c in r <==> InGrid(b, c) && (Value(b, c) == HIT || Value(b, c) == MISS)
  {
    HitCells(b) + MissedCells(b)
  }

  /** The cells of the grid, in row-major order, that are not among the guessed cells. */
  function UnguessedCells(b: Board): (r: seq<Cell>)
    ensures forall c :: c in r <==> InGrid(b, c) && Value(b, c) != HIT && Value(b, c) != MISS
    ensures RowMajor(r)
  {
    FilterRowMajor(Cells(b), NotIn(GuessedCells(b)));
    Filter(Cells(b), NotIn(GuessedCells(b)))
  }

  /** The unguessed cells are exactly the cells whose value records no guess. */
  lemma UnguessedByValue(b: Board)
    ensures UnguessedCells(b) == Matching(b, Unmarked())
  {
    FilterCongruent(Cells(b), NotIn(GuessedCells(b)), Holds(b, Unmarked()));
  }

  /** Hit, missed and unguessed cells split the grid: each cell is in exactly one list. */
  lemma Partition(b: Board)
    ensures |HitCells(b)| + |MissedCells(b)| + |UnguessedCells(b)| == |Cells(b)|
    ensures |GuessedCells(b)| + |UnguessedCells(b)| == |Cells(b)|
  {
    UnguessedByValue(b);
    FilterPartition(Cells(b), Holds(b, Is(HIT)), Holds(b, Is(MISS)), Holds(b, Unmarked()));
  }

  /** Guessing an unguessed cell moves exactly that cell from the unguessed to the guessed list. */
  lemma GuessMovesOneCell(b: Board, c: Cell, v: int)
    requires c in UnguessedCells(b) && (v == HIT || v == MISS)
    ensures |UnguessedCells(Write(b, c, v))| == |UnguessedCells(b)| - 1
    ensures |GuessedCells(Write(b, c, v))| == |GuessedCells(b)| + 1
  {
    var b' := Write(b, c, v);
    UnguessedByValue(b);
    UnguessedByValue(b');
    MatchingAfterWrite(b, c, v, Unmarked());
    Partition(b);
    Partition(b');
    CellsSameShape(b, b');
  }

  /** `a` and `b` share a side. */
  predicate Adjacent(a: Cell, b: Cell) {
    (a.row == b.row && (a.col - b.col == 1 || b.col - a.col == 1)) ||
    (a.col == b.col && (a.row - b.row == 1 || b.row - a.row == 1))
  }

  /** The cells above, below, left of and right of `c`, in that order. */
  function Neighbours(c: Cell): (r: seq<Cell>)
    ensures forall d :: d in r <==> Adjacent(c, d)
  {
    [Cell(c.row - 1, c.col), Cell(c.row + 1, c.col), Cell(c.row, c.col - 1), Cell(c.row, c.col + 1)]
  }

  /** For each hit in turn, its neighbours that are in `unguessed`; duplicates are kept. */
  function Targets(hits: seq<Cell>, unguessed: seq<Cell>): seq<Cell> {
    if hits == [] then []
    else Filter(Neighbours(hits[0]), In(unguessed)) + Targets(hits[1..], unguessed)
  }

  lemma TargetsCons(h: Cell, hits: seq<Cell>, unguessed: seq<Cell>)
    ensures Targets([h] + hits, unguessed) == Filter(Neighbours(h), In(unguessed)) + Targets(hits, unguessed)
  {
    assert ([h] + hits)[1..] == hits;
  }

  /** The test for a cell sharing a side with `c`. */
  function Beside(c: Cell): Cell -> bool {
    h => Adjacent(h, c)
  }

  /** A cell is one neighbour of `h`, once, exactly when it shares a side with `h`. */
  lemma NeighbourOnce(h: Cell, c: Cell)
    ensures multiset(Neighbours(h))[c] == if Adjacent(h, c) then 1 else 0
  {
  }

  /** An unguessed cell is listed once for each hit beside it. */
  lemma {:induction false} TargetsMultiplicity(hits: seq<Cell>, unguessed: seq<Cell>, c: Cell)
    requires c in unguessed
    ensures multiset(Targets(hits, unguessed))[c] == |Filter(hits, Beside(c))|
  {
    if hits != [] {
      TargetsMultiplicity(hits[1..], unguessed, c);
      FilterCount(Neighbours(hits[0]), In(unguessed), c);
      NeighbourOnce(hits[0], c);
    }
  }

  /** A target is an unguessed cell beside one of the hits. */
  lemma {:induction false} TargetsMembers(hits: seq<Cell>, unguessed: seq<Cell>)
    ensures forall c :: c in Targets(hits, unguessed) <==> c in unguessed && exists h :: h in hits && Adjacent(h, c)
  {
    if hits != [] {
      TargetsMembers(hits[1..], unguessed);
      assert forall h :: h in hits <==> h == hits[0] || h in hits[1..];
    }
  }

  /**
   * The cells worth targeting: every unguessed cell that shares a side
   * with a hit cell, listed hit by hit.
   */
  function TargetCells(b: Board): (r: seq<Cell>)
    ensures forall c :: c in r <==>
      InGrid(b, c) && Value(b, c) != HIT && Value(b, c) != MISS &&
      exists h :: InGrid(b, h) && Value(b, h) == HIT && Adjacent(h, c)
  {
    TargetsMembers(HitCells(b), UnguessedCells(b));
    Targets(HitCells(b), UnguessedCells(b))
  }

  /** Each unguessed cell appears in the target list once per hit cell beside it. */
  lemma TargetCellsMultiplicity(b: Board, c: Cell)
    requires c in UnguessedCells(b)
    ensures multiset(TargetCells(b))[c] == |Filter(HitCells(b), Beside(c))|
  {
    TargetsMultiplicity(HitCells(b), UnguessedCells(b), c);
  }

  /** With hits at (1, 1) and (1, 3) only, the unguessed (1, 2) between them is listed twice. */
  lemma TwiceBetweenHits(b: Board)
    requires HitCells(b) == [Cell(1, 1), Cell(1, 3)] && Cell(1, 2) in UnguessedCells(b)
    ensures multiset(TargetCells(b))[Cell(1, 2)] == 2
  {
    TargetCellsMultiplicity(b, Cell(1, 2));
    assert Filter([Cell(1, 3)], Beside(Cell(1, 2))) == [Cell(1, 3)];
  }

  /** The game is won once there are as many hits as the fleet has cells. */
  predicate IsWon(b: Board) {
    |HitCells(b)| >= Sum(SHIPS)
  }

  /**
   * The shots grid records true outcomes against the placement grid `p`:
   * a hit cell is occupied there and a missed cell is EMPTY there.
   */
  ghost predicate Records(b: Board, p: Board) {
    SameShape(b, p) &&
    forall c :: InGrid(b, c) ==>
      InGrid(p, c) &&
      (Value(b, c) == HIT ==> Value(p, c) != EMPTY) &&
      (Value(b, c) == MISS ==> Value(p, c) == EMPTY)
  }

  /** Never more hits than occupied cells of the opponent. */
  lemma HitsBounded(b: Board, p: Board)
    requires Records(b, p)
    ensures |HitCells(b)| <= |Matching(p, IsNot(EMPTY))|
  {
    CellsSameShape(b, p);
    FilterMonotone(Cells(b), Holds(b, Is(HIT)), Holds(p, IsNot(EMPTY)));
  }

  /** Once every cell is guessed, the hit cells are exactly the opponent's occupied cells. */
  lemma FullyGuessed(b: Board, p: Board)
    requires Records(b, p) && UnguessedCells(b) == []
    ensures HitCells(b) == Matching(p, IsNot(EMPTY))
  {
    MatchingCongruent(b, p, Is(HIT), IsNot(EMPTY));
  }

  /**
   * Against an opponent whose occupied cells are exactly as many as the
   * fleet has cells, the game is won exactly when every occupied cell has
   * been hit.
   */
  lemma WonIffAllHit(b: Board, p: Board)
    requires Records(b, p) && |Matching(p, IsNot(EMPTY))| == Sum(SHIPS)
    ensures IsWon(b) <==> forall c :: InGrid(p, c) && Value(p, c) != EMPTY ==> InGrid(b, c) && Value(b, c) == HIT
  {
    CellsSameShape(b, p);
    var cs := Cells(b);
    if forall c :: InGrid(p, c) && Value(p, c) != EMPTY ==> InGrid(b, c) && Value(b, c) == HIT {
      FilterMonotone(cs, Holds(p, IsNot(EMPTY)), Holds(b, Is(HIT)));
    } else {
      var c :| InGrid(p, c) && Value(p, c) != EMPTY && !(InGrid(b, c) && Value(b, c) == HIT);
      assert c in Matching(p, IsNot(EMPTY));
      FilterStrict(cs, Holds(b, Is(HIT)), Holds(p, IsNot(EMPTY)), c);
    }
  }

  /** A hit at (1, 1) beside a miss at (2, 1) leaves (1, 2) as the only target. */
  lemma TargetBesideHit(b: Board)
    requires Shaped(b, ROWS, COLS)
    requires forall c :: InGrid(b, c) ==>
      Value(b, c) == if c == Cell(1, 1) then HIT else if c == Cell(2, 1) then MISS else UNGUESSED
    ensures TargetCells(b) == [Cell(1, 2)]
  {
    TargetsBesideHit(b);
  }

  lemma TargetsBesideHit(b: Board)
    requires Shaped(b, ROWS, COLS)
    requires forall c :: InGrid(b, c) ==>
      Value(b, c) == if c == Cell(1, 1) then HIT else if c == Cell(2, 1) then MISS else UNGUESSED
    ensures Targets(HitCells(b), UnguessedCells(b)) == [Cell(1, 2)]
  {
    var hits := HitCells(b);
    assert forall c :: c in hits ==> c == Cell(1, 1);
    assert InGrid(b, Cell(1, 1)) && Cell(1, 1) in hits;
    RowMajorUnique(hits, [Cell(1, 1)]);
    var u := UnguessedCells(b);
    assert InGrid(b, Cell(1, 2)) && Cell(1, 2) in u;
    assert InGrid(b, Cell(2, 1)) && Cell(2, 1) !in u;
    NeighboursBesideHit(u);
    assert Targets(hits[1..], u) == [];
  }

  lemma NeighboursBesideHit(u: seq<Cell>)
    requires Cell(1, 2) in u && Cell(2, 1) !in u && Cell(0, 1) !in u && Cell(1, 0) !in u
    ensures Filter(Neighbours(Cell(1, 1)), In(u)) == [Cell(1, 2)]
  {
    var keep := In(u);
    FilterCons(Cell(1, 2), [], keep);
    FilterCons(Cell(1, 0), [Cell(1, 2)], keep);
    FilterCons(Cell(2, 1), [Cell(1, 0), Cell(1, 2)], keep);
    FilterCons(Cell(0, 1), [Cell(2, 1), Cell(1, 0), Cell(1, 2)], keep);
  }

  /**
   * Hits at (1, 1) and (5, 5) and a miss at (9, 9) give six targets: two
   * beside the corner hit and all four around the other.
   */
  lemma SixTargets(b: Board)
    requires Shaped(b, ROWS, COLS)
    requires forall c :: InGrid(b, c) ==>
      Value(b, c) == if c == Cell(1, 1) || c == Cell(5, 5) then HIT else if c == Cell(9, 9) then MISS else UNGUESSED
    ensures TargetCells(b) == [Cell(2, 1), Cell(1, 2), Cell(4, 5), Cell(6, 5), Cell(5, 4), Cell(5, 6)]
  {
    SixTargetsHits(b);
    SixTargetsUnguessed(b);
    SixTargetsFrom(UnguessedCells(b));
  }

  lemma SixTargetsUnguessed(b: Board)
    requires Shaped(b, ROWS, COLS)
    requires forall c :: InGrid(b, c) ==>
      Value(b, c) == if c == Cell(1, 1) || c == Cell(5, 5) then HIT else if c == Cell(9, 9) then MISS else UNGUESSED
    ensures var u := UnguessedCells(b);
      Cell(2, 1) in u && Cell(1, 2) in u && Cell(0, 1) !in u && Cell(1, 0) !in u &&
      Cell(4, 5) in u && Cell(6, 5) in u && Cell(5, 4) in u && Cell(5, 6) in u
  {
    assert InGrid(b, Cell(2, 1)) && InGrid(b, Cell(1, 2));
    assert InGrid(b, Cell(4, 5)) && InGrid(b, Cell(6, 5)) && InGrid(b, Cell(5, 4)) && InGrid(b, Cell(5, 6));
  }

  lemma SixTargetsHits(b: Board)
    requires Shaped(b, ROWS, COLS)
    requires forall c :: InGrid(b, c) ==>
      Value(b, c) == if c == Cell(1, 1) || c == Cell(5, 5) then HIT else if c == Cell(9, 9) then MISS else UNGUESSED
    ensures HitCells(b) == [Cell(1, 1), Cell(5, 5)]
  {
    var hits := HitCells(b);
    assert forall c :: c in hits ==> c == Cell(1, 1) || c == Cell(5, 5);
    assert InGrid(b, Cell(1, 1)) && Cell(1, 1) in hits;
    assert InGrid(b, Cell(5, 5)) && Cell(5, 5) in hits;
    RowMajorUnique(hits, [Cell(1, 1), Cell(5, 5)]);
  }

  lemma SixTargetsFrom(u: seq<Cell>)
    requires Cell(2, 1) in u && Cell(1, 2) in u && Cell(0, 1) !in u && Cell(1, 0) !in u
    requires Cell(4, 5) in u && Cell(6, 5) in u && Cell(5, 4) in u && Cell(5, 6) in u
    ensures Targets([Cell(1, 1), Cell(5, 5)], u) == [Cell(2, 1), Cell(1, 2), Cell(4, 5), Cell(6, 5), Cell(5, 4), Cell(5, 6)]
  {
    CornerNeighbours(u);
    MiddleTargets(u);
    TargetsCons(Cell(1, 1), [Cell(5, 5)], u);
    SixCells(Cell(1, 1), Cell(5, 5), [Cell(2, 1), Cell(1, 2)], [Cell(4, 5), Cell(6, 5), Cell(5, 4), Cell(5, 6)]);
  }

  lemma MiddleTargets(u: seq<Cell>)
    requires Cell(4, 5) in u && Cell(6, 5) in u && Cell(5, 4) in u && Cell(5, 6) in u
    ensures Targets([Cell(5, 5)], u) == [Cell(4, 5), Cell(6, 5), Cell(5, 4), Cell(5, 6)]
  {
    MiddleNeighbours(u);
    TargetsSingle(Cell(5, 5), u);
  }

  lemma TargetsSingle(h: Cell, unguessed: seq<Cell>)
    ensures Targets([h], unguessed) == Filter(Neighbours(h), In(unguessed))
  {
    assert [h][1..] == [];
  }

  lemma MiddleNeighbours(u: seq<Cell>)
    requires Cell(4, 5) in u && Cell(6, 5) in u && Cell(5, 4) in u && Cell(5, 6) in u
    ensures Filter(Neighbours(Cell(5, 5)), In(u)) == [Cell(4, 5), Cell(6, 5), Cell(5, 4), Cell(5, 6)]
  {
    var middle := [Cell(4, 5), Cell(6, 5), Cell(5, 4), Cell(5, 6)];
    assert Neighbours(Cell(5, 5)) == middle;
    forall c | c in middle ensures In(u)(c) {
    }
    FilterAll(middle, In(u));
  }

  /** A proof aid: the two literal concatenations of the example, apart from any board. */
  lemma SixCells(h1: Cell, h2: Cell, corner: seq<Cell>, middle: seq<Cell>)
    requires corner == [Cell(2, 1), Cell(1, 2)] && middle == [Cell(4, 5), Cell(6, 5), Cell(5, 4), Cell(5, 6)]
    ensures [h1] + [h2] == [h1, h2]
    ensures corner + middle == [Cell(2, 1), Cell(1, 2), Cell(4, 5), Cell(6, 5), Cell(5, 4), Cell(5, 6)]
  {
  }

  lemma CornerNeighbours(u: seq<Cell>)
    requires Cell(2, 1) in u && Cell(1, 2) in u && Cell(0, 1) !in u && Cell(1, 0) !in u
    ensures Filter(Neighbours(Cell(1, 1)), In(u)) == [Cell(2, 1), Cell(1, 2)]
  {
    var keep := In(u);
    FilterCons(Cell(1, 2), [], keep);
    FilterCons(Cell(1, 0), [Cell(1, 2)], keep);
    FilterCons(Cell(2, 1), [Cell(1, 0), Cell(1, 2)], keep);
    FilterCons(Cell(0, 1), [Cell(2, 1), Cell(1, 0), Cell(1, 2)], keep);
  }

  /**
   * Moving the `i`th of `remaining` to the end of `hit` keeps the ships of
   * both lists together, and their total length.
   */
  lemma MovePopped(remaining: seq<int>, hit: seq<int>, i: int)
    requires 0 <= i < |remaining|
    ensures multiset(remaining[..i] + remaining[i + 1..]) + multiset(hit + [remaining[i]]) == multiset(remaining) + multiset(hit)
    ensures Sum(remaining[..i] + remaining[i + 1..]) + Sum(hit + [remaining[i]]) == Sum(remaining) + Sum(hit)
  {
    var popped := remaining[i];
    assert remaining == remaining[..i] + [popped] + remaining[i + 1..];
    SumConcat(remaining[..i] + [popped], remaining[i + 1..]);
    SumConcat(remaining[..i], [popped]);
    SumConcat(remaining[..i], remaining[i + 1..]);
    SumConcat(hit, [popped]);
  }

  class ShotsGrid {
    const grid: Grid

    ghost predicate Valid()
      reads this, grid
    {
      grid.Valid()
    }

    constructor (rows: nat, cols: nat)
      ensures Valid() && fresh(grid)
      ensures grid.rows == rows && grid.cols == cols
      ensures grid.cells == Filled(rows, cols, UNGUESSED)
    {
      grid := new Grid(rows, cols);
    }

    /**
     * Guesses (row, col) against `opponent`: an EMPTY cell there is marked
     * MISS and gives false, any other value is marked HIT and gives true.
     * `None` (and no change) when the cell is off either grid.
     */
    method Guess(row: int, col: int, opponent: PlacementGrid) returns (hit: Option<bool>)
      requires Valid() && opponent.Valid()
      modifies grid
      ensures Valid()
      ensures hit.None? <==> !InGrid(old(opponent.grid.cells), Cell(row, col)) || !InGrid(old(grid.cells), Cell(row, col))
      ensures hit.None? ==> grid.cells == old(grid.cells)
      ensures hit.Some? ==>
        (hit.value <==> Value(old(opponent.grid.cells), Cell(row, col)) != EMPTY) &&
        grid.cells == Write(old(grid.cells), Cell(row, col), if hit.value then HIT else MISS)
    {
      var empty := opponent.grid.IsEmpty(row, col);
      if empty.None? {
        return None;
      }
      var written := grid.SetCell(row, col, if empty.value then MISS else HIT);
      if !written {
        return None;
      }
      hit := Some(!empty.value);
    }

    /**
     * Guesses which ships remain from the number of hits. With no hits,
     * the whole fleet. Otherwise up to REMAINING_SHIP_TRIALS trials each
     * remove ships from the fleet at random, one at a time, checking after
     * every removal whether the removed lengths add up to the hits; the
     * first match returns the ships not removed. No match: the whole fleet.
     */
    method RemainingShips() returns (ships: seq<int>)
      ensures |HitCells(grid.cells)| == 0 ==> ships == SHIPS
      ensures ships == SHIPS ||
        (1 <= |ships| < |SHIPS| && multiset(ships) < multiset(SHIPS) &&
         Sum(ships) + |HitCells(grid.cells)| == Sum(SHIPS))
    {
      var hits := |HitCells(grid.cells)|;
      if hits != 0 {
        var trial := 0;
        while trial < REMAINING_SHIP_TRIALS {
          var remaining := SHIPS;
          var hitShips := [];
          var count := 0;
          while count < |SHIPS| - 1
            invariant 0 <= count <= |SHIPS| - 1
            invariant |hitShips| == count && |remaining| == |SHIPS| - count
            invariant multiset(remaining) + multiset(hitShips) == multiset(SHIPS)
            invariant Sum(remaining) + Sum(hitShips) == Sum(SHIPS)
          {
            var i :| 0 <= i < |remaining|;
            var popped := remaining[i];
            MovePopped(remaining, hitShips, i);
            hitShips := hitShips + [popped];
            remaining := remaining[..i] + remaining[i + 1..];
            if Sum(hitShips) == hits {
              return remaining;
            }
            count := count + 1;
          }
          trial := trial + 1;
        }
      }
      return SHIPS;
    }
  }
}
