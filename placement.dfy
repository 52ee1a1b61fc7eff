/**
 * The placement grid: the hidden field on which the fleet is laid out at
 * random, and the hypothetical fields of the Monte Carlo rollouts. Ships
 * are straight runs of cells; a placement is all or nothing.
 */
module Placement {
  import opened Boards
  import opened Grids

  /** A cell excluded from placement (an already guessed cell in a rollout). */
  const SKIP := -1
  /** A cell covered by a ship. */
  const PLACEMENT := 1

  const MAX_PLACEMENT_ATTEMPTS := 100

  /** The fleet: the lengths of the five ships. */
  const SHIPS: seq<int> := [5, 4, 3, 3, 2]

  /** The four directions a ship may extend in from its anchor cell. */
  datatype Rotation = R0 | R90 | R180 | R270

  function RowStep(rotation: Rotation): int {
    match rotation
    case R90 => -1
    case R270 => 1
    case _ => 0
  }

  function ColStep(rotation: Rotation): int {
    match rotation
    case R180 => -1
    case R0 => 1
    case _ => 0
  }

  /** The cell `i` steps from `anchor`: 0 is rightward, 90 upward, 180 leftward, 270 downward. */
  function Shift(anchor: Cell, rotation: Rotation, i: int): Cell {
    match rotation
    case R0 => Cell(anchor.row, anchor.col + i)
    case R90 => Cell(anchor.row - i, anchor.col)
    case R180 => Cell(anchor.row, anchor.col - i)
    case R270 => Cell(anchor.row + i, anchor.col)
  }

  /** The number of cells a ship of `length` covers: the anchor cell always, so at least one. */
  function Span(length: int): nat {
    if length < 1 then 1 else length
  }

  /**
   * The cells a ship of `length` would cover from `anchor`: the anchor
   * first, then each cell one step further in the rotation's direction.
   */
  function ShipCells(anchor: Cell, length: int, rotation: Rotation): (cs: seq<Cell>)
    ensures |cs| == Span(length) && cs[0] == anchor
    ensures forall i :: 0 <= i < |cs| - 1 ==>
      cs[i + 1] == Cell(cs[i].row + RowStep(rotation), cs[i].col + ColStep(rotation))
    ensures Distinct(cs)
  {
    seq(Span(length), i => Shift(anchor, rotation, i))
  }

  /** Every cell of `cs` is on the board and EMPTY. */
  predicate Fits(b: Board, cs: seq<Cell>) {
    forall i :: 0 <= i < |cs| ==> InGrid(b, cs[i]) && Value(b, cs[i]) == EMPTY
  }

  /** From `b` to `b'` only EMPTY cells have changed, and only to PLACEMENT. */
  ghost predicate Grows(b: Board, b': Board) {
    SameShape(b, b') &&
    forall c :: InGrid(b, c) ==>
      InGrid(b', c) &&
      (Value(b', c) == Value(b, c) || (Value(b, c) == EMPTY && Value(b', c) == PLACEMENT))
  }

  lemma GrowsTransitive(b0: Board, b1: Board, b2: Board)
    requires Grows(b0, b1) && Grows(b1, b2)
    ensures Grows(b0, b2)
  {
  }

  /**
   * Laying a ship over cells that fit only turns EMPTY cells into
   * PLACEMENT, and adds exactly one PLACEMENT cell per ship cell.
   */
  lemma PlacedShip(b: Board, cs: seq<Cell>)
    requires Fits(b, cs) && Distinct(cs)
    ensures forall c :: c in cs ==> InGrid(b, c)
    ensures Grows(b, WriteAll(b, cs, PLACEMENT))
    ensures |Matching(WriteAll(b, cs, PLACEMENT), Is(PLACEMENT))| == |Matching(b, Is(PLACEMENT))| + |cs|
  {
    assert forall c :: c in cs ==> InGrid(b, c) && Value(b, c) == EMPTY by {
      forall c | c in cs ensures InGrid(b, c) && Value(b, c) == EMPTY {
        var i :| 0 <= i < |cs| && cs[i] == c;
      }
    }
    MatchingAfterWriteAll(b, cs, PLACEMENT, Is(PLACEMENT));
  }

  /**
   * On an empty grid a 3-cell ship fits rightward from (1, 1); once it is
   * there, the same ship again and a ship from (1, 1) downward overlap it,
   * while one on the next row fits; leftward from (3, 1)
   * leaves the grid, and so does any ship anchored at (0, 0).
   */
  lemma PlacementExamples(b: Board)
    requires Shaped(b, ROWS, COLS) && forall c :: InGrid(b, c) ==> Value(b, c) == EMPTY
    ensures Fits(b, ShipCells(Cell(1, 1), 3, R0))
    ensures !Fits(WriteAll(b, ShipCells(Cell(1, 1), 3, R0), PLACEMENT), ShipCells(Cell(1, 1), 3, R0))
    ensures !Fits(WriteAll(b, ShipCells(Cell(1, 1), 3, R0), PLACEMENT), ShipCells(Cell(1, 1), 3, R270))
    ensures Fits(WriteAll(b, ShipCells(Cell(1, 1), 3, R0), PLACEMENT), ShipCells(Cell(2, 1), 3, R0))
    ensures !Fits(b, ShipCells(Cell(3, 1), 3, R180))
    ensures !Fits(b, ShipCells(Cell(0, 0), 2, R0))
  {
    var first := ShipCells(Cell(1, 1), 3, R0);
    assert first[1] == Cell(1, 2) && first[2] == Cell(1, 3);
    var second := ShipCells(Cell(2, 1), 3, R0);
    assert second[1] == Cell(2, 2) && second[2] == Cell(2, 3);
    assert ShipCells(Cell(3, 1), 3, R180)[1] == Cell(3, 0);
  }

  /** The total number of cells the ships of `lengths` cover. */
  function SpanTotal(lengths: seq<int>): nat {
    if lengths == [] then 0 else SpanTotal(lengths[..|lengths| - 1]) + Span(lengths[|lengths| - 1])
  }

  /**
   * The cells a ship would occupy, built as the game builds them: start
   * from the anchor and add one cell a step further until `length` cells.
   */
  method CellsToOccupy(anchor: Cell, length: int, rotation: Rotation) returns (cells: seq<Cell>)
    ensures cells == ShipCells(anchor, length, rotation)
  {
    var rowStep, colStep := RowStep(rotation), ColStep(rotation);
    cells := [anchor];
    var index := 1;
    while index < length
      invariant 1 <= index <= Span(length)
      invariant |cells| == index
      invariant forall i :: 0 <= i < index ==> cells[i] == Shift(anchor, rotation, i)
    {
      var last := cells[|cells| - 1];
      cells := cells + [Cell(last.row + rowStep, last.col + colStep)];
      index := index + 1;
    }
  }

  /** The cells of the ships of `lengths` laid from the anchors and rotations of `fleet`, ship after ship. */
  function FleetCells(lengths: seq<int>, fleet: seq<(Cell, Rotation)>): seq<Cell>
    requires |lengths| == |fleet|
    decreases |lengths|
  {
    if lengths == [] then []
    else
      var n := |lengths| - 1;
      FleetCells(lengths[..n], fleet[..n]) + ShipCells(fleet[n].0, lengths[n], fleet[n].1)
  }

  lemma FleetCellsSnoc(lengths: seq<int>, fleet: seq<(Cell, Rotation)>)
    requires |lengths| == |fleet| > 0
    ensures var n := |lengths| - 1;
      FleetCells(lengths, fleet) == FleetCells(lengths[..n], fleet[..n]) + ShipCells(fleet[n].0, lengths[n], fleet[n].1)
  {
  }

  /** Ships of length at least one cover as many cells as their lengths add up to. */
  lemma {:induction false} FleetCellsCount(lengths: seq<int>, fleet: seq<(Cell, Rotation)>)
    requires |lengths| == |fleet|
    requires forall x :: x in lengths ==> x >= 1
    ensures |FleetCells(lengths, fleet)| == Sum(lengths)
    decreases |lengths|
  {
    if lengths != [] {
      var n := |lengths| - 1;
      assert lengths[n] in lengths && forall x :: x in lengths[..n] ==> x in lengths;
      FleetCellsCount(lengths[..n], fleet[..n]);
      assert lengths == lengths[..n] + [lengths[n]];
      SumConcat(lengths[..n], [lengths[n]]);
    }
  }

  /**
   * A ship that fits on the grid after the earlier ships were laid is
   * disjoint from them and EMPTY on the grid before them; laying it after
   * them is laying them all at once.
   */
  lemma FleetGrows(b: Board, laid: seq<Cell>, ship: seq<Cell>)
    requires forall c :: c in laid ==> InGrid(b, c)
    requires Fits(b, laid) && Distinct(laid)
    requires Fits(WriteAll(b, laid, PLACEMENT), ship) && Distinct(ship)
    ensures forall c :: c in laid + ship ==> InGrid(b, c)
    ensures Fits(b, laid + ship) && Distinct(laid + ship)
    ensures WriteAll(WriteAll(b, laid, PLACEMENT), ship, PLACEMENT) == WriteAll(b, laid + ship, PLACEMENT)
  {
    var mid := WriteAll(b, laid, PLACEMENT);
    forall j | 0 <= j < |ship| ensures InGrid(b, ship[j]) && Value(b, ship[j]) == EMPTY && ship[j] !in laid {
      assert InGrid(mid, ship[j]) && Value(mid, ship[j]) == EMPTY;
    }
    var all := laid + ship;
    forall i, j | 0 <= i < j < |all| ensures all[i] != all[j] {
      if i < |laid| && j >= |laid| {
        assert all[j] == ship[j - |laid|] && all[i] in laid;
      }
    }
    WriteAllConcat(b, laid, ship, PLACEMENT);
  }

  /**
   * `b'` is `b` with ships of `lengths` laid from the anchors and rotations
   * of `fleet`: their cells were on `b`, EMPTY and pairwise disjoint, and
   * exactly they have become PLACEMENT.
   */
  ghost predicate Laid(b: Board, b': Board, lengths: seq<int>, fleet: seq<(Cell, Rotation)>) {
    |fleet| == |lengths| &&
    var cs := FleetCells(lengths, fleet);
    (forall c :: c in cs ==> InGrid(b, c)) && Fits(b, cs) && Distinct(cs) &&
    b' == WriteAll(b, cs, PLACEMENT)
  }

  /** Laying one more ship where it fits extends the laid fleet by it. */
  lemma LaidStep(b: Board, b': Board, lengths: seq<int>, fleet: seq<(Cell, Rotation)>, length: int, anchor: Cell, rotation: Rotation)
    requires Laid(b, b', lengths, fleet)
    requires Fits(b', ShipCells(anchor, length, rotation))
    ensures Laid(b, WriteAll(b', ShipCells(anchor, length, rotation), PLACEMENT), lengths + [length], fleet + [(anchor, rotation)])
  {
    var lengths', fleet' := lengths + [length], fleet + [(anchor, rotation)];
    FleetGrows(b, FleetCells(lengths, fleet), ShipCells(anchor, length, rotation));
    FleetCellsSnoc(lengths', fleet');
    assert lengths'[..|lengths|] == lengths && fleet'[..|lengths|] == fleet;
  }

  /** Keeping or dropping the next ship keeps the laid ships among the ships seen so far. */
  lemma LaidAmong(laid: seq<int>, ships: seq<int>, i: nat, keep: bool)
    requires i < |ships| && multiset(laid) <= multiset(ships[..i])
    ensures multiset(if keep then laid + [ships[i]] else laid) <= multiset(ships[..i + 1])
  {
    assert ships[..i + 1] == ships[..i] + [ships[i]];
  }

  /** The cells of the first `i + 1` ships are those of the first `i` and the next one's. */
  lemma SpanTotalSnoc(ships: seq<int>, i: nat)
    requires i < |ships|
    ensures SpanTotal(ships[..i + 1]) == SpanTotal(ships[..i]) + Span(ships[i])
  {
    assert ships[..i + 1][..i] == ships[..i];
  }

  /** The first `i + 1` elements are the first `i` followed by the next one. */
  lemma PrefixSnoc(s: seq<int>, i: nat)
    requires i < |s|
    ensures s[..i + 1] == s[..i] + [s[i]]
  {
  }

  /** A laid fleet of ships of length at least one only turns EMPTY cells into PLACEMENT, one per cell of its ships. */
  lemma LaidGrows(b: Board, b': Board, lengths: seq<int>, fleet: seq<(Cell, Rotation)>)
    requires Laid(b, b', lengths, fleet)
    requires forall x :: x in lengths ==> x >= 1
    ensures Grows(b, b')
    ensures |Matching(b', Is(PLACEMENT))| == |Matching(b, Is(PLACEMENT))| + Sum(lengths)
  {
    PlacedShip(b, FleetCells(lengths, fleet));
    FleetCellsCount(lengths, fleet);
  }

  class PlacementGrid {
    const grid: Grid

    ghost predicate Valid()
      reads this, grid
    {
      grid.Valid()
    }

    constructor (rows: nat, cols: nat)
      ensures Valid() && fresh(grid)
      ensures grid.rows == rows && grid.cols == cols
      ensures grid.cells == Filled(rows, cols, EMPTY)
    {
      grid := new Grid(rows, cols);
    }

    /**
     * Places a ship of `length` at (row, col) along `rotation` when every
     * cell it would cover is on the grid and EMPTY; otherwise reports false
     * and leaves the grid as it was.
     */
    method Place(row: int, col: int, length: int, rotation: Rotation) returns (free: bool)
      requires Valid()
      modifies grid
      ensures Valid()
      ensures free <==> Fits(old(grid.cells), ShipCells(Cell(row, col), length, rotation))
      ensures grid.cells == if free then WriteAll(old(grid.cells), ShipCells(Cell(row, col), length, rotation), PLACEMENT)
                            else old(grid.cells)
    {
      var cells := CellsToOccupy(Cell(row, col), length, rotation);
      free := AllEmpty(cells);
      if free {
        Occupy(cells);
      }
    }

    /** Whether every one of `cells` is on the grid and EMPTY, checked in order. */
    method AllEmpty(cells: seq<Cell>) returns (free: bool)
      ensures free <==> Fits(grid.cells, cells)
    {
      free := true;
      var k := 0;
      while k < |cells| && free
        invariant 0 <= k <= |cells|
        invariant free ==> forall j :: 0 <= j < k ==> InGrid(grid.cells, cells[j]) && Value(grid.cells, cells[j]) == EMPTY
        invariant !free ==> !Fits(grid.cells, cells)
        decreases |cells| - k, free
      {
        var empty := grid.IsEmpty(cells[k].row, cells[k].col);
        if empty.None? || !empty.value {
          free := false;
        } else {
          k := k + 1;
        }
      }
    }

    /** Sets each of `cells`, all of them on the grid, to PLACEMENT. */
    method Occupy(cells: seq<Cell>)
      requires Valid() && forall c :: c in cells ==> InGrid(grid.cells, c)
      modifies grid
      ensures Valid()
      ensures grid.cells == WriteAll(old(grid.cells), cells, PLACEMENT)
    {
      ghost var before := grid.cells;
      var k := 0;
      while k < |cells|
        invariant 0 <= k <= |cells|
        invariant Valid()
        invariant grid.cells == WriteAll(before, cells[..k], PLACEMENT)
      {
        assert cells[..k + 1] == cells[..k] + [cells[k]];
        var _ := grid.SetCell(cells[k].row, cells[k].col, PLACEMENT);
        k := k + 1;
      }
      assert cells[..k] == cells;
    }

    /**
     * Up to MAX_PLACEMENT_ATTEMPTS random placements of one ship of
     * `length`, stopping at the first that fits: either the ship from
     * `anchor` along `rotation` fitted and now covers its cells with
     * PLACEMENT, or every attempt failed and the grid is as it was. A grid
     * without an EMPTY cell never takes a ship.
     */
    method PlaceShip(length: int) returns (done: bool, tries: nat, ghost anchor: Cell, ghost rotation: Rotation)
      requires Valid() && grid.rows >= 1 && grid.cols >= 1
      modifies grid
      ensures Valid() && Grows(old(grid.cells), grid.cells)
      ensures 1 <= tries <= MAX_PLACEMENT_ATTEMPTS
      ensures !done ==> grid.cells == old(grid.cells) && tries == MAX_PLACEMENT_ATTEMPTS
      ensures done ==> Fits(old(grid.cells), ShipCells(anchor, length, rotation))
      ensures done ==> grid.cells == WriteAll(old(grid.cells), ShipCells(anchor, length, rotation), PLACEMENT)
      ensures done ==> |Matching(grid.cells, Is(PLACEMENT))| == |Matching(old(grid.cells), Is(PLACEMENT))| + Span(length)
      ensures Matching(old(grid.cells), Is(EMPTY)) == [] ==> !done
    {
      ghost var before := grid.cells;
      tries := 0;
      done := false;
      anchor, rotation := Cell(1, 1), R0;
      while tries < MAX_PLACEMENT_ATTEMPTS && !done
        invariant 0 <= tries <= MAX_PLACEMENT_ATTEMPTS
        invariant done ==> tries >= 1
        invariant Valid()
        invariant !done ==> grid.cells == before
        invariant done ==> Fits(before, ShipCells(anchor, length, rotation))
        invariant done ==> grid.cells == WriteAll(before, ShipCells(anchor, length, rotation), PLACEMENT)
        invariant done ==> Grows(before, grid.cells)
        invariant done ==> |Matching(grid.cells, Is(PLACEMENT))| == |Matching(before, Is(PLACEMENT))| + Span(length)
        invariant Matching(before, Is(EMPTY)) == [] ==> !done
      {
        tries := tries + 1;
        var row :| 1 <= row <= grid.rows;
        var col :| 1 <= col <= grid.cols;
        var turn: Rotation :| true;
        ghost var ship := ShipCells(Cell(row, col), length, turn);
        done := Place(row, col, length, turn);
        if done {
          anchor, rotation := Cell(row, col), turn;
          PlacedShip(before, ship);
        } else if Matching(before, Is(EMPTY)) == [] {
          assert !(InGrid(before, ship[0]) && Value(before, ship[0]) == EMPTY);
        }
      }
    }

    /**
     * Lays out the fleet, giving each ship up to MAX_PLACEMENT_ATTEMPTS
     * random placements; gives up, reporting false, at the first ship that
     * none of its attempts could place. `fleet` holds the anchor and
     * rotation of each ship placed, in fleet order.
     */
    method Initialize() returns (ok: bool, ghost placed: nat, ghost fleet: seq<(Cell, Rotation)>)
      requires Valid() && grid.rows >= 1 && grid.cols >= 1
      modifies grid
      ensures Valid()
      ensures placed <= |SHIPS| && (ok <==> placed == |SHIPS|)
      ensures Laid(old(grid.cells), grid.cells, SHIPS[..placed], fleet)
      ensures Grows(old(grid.cells), grid.cells)
      ensures |Matching(grid.cells, Is(PLACEMENT))| == |Matching(old(grid.cells), Is(PLACEMENT))| + Sum(SHIPS[..placed])
      ensures Matching(old(grid.cells), Is(EMPTY)) == [] ==> !ok && grid.cells == old(grid.cells)
    {
      ghost var start := grid.cells;
      fleet := [];
      var i := 0;
      while i < |SHIPS|
        invariant 0 <= i <= |SHIPS|
        invariant Valid()
        invariant Laid(start, grid.cells, SHIPS[..i], fleet)
        invariant Matching(start, Is(EMPTY)) == [] ==> grid.cells == start && i == 0
      {
        ghost var before := grid.cells;
        var done, _, anchor, rotation := PlaceShip(SHIPS[i]);
        if !done {
          ok, placed := false, i;
          break;
        }
        LaidStep(start, before, SHIPS[..i], fleet, SHIPS[i], anchor, rotation);
        PrefixSnoc(SHIPS, i);
        fleet := fleet + [(anchor, rotation)];
        i := i + 1;
      }
      if i == |SHIPS| {
        ok, placed := true, |SHIPS|;
      }
      assert forall x :: x in SHIPS[..placed] ==> x in SHIPS;
      LaidGrows(start, grid.cells, SHIPS[..placed], fleet);
    }

    /** Tries to lay a ship of `length` on top of the fleet laid so far. */
    method LayNext(length: int, ghost start: Board, ghost laid: seq<int>, ghost fleet: seq<(Cell, Rotation)>)
      returns (done: bool, tries: nat, ghost laid': seq<int>, ghost fleet': seq<(Cell, Rotation)>)
      requires Valid() && grid.rows >= 1 && grid.cols >= 1
      requires Laid(start, grid.cells, laid, fleet)
      modifies grid
      ensures Valid() && Laid(start, grid.cells, laid', fleet')
      ensures if done then laid' == laid + [length] else laid' == laid && fleet' == fleet && grid.cells == old(grid.cells)
      ensures Grows(old(grid.cells), grid.cells)
      ensures |Matching(grid.cells, Is(PLACEMENT))| <= |Matching(old(grid.cells), Is(PLACEMENT))| + Span(length)
      ensures 1 <= tries <= MAX_PLACEMENT_ATTEMPTS
    {
      ghost var before := grid.cells;
      ghost var anchor, rotation;
      done, tries, anchor, rotation := PlaceShip(length);
      laid', fleet' := laid, fleet;
      if done {
        LaidStep(start, before, laid, fleet, length, anchor, rotation);
        laid', fleet' := laid + [length], fleet + [(anchor, rotation)];
      }
    }

    /**
     * Places as many of `ships` as it can, each with up to
     * MAX_PLACEMENT_ATTEMPTS random placements; a ship that none of them
     * could place is skipped. Never fails.
     */
    method Sample(ships: seq<int>) returns (ghost attempts: nat, ghost laid: seq<int>, ghost fleet: seq<(Cell, Rotation)>)
      requires Valid() && grid.rows >= 1 && grid.cols >= 1
      modifies grid
      ensures Valid()
      ensures Laid(old(grid.cells), grid.cells, laid, fleet) && multiset(laid) <= multiset(ships)
      ensures Grows(old(grid.cells), grid.cells)
      ensures |Matching(grid.cells, Is(PLACEMENT))| <= |Matching(old(grid.cells), Is(PLACEMENT))| + SpanTotal(ships)
      ensures attempts <= MAX_PLACEMENT_ATTEMPTS * |ships|
    {
      ghost var start := grid.cells;
      attempts, laid, fleet := 0, [], [];
      var i := 0;
      while i < |ships|
        invariant 0 <= i <= |ships|
        invariant Valid()
        invariant Laid(start, grid.cells, laid, fleet) && multiset(laid) <= multiset(ships[..i])
        invariant Grows(start, grid.cells)
        invariant |Matching(grid.cells, Is(PLACEMENT))| <= |Matching(start, Is(PLACEMENT))| + SpanTotal(ships[..i])
        invariant attempts <= MAX_PLACEMENT_ATTEMPTS * i
      {
        ghost var before := grid.cells;
        ghost var among := laid;
        var done, tries;
        done, tries, laid, fleet := LayNext(ships[i], start, laid, fleet);
        LaidAmong(among, ships, i, done);
        GrowsTransitive(start, before, grid.cells);
        attempts := attempts + tries;
        SpanTotalSnoc(ships, i);
        i := i + 1;
      }
      assert ships[..i] == ships;
    }
  }
}
