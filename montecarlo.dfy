/**
 * The computer player. A hit with unguessed neighbours is followed up by
 * a random choice among those neighbours; otherwise the player lays out
 * the ships it believes remain on `sampleSize` rollout grids, counts how
 * often each cell was covered, and picks one of the most covered cells.
 * The step counter of the game is returned as the number of steps a call
 * made.
 */
module MonteCarlo {
  import opened Boards
  import opened Grids
  import opened Placement
  import opened Shots
  import opened Frequency

  /** The number of rollouts a sample size asks for: none when it is not positive. */
  function Rollouts(sampleSize: int): nat {
    if sampleSize < 0 then 0 else sampleSize
  }

  /**
   * A frequency board after `n` rollouts: the guessed cells `g` hold
   * GUESSED and every other cell a count between 0 and `n`.
   */
  ghost predicate Counts(b: Board, g: seq<Cell>, n: nat) {
    forall c :: InGrid(b, c) ==>
      (c in g ==> Value(b, c) == GUESSED) &&
      (c !in g ==> 0 <= Value(b, c) <= n)
  }

  /** Every cell of `g` lies on a ROWS x COLS grid. */
  predicate OnBoard(g: seq<Cell>) {
    forall c :: c in g ==> 1 <= c.row <= ROWS && 1 <= c.col <= COLS
  }

  /** A fresh ROWS x COLS rollout grid whose guessed cells `g` are SKIP and the rest EMPTY. */
  function Skipped(g: seq<Cell>): (b: Board)
    requires OnBoard(g)
    ensures Shaped(b, ROWS, COLS)
    ensures forall c :: InGrid(b, c) ==> Value(b, c) == if c in g then SKIP else EMPTY
  {
    WriteAll(Filled(ROWS, COLS, EMPTY), g, SKIP)
  }

  /**
   * `p` is what one rollout can leave: some of `ships`, each laid where
   * it fit, on the fresh grid with the guessed cells `g` skipped.
   */
  ghost predicate Rolled(g: seq<Cell>, ships: seq<int>, p: Board) {
    OnBoard(g) && Grows(Skipped(g), p) &&
    exists laid, fleet :: multiset(laid) <= multiset(ships) && Laid(Skipped(g), p, laid, fleet)
  }

  /** The number of `layouts` that cover `c` with a ship. */
  ghost function Covered(layouts: seq<Board>, c: Cell): (n: nat)
    ensures n <= |layouts|
  {
    if layouts == [] then 0
    else
      var last := layouts[|layouts| - 1];
      Covered(layouts[..|layouts| - 1], c) + if InGrid(last, c) && Value(last, c) == PLACEMENT then 1 else 0
  }

  /**
   * `counts` is the frequency board of the rollouts `layouts` of `ships`
   * around the guessed cells `g`: GUESSED on `g`, and on every other cell
   * the number of layouts that cover it.
   */
  ghost predicate Tally(counts: Board, g: seq<Cell>, ships: seq<int>, layouts: seq<Board>) {
    OnBoard(g) && Shaped(counts, ROWS, COLS) &&
    (forall l :: l in layouts ==> Rolled(g, ships, l)) &&
    forall c :: InGrid(counts, c) ==> Value(counts, c) == if c in g then GUESSED else Covered(layouts, c)
  }

  /** A tally of `n` layouts is a frequency board after `n` rollouts. */
  lemma TallyCounts(counts: Board, g: seq<Cell>, ships: seq<int>, layouts: seq<Board>)
    requires Tally(counts, g, ships, layouts)
    ensures Counts(counts, g, |layouts|)
  {
  }

  /** With a cell of a ROWS x COLS shots grid still unguessed, the best cells of a tally are all unguessed. */
  lemma TallyBestUnguessed(b: Board, counts: Board, ships: seq<int>, layouts: seq<Board>)
    requires Shaped(b, ROWS, COLS) && UnguessedCells(b) != []
    requires Tally(counts, GuessedCells(b), ships, layouts)
    ensures BestCells(counts).Some?
    ensures forall c :: c in BestCells(counts).value ==> c in UnguessedCells(b)
  {
    var free := UnguessedCells(b)[0];
    SameShapeGrid(b, counts);
    assert InGrid(counts, free) && free !in GuessedCells(b);
    TallyCounts(counts, GuessedCells(b), ships, layouts);
    BestAvoidsGuessed(counts, GuessedCells(b));
  }

  /** Sets each of `cs` to SKIP on a rollout grid on which all of them lie. */
  method MarkSkipped(p: PlacementGrid, cs: seq<Cell>)
    requires p.Valid() && forall c :: c in cs ==> InGrid(p.grid.cells, c)
    modifies p.grid
    ensures p.Valid()
    ensures p.grid.cells == WriteAll(old(p.grid.cells), cs, SKIP)
  {
    ghost var start := p.grid.cells;
    var i := 0;
    while i < |cs|
      invariant 0 <= i <= |cs|
      invariant p.Valid()
      invariant p.grid.cells == WriteAll(start, cs[..i], SKIP)
    {
      assert cs[..i + 1] == cs[..i] + [cs[i]];
      var _ := p.grid.SetCell(cs[i].row, cs[i].col, SKIP);
      i := i + 1;
    }
    assert cs[..i] == cs;
  }

  /** Adds one to the count of every cell that the rollout grid `p` covers with a ship. */
  method CountPlacements(f: FrequencyGrid, p: PlacementGrid)
    requires f.Valid() && p.Valid() && f.grid != p.grid && SameShape(f.grid.cells, p.grid.cells)
    modifies f.grid
    ensures f.Valid() && SameShape(old(f.grid.cells), f.grid.cells)
    ensures forall c :: InGrid(old(f.grid.cells), c) ==>
      InGrid(f.grid.cells, c) && InGrid(p.grid.cells, c) &&
      Value(f.grid.cells, c) == Value(old(f.grid.cells), c) + if Value(p.grid.cells, c) == PLACEMENT then 1 else 0
  {
    ghost var start := f.grid.cells;
    var cs := Cells(p.grid.cells);
    CellsSameShape(start, p.grid.cells);
    RowMajorDistinct(cs);
    var k := 0;
    while k < |cs|
      invariant 0 <= k <= |cs|
      invariant f.Valid() && SameShape(start, f.grid.cells)
      invariant forall c :: InGrid(start, c) ==>
        InGrid(f.grid.cells, c) &&
        Value(f.grid.cells, c) == Value(start, c) + if c in cs[..k] && Value(p.grid.cells, c) == PLACEMENT then 1 else 0
    {
      var c := cs[k];
      assert forall d :: d in cs[..k + 1] <==> d in cs[..k] || d == c;
      assert c !in cs[..k];
      if Value(p.grid.cells, c) == PLACEMENT {
        var _ := f.Increment(c.row, c.col);
      }
      k := k + 1;
    }
    assert cs[..k] == cs;
  }

  /**
   * One rollout: a fresh ROWS x COLS placement grid `p` with the guessed
   * cells `g` set to SKIP and some of `ships` laid out on it, then one
   * added to the count of every cell a ship covers.
   */
  method Rollout(f: FrequencyGrid, g: seq<Cell>, ships: seq<int>) returns (ghost p: Board)
    requires f.Valid() && f.grid.rows == ROWS && f.grid.cols == COLS && OnBoard(g)
    modifies f.grid
    ensures Rolled(g, ships, p)
    ensures f.Valid() && SameShape(old(f.grid.cells), f.grid.cells)
    ensures forall c :: InGrid(old(f.grid.cells), c) ==>
      InGrid(f.grid.cells, c) && InGrid(p, c) &&
      Value(f.grid.cells, c) == Value(old(f.grid.cells), c) + if Value(p, c) == PLACEMENT then 1 else 0
    ensures forall c :: InGrid(old(f.grid.cells), c) && c in g ==> Value(f.grid.cells, c) == Value(old(f.grid.cells), c)
  {
    var placements := new PlacementGrid(ROWS, COLS);
    SameShapeGrid(f.grid.cells, placements.grid.cells);
    MarkSkipped(placements, g);
    ghost var skipped := placements.grid.cells;
    ghost var _, laid, fleet := placements.Sample(ships);
    p := placements.grid.cells;
    assert Laid(Skipped(g), p, laid, fleet);
    CountPlacements(f, placements);
    forall c | InGrid(p, c) && c in g
      ensures Value(p, c) != PLACEMENT
    {
      assert Value(skipped, c) == SKIP;
    }
  }

  /**
   * `n` rollouts on the frequency grid `f`, whose guessed cells `g` hold
   * GUESSED and the rest 0; one step per rollout. The result is the tally
   * of the `n` rollout grids `layouts`.
   */
  method Sampling(f: FrequencyGrid, g: seq<Cell>, ships: seq<int>, n: nat) returns (steps: nat, ghost layouts: seq<Board>)
    requires f.Valid() && f.grid.rows == ROWS && f.grid.cols == COLS && OnBoard(g)
    requires f.grid.cells == WriteAll(Filled(ROWS, COLS, 0), g, GUESSED)
    modifies f.grid
    ensures steps == n && |layouts| == n
    ensures f.Valid() && Tally(f.grid.cells, g, ships, layouts)
    ensures n == 0 ==> f.grid.cells == old(f.grid.cells)
  {
    steps, layouts := 0, [];
    while steps < n
      invariant steps <= n && |layouts| == steps
      invariant f.Valid() && Shaped(f.grid.cells, ROWS, COLS)
      invariant Tally(f.grid.cells, g, ships, layouts)
      invariant steps == 0 ==> f.grid.cells == old(f.grid.cells)
    {
      ghost var p := Rollout(f, g, ships);
      assert (layouts + [p])[..|layouts|] == layouts;
      layouts := layouts + [p];
      steps := steps + 1;
    }
  }

  class Player {
    /** The number of rollouts per guess; 0 for purely random guessing. */
    const sampleSize: int

    constructor (sampleSize: int)
      ensures this.sampleSize == sampleSize
    {
      this.sampleSize := sampleSize;
    }

    /** One of `targets`, at the cost of one step. */
    method RandomGuess(targets: seq<Cell>) returns (guess: Cell, steps: nat)
      requires targets != []
      ensures guess in targets && steps == 1
    {
      var i :| 0 <= i < |targets|;
      guess, steps := targets[i], 1;
    }

    /**
     * The Monte Carlo guess. The frequency board `counts` starts at 0 with
     * the guessed cells of `shots` at GUESSED; each rollout lays the
     * remaining ships on a fresh placement grid whose guessed cells are
     * SKIP and counts every cell covered. The guess is one of the cells
     * with the highest count. `None` (the IndexError) when a guessed cell
     * lies off the ROWS x COLS frequency grid.
     */
    method MonteCarloGuess(shots: ShotsGrid) returns (guess: Option<Cell>, steps: nat, ghost counts: Board, ghost ships: seq<int>, ghost layouts: seq<Board>)
      requires shots.Valid()
      ensures guess.None? <==> exists c :: c in GuessedCells(shots.grid.cells) && !InGrid(Filled(ROWS, COLS, 0), c)
      ensures guess.None? ==> steps == 0
      ensures guess.Some? ==>
        steps == Rollouts(sampleSize) && |layouts| == steps &&
        Tally(counts, GuessedCells(shots.grid.cells), ships, layouts) &&
        BestCells(counts).Some? && guess.value in BestCells(counts).value
      ensures multiset(ships) <= multiset(SHIPS) && (|HitCells(shots.grid.cells)| == 0 ==> ships == SHIPS)
      ensures Shaped(shots.grid.cells, ROWS, COLS) && UnguessedCells(shots.grid.cells) != [] ==>
        guess.Some? && guess.value in UnguessedCells(shots.grid.cells)
    {
      var guessed := GuessedCells(shots.grid.cells);
      var frequencies := new FrequencyGrid(ROWS, COLS);
      var ok := frequencies.SetGuessedCells(guessed);
      var remaining := shots.RemainingShips();
      ships := remaining;
      if !ok {
        return None, 0, frequencies.grid.cells, ships, [];
      }
      steps, layouts := Sampling(frequencies, guessed, remaining, Rollouts(sampleSize));
      counts := frequencies.grid.cells;
      CellsCount(counts, ROWS, COLS);
      var best := BestCells(frequencies.grid.cells);
      var chosen :| chosen in best.value;
      guess := Some(chosen);
      if Shaped(shots.grid.cells, ROWS, COLS) && UnguessedCells(shots.grid.cells) != [] {
        TallyBestUnguessed(shots.grid.cells, counts, ships, layouts);
      }
    }

    /**
     * The next cell to guess: a random target cell when some unguessed
     * cell borders a hit (one step), the Monte Carlo guess otherwise.
     */
    method GetGuess(shots: ShotsGrid) returns (guess: Option<Cell>, steps: nat, ghost counts: Board, ghost ships: seq<int>, ghost layouts: seq<Board>)
      requires shots.Valid()
      ensures TargetCells(shots.grid.cells) != [] ==>
        guess.Some? && guess.value in TargetCells(shots.grid.cells) && steps == 1
      ensures TargetCells(shots.grid.cells) == [] ==>
        (guess.None? <==> exists c :: c in GuessedCells(shots.grid.cells) && !InGrid(Filled(ROWS, COLS, 0), c))
      ensures TargetCells(shots.grid.cells) == [] && guess.Some? ==>
        steps == Rollouts(sampleSize) && |layouts| == steps &&
        multiset(ships) <= multiset(SHIPS) && Tally(counts, GuessedCells(shots.grid.cells), ships, layouts) &&
        BestCells(counts).Some? && guess.value in BestCells(counts).value
      ensures Shaped(shots.grid.cells, ROWS, COLS) && UnguessedCells(shots.grid.cells) != [] ==>
        guess.Some? && guess.value in UnguessedCells(shots.grid.cells)
    {
      var targets := TargetCells(shots.grid.cells);
      if targets != [] {
        var cell;
        cell, steps := RandomGuess(targets);
        return Some(cell), steps, [], [], [];
      }
      guess, steps, counts, ships, layouts := MonteCarloGuess(shots);
    }
  }
}
