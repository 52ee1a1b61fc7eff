/**
 * The simulation driver: one game between a random fleet and the computer
 * player, repeated for each sample size. Durations, logging and the
 * Scilab output are not part of this model.
 */
module Simulations {
  import opened Boards
  import opened Grids
  import opened Placement
  import opened Shots
  import opened MonteCarlo

  /** An unwon game against a full fleet still has a cell to guess. */
  lemma UnwonHasUnguessed(sb: Board, pb: Board)
    requires Records(sb, pb) && |Matching(pb, IsNot(EMPTY))| >= Sum(SHIPS)
    requires !IsWon(sb)
    ensures UnguessedCells(sb) != []
  {
    if UnguessedCells(sb) == [] {
      FullyGuessed(sb, pb);
    }
  }

  /** A ROWS x COLS shots grid never holds more than ROWS * COLS guesses. */
  lemma GuessesBounded(sb: Board)
    requires Shaped(sb, ROWS, COLS)
    ensures |GuessedCells(sb)| <= ROWS * COLS
  {
    Partition(sb);
    CellsCount(sb, ROWS, COLS);
  }

  /** A won game has at least as many guesses as the fleet has cells. */
  lemma WonGuesses(sb: Board)
    requires IsWon(sb)
    ensures |GuessedCells(sb)| >= Sum(SHIPS)
  {
  }

  /**
   * Recording the true outcome of a guess at an unguessed cell keeps the
   * shots grid a record of the placement grid, and adds one guess.
   */
  lemma RecordedGuess(sb: Board, pb: Board, c: Cell)
    requires Records(sb, pb) && c in UnguessedCells(sb)
    ensures Records(Write(sb, c, if Value(pb, c) != EMPTY then HIT else MISS), pb)
    ensures |GuessedCells(Write(sb, c, if Value(pb, c) != EMPTY then HIT else MISS))| == |GuessedCells(sb)| + 1
  {
    GuessMovesOneCell(sb, c, if Value(pb, c) != EMPTY then HIT else MISS);
  }

  /**
   * The game loop: until the shots grid is won, ask the player for a cell
   * and guess it against the placement grid. Against a grid holding the
   * whole fleet every turn guesses a new cell, so the loop ends, with the
   * guess count that of the guessed cells: at least the fleet's cells and
   * at most the grid's. Every turn costs at least one step when the player
   * samples, and at most one when it makes at most one rollout.
   */
  method PlayGame(player: Player, placements: PlacementGrid, shots: ShotsGrid) returns (guesses: nat, steps: nat)
    requires placements.Valid() && shots.Valid() && placements.grid != shots.grid
    requires Shaped(shots.grid.cells, ROWS, COLS)
    requires Records(shots.grid.cells, placements.grid.cells)
    requires |Matching(placements.grid.cells, IsNot(EMPTY))| >= Sum(SHIPS)
    modifies shots.grid
    ensures shots.Valid() && Shaped(shots.grid.cells, ROWS, COLS)
    ensures IsWon(shots.grid.cells) && Records(shots.grid.cells, placements.grid.cells)
    ensures guesses == |GuessedCells(shots.grid.cells)|
    ensures Sum(SHIPS) <= guesses <= ROWS * COLS
    ensures player.sampleSize >= 1 ==> steps >= guesses - |GuessedCells(old(shots.grid.cells))|
    ensures Rollouts(player.sampleSize) <= 1 ==> steps <= guesses - |GuessedCells(old(shots.grid.cells))|
  {
    ghost var start := shots.grid.cells;
    ghost var turns := 0;
    steps := 0;
    while !IsWon(shots.grid.cells)
      invariant shots.Valid() && Shaped(shots.grid.cells, ROWS, COLS)
      invariant Records(shots.grid.cells, placements.grid.cells)
      invariant |GuessedCells(shots.grid.cells)| == |GuessedCells(start)| + turns
      invariant player.sampleSize >= 1 ==> steps >= turns
      invariant Rollouts(player.sampleSize) <= 1 ==> steps <= turns
      decreases |UnguessedCells(shots.grid.cells)|
    {
      ghost var before := shots.grid.cells;
      UnwonHasUnguessed(before, placements.grid.cells);
      var guess, cost, _, _, _ := player.GetGuess(shots);
      var cell := guess.value;
      RecordedGuess(before, placements.grid.cells, cell);
      GuessMovesOneCell(before, cell, if Value(placements.grid.cells, cell) != EMPTY then HIT else MISS);
      var _ := shots.Guess(cell.row, cell.col, placements);
      steps, turns := steps + cost, turns + 1;
    }
    guesses := |GuessedCells(shots.grid.cells)|;
    GuessesBounded(shots.grid.cells);
    WonGuesses(shots.grid.cells);
  }

  /**
   * As written, the game loop of a simulation runs on whatever the fleet
   * placement left behind, whether it succeeded or not. A placement grid
   * holding fewer occupied cells than the fleet has is never beaten: no
   * shots grid that records true outcomes against it is won, so the loop's
   * guard never becomes false.
   */
  lemma NeverWonShortOfFleet(sb: Board, pb: Board)
    requires Records(sb, pb) && |Matching(pb, IsNot(EMPTY))| < Sum(SHIPS)
    ensures !IsWon(sb)
  {
    HitsBounded(sb, pb);
  }

  /**
   * And the fleet placement can fall short: on the fresh grid, an attempt
   * that anchors the first ship at (1, 1) pointing up leaves the grid, so
   * MAX_PLACEMENT_ATTEMPTS such draws place nothing, and the fresh grid
   * holds no occupied cell at all.
   */
  lemma PlacementCanFail()
    ensures !Fits(Filled(ROWS, COLS, EMPTY), ShipCells(Cell(1, 1), SHIPS[0], R90))
    ensures |Matching(Filled(ROWS, COLS, EMPTY), IsNot(EMPTY))| < Sum(SHIPS)
  {
    var ship := ShipCells(Cell(1, 1), SHIPS[0], R90);
    assert ship[1] == Cell(0, 1);
    FilledMatchesNone(ROWS, COLS, EMPTY, IsNot(EMPTY));
  }

  /** The outcome of one game: the guesses it took and the player's steps. */
  predicate Plausible(outcome: (nat, nat)) {
    Sum(SHIPS) <= outcome.0 <= ROWS * COLS
  }

  /**
   * One game: a random fleet on a fresh placement grid, a fresh shots
   * grid, and a player with `samples` rollouts per guess, played until
   * won. `None` when the fleet could not be placed, instead of playing a
   * game that cannot be won.
   */
  method Simulation(samples: int) returns (r: Option<(nat, nat)>, ghost placed: nat, ghost pb: Board, ghost fleet: seq<(Cell, Rotation)>)
    ensures placed <= |SHIPS| && (r.None? <==> placed < |SHIPS|)
    ensures Laid(Filled(ROWS, COLS, EMPTY), pb, SHIPS[..placed], fleet)
    ensures r.Some? ==> Plausible(r.value)
    ensures r.Some? && samples >= 1 ==> r.value.1 >= r.value.0
    ensures r.Some? && Rollouts(samples) <= 1 ==> r.value.1 <= r.value.0
  {
    var placements := new PlacementGrid(ROWS, COLS);
    var ok;
    ok, placed, fleet := placements.Initialize();
    pb := placements.grid.cells;
    if !ok {
      return None, placed, pb, fleet;
    }
    FilledMatchesNone(ROWS, COLS, EMPTY, Is(PLACEMENT));
    assert SHIPS[..placed] == SHIPS;
    FilterMonotone(Cells(pb), Holds(pb, Is(PLACEMENT)), Holds(pb, IsNot(EMPTY)));
    var shots := new ShotsGrid(ROWS, COLS);
    FilledMatchesNone(ROWS, COLS, UNGUESSED, Is(HIT));
    FilledMatchesNone(ROWS, COLS, UNGUESSED, Is(MISS));
    var player := new Player(samples);
    var guesses, steps := PlayGame(player, placements, shots);
    r := Some((guesses, steps));
  }

  /**
   * Runs `repetitions` games for each of `sampleSizes` and collects their
   * outcomes by sample size. A sample game (a non-empty `samplePath`) can
   * only be written for a single sample size: with more, nothing is run.
   * A game whose fleet could not be placed stops the run.
   */
  method Run(sampleSizes: seq<int>, repetitions: int, samplePath: string) returns (ok: bool, results: map<int, seq<(nat, nat)>>, ghost failed: bool)
    ensures ok <==> !(samplePath != [] && |sampleSizes| > 1) && !failed
    ensures samplePath != [] && |sampleSizes| > 1 ==> !failed && results == map[]
    ensures failed ==> exists s :: s in sampleSizes && s in results && |results[s]| < Rollouts(repetitions)
    ensures ok ==> results.Keys == set s | s in sampleSizes
    ensures ok ==> forall s :: s in results ==> |results[s]| == Rollouts(repetitions)
    ensures forall s :: s in results ==> forall e :: e in results[s] ==> Plausible(e)
  {
    failed := false;
    if samplePath != [] && |sampleSizes| > 1 {
      return false, map[], failed;
    }
    results := map[];
    var index := 0;
    while index < |sampleSizes|
      invariant 0 <= index <= |sampleSizes|
      invariant results.Keys == set s | s in sampleSizes[..index]
      invariant forall s :: s in results ==> |results[s]| == Rollouts(repetitions)
      invariant forall s :: s in results ==> forall e :: e in results[s] ==> Plausible(e)
    {
      var size := sampleSizes[index];
      assert sampleSizes[..index + 1] == sampleSizes[..index] + [size];
      results := results[size := []];
      var repetition := 0;
      while repetition < repetitions
        invariant 0 <= repetition <= Rollouts(repetitions)
        invariant results.Keys == (set s | s in sampleSizes[..index]) + {size}
        invariant |results[size]| == repetition
        invariant forall s :: s in results && s != size ==> |results[s]| == Rollouts(repetitions)
        invariant forall s :: s in results ==> forall e :: e in results[s] ==> Plausible(e)
      {
        var outcome, _, _, _ := Simulation(size);
        if outcome.None? {
          return false, results, true;
        }
        results := results[size := results[size] + [outcome.value]];
        repetition := repetition + 1;
      }
      index := index + 1;
    }
    assert sampleSizes[..index] == sampleSizes;
    ok := true;
  }
}
