# Battleship simulator: grids, computer player and game loop

This project models the decision engine of a Battleship simulator and the
grids it works on.

- **Boards** (`boards.dfy`) is the value layer. A board is a list of rows of
  integers, addressed by 1-indexed cells. It has the row-major iteration of a
  grid, filtering of cells by value, and counting.
- **Grids** (`grid.dfy`) holds the generic `Grid` class. Reading or writing a
  cell off the grid is the game's IndexError.
- **Placement** (`placement.dfy`) is the hidden placement grid.
  - All-or-nothing ship placement along four rotations.
  - The fleet layout (`initialize`), which may fail.
  - The best-effort layout of the Monte Carlo rollouts (`sample`).
- **Shots** (`shots.dfy`) is the record of guesses. It provides:
  - the hit, missed, guessed, unguessed and target cell lists;
  - a guess against the opponent;
  - win detection;
  - the random estimate of the remaining ships.
- **Frequency** (`frequency.dfy`) is the frequency grid of the Monte Carlo
  player: a GUESSED sentinel and the best-cells query.
- **MonteCarlo** (`montecarlo.dfy`) is the computer player. It either targets
  cells beside a hit, or counts ship placements over `sampleSize` rollouts
  and picks a most-covered cell.
- **Simulations** (`main.dfy`) is the game loop, one simulation, and the run
  over sample sizes.
- **Decimal** (`decimal.dfy`) parses the comma-separated sample sizes. This
  is `split` of battleship/main.py. It is a module of its own because it
  shares nothing with the game loop, and the reading of Python's `int` it
  needs (white space, signs, underscores) is a small theory by itself.

Modelling choices:
- Random draws (`random.randint`, `random.choice`, `random.randrange`) are
  nondeterministic choices. Every contract holds for every draw.
- The step counter is an integer result. Each method that increments it
  returns the number of steps it took.
- A grid's 2-D list is a `seq<seq<int>>` field that each write replaces.
- The placement, shots and frequency grids are classes that hold a `Grid`.

The central facts proved:
- A placement is all or nothing and never overwrites a non-EMPTY cell.
- The fleet layout adds exactly 17 PLACEMENT cells when it succeeds.
- Hit, missed and unguessed cells partition the grid.
- A guessed cell is SKIP in every rollout, so it keeps the GUESSED sentinel.
  Every other count stays between 0 and the number of rollouts.
- Therefore, on a 10 x 10 shots grid, the player always returns an unguessed
  cell while one exists.
- So against a grid holding the whole fleet, each turn adds one guess. The
  game ends after between 17 and 100 guesses.

## Model

| member | source | states |
|---|---|---|
| Boards.Filled | battleship/game.py:25-29 | a fresh grid has `rows` rows of `cols` cells, each holding the given value |
| Boards.Write | battleship/game.py:57-61 | writing a cell keeps the shape, sets that cell to the value and leaves every other cell as it was |
| Boards.WriteAll | battleship/montecarlo.py:107-110 | writing a list of cells in order sets exactly the listed cells and keeps every other value and the shape |
| Boards.Cells | battleship/game.py:45-49 | iteration visits every readable cell exactly once, in row-major order |
| Boards.RowMajorUnique | battleship/game.py:45-49 | two row-major lists with the same members are equal, so a comprehension over the iteration is determined by which cells it keeps |
| Boards.Matching | battleship/game.py:173-179 | a comprehension over the iteration keeps exactly the cells whose value passes the test, in row-major order |
| Boards.MatchingAfterWrite | battleship/game.py:57-61 | one write changes a count of matching cells by at most one, as the old and new value say |
| Boards.MatchingAfterWriteAll | battleship/game.py:154-156 | writing a passing value over distinct failing cells adds exactly one matching cell per written cell |
| Boards.FilledMatchesNone | battleship/game.py:25-29 | a fresh grid matches no cell for a test its fill value fails |
| Boards.InGridPrefix | battleship/montecarlo.py:107-110 | the cells written before the first cell off the grid (where the IndexError stops the loop) |
| Boards.SumConcat | battleship/game.py:224-227 | the sum of a concatenation is the sum of its parts |
| Grids.Grid.constructor | battleship/game.py:25-29 | a new grid is rows x cols, all EMPTY |
| Grids.Grid.GetCell | battleship/game.py:51-55 | a value exactly when the cell is on the grid (row and column at least 1 and within the lists), and that cell's value |
| Grids.Grid.SetCell | battleship/game.py:57-61 | succeeds exactly on a cell on the grid, then sets that cell only; off the grid (the IndexError) nothing changes |
| Grids.Grid.IsEmpty | battleship/game.py:63-65 | defined exactly on cells on the grid, and true exactly when the cell holds EMPTY |
| Placement.ShipCells | battleship/game.py:127-145 | a ship covers `length` cells (at least the anchor), each one step from the last in the rotation's direction, all distinct |
| Placement.CellsToOccupy | battleship/game.py:140-145 | the loop that appends one shifted cell after another builds exactly the ship's cells |
| Placement.PlacedShip | battleship/game.py:154-156 | laying a ship over fitting cells only turns EMPTY cells into PLACEMENT and adds one PLACEMENT cell per ship cell |
| Placement.PlacementExamples | battleship/test/test_game.py:53-61 | on an empty grid: rightward from (1, 1) fits; then the same and a downward overlapping ship do not, while the next row does; leftward from (3, 1) and anything anchored at (0, 0) leave the grid |
| Placement.PlacementGrid.constructor | battleship/game.py:25-29 | a new placement grid is rows x cols, all EMPTY |
| Placement.PlacementGrid.AllEmpty | battleship/game.py:146-153 | true exactly when every cell is on the grid and EMPTY; an off-grid cell gives false, not an error |
| Placement.PlacementGrid.Occupy | battleship/game.py:154-156 | sets every one of the cells to PLACEMENT |
| Placement.PlacementGrid.Place | battleship/game.py:114-162 | true exactly when all of the ship's cells are on the grid and EMPTY, and then exactly those cells become PLACEMENT; false leaves the grid unchanged |
| Placement.PlacementGrid.PlaceShip | battleship/game.py:83-90 | at most MAX_PLACEMENT_ATTEMPTS attempts for one ship; success returns the drawn anchor and rotation, whose ship cells were all on the grid and EMPTY and are now PLACEMENT, nothing else changed; failure uses every attempt and leaves the grid unchanged; a grid without an EMPTY cell never takes a ship |
| Placement.FleetCellsCount | battleship/game.py:82-90 | a fleet of ships of positive lengths covers as many cells, counted with repetition, as the lengths add up to |
| Placement.LaidStep | battleship/game.py:82-90 | laying one more ship where it fits on a laid fleet gives the fleet with that ship appended: still on the grid, over EMPTY cells, pairwise distinct, the grid being the start plus all the ships |
| Placement.LaidGrows | battleship/game.py:82-96 | a laid fleet only turns EMPTY cells into PLACEMENT and adds exactly as many PLACEMENT cells as its lengths add up to |
| Placement.PlacementGrid.LayNext | battleship/game.py:104-110 | one ship of `sample`: placed, it extends the laid fleet by that ship; not placed, the fleet and grid stay as they were; at most MAX_PLACEMENT_ATTEMPTS attempts |
| Placement.PlacementGrid.Initialize | battleship/game.py:78-96 | true exactly when every ship of the fleet was placed; the ships placed are the first ones of the fleet, in order, each a run of its length at a returned anchor and rotation, on the grid, over cells that were EMPTY, no two sharing a cell, and the grid is the old grid with exactly those cells PLACEMENT (5+4+3+3+2 of them on success); false at the first ship that could not be placed; on a grid without an EMPTY cell false and unchanged |
| Placement.PlacementGrid.Sample | battleship/game.py:98-112 | never fails; the grid becomes the old grid plus a laid fleet whose lengths are a sub-multiset of the listed ships, each run on the grid over EMPTY cells and no two sharing a cell; at most MAX_PLACEMENT_ATTEMPTS attempts per ship, so at most MAX_PLACEMENT_ATTEMPTS times the number of ships in all |
| Shots.HitCells | battleship/game.py:173-175 | exactly the cells holding HIT, in row-major order |
| Shots.MissedCells | battleship/game.py:177-179 | exactly the cells holding MISS, in row-major order |
| Shots.GuessedCells | battleship/game.py:181-183 | exactly the cells holding HIT or MISS |
| Shots.UnguessedCells | battleship/game.py:185-187 | exactly the cells holding neither HIT nor MISS, in row-major order |
| Shots.UnguessedByValue | battleship/game.py:185-187 | the unguessed list is the comprehension of the cells whose value records no guess |
| Shots.Partition | battleship/game.py:173-187 | hit, missed and unguessed cells (and guessed and unguessed) together count every cell exactly once |
| Shots.GuessMovesOneCell | battleship/game.py:199-216 | guessing an unguessed cell moves exactly one cell from the unguessed to the guessed list |
| Shots.Neighbours | battleship/game.py:194 | the four candidates are exactly the cells sharing a side with the hit |
| Shots.TargetsMembers | battleship/game.py:189-197 | a target is an unguessed cell beside one of the hits, and every such cell is a target |
| Shots.TargetCells | battleship/game.py:189-197 | the targets are exactly the unguessed cells sharing a side with a hit cell |
| Shots.NeighbourOnce | battleship/game.py:194 | a cell occurs among a hit's four candidates once when it shares a side with the hit, otherwise not at all |
| Shots.TargetsMultiplicity | battleship/game.py:189-197 | the comprehension keeps duplicates: an unguessed cell is listed once for each hit beside it |
| Shots.TargetCellsMultiplicity | battleship/game.py:189-197 | each unguessed cell occurs in the target list as often as there are hit cells beside it |
| Shots.TwiceBetweenHits | battleship/game.py:189-197 | with hits only at (1, 1) and (1, 3), the unguessed (1, 2) between them is listed twice |
| Shots.WonIffAllHit | battleship/game.py:231-233 | against an opponent with exactly as many occupied cells as the fleet has cells, and a shots grid recording true outcomes, the game is won exactly when every occupied cell has been hit |
| Shots.TargetBesideHit | battleship/test/test_montecarlo.py:19-25 | a hit at (1, 1) and a miss at (2, 1) leave (1, 2) as the only target |
| Shots.SixTargets | battleship/test/test_game.py:101-110 | hits at (1, 1) and (5, 5) and a miss at (9, 9) give six targets, listed hit by hit |
| Shots.HitsBounded | battleship/game.py:231-233 | against a grid whose outcomes it records truly, the shots grid never has more hits than the opponent has occupied cells |
| Shots.FullyGuessed | battleship/game.py:199-216 | once every cell is guessed truly, the hit cells are exactly the opponent's occupied cells |
| Shots.MovePopped | battleship/game.py:224-226 | one pop moves a ship between the lists and keeps the ships and their total together |
| Shots.ShotsGrid.constructor | battleship/game.py:25-29 | a new shots grid is rows x cols, all UNGUESSED |
| Shots.ShotsGrid.Guess | battleship/game.py:199-216 | MISS and false exactly when the opponent's cell is EMPTY, otherwise HIT and true; only that cell changes; off the grid (the IndexError) nothing changes |
| Shots.ShotsGrid.RemainingShips | battleship/game.py:218-229 | with no hits, the fleet; otherwise the fleet, or 1 to 4 of its ships that sum to 17 minus the hits, a strict sub-multiset of the fleet |
| Frequency.MaxOf | battleship/montecarlo.py:124 | the maximum: at least every value and equal to one of them |
| Frequency.BestCells | battleship/montecarlo.py:121-127 | exactly the cells holding the grid's maximum, in row-major order, never empty; none only for a grid without cells (where `max` raises) |
| Frequency.BestAvoidsGuessed | battleship/montecarlo.py:121-127 | with GUESSED below every count, the best cells avoid the guessed cells while some cell is unguessed |
| Frequency.BestWithoutSamples | battleship/montecarlo.py:121-127 | with no rollouts, the best cells are exactly the unguessed cells in row-major order |
| Frequency.TwoBestCells | battleship/test/test_montecarlo.py:33-39 | counts 1 at (1, 1) and 2 at (5, 5) and (9, 9) give exactly the two cells holding 2 |
| Frequency.FrequencyGrid.constructor | battleship/game.py:25-29 | a new frequency grid is rows x cols, all 0 |
| Frequency.FrequencyGrid.SetGuessedCells | battleship/montecarlo.py:107-110 | succeeds exactly when every listed cell is on the grid, setting exactly those cells to GUESSED; otherwise the cells before the first off-grid cell were set |
| Frequency.FrequencyGrid.Increment | battleship/montecarlo.py:117-119 | adds exactly 1 to the cell and changes nothing else; off the grid nothing changes |
| MonteCarlo.MarkSkipped | battleship/montecarlo.py:80-82 | sets exactly the guessed cells of a rollout grid to SKIP |
| MonteCarlo.CountPlacements | battleship/montecarlo.py:86-88 | each cell's count grows by one exactly when the rollout grid holds PLACEMENT there |
| MonteCarlo.Skipped | battleship/montecarlo.py:79-82 | a fresh 10 x 10 rollout grid holds SKIP on the guessed cells and EMPTY everywhere else |
| MonteCarlo.Covered | battleship/montecarlo.py:76-88 | the number of rollout grids covering a cell is at most the number of rollouts |
| MonteCarlo.TallyCounts | battleship/montecarlo.py:76-88 | a frequency board that tallies `n` rollouts keeps GUESSED on the guessed cells and a count between 0 and `n` elsewhere |
| MonteCarlo.TallyBestUnguessed | battleship/montecarlo.py:121-127 | while a cell of a 10 x 10 shots grid is unguessed, every best cell of a tally is unguessed |
| MonteCarlo.Rollout | battleship/montecarlo.py:79-88 | one rollout returns its rollout grid: the fresh grid with the guessed cells SKIP, plus some of the ships laid where they fit; each cell's count grows by one exactly when that grid holds PLACEMENT there, so guessed cells keep their count |
| MonteCarlo.Sampling | battleship/montecarlo.py:76-88 | `n` rollouts, one step each, return `n` rollout grids; afterwards the guessed cells hold GUESSED and every other cell holds the number of those grids that cover it |
| MonteCarlo.Player.constructor | battleship/montecarlo.py:25-30 | keeps the sample size |
| MonteCarlo.Player.RandomGuess | battleship/montecarlo.py:46-61 | one of the target cells, at one step |
| MonteCarlo.Player.MonteCarloGuess | battleship/montecarlo.py:63-95 | one step per rollout; the counts tally that many rollout grids of the estimated remaining ships (a sub-multiset of the fleet, the whole fleet with no hits), and the guess is among their best cells; on a 10 x 10 grid with an unguessed cell the guess is unguessed; an off-grid guessed cell is the IndexError |
| MonteCarlo.Player.GetGuess | battleship/montecarlo.py:32-44 | with targets, one of them at one step; otherwise the Monte Carlo guess: none exactly when a guessed cell lies off the 10 x 10 frequency grid (the IndexError), else one step per rollout and a cell among the best of a tally of that many rollouts; on a 10 x 10 grid with an unguessed cell, always an unguessed cell |
| Simulations.UnwonHasUnguessed | battleship/main.py:141 | an unwon game against the whole fleet still has an unguessed cell |
| Simulations.GuessesBounded | battleship/main.py:149 | a 10 x 10 shots grid never holds more than 100 guesses |
| Simulations.RecordedGuess | battleship/main.py:146 | recording the true outcome of a guess at an unguessed cell keeps the record true and adds one guess |
| Simulations.PlayGame | battleship/main.py:141-149 | against the whole fleet the loop ends won, with the guess count that of the guessed cells, between 17 and 100; each turn costs at least one step when the player samples and at most one when it makes at most one rollout |
| Simulations.NeverWonShortOfFleet | battleship/main.py:131-141 | a placement grid with fewer occupied cells than the fleet is never beaten, so the loop as written does not end |
| Simulations.PlacementCanFail | battleship/main.py:131-132 | the fleet layout can fail: an attempt off the grid places nothing, and the fresh grid holds fewer occupied cells than the fleet |
| Simulations.Simulation | battleship/main.py:120-151 | returns the placement grid it laid out: the fresh 10 x 10 grid with the first `placed` ships of the fleet laid, each a run on the grid over EMPTY cells, no two sharing a cell; none exactly when fewer than all the ships of the fleet could be placed; a finished simulation took between 17 and 100 guesses, with steps at least the guesses when sampling and at most the guesses with at most one rollout |
| Simulations.Run | battleship/main.py:71-117 | true exactly when the sample path does not come with several sample sizes and no simulation failed; with a sample path and several sample sizes nothing is run; a failed simulation leaves its sample size short of `repetitions` entries; on success one entry list per sample size with `repetitions` entries; every entry a plausible game |
| Decimal.DigitChar | battleship/main.py:68 | the digit character of a value below ten reads back as that value |
| Decimal.SplitOn | battleship/main.py:68 | never an empty list, no piece holds the separator, and joining the pieces with it gives the text back |
| Decimal.SplitJoin | battleship/main.py:68 | splitting undoes joining pieces without the separator |
| Decimal.TrimStart | battleship/main.py:68 | a suffix of the text not starting with white space |
| Decimal.TrimStartSpaces | battleship/main.py:68 | what TrimStart removes is all white space, so with the rest it is exactly the leading white space |
| Decimal.TrimEnd | battleship/main.py:68 | a prefix of the text not ending with white space |
| Decimal.TrimEndSpaces | battleship/main.py:68 | what TrimEnd removes is all white space, so with the rest it is exactly the trailing white space |
| Decimal.StripAround | battleship/main.py:68 | stripping a text that neither starts nor ends with white space, surrounded by white space, gives exactly that text |
| Decimal.ParseDigits | battleship/main.py:68 | a value only for a non-empty run of digits and underscores that starts and ends with a digit and never has two underscores in a row |
| Decimal.ParseDigitsMeaning | battleship/main.py:68 | a run of digits is read exactly when it is well formed in that sense, and then as the number its digits spell, underscores skipped and leading zeros allowed |
| Decimal.ParseInt | battleship/main.py:68 | a value only when something other than white space is left after stripping |
| Decimal.ParseIntMeaning | battleship/main.py:68 | a text is an integer exactly when, stripped, it is an optional sign and a well-formed run of digits; the value is that run's, negated after a minus |
| Decimal.ParseIntSpelled | battleship/main.py:68 | every such spelling with white space around it reads as its value: white space, an optional `+` or `-`, digits with leading zeros and single underscores, white space |
| Decimal.ParseIntExample | battleship/main.py:68 | " +01_0 " reads as 10 |
| Decimal.ParseRender | battleship/main.py:68 | reading back the decimal spelling of any integer gives that integer |
| Decimal.ParseAll | battleship/main.py:68 | a list exactly when every piece is an integer, holding each piece's value in order |
| Decimal.Split | battleship/main.py:62-68 | one integer per comma-separated piece |
| Decimal.SplitJoinInts | battleship/main.py:62-68 | splitting the comma-joined spellings of any non-empty list of integers gives the list back |
| Decimal.SplitExample | battleship/main.py:65-66 | "1,2,3" gives [1, 2, 3] |
| Decimal.SplitRejectsEmptyPiece | battleship/main.py:68 | "" and "1,,2" give no list, as `int('')` raises |

## Left out

- Logging, `Grid.__str__` and the `frequency_log` side path with `set_hit_cells` only produce reporting output.
- Probabilities: the draws are nondeterministic choices, so no claim is made about their distribution or about how many guesses sampling saves.
- battleship/scilab.py is not part of this model. The Scilab graph and sample files, and their possible write failures, are left out. `StepCounter` becomes the returned `steps`.
- Durations (`time.time()`) are floats and are not modelled. A game's outcome is its guesses and steps.
- `main.main` (argparse, `sys.exit`, KeyboardInterrupt) and battleship/settings.py are configuration and process handling.
- Decimal.ParseInt: only ASCII digits and ASCII white space are modelled. Python's `int` also accepts other Unicode decimal digits and white space.
- MonteCarlo.Player.RandomGuess: the unused `shots` parameter is dropped.
- MonteCarlo.Player.MonteCarloGuess: the frequency and rollout grids are fixed at ROWS x COLS, as the player creates them. An off-grid guessed cell returns `None` where Python raises IndexError.
- Shots.ShotsGrid.Guess: returns `None` where the cell is off either grid and Python raises IndexError.
- Placement.PlacementGrid.Sample: which of the listed ships are laid is stated as a sub-multiset of them, not as the subsequence in their order, and the PLACEMENT cells added are bounded by the listed lengths, not stated exactly, because a ship may find no place.
- Placement.PlacementGrid.Place: a rotation outside ROTATION (the AssertionError of game.py:128) cannot be written, since a rotation is one of the four values of the `Rotation` datatype.
- Placement.PlacementGrid.Initialize: the grid must have at least one row and one column. On an empty grid `random.randint(1, 0)` raises ValueError, which is not modelled; the same holds for PlaceShip, LayNext and Sample.
- Simulations.Simulation: returns `None` when the fleet cannot be placed. As written the game loop then never ends (see Findings).
- Simulations.Run: a simulation that returns `None` makes the run return false with the results gathered so far. The sample path is a string; the empty string stands for Python's absent or empty path, both of which are falsy.
- Simulations.PlayGame: the step count is bounded from both sides only in the two cases stated. A mix of target guesses (one step) and rollouts (one step each) is not summed exactly.
- The loops of `place` and of the attempt loops in `initialize` and `sample` are written as helper methods (AllEmpty, Occupy, PlaceShip) with the same behaviour.

## Findings

| source | as written | input that shows it | evidently intended | confidence | as-written member | corrected member |
|---|---|---|---|---|---|---|
| battleship/main.py:131-141 | `simulation` ignores the result of `placements.initialize()` and plays until the shots grid is won | every placement attempt for the first ship anchored at (1, 1) pointing up (90°) leaves the grid; after 100 such draws `initialize` returns False with no ship placed, and no shots grid recording true outcomes is ever won, so the loop does not end | check the result and stop, or retry, when the fleet could not be placed | not executed; the draw is unlikely but possible | Simulations.NeverWonShortOfFleet, Simulations.PlacementCanFail | Simulations.Simulation |
