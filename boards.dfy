/**
 * The value layer under every grid of the game: a board is the 2-D list of
 * cell values (a sequence of rows), addressed by 1-indexed cells. Row-major
 * iteration, filtering by value and counting are defined here once and used
 * by the placement, shots and frequency grids.
 */
module Boards {

  datatype Option<T> = None | Some(value: T)

  /** A 1-indexed coordinate: (1, 1) is the top left corner. */
  datatype Cell = Cell(row: int, col: int)

  /** The rows of a grid, each a list of integer cell values. */
  type Board = seq<seq<int>>

  /** The cell can be read: row and column at least 1 and within the list sizes. */
  predicate InGrid(b: Board, c: Cell) {
    1 <= c.row <= |b| && 1 <= c.col <= |b[c.row - 1]|
  }

  function Value(b: Board, c: Cell): int
    requires InGrid(b, c)
  {
    b[c.row - 1][c.col - 1]
  }

  predicate Shaped(b: Board, rows: nat, cols: nat) {
    |b| == rows && forall r :: 0 <= r < rows ==> |b[r]| == cols
  }

  predicate SameShape(b: Board, b': Board) {
    |b| == |b'| && forall r :: 0 <= r < |b| ==> |b[r]| == |b'[r]|
  }

  /** A rows x cols board holding `v` in every cell. */
  function Filled(rows: nat, cols: nat, v: int): (b: Board)
    ensures Shaped(b, rows, cols)
    ensures forall c :: InGrid(b, c) ==> Value(b, c) == v
  {
    seq(rows, _ => seq(cols, _ => v))
  }

  /** The board after one cell is set to `v`. */
  function Write(b: Board, c: Cell, v: int): (b': Board)
    requires InGrid(b, c)
    ensures SameShape(b, b')
    ensures forall d :: InGrid(b', d) <==> InGrid(b, d)
    ensures forall d :: InGrid(b, d) ==> Value(b', d) == if d == c then v else Value(b, d)
  {
    b[c.row - 1 := b[c.row - 1][c.col - 1 := v]]
  }

  /** The board after the cells of `cs` are set to `v`, one after another. */
  function WriteAll(b: Board, cs: seq<Cell>, v: int): (b': Board)
    requires forall c :: c in cs ==> InGrid(b, c)
    ensures SameShape(b, b')
    ensures forall d :: InGrid(b', d) <==> InGrid(b, d)
    ensures forall d :: InGrid(b, d) ==> Value(b', d) == if d in cs then v else Value(b, d)
    decreases |cs|
  {
    if cs == [] then b
    else
      var init := cs[..|cs| - 1];
      assert cs == init + [cs[|cs| - 1]];
      Write(WriteAll(b, init, v), cs[|cs| - 1], v)
  }

  lemma {:induction false} SameShapeGrid(b: Board, b': Board)
    requires SameShape(b, b')
    ensures forall c :: InGrid(b, c) <==> InGrid(b', c)
  {
    forall c ensures InGrid(b, c) <==> InGrid(b', c) {
      if 1 <= c.row <= |b| {
        assert |b[c.row - 1]| == |b'[c.row - 1]|;
      }
    }
  }

  /** Writing `xs` and then `ys` is writing `xs + ys`. */
  lemma {:induction false} WriteAllConcat(b: Board, xs: seq<Cell>, ys: seq<Cell>, v: int)
    requires forall c :: c in xs + ys ==> InGrid(b, c)
    ensures WriteAll(WriteAll(b, xs, v), ys, v) == WriteAll(b, xs + ys, v)
    decreases |ys|
  {
    if ys == [] {
      assert xs + ys == xs;
    } else {
      var init := ys[..|ys| - 1];
      assert (xs + ys)[..|xs + ys| - 1] == xs + init;
      WriteAllConcat(b, xs, init, v);
    }
  }

  // ---------------------------------------------------------------------
  // Row-major iteration

  /** `a` comes strictly before `b` in row-major order. */
  predicate Before(a: Cell, b: Cell) {
    a.row < b.row || (a.row == b.row && a.col < b.col)
  }

  predicate RowMajor(cs: seq<Cell>) {
    forall i, j :: 0 <= i < j < |cs| ==> Before(cs[i], cs[j])
  }

  predicate Distinct(cs: seq<Cell>) {
    forall i, j :: 0 <= i < j < |cs| ==> cs[i] != cs[j]
  }

  function RowCells(row: int, n: nat): seq<Cell> {
    seq(n, i => Cell(row, i + 1))
  }

  function CellsFrom(b: Board, r: nat): seq<Cell>
    decreases |b| - r
  {
    if r >= |b| then [] else RowCells(r + 1, |b[r]|) + CellsFrom(b, r + 1)
  }

  lemma {:induction false} CellsFromFacts(b: Board, r: nat)
    ensures forall c :: c in CellsFrom(b, r) <==> InGrid(b, c) && c.row > r
    ensures RowMajor(CellsFrom(b, r))
    decreases |b| - r
  {
    if r < |b| {
      CellsFromFacts(b, r + 1);
      var head, tail := RowCells(r + 1, |b[r]|), CellsFrom(b, r + 1);
      assert CellsFrom(b, r) == head + tail;
      forall c | InGrid(b, c) && c.row == r + 1 ensures c in head {
        assert head[c.col - 1] == c;
      }
      forall i, j | 0 <= i < j < |head + tail| ensures Before((head + tail)[i], (head + tail)[j]) {
        if j >= |head| && i < |head| {
          assert tail[j - |head|] in tail;
        }
      }
    }
  }

  /**
   * The cells of a board as the game iterates them: every readable cell
   * exactly once, rows ascending and, within a row, columns ascending.
   */
  function Cells(b: Board): (cs: seq<Cell>)
    ensures forall c :: c in cs <==> InGrid(b, c)
    ensures RowMajor(cs)
  {
    CellsFromFacts(b, 0);
    CellsFrom(b, 0)
  }

  lemma RowMajorDistinct(cs: seq<Cell>)
    requires RowMajor(cs)
    ensures Distinct(cs)
  {
  }

  /** Two row-major lists with the same members are the same list. */
  lemma {:induction false} RowMajorUnique(xs: seq<Cell>, ys: seq<Cell>)
    requires RowMajor(xs) && RowMajor(ys)
    requires forall c :: c in xs <==> c in ys
    ensures xs == ys
    decreases |xs|
  {
    if xs != [] {
      assert xs[0] in ys;
    }
    if ys != [] {
      assert ys[0] in xs;
    }
    if xs != [] {
      assert xs[0] == ys[0];
      forall c ensures c in xs[1..] <==> c in ys[1..] {
        if c in xs[1..] {
          var i :| 0 <= i < |xs[1..]| && xs[1..][i] == c;
          assert Before(xs[0], xs[i + 1]);
          assert c in xs && c in ys;
          var j :| 0 <= j < |ys| && ys[j] == c;
          assert j != 0 && ys[1..][j - 1] == c;
        }
        if c in ys[1..] {
          var j :| 0 <= j < |ys[1..]| && ys[1..][j] == c;
          assert Before(ys[0], ys[j + 1]);
          assert c in ys && c in xs;
          var i :| 0 <= i < |xs| && xs[i] == c;
          assert i != 0 && xs[1..][i - 1] == c;
        }
      }
      RowMajorUnique(xs[1..], ys[1..]);
      assert xs == [xs[0]] + xs[1..] && ys == [ys[0]] + ys[1..];
    }
  }

  lemma {:induction false} CellsFromCount(b: Board, r: nat, cols: nat)
    requires Shaped(b, |b|, cols) && r <= |b|
    ensures |CellsFrom(b, r)| == (|b| - r) * cols
    decreases |b| - r
  {
    if r < |b| {
      CellsFromCount(b, r + 1, cols);
      assert (|b| - r) * cols == cols + (|b| - (r + 1)) * cols;
    }
  }

  /** A rows x cols board has rows * cols cells. */
  lemma CellsCount(b: Board, rows: nat, cols: nat)
    requires Shaped(b, rows, cols)
    ensures |Cells(b)| == rows * cols
  {
    CellsFromCount(b, 0, cols);
  }

  lemma {:induction false} CellsFromSameShape(b: Board, b': Board, r: nat)
    requires SameShape(b, b')
    ensures CellsFrom(b, r) == CellsFrom(b', r)
    decreases |b| - r
  {
    if r < |b| {
      CellsFromSameShape(b, b', r + 1);
    }
  }

  /** Iteration depends only on the shape of a board, not on its values. */
  lemma CellsSameShape(b: Board, b': Board)
    requires SameShape(b, b')
    ensures Cells(b) == Cells(b')
  {
    CellsFromSameShape(b, b', 0);
  }

  // ---------------------------------------------------------------------
  // Filtering: the list comprehensions over the iteration

  function Filter(cs: seq<Cell>, keep: Cell -> bool): (r: seq<Cell>)
    ensures |r| <= |cs|
    ensures forall c :: c in r <==> c in cs && keep(c)
  {
    if cs == [] then []
    else (if keep(cs[0]) then [cs[0]] else []) + Filter(cs[1..], keep)
  }

  lemma {:induction false} FilterRowMajor(cs: seq<Cell>, keep: Cell -> bool)
    requires RowMajor(cs)
    ensures RowMajor(Filter(cs, keep))
  {
    if cs != [] {
      FilterRowMajor(cs[1..], keep);
      var rest := Filter(cs[1..], keep);
      forall x | x in rest ensures Before(cs[0], x) {
        var j :| 0 <= j < |cs[1..]| && cs[1..][j] == x;
        assert cs[j + 1] == x;
      }
    }
  }

  /** Filtering a list with a given first element: that element, if kept, then the rest filtered. */
  lemma FilterCons(x: Cell, cs: seq<Cell>, keep: Cell -> bool)
    ensures Filter([x] + cs, keep) == (if keep(x) then [x] else []) + Filter(cs, keep)
  {
    assert ([x] + cs)[1..] == cs;
  }

  /** Filtering keeps every copy of a kept element and no copy of a dropped one. */
  lemma {:induction false} FilterCount(cs: seq<Cell>, keep: Cell -> bool, x: Cell)
    ensures multiset(Filter(cs, keep))[x] == if keep(x) then multiset(cs)[x] else 0
  {
    if cs != [] {
      FilterCount(cs[1..], keep, x);
      assert cs == [cs[0]] + cs[1..];
    }
  }

  /** A test that no element passes filters the list down to nothing. */
  lemma {:induction false} FilterNone(cs: seq<Cell>, keep: Cell -> bool)
    requires forall c :: c in cs ==> !keep(c)
    ensures Filter(cs, keep) == []
  {
    if cs != [] {
      FilterNone(cs[1..], keep);
    }
  }

  /** A test that every element passes keeps the whole list. */
  lemma {:induction false} FilterAll(cs: seq<Cell>, keep: Cell -> bool)
    requires forall c :: c in cs ==> keep(c)
    ensures Filter(cs, keep) == cs
  {
    if cs != [] {
      FilterAll(cs[1..], keep);
      assert cs == [cs[0]] + cs[1..];
    }
  }

  /** Filtering with two tests that agree on every element gives the same list. */
  lemma {:induction false} FilterCongruent(cs: seq<Cell>, p: Cell -> bool, q: Cell -> bool)
    requires forall c :: c in cs ==> p(c) == q(c)
    ensures Filter(cs, p) == Filter(cs, q)
  {
    if cs != [] {
      FilterCongruent(cs[1..], p, q);
    }
  }

  lemma {:induction false} FilterMonotone(cs: seq<Cell>, p: Cell -> bool, q: Cell -> bool)
    requires forall c :: c in cs && p(c) ==> q(c)
    ensures |Filter(cs, p)| <= |Filter(cs, q)|
  {
    if cs != [] {
      FilterMonotone(cs[1..], p, q);
    }
  }

  /** A weaker test that also keeps an element of the list the stronger one drops keeps strictly more. */
  lemma {:induction false} FilterStrict(cs: seq<Cell>, p: Cell -> bool, q: Cell -> bool, x: Cell)
    requires forall c :: c in cs && p(c) ==> q(c)
    requires x in cs && q(x) && !p(x)
    ensures |Filter(cs, p)| < |Filter(cs, q)|
  {
    if cs[0] == x {
      FilterMonotone(cs[1..], p, q);
    } else {
      assert x in cs[1..];
      FilterStrict(cs[1..], p, q, x);
    }
  }

  /** Three tests of which exactly one holds on each element split the list. */
  lemma {:induction false} FilterPartition(cs: seq<Cell>, p: Cell -> bool, q: Cell -> bool, r: Cell -> bool)
    requires forall c :: c in cs ==> (if p(c) then 1 else 0) + (if q(c) then 1 else 0) + (if r(c) then 1 else 0) == 1
    ensures |Filter(cs, p)| + |Filter(cs, q)| + |Filter(cs, r)| == |cs|
  {
    if cs != [] {
      FilterPartition(cs[1..], p, q, r);
    }
  }

  /**
   * When two tests differ at most on `x`, which occurs in the list at most
   * once, the filtered lengths differ by what the tests say about `x`.
   */
  lemma {:induction false} FilterChangeOne(cs: seq<Cell>, p: Cell -> bool, q: Cell -> bool, x: Cell)
    requires Distinct(cs)
    requires forall c :: c in cs && c != x ==> p(c) == q(c)
    ensures |Filter(cs, q)| == |Filter(cs, p)| - (if x in cs && p(x) then 1 else 0) + (if x in cs && q(x) then 1 else 0)
  {
    if cs != [] {
      assert Distinct(cs[1..]);
      FilterChangeOne(cs[1..], p, q, x);
      if cs[0] == x {
        assert x !in cs[1..] by {
          forall j | 0 <= j < |cs[1..]| ensures cs[1..][j] != x {
            assert cs[j + 1] != cs[0];
          }
        }
      }
    }
  }

  // ---------------------------------------------------------------------
  // Named tests (so that every use of a filter names the same function)

  function Is(v: int): int -> bool {
    x => x == v
  }

  function IsNot(v: int): int -> bool {
    x => x != v
  }

  function AtLeast(v: int): int -> bool {
    x => x >= v
  }

  function NotIn(cs: seq<Cell>): Cell -> bool {
    c => c !in cs
  }

  function In(cs: seq<Cell>): Cell -> bool {
    c => c in cs
  }

  /** The cell is on the board and its value passes `p`. */
  function Holds(b: Board, p: int -> bool): Cell -> bool {
    c => InGrid(b, c) && p(Value(b, c))
  }

  /** The cells whose value passes `p`, in row-major order. */
  function Matching(b: Board, p: int -> bool): (r: seq<Cell>)
    ensures forall c :: c in r <==> InGrid(b, c) && p(Value(b, c))
    ensures RowMajor(r)
  {
    FilterRowMajor(Cells(b), Holds(b, p));
    Filter(Cells(b), Holds(b, p))
  }

  /** Two boards of one shape whose values agree under the tests match the same cells. */
  lemma MatchingCongruent(b: Board, b': Board, p: int -> bool, q: int -> bool)
    requires SameShape(b, b')
    requires forall c :: InGrid(b, c) ==> InGrid(b', c) && p(Value(b, c)) == q(Value(b', c))
    ensures Matching(b, p) == Matching(b', q)
  {
    CellsSameShape(b, b');
    FilterCongruent(Cells(b), Holds(b, p), Holds(b', q));
  }

  /** One write changes a count by at most one, as the old and new value say. */
  lemma MatchingAfterWrite(b: Board, c: Cell, v: int, p: int -> bool)
    requires InGrid(b, c)
    ensures |Matching(Write(b, c, v), p)| ==
            |Matching(b, p)| - (if p(Value(b, c)) then 1 else 0) + (if p(v) then 1 else 0)
  {
    var b' := Write(b, c, v);
    CellsSameShape(b, b');
    RowMajorDistinct(Cells(b));
    FilterChangeOne(Cells(b), Holds(b, p), Holds(b', p), c);
  }

  /**
   * Writing a value that passes `p` over distinct cells that do not pass it
   * adds exactly one matching cell per written cell.
   */
  lemma {:induction false} MatchingAfterWriteAll(b: Board, cs: seq<Cell>, v: int, p: int -> bool)
    requires forall c :: c in cs ==> InGrid(b, c) && !p(Value(b, c))
    requires Distinct(cs)
    requires p(v)
    ensures |Matching(WriteAll(b, cs, v), p)| == |Matching(b, p)| + |cs|
    decreases |cs|
  {
    if cs != [] {
      var init, last := cs[..|cs| - 1], cs[|cs| - 1];
      assert cs == init + [last];
      assert Distinct(init);
      assert last !in init by {
        forall j | 0 <= j < |init| ensures init[j] != last {
          assert cs[j] != cs[|cs| - 1];
        }
      }
      MatchingAfterWriteAll(b, init, v, p);
      var mid := WriteAll(b, init, v);
      MatchingAfterWrite(mid, last, v, p);
    }
  }

  /** A board filled with a value that fails `p` matches no cell. */
  lemma FilledMatchesNone(rows: nat, cols: nat, v: int, p: int -> bool)
    requires !p(v)
    ensures Matching(Filled(rows, cols, v), p) == []
  {
    var b := Filled(rows, cols, v);
    FilterNone(Cells(b), Holds(b, p));
  }

  /** The cells of `cs` up to, not including, the first one off the board. */
  function InGridPrefix(b: Board, cs: seq<Cell>): (n: nat)
    ensures n <= |cs|
    ensures forall i :: 0 <= i < n ==> InGrid(b, cs[i])
    ensures n < |cs| ==> !InGrid(b, cs[n])
  {
    if cs == [] || !InGrid(b, cs[0]) then 0 else 1 + InGridPrefix(b, cs[1..])
  }

  // ---------------------------------------------------------------------
  // Sums of integer lists

  function Sum(s: seq<int>): int {
    if s == [] then 0 else s[0] + Sum(s[1..])
  }

  lemma {:induction false} SumConcat(a: seq<int>, b: seq<int>)
    ensures Sum(a + b) == Sum(a) + Sum(b)
  {
    if a != [] {
      assert (a + b)[0] == a[0] && (a + b)[1..] == a[1..] + b;
      SumConcat(a[1..], b);
    } else {
      assert a + b == b;
    }
  }
}
