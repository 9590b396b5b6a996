/** Day 4: paper rolls (`@`) on a grid. A roll is accessible when fewer than
    four of its eight neighbours hold rolls. Removing accessible rolls again
    and again leaves the largest set of rolls in which every roll has at
    least four neighbours in the set; this module defines that peeling and
    proves it leaves exactly that set. */
module Rolls {

  type Cell = (int, int)

  /** The eight neighbour offsets, in the order both solutions list them. */
  const Offsets: seq<(int, int)> := [(-1, -1), (-1, 0), (-1, 1), (0, -1), (0, 1), (1, -1), (1, 0), (1, 1)]

  function Shift(p: Cell, k: nat): Cell
    requires k < 8
  {
    (p.0 + Offsets[k].0, p.1 + Offsets[k].1)
  }

  /** How many of the first `n` offsets from `p` hold a roll of `s`. */
  function NearCount(s: set<Cell>, p: Cell, n: nat): (c: nat)
    requires n <= 8
    ensures c <= n
  {
    if n == 0 then 0 else NearCount(s, p, n - 1) + (if Shift(p, n - 1) in s then 1 else 0)
  }

  /** The number of neighbours of `p` that are rolls of `s`. */
  function Neighbours(s: set<Cell>, p: Cell): (c: nat)
    ensures c <= 8
  {
    NearCount(s, p, 8)
  }

  /** More rolls around a cell never mean fewer neighbours. */
  lemma {:induction false} NearCountMono(t: set<Cell>, s: set<Cell>, p: Cell, n: nat)
    requires t <= s && n <= 8
    ensures NearCount(t, p, n) <= NearCount(s, p, n)
  {
    if n > 0 {
      NearCountMono(t, s, p, n - 1);
    }
  }

  lemma NeighboursMono(t: set<Cell>, s: set<Cell>, p: Cell)
    requires t <= s
    ensures Neighbours(t, p) <= Neighbours(s, p)
  {
    NearCountMono(t, s, p, 8);
  }

  /** `c` is one of the first `n` offsets from `p`. */
  predicate Among(p: Cell, c: Cell, n: nat)
    requires n <= 8
  {
    n > 0 && (Shift(p, n - 1) == c || Among(p, c, n - 1))
  }

  /** `c` touches `p` horizontally, vertically or diagonally. */
  predicate Adjacent(p: Cell, c: Cell) {
    p != c && -1 <= c.0 - p.0 <= 1 && -1 <= c.1 - p.1 <= 1
  }

  /** The eight offsets are exactly the cells adjacent to `p`. */
  lemma AmongAdjacent(p: Cell, c: Cell)
    ensures Among(p, c, 8) <==> Adjacent(p, c)
  {
    assert Among(p, c, 8) <==> Shift(p, 7) == c || Among(p, c, 7);
    assert Among(p, c, 7) <==> Shift(p, 6) == c || Among(p, c, 6);
    assert Among(p, c, 6) <==> Shift(p, 5) == c || Among(p, c, 5);
    assert Among(p, c, 5) <==> Shift(p, 4) == c || Among(p, c, 4);
    assert Among(p, c, 4) <==> Shift(p, 3) == c || Among(p, c, 3);
    assert Among(p, c, 3) <==> Shift(p, 2) == c || Among(p, c, 2);
    assert Among(p, c, 2) <==> Shift(p, 1) == c || Among(p, c, 1);
    assert Among(p, c, 1) <==> Shift(p, 0) == c;
  }

  /** No offset is listed twice. */
  lemma {:induction false} ShiftFresh(p: Cell, n: nat, m: nat)
    requires m <= n < 8
    ensures !Among(p, Shift(p, n), m)
  {
    if m > 0 {
      ShiftFresh(p, n, m - 1);
      assert Offsets[m - 1] != Offsets[n];
    }
  }

  /** Taking one roll `c` away lowers the count around `q` by one exactly
      when `c` is one of the offsets counted. */
  lemma {:induction false} NearRemove(s: set<Cell>, q: Cell, c: Cell, n: nat)
    requires n <= 8
    ensures NearCount(s, q, n) == NearCount(s - {c}, q, n) + (if c in s && Among(q, c, n) then 1 else 0)
  {
    if n > 0 {
      NearRemove(s, q, c, n - 1);
      if Shift(q, n - 1) == c {
        ShiftFresh(q, n - 1, n - 1);
      }
    }
  }

  /** The rolls of `s` a forklift can reach: fewer than four neighbours. */
  function Accessible(s: set<Cell>): (a: set<Cell>)
    ensures a <= s
    ensures forall p :: p in s ==> (p in a <==> Neighbours(s, p) < 4)
  {
    set p | p in s && Neighbours(s, p) < 4
  }

  /** Every roll of `s` has at least four neighbours in `s`. */
  predicate Stable(s: set<Cell>) {
    forall p :: p in s ==> Neighbours(s, p) >= 4
  }

  /** Removing the accessible rolls, round after round, until none is left. */
  function Peel(s: set<Cell>): (k: set<Cell>)
    ensures k <= s
    decreases |s|
  {
    var a := Accessible(s);
    if a == {} then s
    else
      ElementShrinks(s, a);
      Peel(s - a)
  }

  lemma ElementShrinks(s: set<Cell>, a: set<Cell>)
    requires a <= s && a != {}
    ensures |s - a| < |s|
  {
    var x := ElementOf(a);
    assert s - a <= s - {x};
  }

  /** Some member of a non-empty set. */
  lemma ElementOf(s: set<Cell>) returns (x: Cell)
    requires s != {}
    ensures x in s
  {
    EmptyOrElement(s);
    x :| x in s;
  }

  /** A set of cells is empty or has a member. */
  lemma EmptyOrElement(s: set<Cell>)
    ensures s == {} || exists x :: x in s
  {
    if forall x :: x !in s {
      assert s == {};
    }
  }

  /** `k` is the largest subset of `u` in which every roll has four
      neighbours: it is one, and it contains every other one. */
  ghost predicate LargestStable(u: set<Cell>, k: set<Cell>) {
    k <= u && Stable(k) && forall t: set<Cell> :: t <= u && Stable(t) ==> t <= k
  }

  /** There is only one largest stable subset. */
  lemma LargestStableUnique(u: set<Cell>, k1: set<Cell>, k2: set<Cell>)
    requires LargestStable(u, k1) && LargestStable(u, k2)
    ensures k1 == k2
  {
  }

  /** A stable subset of `s` keeps all its rolls through one round. */
  lemma StableSurvives(s: set<Cell>, t: set<Cell>)
    requires t <= s && Stable(t)
    ensures t <= s - Accessible(s)
  {
    forall p | p in t
      ensures p !in Accessible(s)
    {
      NeighboursMono(t, s, p);
    }
  }

  /** Peeling stops at the largest stable subset. */
  lemma {:induction false} PeelIsLargestStable(s: set<Cell>)
    ensures LargestStable(s, Peel(s))
    decreases |s|
  {
    var a := Accessible(s);
    if a != {} {
      ElementShrinks(s, a);
      PeelIsLargestStable(s - a);
      forall t: set<Cell> | t <= s && Stable(t)
        ensures t <= Peel(s)
      {
        StableSurvives(s, t);
      }
    }
  }

  /** Peeling removes at least the rolls accessible at the start. */
  lemma PeelDropsAccessible(s: set<Cell>)
    ensures Peel(s) * Accessible(s) == {}
  {
    var a := Accessible(s);
    if a != {} {
      assert Peel(s) <= s - a;
    }
  }

  /** The rolls removed by peeling number at least the rolls accessible at
      the start, and at most all the rolls. */
  lemma PeelBounds(s: set<Cell>)
    ensures |Accessible(s)| <= |s| - |Peel(s)| <= |s|
  {
    var a := Accessible(s);
    var k := Peel(s);
    assert k <= s - a by {
      PeelDropsAccessible(s);
    }
    DiffCard(s, a);
    SubsetCard(k, s - a);
  }

  lemma DiffCard(s: set<Cell>, a: set<Cell>)
    requires a <= s
    ensures |s - a| == |s| - |a|
  {
    assert s == (s - a) + a;
  }

  lemma SubsetCard(t: set<Cell>, s: set<Cell>)
    requires t <= s
    ensures |t| <= |s|
  {
    assert s == t + (s - t);
  }

  // ------------------------------------------------------------- the grid

  /** The rolls of a grid, in the first `w` columns of each row. */
  function RollsOf(grid: seq<string>, w: nat): set<Cell> {
    set r, c | 0 <= r < |grid| && 0 <= c < w && c < |grid[r]| && grid[r][c] == '@' :: (r, c)
  }

  lemma InRolls(grid: seq<string>, w: nat, p: Cell)
    ensures p in RollsOf(grid, w)
      <==> 0 <= p.0 < |grid| && 0 <= p.1 < w && p.1 < |grid[p.0]| && grid[p.0][p.1] == '@'
  {
    if 0 <= p.0 < |grid| && 0 <= p.1 < w && p.1 < |grid[p.0]| && grid[p.0][p.1] == '@' {
      assert (p.0, p.1) in RollsOf(grid, w);
    }
  }

  /** The rolls of a grid whose rows may differ in length. */
  function RollsIn(grid: seq<string>): set<Cell> {
    set r, c | 0 <= r < |grid| && 0 <= c < |grid[r]| && grid[r][c] == '@' :: (r, c)
  }

  lemma InRollsIn(grid: seq<string>, p: Cell)
    ensures p in RollsIn(grid) <==> 0 <= p.0 < |grid| && 0 <= p.1 < |grid[p.0]| && grid[p.0][p.1] == '@'
  {
    if 0 <= p.0 < |grid| && 0 <= p.1 < |grid[p.0]| && grid[p.0][p.1] == '@' {
      assert (p.0, p.1) in RollsIn(grid);
    }
  }

  /** On a rectangular grid both readings of the rolls agree. */
  lemma SameRolls(grid: seq<string>)
    requires |grid| > 0 && forall r :: 0 <= r < |grid| ==> |grid[r]| == |grid[0]|
    ensures RollsIn(grid) == RollsOf(grid, |grid[0]|)
  {
    forall p | p in RollsIn(grid) + RollsOf(grid, |grid[0]|)
      ensures p in RollsIn(grid) <==> p in RollsOf(grid, |grid[0]|)
    {
      InRollsIn(grid, p);
      InRolls(grid, |grid[0]|, p);
    }
  }

  /** Marking one cell `'x'` takes its roll away and touches no other cell. */
  lemma MarkCell(grid: seq<string>, w: nat, r: nat, c: nat)
    requires r < |grid| && c < |grid[r]|
    ensures RollsOf(grid[r := grid[r][c := 'x']], w) == RollsOf(grid, w) - {(r, c)}
  {
    var g := grid[r := grid[r][c := 'x']];
    forall p | p in RollsOf(g, w) + RollsOf(grid, w)
      ensures p in RollsOf(g, w) <==> p in RollsOf(grid, w) - {(r, c)}
    {
      InRolls(g, w, p);
      InRolls(grid, w, p);
    }
  }

  /** The cells of `a` before position (`row`, `col`) in row-major order. */
  ghost function Scanned(a: set<Cell>, row: int, col: int): set<Cell> {
    set p | p in a && (p.0 < row || (p.0 == row && p.1 < col))
  }

  /** One more cell scanned adds it when it is in `a`. */
  lemma ScanCell(a: set<Cell>, row: int, col: int)
    ensures |Scanned(a, row, col + 1)| == |Scanned(a, row, col)| + (if (row, col) in a then 1 else 0)
  {
    var before, after := Scanned(a, row, col), Scanned(a, row, col + 1);
    if (row, col) in a {
      assert after == before + {(row, col)};
    } else {
      assert after == before;
    }
  }

  /** One more cell scanned, as a set. */
  lemma ScanCellSet(a: set<Cell>, row: int, col: int)
    ensures Scanned(a, row, col + 1) == Scanned(a, row, col) + (if (row, col) in a then {(row, col)} else {})
  {
  }

  /** A row scanned to its last column is the next row scanned from 0. */
  lemma ScanRow(a: set<Cell>, row: int, w: int)
    requires forall p :: p in a ==> 0 <= p.1 && (p.0 == row ==> p.1 < w)
    ensures Scanned(a, row, w) == Scanned(a, row + 1, 0)
  {
  }

  /** A grid scanned to its last row is all of it. */
  lemma ScanAll(a: set<Cell>, h: int)
    requires forall p :: p in a ==> p.0 < h
    ensures Scanned(a, h, 0) == a
  {
  }
}
