/** The human Rust solution of Day 4 (human-solutions/04/rust/src/main.rs):
    part 1 counts the accessible rolls; part 2 works on a copy of the grid,
    marking every accessible roll `'x'` each round until a round finds none. */
module RollsRounds {
  import opened Rolls

  /** The grid shape both functions index without panicking: at least one
      row, and no row shorter than the first. */
  predicate WellShaped(grid: seq<string>) {
    |grid| > 0 && forall r :: 0 <= r < |grid| ==> |grid[0]| <= |grid[r]|
  }

  /** The inner loop over the eight offsets: neighbours out of bounds are
      skipped, the others count when they hold `'@'`. */
  method CountNeighbours(grid: seq<string>, cols: nat, row: nat, col: nat) returns (n: nat)
    requires forall r :: 0 <= r < |grid| ==> cols <= |grid[r]|
    ensures n == Neighbours(RollsOf(grid, cols), (row, col))
  {
    n := 0;
    for k := 0 to 8
      invariant n == NearCount(RollsOf(grid, cols), (row, col), k)
    {
      var (dr, dc) := Offsets[k];
      var nr, nc := row + dr, col + dc;
      assert Shift((row, col), k) == (nr, nc);
      InRolls(grid, cols, (nr, nc));
      if nr >= 0 && nr < |grid| && nc >= 0 && nc < cols {
        if grid[nr][nc] == '@' {
          n := n + 1;
        }
      }
    }
  }

  /** The body of the scan over one cell: a roll with fewer than four
      neighbours counts. */
  method CheckCell(grid: seq<string>, cols: nat, row: nat, col: nat) returns (accessible: bool)
    requires forall r :: 0 <= r < |grid| ==> cols <= |grid[r]|
    requires row < |grid| && col < cols
    ensures accessible <==> (row, col) in Accessible(RollsOf(grid, cols))
  {
    InRolls(grid, cols, (row, col));
    if grid[row][col] != '@' {
      return false;
    }
    var n := CountNeighbours(grid, cols, row, col);
    accessible := n < 4;
  }

  /** `find_accessible_rolls`: the number of accessible rolls. */
  method FindAccessibleRolls(grid: seq<string>) returns (count: nat)
    requires WellShaped(grid)
    ensures count == |Accessible(RollsOf(grid, |grid[0]|))|
  {
    var rows, cols := |grid|, |grid[0]|;
    ghost var a := Accessible(RollsOf(grid, cols));
    AccessibleInBox(grid, cols);
    count := 0;
    for row := 0 to rows
      invariant count == |Scanned(a, row, 0)|
    {
      for col := 0 to cols
        invariant count == |Scanned(a, row, col)|
      {
        ScanCell(a, row, col);
        var accessible := CheckCell(grid, cols, row, col);
        if accessible {
          count := count + 1;
        }
      }
      ScanRow(a, row, cols);
    }
    ScanAll(a, rows);
  }

  /** Rolls, and so accessible rolls, lie within the rows and columns scanned. */
  lemma AccessibleInBox(grid: seq<string>, cols: nat)
    ensures forall p :: p in Accessible(RollsOf(grid, cols)) ==> 0 <= p.0 < |grid| && 0 <= p.1 < cols
  {
    forall p | p in Accessible(RollsOf(grid, cols))
      ensures 0 <= p.0 < |grid| && 0 <= p.1 < cols
    {
      InRolls(grid, cols, p);
    }
  }

  /** The cells a list of positions names. */
  function CellSet(cells: seq<Cell>): (s: set<Cell>)
    ensures forall p :: p in s <==> p in cells
  {
    set p | p in cells
  }

  /** One round's scan of `count_total_removable`: the accessible rolls of
      the warehouse, in row-major order, each once. */
  method FindRemovable(warehouse: seq<string>, cols: nat) returns (toRemove: seq<Cell>)
    requires forall r :: 0 <= r < |warehouse| ==> cols <= |warehouse[r]|
    ensures |toRemove| == |Accessible(RollsOf(warehouse, cols))|
    ensures CellSet(toRemove) == Accessible(RollsOf(warehouse, cols))
    ensures forall i :: 0 <= i < |toRemove| ==> 0 <= toRemove[i].0 < |warehouse| && 0 <= toRemove[i].1 < cols
  {
    ghost var a := Accessible(RollsOf(warehouse, cols));
    AccessibleInBox(warehouse, cols);
    toRemove := [];
    for row := 0 to |warehouse|
      invariant |toRemove| == |Scanned(a, row, 0)|
      invariant CellSet(toRemove) == Scanned(a, row, 0)
    {
      toRemove := FindRemovableInRow(warehouse, cols, row, toRemove);
    }
    ScanAll(a, |warehouse|);
    forall i | 0 <= i < |toRemove|
      ensures 0 <= toRemove[i].0 < |warehouse| && 0 <= toRemove[i].1 < cols
    {
      assert toRemove[i] in CellSet(toRemove);
    }
  }

  /** The scan of one row in a round of `count_total_removable`. */
  method FindRemovableInRow(warehouse: seq<string>, cols: nat, row: nat, toRemove: seq<Cell>) returns (toRemove': seq<Cell>)
    requires forall r :: 0 <= r < |warehouse| ==> cols <= |warehouse[r]|
    requires row < |warehouse|
    requires |toRemove| == |Scanned(Accessible(RollsOf(warehouse, cols)), row, 0)|
    requires CellSet(toRemove) == Scanned(Accessible(RollsOf(warehouse, cols)), row, 0)
    ensures |toRemove'| == |Scanned(Accessible(RollsOf(warehouse, cols)), row + 1, 0)|
    ensures CellSet(toRemove') == Scanned(Accessible(RollsOf(warehouse, cols)), row + 1, 0)
  {
    ghost var a := Accessible(RollsOf(warehouse, cols));
    toRemove' := toRemove;
    for col := 0 to cols
      invariant |toRemove'| == |Scanned(a, row, col)|
      invariant CellSet(toRemove') == Scanned(a, row, col)
    {
      ScanCell(a, row, col);
      ScanCellSet(a, row, col);
      var accessible := CheckCell(warehouse, cols, row, col);
      if accessible {
        CellSetSnoc(toRemove', (row, col));
        toRemove' := toRemove' + [(row, col)];
      }
    }
    AccessibleInBox(warehouse, cols);
    ScanRow(a, row, cols);
  }

  lemma CellSetSnoc(cells: seq<Cell>, p: Cell)
    ensures CellSet(cells + [p]) == CellSet(cells) + {p}
  {
  }

  /** `count_total_removable`: rounds of removal on a copy of the grid until
      no roll is accessible; the rolls removed are all but the largest set
      in which every roll keeps four neighbours. */
  method CountTotalRemovable(grid: seq<string>) returns (total: nat)
    requires WellShaped(grid)
    ensures total == |RollsOf(grid, |grid[0]|)| - |Peel(RollsOf(grid, |grid[0]|))|
  {
    var cols := |grid[0]|;
    ghost var u := RollsOf(grid, cols);
    var warehouse := grid;
    total := 0;
    while true
      invariant forall r :: 0 <= r < |warehouse| ==> cols <= |warehouse[r]|
      invariant Peel(RollsOf(warehouse, cols)) == Peel(u)
      invariant total + |RollsOf(warehouse, cols)| == |u|
      decreases |RollsOf(warehouse, cols)|
    {
      var stop;
      stop, warehouse, total := Round(warehouse, cols, total, u);
      if stop {
        break;
      }
    }
  }

  /** One turn of the `loop`: the accessible rolls are found; when there
      are none the loop stops, and otherwise they are marked and counted.
      What is peeled from the rolls left stays what is peeled from `u`. */
  method Round(warehouse: seq<string>, cols: nat, total: nat, ghost u: set<Cell>)
    returns (stop: bool, warehouse': seq<string>, total': nat)
    requires forall r :: 0 <= r < |warehouse| ==> cols <= |warehouse[r]|
    requires Peel(RollsOf(warehouse, cols)) == Peel(u) && total + |RollsOf(warehouse, cols)| == |u|
    ensures forall r :: 0 <= r < |warehouse'| ==> cols <= |warehouse'[r]|
    ensures Peel(RollsOf(warehouse', cols)) == Peel(u) && total' + |RollsOf(warehouse', cols)| == |u|
    ensures stop ==> total' == |u| - |Peel(u)|
    ensures !stop ==> |RollsOf(warehouse', cols)| < |RollsOf(warehouse, cols)|
  {
    ghost var s := RollsOf(warehouse, cols);
    var toRemove := FindRemovable(warehouse, cols);
    if |toRemove| == 0 {
      assert Peel(s) == s;
      return true, warehouse, total;
    }
    warehouse' := MarkAll(warehouse, cols, toRemove);
    RemoveRound(s);
    total' := total + |toRemove|;
    stop := false;
  }

  /** One round: the accessible rolls go, and what is peeled from what is
      left is what is peeled from before. */
  lemma RemoveRound(s: set<Cell>)
    requires Accessible(s) != {}
    ensures Peel(s - Accessible(s)) == Peel(s)
    ensures |s - Accessible(s)| == |s| - |Accessible(s)| < |s|
  {
    ElementShrinks(s, Accessible(s));
  }

  /** The marking loop `for (row, col) in &to_remove`. */
  method MarkAll(warehouse: seq<string>, cols: nat, toRemove: seq<Cell>) returns (marked: seq<string>)
    requires forall r :: 0 <= r < |warehouse| ==> cols <= |warehouse[r]|
    requires forall i :: 0 <= i < |toRemove| ==> 0 <= toRemove[i].0 < |warehouse| && 0 <= toRemove[i].1 < cols
    ensures |marked| == |warehouse|
    ensures forall r :: 0 <= r < |marked| ==> |marked[r]| == |warehouse[r]|
    ensures RollsOf(marked, cols) == RollsOf(warehouse, cols) - CellSet(toRemove)
  {
    marked := warehouse;
    for i := 0 to |toRemove|
      invariant |marked| == |warehouse|
      invariant forall r :: 0 <= r < |marked| ==> |marked[r]| == |warehouse[r]|
      invariant RollsOf(marked, cols) == RollsOf(warehouse, cols) - CellSet(toRemove[..i])
    {
      var (row, col) := toRemove[i];
      MarkCell(marked, cols, row, col);
      marked := marked[row := marked[row][col := 'x']];
      assert toRemove[..i + 1] == toRemove[..i] + [toRemove[i]];
      CellSetSnoc(toRemove[..i], toRemove[i]);
    }
    assert toRemove[..|toRemove|] == toRemove;
  }
}
