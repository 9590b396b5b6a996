/** The Python solution of Day 4 (ai-solutions/04/gpt-5.1-codex/python/main.py):
    the rolls become the nodes of a graph, numbered in row-major order, with
    an edge to each adjacent roll; part 1 counts the nodes of degree below
    four, part 2 removes such nodes through a work queue, lowering the
    degrees of their neighbours as it goes. */
module RollsQueue {
  import opened Rolls

  predicate Distinct<T(==)>(xs: seq<T>) {
    forall i, j :: 0 <= i < j < |xs| ==> xs[i] != xs[j]
  }

  /** `positions` lists the rolls `u`, and `index` maps each roll back to its
      place in that list. */
  predicate Indexed(positions: seq<Cell>, index: map<Cell, nat>, u: set<Cell>) {
    index.Keys == u
    && (forall c :: c in index ==> index[c] < |positions| && positions[index[c]] == c)
    && (forall i :: 0 <= i < |positions| ==> positions[i] in index && index[positions[i]] == i)
  }

  /** The nodes at the first `n` offsets from `p` that hold a roll, in offset
      order (the `index.get` lookups of `build_adjacency`). */
  function NeighbourIndices(index: map<Cell, nat>, p: Cell, n: nat): seq<nat>
    requires n <= 8
  {
    if n == 0 then []
    else
      var q := Shift(p, n - 1);
      NeighbourIndices(index, p, n - 1) + (if q in index then [index[q]] else [])
  }

  /** `adjacency[i]` lists the neighbours of the roll at `positions[i]`. */
  predicate AdjacencyOf(adjacency: seq<seq<nat>>, positions: seq<Cell>, index: map<Cell, nat>) {
    |adjacency| == |positions|
    && forall i :: 0 <= i < |adjacency| ==> adjacency[i] == NeighbourIndices(index, positions[i], 8)
  }

  // ------------------------------------------------------------ the graph

  /** A node's list has one entry per neighbouring roll. */
  lemma {:induction false} NeighbourIndicesLength(index: map<Cell, nat>, p: Cell, n: nat)
    requires n <= 8
    ensures |NeighbourIndices(index, p, n)| == NearCount(index.Keys, p, n)
  {
    if n > 0 {
      NeighbourIndicesLength(index, p, n - 1);
    }
  }

  /** A node is in the list exactly when its roll is at one of the offsets. */
  lemma {:induction false} NeighbourIndicesIn(positions: seq<Cell>, index: map<Cell, nat>, u: set<Cell>, p: Cell, n: nat, v: nat)
    requires Indexed(positions, index, u) && n <= 8
    ensures v in NeighbourIndices(index, p, n) <==> v < |positions| && Among(p, positions[v], n)
  {
    if n > 0 {
      NeighbourIndicesIn(positions, index, u, p, n - 1, v);
      var q := Shift(p, n - 1);
      if v < |positions| && positions[v] == q {
        assert index[q] == v;
      }
    }
  }

  /** No node is listed twice. */
  lemma {:induction false} NeighbourIndicesDistinct(positions: seq<Cell>, index: map<Cell, nat>, u: set<Cell>, p: Cell, n: nat)
    requires Indexed(positions, index, u) && n <= 8
    ensures Distinct(NeighbourIndices(index, p, n))
  {
    if n > 0 {
      NeighbourIndicesDistinct(positions, index, u, p, n - 1);
      var q := Shift(p, n - 1);
      if q in index {
        NeighbourIndicesIn(positions, index, u, p, n - 1, index[q]);
        ShiftFresh(p, n - 1, n - 1);
        DistinctSnoc(NeighbourIndices(index, p, n - 1), index[q]);
      }
    }
  }

  lemma DistinctSnoc<T>(xs: seq<T>, x: T)
    requires Distinct(xs) && x !in xs
    ensures Distinct(xs + [x])
  {
    var ys := xs + [x];
    forall i, j | 0 <= i < j < |ys|
      ensures ys[i] != ys[j]
    {
      if j == |xs| {
        assert ys[i] == xs[i];
      } else {
        assert ys[i] == xs[i] && ys[j] == xs[j];
      }
    }
  }

  /** What the later proofs use about one node's list: its length is the
      node's neighbour count, it has no repeats, and it holds exactly the
      adjacent rolls. */
  lemma NodeFacts(adjacency: seq<seq<nat>>, positions: seq<Cell>, index: map<Cell, nat>, u: set<Cell>, i: nat)
    requires Indexed(positions, index, u) && AdjacencyOf(adjacency, positions, index)
    requires i < |adjacency|
    ensures |adjacency[i]| == Neighbours(u, positions[i])
    ensures Distinct(adjacency[i])
    ensures forall v: nat :: v in adjacency[i] <==> v < |positions| && Adjacent(positions[i], positions[v])
  {
    NeighbourIndicesLength(index, positions[i], 8);
    NeighbourIndicesDistinct(positions, index, u, positions[i], 8);
    forall v: nat
      ensures v in adjacency[i] <==> v < |positions| && Adjacent(positions[i], positions[v])
    {
      NeighbourIndicesIn(positions, index, u, positions[i], 8, v);
      if v < |positions| {
        AmongAdjacent(positions[i], positions[v]);
      }
    }
  }

  /** The adjacency lists name only rolls, are symmetric, have at most
      eight entries and never list a node twice or next to itself. */
  lemma AdjacencyShape(adjacency: seq<seq<nat>>, positions: seq<Cell>, index: map<Cell, nat>, u: set<Cell>)
    requires Indexed(positions, index, u) && AdjacencyOf(adjacency, positions, index)
    ensures forall i, t :: 0 <= i < |adjacency| && 0 <= t < |adjacency[i]| ==> adjacency[i][t] < |adjacency|
    ensures forall i :: 0 <= i < |adjacency| ==> |adjacency[i]| <= 8 && Distinct(adjacency[i]) && i !in adjacency[i]
    ensures forall i: nat, j: nat :: i < |adjacency| && j < |adjacency| ==> (j in adjacency[i] <==> i in adjacency[j])
  {
    forall i | 0 <= i < |adjacency|
      ensures (forall t :: 0 <= t < |adjacency[i]| ==> adjacency[i][t] < |adjacency|)
      ensures |adjacency[i]| <= 8 && Distinct(adjacency[i]) && i !in adjacency[i]
      ensures forall j: nat :: j < |adjacency| ==> (j in adjacency[i] <==> i in adjacency[j])
    {
      NodeFacts(adjacency, positions, index, u, i);
      forall t | 0 <= t < |adjacency[i]|
        ensures adjacency[i][t] < |adjacency|
      {
        assert adjacency[i][t] in adjacency[i];
      }
      forall j: nat | j < |adjacency|
        ensures j in adjacency[i] <==> i in adjacency[j]
      {
        NodeFacts(adjacency, positions, index, u, j);
      }
    }
  }

  // ------------------------------------------------------ build_adjacency

  /** Numbering one more roll keeps the numbering consistent. */
  lemma IndexedSnoc(positions: seq<Cell>, index: map<Cell, nat>, u: set<Cell>, c: Cell)
    requires Indexed(positions, index, u) && c !in u
    ensures Indexed(positions + [c], index[c := |positions|], u + {c})
  {
    var ps, ix := positions + [c], index[c := |positions|];
    forall i | 0 <= i < |ps|
      ensures ps[i] in ix && ix[ps[i]] == i
    {
      if i < |positions| {
        assert ps[i] == positions[i];
      }
    }
  }

  /** `build_adjacency`: number the rolls in row-major order, then list the
      numbered neighbours of each, in offset order. */
  method BuildAdjacency(grid: seq<string>) returns (adjacency: seq<seq<nat>>, ghost positions: seq<Cell>, ghost index: map<Cell, nat>)
    ensures Indexed(positions, index, RollsIn(grid))
    ensures RowMajor(positions)
    ensures AdjacencyOf(adjacency, positions, index)
  {
    var cells, at := NumberRolls(grid);
    adjacency := ListNeighbours(cells, at);
    positions, index := cells, at;
  }

  /** Cell `a` comes before cell `b` in a row-by-row, left-to-right scan. */
  predicate Precedes(a: Cell, b: Cell) {
    a.0 < b.0 || (a.0 == b.0 && a.1 < b.1)
  }

  /** The cells are listed in scan order. */
  predicate RowMajor(positions: seq<Cell>) {
    forall i, j :: 0 <= i < j < |positions| ==> Precedes(positions[i], positions[j])
  }

  /** The first loop of `build_adjacency`: `positions` and `index`. */
  method NumberRolls(grid: seq<string>) returns (positions: seq<Cell>, index: map<Cell, nat>)
    ensures Indexed(positions, index, RollsIn(grid))
    ensures RowMajor(positions)
  {
    ghost var u := RollsIn(grid);
    positions, index := [], map[];
    forall p | p in u
      ensures 0 <= p.0 < |grid| && 0 <= p.1 < |grid[p.0]|
    {
      InRollsIn(grid, p);
    }
    assert Scanned(u, 0, 0) == {};
    for r := 0 to |grid|
      invariant Indexed(positions, index, Scanned(u, r, 0))
      invariant RowMajor(positions)
      invariant forall i :: 0 <= i < |positions| ==> positions[i].0 < r
    {
      for c := 0 to |grid[r]|
        invariant Indexed(positions, index, Scanned(u, r, c))
        invariant RowMajor(positions)
        invariant forall i :: 0 <= i < |positions| ==> Precedes(positions[i], (r, c))
      {
        ScanCellSet(u, r, c);
        InRollsIn(grid, (r, c));
        if grid[r][c] == '@' {
          IndexedSnoc(positions, index, Scanned(u, r, c), (r, c));
          var idx := |positions|;
          positions := positions + [(r, c)];
          index := index[(r, c) := idx];
        }
      }
      ScanRow(u, r, |grid[r]|);
    }
    ScanAll(u, |grid|);
  }

  /** The second loop of `build_adjacency`: one list per numbered roll. */
  method ListNeighbours(positions: seq<Cell>, index: map<Cell, nat>) returns (adjacency: seq<seq<nat>>)
    ensures AdjacencyOf(adjacency, positions, index)
  {
    adjacency := seq(|positions|, _ => []);
    for idx := 0 to |positions|
      invariant |adjacency| == |positions|
      invariant forall i :: 0 <= i < idx ==> adjacency[i] == NeighbourIndices(index, positions[i], 8)
      invariant forall i :: idx <= i < |positions| ==> adjacency[i] == []
    {
      var (r, c) := positions[idx];
      var list := CollectNeighbours(index, r, c);
      adjacency := adjacency[idx := list];
    }
  }

  /** The inner loop over the offsets for one roll. */
  method CollectNeighbours(index: map<Cell, nat>, r: int, c: int) returns (list: seq<nat>)
    ensures list == NeighbourIndices(index, (r, c), 8)
  {
    list := [];
    for k := 0 to 8
      invariant list == NeighbourIndices(index, (r, c), k)
    {
      var (dr, dc) := Offsets[k];
      var neighbor := (r + dr, c + dc);
      assert Shift((r, c), k) == neighbor;
      if neighbor in index {
        list := list + [index[neighbor]];
      }
    }
  }

  // ----------------------------------------------------- count_accessible

  /** `count_accessible`: the nodes with fewer than four neighbours. */
  function CountAccessible(adjacency: seq<seq<nat>>): (count: nat)
    ensures count <= |adjacency|
  {
    if adjacency == [] then 0
    else
      var last := adjacency[|adjacency| - 1];
      CountAccessible(adjacency[..|adjacency| - 1]) + (if |last| < 4 then 1 else 0)
  }

  /** The number of places in `ps` that hold a member of `a`. */
  function CountIn(ps: seq<Cell>, a: set<Cell>): nat {
    if ps == [] then 0
    else CountIn(ps[..|ps| - 1], a) + (if ps[|ps| - 1] in a then 1 else 0)
  }

  /** The cells a list holds. */
  function Elems(ps: seq<Cell>): (s: set<Cell>)
    ensures forall c :: c in s <==> c in ps
  {
    set c | c in ps
  }

  lemma ElemsSnoc(ps: seq<Cell>, x: Cell)
    ensures Elems(ps + [x]) == Elems(ps) + {x}
  {
  }

  /** Over a list without repeats, that is the size of the part of `a` it
      lists. */
  lemma {:induction false} CountInCard(ps: seq<Cell>, a: set<Cell>)
    requires NoRepeats(ps)
    ensures CountIn(ps, a) == |a * Elems(ps)|
  {
    if ps != [] {
      var init, x := ps[..|ps| - 1], ps[|ps| - 1];
      CountInCard(init, a);
      assert ps == init + [x];
      MeetSnoc(init, x, a);
    }
  }

  lemma MeetSnoc(init: seq<Cell>, x: Cell, a: set<Cell>)
    requires x !in init
    ensures a * Elems(init + [x]) == a * Elems(init) + (if x in a then {x} else {})
    ensures x !in a * Elems(init)
  {
    ElemsSnoc(init, x);
  }

  /** No cell listed twice, stated from the end of the list. */
  predicate NoRepeats(ps: seq<Cell>) {
    ps == [] || (ps[|ps| - 1] !in ps[..|ps| - 1] && NoRepeats(ps[..|ps| - 1]))
  }

  lemma {:induction false} IndexedNoRepeats(positions: seq<Cell>, index: map<Cell, nat>, u: set<Cell>, m: nat)
    requires Indexed(positions, index, u) && m <= |positions|
    ensures NoRepeats(positions[..m])
  {
    if m > 0 {
      IndexedNoRepeats(positions, index, u, m - 1);
      var ps := positions[..m];
      assert ps[..m - 1] == positions[..m - 1];
      forall j | 0 <= j < m - 1
        ensures positions[j] != positions[m - 1]
      {
        assert index[positions[j]] == j;
      }
    }
  }

  lemma {:induction false} CountAccessiblePrefix(adjacency: seq<seq<nat>>, positions: seq<Cell>, index: map<Cell, nat>, u: set<Cell>, m: nat)
    requires Indexed(positions, index, u) && AdjacencyOf(adjacency, positions, index)
    requires m <= |adjacency|
    ensures CountAccessible(adjacency[..m]) == CountIn(positions[..m], Accessible(u))
  {
    if m > 0 {
      CountAccessiblePrefix(adjacency, positions, index, u, m - 1);
      assert adjacency[..m][..m - 1] == adjacency[..m - 1];
      assert positions[..m][..m - 1] == positions[..m - 1];
      NodeFacts(adjacency, positions, index, u, m - 1);
    }
  }

  /** Part 1 is the number of accessible rolls. */
  lemma CountAccessibleCorrect(adjacency: seq<seq<nat>>, positions: seq<Cell>, index: map<Cell, nat>, u: set<Cell>)
    requires Indexed(positions, index, u) && AdjacencyOf(adjacency, positions, index)
    ensures CountAccessible(adjacency) == |Accessible(u)|
  {
    CountAccessiblePrefix(adjacency, positions, index, u, |adjacency|);
    assert adjacency[..|adjacency|] == adjacency;
    assert positions[..|positions|] == positions;
    IndexedList(positions, index, u);
    CountInCard(positions, Accessible(u));
    assert Accessible(u) * u == Accessible(u);
  }

  /** A numbering lists each roll once. */
  lemma IndexedList(positions: seq<Cell>, index: map<Cell, nat>, u: set<Cell>)
    requires Indexed(positions, index, u)
    ensures NoRepeats(positions)
    ensures Elems(positions) == u
  {
    IndexedNoRepeats(positions, index, u, |positions|);
    assert positions[..|positions|] == positions;
    forall c | c in u
      ensures c in positions
    {
      assert positions[index[c]] == c;
    }
  }

  // -------------------------------------------------------- total_removed

  /** The queue's starting contents: every node of degree below four, in
      node order. */
  function LowNodes(degrees: seq<int>): (q: seq<nat>)
    ensures forall x :: x in q ==> x < |degrees| && degrees[x] < 4
    ensures forall v :: 0 <= v < |degrees| && degrees[v] < 4 ==> v in q
  {
    if degrees == [] then []
    else
      var init := degrees[..|degrees| - 1];
      var rest := LowNodes(init);
      assert forall x :: x in rest ==> degrees[x] == init[x];
      rest + if degrees[|degrees| - 1] < 4 then [|degrees| - 1] else []
  }

  /** What `total_removed` keeps true between queue pops. `remaining` is the
      set of rolls not yet removed and `k` the rolls peeling keeps: those
      are never removed nor queued, every node still present has its
      degree among the rolls remaining, and every such node of degree
      below four waits in the queue. */
  ghost predicate QueueState(positions: seq<Cell>, index: map<Cell, nat>, u: set<Cell>, k: set<Cell>,
                             removed: seq<bool>, degrees: seq<int>, q: seq<nat>, removedCount: nat, remaining: set<Cell>)
  {
    var n := |positions|;
    Indexed(positions, index, u) && Stable(k)
    && |degrees| == |removed| == n
    && remaining <= u && k <= remaining
    && (forall v :: 0 <= v < n ==> (removed[v] <==> positions[v] !in remaining))
    && (forall v :: 0 <= v < n && !removed[v] ==> degrees[v] == Neighbours(remaining, positions[v]))
    && (forall v :: 0 <= v < n && !removed[v] && degrees[v] < 4 ==> v in q)
    && (forall x :: x in q ==> 0 <= x < n && positions[x] !in k)
    && removedCount + |remaining| == |u|
  }

  /** `total_removed`: a work queue of low-degree nodes; removing a node
      lowers the degree of each neighbour still present, which joins the
      queue once its degree drops below four. The count is the rolls the
      grid loses by peeling. */
  method TotalRemoved(adjacency: seq<seq<nat>>, ghost positions: seq<Cell>, ghost index: map<Cell, nat>, ghost u: set<Cell>)
    returns (removedCount: nat)
    requires Indexed(positions, index, u) && AdjacencyOf(adjacency, positions, index)
    ensures removedCount == |u| - |Peel(u)|
  {
    var n := |adjacency|;
    var degrees := seq(n, i requires 0 <= i < n => |adjacency[i]|);
    var removed := seq(n, _ => false);
    var q := LowNodes(degrees);
    removedCount := 0;
    ghost var k := Peel(u);
    ghost var remaining := u;
    PeelIsLargestStable(u);
    QueueStart(adjacency, positions, index, u, k, removed, degrees, q);
    while |q| > 0
      invariant QueueState(positions, index, u, k, removed, degrees, q, removedCount, remaining)
      decreases |remaining|, |q|
    {
      var node := q[0];
      assert node in q;
      if removed[node] {
        TailIn(q);
        q := q[1..];
        continue;
      }
      removed, degrees, q, removedCount, remaining :=
        RemoveNode(adjacency, node, removed, degrees, q, removedCount, positions, index, u, k, remaining);
    }
    QueueDone(positions, index, u, k, removed, degrees, removedCount, remaining);
  }

  /** The queue as `total_removed` first fills it. */
  lemma QueueStart(adjacency: seq<seq<nat>>, positions: seq<Cell>, index: map<Cell, nat>, u: set<Cell>, k: set<Cell>,
                   removed: seq<bool>, degrees: seq<int>, q: seq<nat>)
    requires Indexed(positions, index, u) && AdjacencyOf(adjacency, positions, index)
    requires LargestStable(u, k)
    requires |removed| == |adjacency| && forall v :: 0 <= v < |removed| ==> !removed[v]
    requires |degrees| == |adjacency| && forall v :: 0 <= v < |degrees| ==> degrees[v] == |adjacency[v]|
    requires q == LowNodes(degrees)
    ensures QueueState(positions, index, u, k, removed, degrees, q, 0, u)
  {
    var n := |positions|;
    forall v | 0 <= v < n
      ensures degrees[v] == Neighbours(u, positions[v])
    {
      NodeDegree(adjacency, positions, index, u, v);
    }
    forall x | x in q
      ensures 0 <= x < n && positions[x] !in k
    {
      if positions[x] in k {
        NeighboursMono(k, u, positions[x]);
      }
    }
  }

  /** A node's degree is the number of rolls around it. */
  lemma NodeDegree(adjacency: seq<seq<nat>>, positions: seq<Cell>, index: map<Cell, nat>, u: set<Cell>, i: nat)
    requires Indexed(positions, index, u) && AdjacencyOf(adjacency, positions, index)
    requires i < |adjacency|
    ensures |adjacency[i]| == Neighbours(u, positions[i])
  {
    NeighbourIndicesLength(index, positions[i], 8);
  }

  /** The body of the queue loop for a node not yet removed. */
  method RemoveNode(adjacency: seq<seq<nat>>, node: nat, removed: seq<bool>, degrees: seq<int>, q: seq<nat>, removedCount: nat,
                    ghost positions: seq<Cell>, ghost index: map<Cell, nat>, ghost u: set<Cell>, ghost k: set<Cell>,
                    ghost remaining: set<Cell>)
    returns (removed': seq<bool>, degrees': seq<int>, q': seq<nat>, removedCount': nat, ghost remaining': set<Cell>)
    requires AdjacencyOf(adjacency, positions, index)
    requires QueueState(positions, index, u, k, removed, degrees, q, removedCount, remaining)
    requires q != [] && q[0] == node && node < |removed| && !removed[node]
    ensures QueueState(positions, index, u, k, removed', degrees', q', removedCount', remaining')
    ensures |remaining'| < |remaining|
  {
    assert node in q;
    TailIn(q);
    var rest := q[1..];
    removed' := removed[node := true];
    removedCount' := removedCount + 1;
    remaining' := remaining - {positions[node]};
    forall v | 0 <= v < |positions|
      ensures removed'[v] <==> positions[v] !in remaining'
    {
      assert index[positions[v]] == v;
    }
    degrees', q' := DropNeighbours(adjacency, node, removed', degrees, rest, positions, index, u, remaining, k);
  }

  /** Once the queue is empty, the rolls left are the ones peeling keeps. */
  lemma QueueDone(positions: seq<Cell>, index: map<Cell, nat>, u: set<Cell>, k: set<Cell>,
                  removed: seq<bool>, degrees: seq<int>, removedCount: nat, remaining: set<Cell>)
    requires QueueState(positions, index, u, k, removed, degrees, [], removedCount, remaining)
    requires LargestStable(u, k)
    ensures removedCount == |u| - |k|
  {
    forall c | c in remaining
      ensures Neighbours(remaining, c) >= 4
    {
      var v := index[c];
      assert positions[v] == c;
    }
    assert remaining == k;
  }

  lemma TailIn(q: seq<nat>)
    requires q != []
    ensures forall x :: x in q[1..] ==> x in q
  {
    assert q == [q[0]] + q[1..];
  }

  /** The loop over `adjacency[node]` after `node` is removed: each neighbour
      still present loses one from its degree and joins the queue when its
      degree falls below four. */
  method DropNeighbours(adjacency: seq<seq<nat>>, node: nat, removed: seq<bool>, degrees: seq<int>, q: seq<nat>,
                        ghost positions: seq<Cell>, ghost index: map<Cell, nat>, ghost u: set<Cell>,
                        ghost before: set<Cell>, ghost k: set<Cell>)
    returns (degrees': seq<int>, q': seq<nat>)
    requires Indexed(positions, index, u) && AdjacencyOf(adjacency, positions, index)
    requires node < |adjacency| && |removed| == |degrees| == |adjacency|
    requires before <= u && positions[node] in before
    requires k <= before - {positions[node]} && Stable(k)
    requires forall v :: 0 <= v < |removed| ==> (removed[v] <==> positions[v] !in before - {positions[node]})
    requires forall v :: 0 <= v < |removed| && !removed[v] ==> degrees[v] == Neighbours(before, positions[v])
    requires forall v :: 0 <= v < |removed| && !removed[v] && degrees[v] < 4 ==> v in q
    requires forall x :: x in q ==> x < |removed| && positions[x] !in k
    ensures |degrees'| == |degrees|
    ensures forall v :: 0 <= v < |removed| && !removed[v] ==> degrees'[v] == Neighbours(before - {positions[node]}, positions[v])
    ensures forall v :: 0 <= v < |removed| && !removed[v] && degrees'[v] < 4 ==> v in q'
    ensures forall x :: x in q' ==> x < |removed| && positions[x] !in k
  {
    ghost var c := positions[node];
    ghost var after := before - {c};
    var neighbors := adjacency[node];
    NodeFacts(adjacency, positions, index, u, node);
    DroppingStart(removed, degrees, q, positions, before, c, k, neighbors);
    degrees', q' := degrees, q;
    for t := 0 to |neighbors|
      invariant Dropping(removed, degrees', q', positions, after, k, neighbors[t..]) == true
    {
      assert neighbors[t] in neighbors;
      degrees', q' := DropOne(neighbors, t, removed, degrees', q', positions, after, k);
    }
    assert neighbors[|neighbors|..] == [];
  }

  /** The degrees and the queue while the neighbours of a removed roll are
      visited: each node still present counts the rolls `after` the removal
      around it, plus one while it is still `pending` in the list. */
  ghost predicate Dropping(removed: seq<bool>, degrees: seq<int>, q: seq<nat>, positions: seq<Cell>,
                           after: set<Cell>, k: set<Cell>, pending: seq<nat>)
  {
    && |degrees| == |removed| <= |positions|
    && (forall v :: 0 <= v < |removed| && !removed[v] ==>
          degrees[v] == Neighbours(after, positions[v]) + (if v in pending then 1 else 0))
    && (forall v :: 0 <= v < |removed| && !removed[v] && degrees[v] < 4 ==> v in q)
    && (forall x :: x in q ==> x < |removed| && positions[x] !in k)
  }

  /** Before the loop every neighbour of the removed roll `c` is pending. */
  lemma DroppingStart(removed: seq<bool>, degrees: seq<int>, q: seq<nat>, positions: seq<Cell>,
                      before: set<Cell>, c: Cell, k: set<Cell>, neighbors: seq<nat>)
    requires |removed| == |degrees| == |positions| && c in before
    requires forall v: nat :: v in neighbors <==> v < |positions| && Adjacent(c, positions[v])
    requires forall v :: 0 <= v < |removed| ==> (removed[v] <==> positions[v] !in before - {c})
    requires forall v :: 0 <= v < |removed| && !removed[v] ==> degrees[v] == Neighbours(before, positions[v])
    requires forall v :: 0 <= v < |removed| && !removed[v] && degrees[v] < 4 ==> v in q
    requires forall x :: x in q ==> x < |removed| && positions[x] !in k
    ensures Dropping(removed, degrees, q, positions, before - {c}, k, neighbors[0..])
  {
    assert neighbors[0..] == neighbors;
    forall v | 0 <= v < |removed| && !removed[v]
      ensures degrees[v] == Neighbours(before - {c}, positions[v]) + (if v in neighbors then 1 else 0)
    {
      NearRemove(before, positions[v], c, 8);
      AmongAdjacent(positions[v], c);
      assert Adjacent(c, positions[v]) <==> Adjacent(positions[v], c);
    }
  }

  /** One turn of the neighbour loop: a removed neighbour is skipped, any
      other loses one from its degree and is queued once below four. */
  method DropOne(neighbors: seq<nat>, t: nat, removed: seq<bool>, degrees: seq<int>, q: seq<nat>,
                 ghost positions: seq<Cell>, ghost after: set<Cell>, ghost k: set<Cell>)
    returns (degrees': seq<int>, q': seq<nat>)
    requires t < |neighbors| && Distinct(neighbors) && neighbors[t] < |removed|
    requires Stable(k) && k <= after
    requires Dropping(removed, degrees, q, positions, after, k, neighbors[t..])
    ensures Dropping(removed, degrees', q', positions, after, k, neighbors[t + 1..])
  {
    var neighbor := neighbors[t];
    TailStep(neighbors, t);
    if removed[neighbor] {
      return degrees, q;
    }
    degrees' := degrees[neighbor := degrees[neighbor] - 1];
    q' := q;
    if degrees'[neighbor] < 4 {
      NeighboursMono(k, after, positions[neighbor]);
      q' := q' + [neighbor];
    }
  }

  /** Stepping past entry `t` of a list without repeats. */
  lemma TailStep(xs: seq<nat>, t: nat)
    requires t < |xs| && Distinct(xs)
    ensures forall w :: w in xs[t..] <==> w == xs[t] || w in xs[t + 1..]
    ensures xs[t] !in xs[t + 1..]
  {
    assert xs[t..] == [xs[t]] + xs[t + 1..];
  }

  /** `main`: both answers of the Python solution for a grid of lines. */
  method Solve(grid: seq<string>) returns (part1: nat, part2: nat)
    ensures part1 == |Accessible(RollsIn(grid))|
    ensures part2 == |RollsIn(grid)| - |Peel(RollsIn(grid))|
  {
    var adjacency, positions, index := BuildAdjacency(grid);
    part1 := CountAccessible(adjacency);
    CountAccessibleCorrect(adjacency, positions, index, RollsIn(grid));
    part2 := TotalRemoved(adjacency, positions, index, RollsIn(grid));
  }
}
