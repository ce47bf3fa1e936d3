/**
 * Candidates and conflicts on a cell vector: `possible_values`, the `Cell::is_valid`
 * predicate its callers rely on, and `invalid_cells` (src/core/graph.rs:211, 228-246).
 */
module Rules {
  import opened Wrappers
  import opened Values
  import opened Cells
  import opened Adjacency
  import opened Layout

  /** Vector positions j and k are neighbours (every position is its own neighbour). */
  ghost predicate Adjacent(j: int, k: int)
    requires 0 <= j < 81 && 0 <= k < 81
  {
    PointOf(j) in Neighbors(PointOf(k).x, PointOf(k).y)
  }

  lemma AdjacentSymmetric(j: int, k: int)
    requires 0 <= j < 81 && 0 <= k < 81
    ensures Adjacent(j, k) <==> Adjacent(k, j)
  {
    NeighborsSymmetric(PointOf(j), PointOf(k));
  }

  /** Every point of the set has a cell in g (so `at(..).unwrap()` succeeds). */
  predicate Resolvable(g: seq<Cell>, nb: set<Point>) {
    forall n :: n in nb ==> At(g, n.x, n.y).Some?
  }

  lemma WellFormedResolvable(g: seq<Cell>, k: int)
    requires WellFormed(g) && 0 <= k < 81
    ensures Resolvable(g, g[k].neighbors)
  {
    forall n | n in g[k].neighbors
      ensures At(g, n.x, n.y).Some?
    {
      NeighborsInGrid(g[k].x, g[k].y, n);
      AtLaidOut(g, n.x, n.y);
    }
  }

  /** `to_val` of the value `at` finds at each point of nb. */
  function NeighborValues(g: seq<Cell>, nb: set<Point>): set<Value> {
    set n | n in nb && At(g, n.x, n.y).Some? :: ToVal(At(g, n.x, n.y).value.value)
  }

  lemma NeighborValuesStep(g: seq<Cell>, done: set<Point>, n: Point)
    requires At(g, n.x, n.y).Some?
    ensures NeighborValues(g, done + {n}) == NeighborValues(g, done) + {ToVal(At(g, n.x, n.y).value.value)}
  {
  }

  /**
   * `possible_values(cell, vals)`: the digits that are neither in vals nor the value
   * of any of the cell's neighbours, looked up in g.
   */
  method PossibleValues(g: seq<Cell>, cell: Cell, vals: set<Value>) returns (r: set<Value>)
    requires Resolvable(g, cell.neighbors)
    ensures forall v :: v in r <==> IsDigit(v) && v !in vals && v !in NeighborValues(g, cell.neighbors)
  {
    var seen := vals;
    var rest := cell.neighbors;
    while rest != {}
      invariant rest <= cell.neighbors
      invariant seen == vals + NeighborValues(g, cell.neighbors - rest)
      decreases rest
    {
      var n :| n in rest;
      NeighborValuesStep(g, cell.neighbors - rest, n);
      assert cell.neighbors - (rest - {n}) == (cell.neighbors - rest) + {n};
      seen := seen + {ToVal(At(g, n.x, n.y).value.value)};
      rest := rest - {n};
    }
    r := Options() - seen;
  }

  /** The candidates of position k: what `possible_values` returns for it with no extra values. */
  function Candidates(g: seq<Cell>, k: int): set<Value>
    requires 0 <= k < |g|
  {
    Options() - NeighborValues(g, g[k].neighbors)
  }

  /**
   * A digit is a candidate at k exactly when no neighbouring position, k itself
   * included, holds its number; `Unknown` never is.
   */
  lemma CandidatesExact(g: seq<Cell>, k: int, d: Value)
    requires WellFormed(g) && 0 <= k < 81
    ensures d in Candidates(g, k) <==>
      IsDigit(d) && forall j :: 0 <= j < 81 && Adjacent(j, k) ==> g[j].value != FromVal(d)
  {
    if d in Candidates(g, k) {
      forall j | 0 <= j < 81 && Adjacent(j, k)
        ensures g[j].value != FromVal(d)
      {
        var n := PointOf(j);
        AtLaidOut(g, n.x, n.y);
        PosOfPointOf(j);
        assert ToVal(g[j].value) in NeighborValues(g, g[k].neighbors);
        ToValIsDigit(g[j].value, d);
      }
    }
    if IsDigit(d) && d !in Candidates(g, k) {
      var n :| n in g[k].neighbors && At(g, n.x, n.y).Some? && ToVal(At(g, n.x, n.y).value.value) == d;
      NeighborsInGrid(g[k].x, g[k].y, n);
      AtLaidOut(g, n.x, n.y);
      var j := Pos(n);
      assert Adjacent(j, k);
      ToValIsDigit(g[j].value, d);
    }
  }

  /**
   * `Cell::is_valid(graph)`, whose body is not part of this model, as its call sites
   * use it: a cell holding 0 is valid; otherwise no neighbour point other than the
   * cell's own may hold the same value in graph. A point `at` does not find is no clash.
   */
  predicate IsValid(c: Cell, graph: seq<Cell>) {
    c.value == 0 ||
    forall n :: n in c.neighbors && n != Point(c.x, c.y) ==>
      match At(graph, n.x, n.y)
      case None => true
      case Some(d) => d.value != c.value
  }

  /** Writing a candidate into a cell always passes `is_valid` against the same graph. */
  lemma CandidateIsValid(g: seq<Cell>, c: Cell, d: Value)
    requires d in Options() - NeighborValues(g, c.neighbors)
    ensures IsValid(c.(value := FromVal(d)), g)
  {
    var c' := c.(value := FromVal(d));
    forall n | n in c'.neighbors && n != Point(c'.x, c'.y) && At(g, n.x, n.y).Some?
      ensures At(g, n.x, n.y).value.value != c'.value
    {
      assert ToVal(At(g, n.x, n.y).value.value) in NeighborValues(g, c.neighbors);
      ToValIsDigit(At(g, n.x, n.y).value.value, d);
    }
  }

  /** The cells among the first n that `invalid_cells` lists, in vector order. */
  function ConflictsBelow(g: seq<Cell>, n: nat): seq<Cell>
    requires n <= |g|
  {
    if n == 0 then []
    else ConflictsBelow(g, n - 1) + (if g[n - 1].value != 0 && !IsValid(g[n - 1], g) then [g[n - 1]] else [])
  }

  function Conflicts(g: seq<Cell>): seq<Cell> {
    ConflictsBelow(g, |g|)
  }

  /** `invalid_cells`: the nonzero cells failing `is_valid`, in vector order. */
  method InvalidCells(g: seq<Cell>) returns (invalid: seq<Cell>)
    ensures invalid == Conflicts(g)
  {
    invalid := [];
    for k := 0 to |g|
      invariant invalid == ConflictsBelow(g, k)
    {
      if g[k].value != 0 && !IsValid(g[k], g) {
        invalid := invalid + [g[k]];
      }
    }
  }

  lemma {:induction false} ConflictsBelowMembers(g: seq<Cell>, n: nat, c: Cell)
    requires n <= |g|
    ensures c in ConflictsBelow(g, n) <==> c in g[..n] && c.value != 0 && !IsValid(c, g)
  {
    if n > 0 {
      ConflictsBelowMembers(g, n - 1, c);
      assert g[..n] == g[..n - 1] + [g[n - 1]];
    }
  }

  /** `invalid_cells` lists exactly the nonzero cells that fail `is_valid`. */
  lemma ConflictsExact(g: seq<Cell>, c: Cell)
    ensures c in Conflicts(g) <==> c in g && c.value != 0 && !IsValid(c, g)
  {
    ConflictsBelowMembers(g, |g|, c);
    assert g[..|g|] == g;
  }

  lemma NoConflicts(g: seq<Cell>)
    requires forall k :: 0 <= k < |g| && g[k].value != 0 ==> IsValid(g[k], g)
    ensures Conflicts(g) == []
  {
    if Conflicts(g) != [] {
      var c := Conflicts(g)[0];
      ConflictsExact(g, c);
      assert false;
    }
  }

  /** Positions below n hold digits, and no two of them that are neighbours hold the same one. */
  ghost predicate FilledBelow(g: seq<Cell>, n: int)
    requires |g| == 81 && n <= 81
  {
    forall k :: 0 <= k < n ==> 1 <= g[k].value <= 9
  }

  ghost predicate ConflictFreeBelow(g: seq<Cell>, n: int)
    requires |g| == 81 && n <= 81
  {
    forall j, k :: 0 <= j < k < n && Adjacent(j, k) ==> g[j].value != g[k].value
  }

  /** A complete, constraint-satisfying grid. */
  ghost predicate Solved(g: seq<Cell>) {
    WellFormed(g) && FilledBelow(g, 81) && ConflictFreeBelow(g, 81)
  }

  /** On a solved grid every cell passes `is_valid`, so `invalid_cells` is empty. */
  lemma SolvedHasNoConflicts(g: seq<Cell>)
    requires Solved(g)
    ensures Conflicts(g) == []
  {
    forall k | 0 <= k < 81
      ensures IsValid(g[k], g)
    {
      forall n | n in g[k].neighbors && n != Point(g[k].x, g[k].y)
        ensures At(g, n.x, n.y).Some? && At(g, n.x, n.y).value.value != g[k].value
      {
        NeighborsInGrid(g[k].x, g[k].y, n);
        AtLaidOut(g, n.x, n.y);
        var j := Pos(n);
        assert Adjacent(j, k);
        AdjacentSymmetric(j, k);
      }
    }
    NoConflicts(g);
  }

  /** Clearing any cells of a conflict-free grid leaves it conflict-free. */
  lemma ClearingKeepsNoConflicts(g: seq<Cell>, h: seq<Cell>)
    requires WellFormed(g) && WellFormed(h)
    requires forall k :: 0 <= k < 81 ==> h[k].value == g[k].value || h[k].value == 0
    requires Conflicts(g) == []
    ensures Conflicts(h) == []
  {
    forall k | 0 <= k < 81 && h[k].value != 0
      ensures IsValid(h[k], h)
    {
      ConflictsExact(g, g[k]);
      forall n | n in h[k].neighbors && n != Point(h[k].x, h[k].y)
        ensures At(h, n.x, n.y).Some? && At(h, n.x, n.y).value.value != h[k].value
      {
        NeighborsInGrid(h[k].x, h[k].y, n);
        AtLaidOut(g, n.x, n.y);
        AtLaidOut(h, n.x, n.y);
      }
    }
    NoConflicts(h);
  }
}
