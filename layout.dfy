/** The cell vector of a `Graph` and its lookups `at` and `index` (src/core/graph.rs:14-46). */
module Layout {
  import opened Wrappers
  import opened Values
  import opened Cells
  import opened Adjacency

  /** The point of vector position k in the push order of `Graph::new`: x outer, y inner. */
  function PointOf(k: int): (p: Point)
    requires 0 <= k < 81
    ensures InGrid(p)
  {
    Point((k / 9 + 1) as u8, (k % 9 + 1) as u8)
  }

  /** The vector position of a grid point. */
  function Pos(p: Point): (k: int)
    requires InGrid(p)
    ensures 0 <= k < 81 && PointOf(k) == p
  {
    (p.x as int - 1) * 9 + (p.y as int - 1)
  }

  lemma PosOfPointOf(k: int)
    requires 0 <= k < 81
    ensures Pos(PointOf(k)) == k
  {
  }

  /** A cell vector in the push order of `Graph::new`: 81 cells, cell k at PointOf(k). */
  ghost predicate LaidOut(g: seq<Cell>) {
    |g| == 81 && forall k :: 0 <= k < 81 ==> Point(g[k].x, g[k].y) == PointOf(k)
  }

  /**
   * A cell vector as `Graph::new` leaves it: laid out, and every cell with its
   * static neighbour set. Values and `mutable` are free.
   */
  ghost predicate WellFormed(g: seq<Cell>) {
    LaidOut(g) && forall k :: 0 <= k < 81 ==> g[k].neighbors == Neighbors(g[k].x, g[k].y)
  }

  /** A laid-out vector holds every grid point exactly once. */
  lemma LaidOutCoversGrid(g: seq<Cell>, p: Point, j: int, k: int)
    requires LaidOut(g) && InGrid(p)
    requires 0 <= j < 81 && 0 <= k < 81
    ensures Point(g[Pos(p)].x, g[Pos(p)].y) == p
    ensures Point(g[j].x, g[j].y) == Point(g[k].x, g[k].y) ==> j == k
  {
    PosOfPointOf(j);
    PosOfPointOf(k);
  }

  /** `iter().find(|c| c.x == x && c.y == y)`, searching from position k on. */
  function FindFrom(g: seq<Cell>, x: u8, y: u8, k: nat): (r: Option<nat>)
    requires k <= |g|
    ensures r.Some? ==> k <= r.value < |g| && g[r.value].x == x && g[r.value].y == y
    ensures r.Some? ==> forall j :: k <= j < r.value ==> !(g[j].x == x && g[j].y == y)
    ensures r.None? ==> forall j :: k <= j < |g| ==> !(g[j].x == x && g[j].y == y)
    decreases |g| - k
  {
    if k == |g| then None
    else if g[k].x == x && g[k].y == y then Some(k)
    else FindFrom(g, x, y, k + 1)
  }

  /** `at(x, y)`: the first cell at (x, y), if any. */
  function At(g: seq<Cell>, x: u8, y: u8): (r: Option<Cell>)
    ensures r.Some? ==> r.value in g && r.value.x == x && r.value.y == y
    ensures r.None? ==> forall c :: c in g ==> !(c.x == x && c.y == y)
  {
    match FindFrom(g, x, y, 0)
    case Some(k) => Some(g[k])
    case None => None
  }

  /** In a laid-out vector the search finds the position of every grid point and nothing else. */
  lemma FindLaidOut(g: seq<Cell>, x: u8, y: u8)
    requires LaidOut(g)
    ensures FindFrom(g, x, y, 0) == if InGrid(Point(x, y)) then Some(Pos(Point(x, y))) else None
  {
    var r := FindFrom(g, x, y, 0);
    if r.Some? {
      var k := r.value;
      assert Point(g[k].x, g[k].y) == PointOf(k) == Point(x, y);
      PosOfPointOf(k);
    }
  }

  /** In a laid-out vector `at` finds the cell of every grid point and nothing else. */
  lemma AtLaidOut(g: seq<Cell>, x: u8, y: u8)
    requires LaidOut(g)
    ensures At(g, x, y) == if InGrid(Point(x, y)) then Some(g[Pos(Point(x, y))]) else None
  {
    FindLaidOut(g, x, y);
  }

  /** u8 `n - 1` with wrap-around: 0 goes to 255. */
  function WrappingPred(n: u8): (r: u8)
    ensures (r as int + 1) % 256 == n as int
  {
    if n == 0 then 255 else n - 1
  }

  /**
   * `index(index)`: the vector position of the cell at x = (index-1)%9+1,
   * y = (index-1)/9+1, the position a `&mut Cell` into the vector points at.
   * `index - 1` is u8 arithmetic, wrapping at 0.
   */
  function Index(g: seq<Cell>, index: u8): (r: Option<nat>)
    ensures r.Some? ==> r.value < |g|
  {
    var k := WrappingPred(index);
    FindFrom(g, k % 9 + 1, k / 9 + 1, 0)
  }

  /** `index` counts in row-major order (y outer), the transpose of the vector order. */
  lemma IndexRowMajor(g: seq<Cell>, index: u8)
    requires LaidOut(g)
    ensures 1 <= index <= 81 ==>
      && Index(g, index) == Some((index as int - 1) % 9 * 9 + (index as int - 1) / 9)
      && g[Index(g, index).value].x as int == (index as int - 1) % 9 + 1
      && g[Index(g, index).value].y as int == (index as int - 1) / 9 + 1
    ensures index == 0 || index > 81 ==> Index(g, index) == None
  {
    if 1 <= index <= 81 {
      IndexInRange(g, index);
    } else {
      IndexOffGrid(g, index);
    }
  }

  lemma IndexInRange(g: seq<Cell>, index: u8)
    requires LaidOut(g) && 1 <= index <= 81
    ensures Index(g, index) == Some((index as int - 1) % 9 * 9 + (index as int - 1) / 9)
    ensures g[Index(g, index).value].x as int == (index as int - 1) % 9 + 1
    ensures g[Index(g, index).value].y as int == (index as int - 1) / 9 + 1
  {
    var k := index - 1;
    assert (k % 9 + 1) as int == k as int % 9 + 1 && (k / 9 + 1) as int == k as int / 9 + 1;
    InRangeIndex(g, k as int);
  }

  lemma IndexOffGrid(g: seq<Cell>, index: u8)
    requires LaidOut(g) && (index == 0 || index > 81)
    ensures Index(g, index) == None
  {
    var k := WrappingPred(index);
    assert k / 9 + 1 >= 10;
    FindLaidOut(g, k % 9 + 1, k / 9 + 1);
  }

  lemma InRangeIndex(g: seq<Cell>, k: int)
    requires LaidOut(g) && 0 <= k < 81
    ensures var p := k % 9 * 9 + k / 9;
      && FindFrom(g, (k % 9 + 1) as u8, (k / 9 + 1) as u8, 0) == Some(p)
      && g[p].x as int == k % 9 + 1 && g[p].y as int == k / 9 + 1
  {
    var a, b := k % 9, k / 9;
    assert 0 <= a < 9 && 0 <= b < 9;
    var x, y := (a + 1) as u8, (b + 1) as u8;
    assert Pos(Point(x, y)) == a * 9 + b;
    FindLaidOut(g, x, y);
  }
}
