/** Static adjacency of the grid: `neighbors_for` and `box_set` (src/core/graph.rs:48-122). */
module Adjacency {
  import opened Wrappers
  import opened Values
  import opened Cells

  /** Arguments of one `box_set(min_x, max_x, min_y, max_y)` call. */
  datatype Bounds = Bounds(minX: u8, maxX: u8, minY: u8, maxY: u8)

  predicate InGrid(p: Point) {
    1 <= p.x <= 9 && 1 <= p.y <= 9
  }

  /** The band of a coordinate: 0 for 1-3, 1 for 4-6, 2 for 7-9. */
  function Band(c: u8): int
    requires 1 <= c <= 9
  {
    (c as int - 1) / 3
  }

  /** First coordinate of the band holding c. */
  function BandStart(c: u8): (s: u8)
    requires 1 <= c <= 9
    ensures s <= c <= s + 2 && s as int == 3 * Band(c) + 1
  {
    (3 * Band(c) + 1) as u8
  }

  /** Sudoku adjacency in closed form: same x, same y, or the same pair of bands. */
  predicate Related(p: Point, q: Point) {
    InGrid(p) && InGrid(q) &&
    (p.x == q.x || p.y == q.y || (Band(p.x) == Band(q.x) && Band(p.y) == Band(q.y)))
  }

  /**
   * The box chosen by the match of `neighbors_for`. Its arms overlap at 3 and 6;
   * Rust takes the first arm that matches, and so does this cascade.
   * The catch-all arm only logs and adds no box.
   */
  function BoxArm(x: u8, y: u8): Option<Bounds> {
    if 1 <= x <= 3 && 1 <= y <= 3 then Some(Bounds(1, 3, 1, 3))
    else if 3 <= x <= 6 && 1 <= y <= 3 then Some(Bounds(4, 6, 1, 3))
    else if 6 <= x <= 9 && 1 <= y <= 3 then Some(Bounds(7, 9, 1, 3))
    else if 1 <= x <= 3 && 3 <= y <= 6 then Some(Bounds(1, 3, 4, 6))
    else if 3 <= x <= 6 && 3 <= y <= 6 then Some(Bounds(4, 6, 4, 6))
    else if 6 <= x <= 9 && 3 <= y <= 6 then Some(Bounds(7, 9, 4, 6))
    else if 1 <= x <= 3 && 6 <= y <= 9 then Some(Bounds(1, 3, 7, 9))
    else if 3 <= x <= 6 && 6 <= y <= 9 then Some(Bounds(4, 6, 7, 9))
    else if 6 <= x <= 9 && 6 <= y <= 9 then Some(Bounds(7, 9, 7, 9))
    else None
  }

  /** First match makes the bands disjoint: 1-3, 4-6, 7-9. */
  lemma BoxArmBands(x: u8, y: u8)
    ensures InGrid(Point(x, y)) ==>
      BoxArm(x, y) == Some(Bounds(BandStart(x), BandStart(x) + 2, BandStart(y), BandStart(y) + 2))
    ensures !InGrid(Point(x, y)) ==> BoxArm(x, y) == None
  {
  }

  /** All points of a `box_set` rectangle. */
  function BoxPoints(b: Bounds): set<Point> {
    set a: u8, c: u8 | b.minX <= a <= b.maxX && b.minY <= c <= b.maxY :: Point(a, c)
  }

  /** `box_set`: every point of the rectangle, the corners included. */
  method BoxSet(minX: u8, maxX: u8, minY: u8, maxY: u8) returns (points: set<Point>)
    ensures forall p :: p in points <==> minX <= p.x <= maxX && minY <= p.y <= maxY
  {
    points := {};
    var x := minX as int;
    while x <= maxX as int
      invariant minX as int <= x && (x <= maxX as int + 1 || x == minX as int)
      invariant forall p :: p in points <==> minX <= p.x && (p.x as int) < x && minY <= p.y <= maxY
    {
      var y := minY as int;
      while y <= maxY as int
        invariant minY as int <= y && (y <= maxY as int + 1 || y == minY as int)
        invariant forall p :: p in points <==>
          (minX <= p.x && (p.x as int) < x && minY <= p.y <= maxY) ||
          (p.x as int == x && minY <= p.y && (p.y as int) < y)
      {
        points := points + {NewPoint(x as u8, y as u8)};
        y := y + 1;
      }
      x := x + 1;
    }
  }

  /**
   * The neighbour set of (x, y) as `neighbors_for` builds it: the points with the
   * same x, the points with the same y (the cell's own point left out of both) and
   * the whole box of the matching arm, which puts the cell's own point back in.
   */
  function Neighbors(x: u8, y: u8): set<Point> {
    (set i: u8 | 1 <= i <= 9 && i != y :: Point(x, i))
      + (set i: u8 | 1 <= i <= 9 && i != x :: Point(i, y))
      + (match BoxArm(x, y) case Some(b) => BoxPoints(b) case None => {})
  }

  /** `neighbors_for`: the row loop, then the box of the first matching arm. */
  method NeighborsFor(cell: Cell) returns (neighbors: set<Point>)
    ensures neighbors == Neighbors(cell.x, cell.y)
  {
    var x, y := cell.x, cell.y;
    neighbors := {};
    var i: u8 := 1;
    while i <= 9
      invariant 1 <= i <= 10
      invariant forall p :: p in neighbors <==>
        (p.x == x && 1 <= p.y < i && p.y != y) || (p.y == y && 1 <= p.x < i && p.x != x)
    {
      if i != y {
        neighbors := neighbors + {Point(x, i)};
      }
      if i != x {
        neighbors := neighbors + {Point(i, y)};
      }
      i := i + 1;
    }
    RowPart(x, y, neighbors);
    match BoxArm(x, y)
    case Some(b) =>
      var box := BoxSet(b.minX, b.maxX, b.minY, b.maxY);
      neighbors := neighbors + box;
    case None =>
  }

  /** What the row loop of `neighbors_for` collects is the two line parts of `Neighbors`. */
  lemma RowPart(x: u8, y: u8, s: set<Point>)
    requires forall p :: p in s <==> (p.x == x && 1 <= p.y < 10 && p.y != y) || (p.y == y && 1 <= p.x < 10 && p.x != x)
    ensures s == (set i: u8 | 1 <= i <= 9 && i != y :: Point(x, i)) + (set i: u8 | 1 <= i <= 9 && i != x :: Point(i, y))
  {
    var t := (set i: u8 | 1 <= i <= 9 && i != y :: Point(x, i)) + (set i: u8 | 1 <= i <= 9 && i != x :: Point(i, y));
    forall p
      ensures p in s <==> p in t
    {
      if p.x == x && 1 <= p.y < 10 && p.y != y {
        assert p == Point(x, p.y);
      }
      if p.y == y && 1 <= p.x < 10 && p.x != x {
        assert p == Point(p.x, y);
      }
    }
  }

  /** Membership in a neighbour set is the closed-form relation. */
  lemma NeighborsClosedForm(x: u8, y: u8, p: Point)
    requires InGrid(Point(x, y))
    ensures p in Neighbors(x, y) <==> Related(p, Point(x, y))
  {
    BoxArmBands(x, y);
    if p.x == x && 1 <= p.y <= 9 && p.y != y {
      assert p in (set i: u8 | 1 <= i <= 9 && i != y :: Point(x, i));
    }
    if p.y == y && 1 <= p.x <= 9 && p.x != x {
      assert p in (set i: u8 | 1 <= i <= 9 && i != x :: Point(i, y));
    }
  }

  /** Every neighbour of a grid point is a grid point. */
  lemma NeighborsInGrid(x: u8, y: u8, p: Point)
    requires InGrid(Point(x, y)) && p in Neighbors(x, y)
    ensures InGrid(p)
  {
    NeighborsClosedForm(x, y, p);
  }

  /** The cell's own point is among its neighbours (through its box). */
  lemma OwnPointIsNeighbor(x: u8, y: u8)
    requires InGrid(Point(x, y))
    ensures Point(x, y) in Neighbors(x, y)
  {
    NeighborsClosedForm(x, y, Point(x, y));
  }

  /** The neighbour relation is symmetric. */
  lemma NeighborsSymmetric(p: Point, q: Point)
    requires InGrid(p) && InGrid(q)
    ensures p in Neighbors(q.x, q.y) <==> q in Neighbors(p.x, p.y)
  {
    NeighborsClosedForm(q.x, q.y, p);
    NeighborsClosedForm(p.x, p.y, q);
  }

  function XLine(x: u8): set<Point> {
    {Point(x, 1), Point(x, 2), Point(x, 3), Point(x, 4), Point(x, 5),
     Point(x, 6), Point(x, 7), Point(x, 8), Point(x, 9)}
  }

  function YLine(y: u8): set<Point> {
    {Point(1, y), Point(2, y), Point(3, y), Point(4, y), Point(5, y),
     Point(6, y), Point(7, y), Point(8, y), Point(9, y)}
  }

  function BoxAt(x0: u8, y0: u8): set<Point>
    requires x0 <= 7 && y0 <= 7
  {
    {Point(x0, y0), Point(x0, y0 + 1), Point(x0, y0 + 2),
     Point(x0 + 1, y0), Point(x0 + 1, y0 + 1), Point(x0 + 1, y0 + 2),
     Point(x0 + 2, y0), Point(x0 + 2, y0 + 1), Point(x0 + 2, y0 + 2)}
  }

  lemma LineMembers(x: u8, y: u8, x0: u8, y0: u8, p: Point)
    requires x0 <= 7 && y0 <= 7
    ensures p in XLine(x) <==> p.x == x && 1 <= p.y <= 9
    ensures p in YLine(y) <==> p.y == y && 1 <= p.x <= 9
    ensures p in BoxAt(x0, y0) <==> x0 <= p.x <= x0 + 2 && y0 <= p.y <= y0 + 2
  {
  }

  /** A neighbour set is the x line, the y line and the band box. */
  lemma NeighborsAsLines(x: u8, y: u8)
    requires InGrid(Point(x, y))
    ensures Neighbors(x, y) == XLine(x) + YLine(y) + BoxAt(BandStart(x), BandStart(y))
  {
    forall p
      ensures p in Neighbors(x, y) <==> p in XLine(x) + YLine(y) + BoxAt(BandStart(x), BandStart(y))
    {
      NeighborAsLines(x, y, p);
    }
  }

  lemma NeighborAsLines(x: u8, y: u8, p: Point)
    requires InGrid(Point(x, y))
    ensures p in Neighbors(x, y) <==> p in XLine(x) + YLine(y) + BoxAt(BandStart(x), BandStart(y))
  {
    NeighborsClosedForm(x, y, p);
    LineMembers(x, y, BandStart(x), BandStart(y), p);
    if InGrid(p) {
      assert Band(p.x) == Band(x) <==> BandStart(x) <= p.x <= BandStart(x) + 2;
      assert Band(p.y) == Band(y) <==> BandStart(y) <= p.y <= BandStart(y) + 2;
    }
  }

  lemma LineSizes(x: u8, y: u8, x0: u8, y0: u8)
    requires x0 <= 7 && y0 <= 7
    ensures |XLine(x)| == 9 && |YLine(y)| == 9 && |BoxAt(x0, y0)| == 9
  {
    XLineSize(x);
    YLineSize(y);
    BoxSize(x0, y0);
  }

  lemma XLineSize(x: u8)
    ensures |XLine(x)| == 9
  {
  }

  lemma YLineSize(y: u8)
    ensures |YLine(y)| == 9
  {
  }

  lemma BoxSize(x0: u8, y0: u8)
    requires x0 <= 7 && y0 <= 7
    ensures |BoxAt(x0, y0)| == 9
  {
  }

  lemma LinesMeet(x: u8, y: u8)
    requires InGrid(Point(x, y))
    ensures XLine(x) * YLine(y) == {Point(x, y)}
  {
  }

  lemma XLineMeetsBox(x: u8, y: u8)
    requires InGrid(Point(x, y))
    ensures XLine(x) * BoxAt(BandStart(x), BandStart(y))
      == {Point(x, BandStart(y)), Point(x, BandStart(y) + 1), Point(x, BandStart(y) + 2)}
    ensures |XLine(x) * BoxAt(BandStart(x), BandStart(y))| == 3
  {
    var x0, y0 := BandStart(x), BandStart(y);
    var three := {Point(x, y0), Point(x, y0 + 1), Point(x, y0 + 2)};
    forall p
      ensures p in XLine(x) * BoxAt(x0, y0) <==> p in three
    {
      LineMembers(x, y, x0, y0, p);
    }
    assert XLine(x) * BoxAt(x0, y0) == three;
  }

  lemma YLineMeetsBox(x: u8, y: u8)
    requires InGrid(Point(x, y))
    ensures YLine(y) * BoxAt(BandStart(x), BandStart(y))
      == {Point(BandStart(x), y), Point(BandStart(x) + 1, y), Point(BandStart(x) + 2, y)}
    ensures |YLine(y) * BoxAt(BandStart(x), BandStart(y))| == 3
  {
    var x0, y0 := BandStart(x), BandStart(y);
    var three := {Point(x0, y), Point(x0 + 1, y), Point(x0 + 2, y)};
    forall p
      ensures p in YLine(y) * BoxAt(x0, y0) <==> p in three
    {
      LineMembers(x, y, x0, y0, p);
    }
    assert YLine(y) * BoxAt(x0, y0) == three;
  }

  lemma AllThreeMeet(x: u8, y: u8)
    requires InGrid(Point(x, y))
    ensures |XLine(x) * YLine(y) * BoxAt(BandStart(x), BandStart(y))| == 1
  {
    var box := BoxAt(BandStart(x), BandStart(y));
    LinesMeet(x, y);
    LineMembers(x, y, BandStart(x), BandStart(y), Point(x, y));
    assert Point(x, y) in box;
    assert {Point(x, y)} * box == {Point(x, y)};
  }

  /** Inclusion-exclusion for three sets. */
  lemma UnionOfThree<T>(a: set<T>, b: set<T>, c: set<T>)
    requires |a| == 9 && |b| == 9 && |c| == 9
    requires |a * b| == 1 && |a * c| == 3 && |b * c| == 3 && |a * b * c| == 1
    ensures |a + b + c| == 21
  {
    assert (a + b) * c == a * c + b * c;
    assert (a * c) * (b * c) == a * b * c;
  }

  /** 8 more with the same x, 8 more with the same y, 4 more in the box, and the cell itself. */
  lemma NeighborCount(x: u8, y: u8)
    requires InGrid(Point(x, y))
    ensures |Neighbors(x, y)| == 21
  {
    var column, row, box := XLine(x), YLine(y), BoxAt(BandStart(x), BandStart(y));
    NeighborsAsLines(x, y);
    assert Neighbors(x, y) == column + row + box;
    LineSizes(x, y, BandStart(x), BandStart(y));
    LinesMeet(x, y);
    XLineMeetsBox(x, y);
    YLineMeetsBox(x, y);
    AllThreeMeet(x, y);
    UnionOfThree(column, row, box);
  }
}
