/** The records of src/core/cell.rs: grid points and cells. */
module Cells {
  import opened Values
  import Format

  /** `Point`: equality (and hashing) are field-wise. */
  datatype Point = Point(x: u8, y: u8)

  /** `Cell`: derived equality compares all five fields. */
  datatype Cell = Cell(x: u8, y: u8, value: u8, mutable: bool, neighbors: set<Point>)

  /** `Point::new`. */
  function NewPoint(x: u8, y: u8): (p: Point)
    ensures p.x == x && p.y == y
  {
    Point(x, y)
  }

  lemma PointEquality(p: Point, q: Point)
    ensures p == q <==> p.x == q.x && p.y == q.y
  {
  }

  lemma CellEquality(c: Cell, d: Cell)
    ensures c == d <==>
      c.x == d.x && c.y == d.y && c.value == d.value && c.mutable == d.mutable && c.neighbors == d.neighbors
  {
  }

  /** `Debug for Point`: "(x,y)" in decimal, without spaces. */
  function PointDebug(p: Point): (s: string)
    ensures |s| >= 5 && s[0] == '(' && s[|s| - 1] == ')'
    ensures ' ' !in s
  {
    "(" + Format.Dec(p.x as nat) + "," + Format.Dec(p.y as nat) + ")"
  }

  /**
   * The debug text reads back: apart from the one comma between the
   * parentheses it is digits, and the two numbers on either side of that
   * comma are the coordinates.
   */
  lemma PointDebugFields(p: Point) returns (c: int)
    ensures 1 < c < |PointDebug(p)| - 1 && PointDebug(p)[c] == ','
    ensures var s := PointDebug(p);
      (forall k :: 1 <= k < |s| - 1 && k != c ==> Format.IsDigitChar(s[k]))
      && Format.ParseDec(s[1..c]) == p.x as nat && Format.ParseDec(s[c + 1..|s| - 1]) == p.y as nat
  {
    var a, b := Format.Dec(p.x as nat), Format.Dec(p.y as nat);
    var s := PointDebug(p);
    c := 1 + |a|;
    assert s == "(" + a + "," + b + ")";
    assert forall k :: 1 <= k < c ==> s[k] == a[k - 1];
    assert forall k :: c < k < |s| - 1 ==> s[k] == b[k - c - 1];
    assert s[1..c] == a && s[c + 1..|s| - 1] == b;
    Format.DecRoundTrip(p.x as nat);
    Format.DecRoundTrip(p.y as nat);
  }

  /** The debug text determines the point. */
  lemma PointDebugInjective(p: Point, q: Point)
    ensures PointDebug(p) == PointDebug(q) ==> p == q
  {
    var a, b := Format.Dec(p.x as nat), Format.Dec(p.y as nat);
    var a', b' := Format.Dec(q.x as nat), Format.Dec(q.y as nat);
    var r, r' := "," + (b + ")"), "," + (b' + ")");
    assert PointDebug(p) == "(" + (a + r) && PointDebug(q) == "(" + (a' + r');
    if PointDebug(p) == PointDebug(q) {
      Format.CancelPrefix("(", a + r, a' + r');
      Format.DecPrefix(p.x as nat, q.x as nat, r, r');
      Format.CancelPrefix(",", b + ")", b' + ")");
      Format.DecPrefix(p.y as nat, q.y as nat, ")", ")");
    }
  }

  /** Debug text of a HashSet<Point> visited in the order `ps`: "{p1, p2, ...}". */
  function SetDebug(ps: seq<Point>): (s: string)
    ensures |s| >= 2 && s[0] == '{' && s[|s| - 1] == '}'
  {
    "{" + Joined(PointTexts(ps)) + "}"
  }

  /** The "(x,y)" text of each point, in order. */
  function PointTexts(ps: seq<Point>): (ts: seq<string>)
    ensures |ts| == |ps|
  {
    seq(|ps|, i requires 0 <= i < |ps| => PointDebug(ps[i]))
  }

  /** The texts separated by ", ". */
  function Joined(ts: seq<string>): string
  {
    if ts == [] then ""
    else if |ts| == 1 then ts[0]
    else ts[0] + ", " + Joined(ts[1..])
  }

  /** Every text of the list occurs in the joined text. */
  lemma {:induction false} JoinedLists(ts: seq<string>, k: int) returns (off: int)
    requires 0 <= k < |ts|
    ensures 0 <= off && off + |ts[k]| <= |Joined(ts)|
    ensures Joined(ts)[off..off + |ts[k]|] == ts[k]
  {
    var head := ts[0];
    if k == 0 {
      off := 0;
      if |ts| > 1 {
        SliceOfPrefix(head, ", " + Joined(ts[1..]), 0, |head|);
        assert Joined(ts) == head + (", " + Joined(ts[1..]));
      }
      assert head[0..|head|] == head;
    } else {
      var rest := JoinedLists(ts[1..], k - 1);
      assert ts[1..][k - 1] == ts[k];
      var front := head + ", ";
      SliceOfSuffix(front, Joined(ts[1..]), rest, |ts[k]|);
      off := |front| + rest;
    }
  }

  /** A slice of the first part of a concatenation. */
  lemma SliceOfPrefix(a: string, b: string, o: int, n: int)
    requires 0 <= o && 0 <= n && o + n <= |a|
    ensures (a + b)[o..o + n] == a[o..o + n]
  {
    assert forall t {:trigger a[o + t]} :: 0 <= t < n ==> (a + b)[o + t] == a[o + t];
  }

  /** A slice of the second part of a concatenation, taken at its offset in the whole. */
  lemma SliceOfSuffix(a: string, b: string, o: int, n: int)
    requires 0 <= o && 0 <= n && o + n <= |b|
    ensures (a + b)[|a| + o..|a| + o + n] == b[o..o + n]
  {
    assert forall t {:trigger b[o + t]} :: 0 <= t < n ==> (a + b)[|a| + o + t] == b[o + t];
  }

  /** Every point of the visiting order has its "(x,y)" text inside the braces. */
  lemma SetDebugLists(ps: seq<Point>, k: int) returns (off: int)
    requires 0 <= k < |ps|
    ensures 1 <= off && off + |PointDebug(ps[k])| < |SetDebug(ps)|
    ensures SetDebug(ps)[off..off + |PointDebug(ps[k])|] == PointDebug(ps[k])
  {
    var ts := PointTexts(ps);
    assert ts[k] == PointDebug(ps[k]);
    var inner := JoinedLists(ts, k);
    off := Enclosed("{", Joined(ts), "}", inner, |PointDebug(ps[k])|);
  }

  /** A slice of the middle part of a concatenation, at its offset in the whole. */
  lemma Enclosed(a: string, b: string, c: string, o: int, n: int) returns (at: int)
    requires 0 <= o && 0 <= n && o + n <= |b|
    ensures at == |a| + o && at + n <= |a + b + c| - |c|
    ensures (a + b + c)[at..at + n] == b[o..o + n]
  {
    at := |a| + o;
    SliceOfPrefix(a + b, c, at, n);
    SliceOfSuffix(a, b, o, n);
  }

  /** `Debug for Cell`. `order` is the HashSet's iteration order: every neighbour exactly once. */
  function CellDebug(c: Cell, order: seq<Point>): (s: string)
    requires |order| == |c.neighbors|
    requires forall p :: p in order <==> p in c.neighbors
    ensures |s| > 12 && s[..10] == "Cell { x: " && s[|s| - 2..] == " }"
    ensures "Cell { x: " + Format.Dec(c.x as nat) + ", y: " + Format.Dec(c.y as nat)
      + ", value: " + Format.Dec(c.value as nat) + ", neighbors: " <= s
  {
    "Cell { x: " + Format.Dec(c.x as nat) + ", y: " + Format.Dec(c.y as nat)
      + ", value: " + Format.Dec(c.value as nat) + ", neighbors: " + SetDebug(order) + " }"
  }

  /** The debug text never depends on `mutable`. */
  lemma CellDebugIgnoresMutable(c: Cell, order: seq<Point>, m: bool)
    requires |order| == |c.neighbors|
    requires forall p :: p in order <==> p in c.neighbors
    ensures CellDebug(c.(mutable := m), order) == CellDebug(c, order)
  {
  }

  /** The debug text of a cell, with its concatenation nested to the right. */
  lemma CellDebugNested(c: Cell, order: seq<Point>)
    requires |order| == |c.neighbors|
    requires forall p :: p in order <==> p in c.neighbors
    ensures CellDebug(c, order) == "Cell { x: " + (Format.Dec(c.x as nat) + (", y: " + (Format.Dec(c.y as nat)
      + (", value: " + (Format.Dec(c.value as nat) + (", neighbors: " + SetDebug(order) + " }"))))))
  {
    Regroup("Cell { x: ", Format.Dec(c.x as nat), ", y: ", Format.Dec(c.y as nat), ", value: ",
      Format.Dec(c.value as nat), ", neighbors: ", SetDebug(order), " }");
  }

  lemma Regroup(a: string, b: string, c: string, d: string, e: string, f: string, g: string, h: string, i: string)
    ensures a + b + c + d + e + f + g + h + i == a + (b + (c + (d + (e + (f + (g + h + i))))))
  {
  }

  /** The debug text determines the cell's coordinates and value. */
  lemma CellDebugInjective(c: Cell, d: Cell, order: seq<Point>, order': seq<Point>)
    requires |order| == |c.neighbors| && |order'| == |d.neighbors|
    requires forall p :: p in order <==> p in c.neighbors
    requires forall p :: p in order' <==> p in d.neighbors
    ensures CellDebug(c, order) == CellDebug(d, order') ==> c.x == d.x && c.y == d.y && c.value == d.value
  {
    var x, y, v := Format.Dec(c.x as nat), Format.Dec(c.y as nat), Format.Dec(c.value as nat);
    var x', y', v' := Format.Dec(d.x as nat), Format.Dec(d.y as nat), Format.Dec(d.value as nat);
    var tail, tail' := ", neighbors: " + SetDebug(order) + " }", ", neighbors: " + SetDebug(order') + " }";
    var r2, r2' := ", value: " + (v + tail), ", value: " + (v' + tail');
    var r1, r1' := ", y: " + (y + r2), ", y: " + (y' + r2');
    CellDebugNested(c, order);
    CellDebugNested(d, order');
    if CellDebug(c, order) == CellDebug(d, order') {
      Format.CancelPrefix("Cell { x: ", x + r1, x' + r1');
      Format.DecPrefix(c.x as nat, d.x as nat, r1, r1');
      Format.CancelPrefix(", y: ", y + r2, y' + r2');
      Format.DecPrefix(c.y as nat, d.y as nat, r2, r2');
      Format.CancelPrefix(", value: ", v + tail, v' + tail');
      Format.DecPrefix(c.value as nat, d.value as nat, tail, tail');
    }
  }

  /** The cell's text lists every neighbour's "(x,y)", after the field prefix and before " }". */
  lemma CellDebugListsNeighbor(c: Cell, order: seq<Point>, p: Point) returns (off: int)
    requires |order| == |c.neighbors|
    requires forall q :: q in order <==> q in c.neighbors
    requires p in c.neighbors
    ensures 10 < off && off + |PointDebug(p)| < |CellDebug(c, order)| - 2
    ensures CellDebug(c, order)[off..off + |PointDebug(p)|] == PointDebug(p)
  {
    var k :| 0 <= k < |order| && order[k] == p;
    var inner := SetDebugLists(order, k);
    var front := "Cell { x: " + Format.Dec(c.x as nat) + ", y: " + Format.Dec(c.y as nat)
      + ", value: " + Format.Dec(c.value as nat) + ", neighbors: ";
    assert |front| > 10;
    off := Enclosed(front, SetDebug(order), " }", inner, |PointDebug(p)|);
  }
}
