/** The box-drawing text of `Debug for Graph` and its four border helpers (src/core/graph.rs:265-313). */
module Render {
  import opened Wrappers
  import opened Values
  import opened Cells
  import opened Adjacency
  import opened Layout
  import Format

  /** Width, in characters, of every line of the rendering. */
  const Width := 37

  function DoubleRowTop(): (s: string)
    ensures |s| == Width && s[0] == '╔' && s[Width - 1] == '╗'
  {
    "╔═══╤═══╤═══╦═══╤═══╤═══╦═══╤═══╤═══╗"
  }

  function DoubleRowBottom(): (s: string)
    ensures |s| == Width && s[0] == '╚' && s[Width - 1] == '╝'
  {
    "╚═══╧═══╧═══╩═══╧═══╧═══╩═══╧═══╧═══╝"
  }

  function DoubleRowMiddle(): (s: string)
    ensures |s| == Width && s[0] == '╠' && s[Width - 1] == '╣'
  {
    "╠═══╪═══╪═══╬═══╪═══╪═══╬═══╪═══╪═══╣"
  }

  function SingleRowMiddle(): (s: string)
    ensures |s| == Width && s[0] == '╟' && s[Width - 1] == '╢'
  {
    "╟───┼───┼───╫───┼───┼───╫───┼───┼───╢"
  }

  /** What is pushed before row i: a separator line (none before row 0) and the opening "║". */
  function RowStart(i: int): string {
    if i == 3 || i == 6 then "\n" + DoubleRowMiddle() + "\n║"
    else if i > 0 then "\n" + SingleRowMiddle() + "\n║"
    else "\n║"
  }

  /** The cell `find(|c| c.x - 1 == i && c.y - 1 == j)` selects; with u8 wrapping that is x = i+1, y = j+1. */
  function CellAt(g: seq<Cell>, i: int, j: int): Option<Cell>
    requires 0 <= i < 9 && 0 <= j < 9
  {
    At(g, (i + 1) as u8, (j + 1) as u8)
  }

  /** The text of column j of row i: " v " and a double bar after columns 2, 5 and 8. */
  function CellText(g: seq<Cell>, i: int, j: int): string
    requires 0 <= i < 9 && 0 <= j < 9
  {
    match CellAt(g, i, j)
    case None => ""
    case Some(c) => " " + Format.Dec(c.value as nat) + (if j == 2 || j == 5 || j == 8 then " ║" else " │")
  }

  /** Columns 0..n-1 of row i. */
  function RowCells(g: seq<Cell>, i: int, n: int): string
    requires 0 <= i < 9 && 0 <= n <= 9
  {
    if n == 0 then "" else RowCells(g, i, n - 1) + CellText(g, i, n - 1)
  }

  /** Rows 0..n-1, each with what precedes it. */
  function Rows(g: seq<Cell>, n: int): string
    requires 0 <= n <= 9
  {
    if n == 0 then "" else Rows(g, n - 1) + RowStart(n - 1) + RowCells(g, n - 1, 9)
  }

  /** The whole rendering: top border, the nine rows, bottom border, newline. */
  function Rendering(g: seq<Cell>): string {
    DoubleRowTop() + Rows(g, 9) + "\n" + DoubleRowBottom() + "\n"
  }

  /** `Debug::fmt` for `Graph`. */
  method Fmt(g: seq<Cell>) returns (s: string)
    ensures s == Rendering(g)
  {
    s := DoubleRowTop();
    for i := 0 to 9
      invariant s == DoubleRowTop() + Rows(g, i)
    {
      var start := if i == 3 || i == 6 then "\n" + DoubleRowMiddle() + "\n║"
        else if i > 0 then "\n" + SingleRowMiddle() + "\n║"
        else "\n║";
      assert start == RowStart(i);
      var row := FmtRow(g, i);
      s := s + start + row;
      assert s == DoubleRowTop() + Rows(g, i + 1) by {
        AppendTwice(DoubleRowTop(), Rows(g, i), start, row);
      }
    }
    s := s + "\n" + DoubleRowBottom() + "\n";
  }

  lemma AppendTwice(a: string, b: string, c: string, d: string)
    ensures a + b + c + d == a + (b + c + d)
  {
  }

  /** The cell texts of row i, as the inner loop of `Debug::fmt` pushes them. */
  method FmtRow(g: seq<Cell>, i: int) returns (row: string)
    requires 0 <= i < 9
    ensures row == RowCells(g, i, 9)
  {
    row := "";
    for j := 0 to 9
      invariant row == RowCells(g, i, j)
    {
      var c := CellAt(g, i, j);
      if c.Some? {
        if j == 2 || j == 5 || j == 8 {
          row := row + (" " + Format.Dec(c.value.value as nat) + " ║");
        } else {
          row := row + (" " + Format.Dec(c.value.value as nat) + " │");
        }
      }
    }
  }

  /** In a well-formed vector, row i shows the cells at positions 9i..9i+8, that is x = i+1, in y order. */
  lemma RowShowsVectorSlice(g: seq<Cell>, i: int, j: int)
    requires LaidOut(g) && 0 <= i < 9 && 0 <= j < 9
    ensures CellText(g, i, j) ==
      " " + Format.Dec(g[9 * i + j].value as nat) + (if j == 2 || j == 5 || j == 8 then " ║" else " │")
  {
    CellAtLaidOut(g, i, j);
  }

  lemma CellAtLaidOut(g: seq<Cell>, i: int, j: int)
    requires LaidOut(g) && 0 <= i < 9 && 0 <= j < 9
    ensures CellAt(g, i, j) == Some(g[9 * i + j])
  {
    AtLaidOut(g, (i + 1) as u8, (j + 1) as u8);
    PosOfRowColumn(i, j);
  }

  lemma PosOfRowColumn(i: int, j: int)
    requires 0 <= i < 9 && 0 <= j < 9
    ensures InGrid(Point((i + 1) as u8, (j + 1) as u8)) && Pos(Point((i + 1) as u8, (j + 1) as u8)) == 9 * i + j
  {
  }

  lemma {:induction false} RowCellsLength(g: seq<Cell>, i: int, n: int)
    requires LaidOut(g) && 0 <= i < 9 && 0 <= n <= 9
    requires forall k :: 0 <= k < 81 ==> g[k].value <= 9
    ensures |RowCells(g, i, n)| == 4 * n
  {
    if n > 0 {
      RowCellsLength(g, i, n - 1);
      RowShowsVectorSlice(g, i, n - 1);
      assert g[9 * i + n - 1].value <= 9;
    }
  }

  lemma {:induction false} RowsLength(g: seq<Cell>, n: int)
    requires LaidOut(g) && 0 <= n <= 9
    requires forall k :: 0 <= k < 81 ==> g[k].value <= 9
    ensures |Rows(g, n)| == if n == 0 then 0 else 38 * n + 38 * (n - 1)
  {
    if n > 0 {
      RowsLength(g, n - 1);
      RowCellsLength(g, n - 1, 9);
    }
  }

  /**
   * With single-digit values the rendering has a fixed total length: 19 × 38
   * characters, the sum of nine rows, eight separators and two borders of 37
   * characters with one newline each.
   */
  lemma RenderingLength(g: seq<Cell>)
    requires LaidOut(g)
    requires forall k :: 0 <= k < 81 ==> g[k].value <= 9
    ensures |Rendering(g)| == 19 * (Width + 1)
  {
    RowsLength(g, 9);
  }
}
