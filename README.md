# Sudoku engine: a verified Dafny model

This project models the core of a Rust Sudoku game, the `src/core` engine:

- **The value domain** (`Value`): nine digits and `Unknown`, with the conversions `to_val` and `from_val`, the candidate set `options()`, the derived ordering and `Display`.
- **The records** `Point` and `Cell`, with `Point::new` and their `Debug` text.
- **The `Graph`**: a vector of 81 cells, one per grid point. It provides:
  - static adjacency (`neighbors_for`, `box_set`);
  - the lookups `at` and `index`;
  - the candidate computation `possible_values`;
  - the conflict report `invalid_cells`;
  - the randomized backtracking filler `generate`, with its no-good memo and depth cap;
  - clue removal `make_puzzle`;
  - the box-drawing `Debug` rendering.

## Layout

| file | module | models |
|---|---|---|
| `wrappers.dfy` | `Wrappers` | `Option` |
| `format.dfy` | `Format` | decimal text of integers, as `{}` prints a `u8` |
| `value.dfy` | `Values` | src/core/value.rs |
| `cell.dfy` | `Cells` | src/core/cell.rs |
| `adjacency.dfy` | `Adjacency` | `neighbors_for`, `box_set` |
| `layout.dfy` | `Layout` | the vector order of `Graph::new`, `at`, `index` |
| `rules.dfy` | `Rules` | `possible_values`, `Cell::is_valid`, `invalid_cells` |
| `render.dfy` | `Render` | `Debug for Graph` and its four border strings |
| `graph.dfy` | `Graphs` | `Graph::new`, `generate`, `make_puzzle` |

### Representation

- **Integers.** Rust's `u8` is the newtype `u8` (0..255). Two `u8` subtractions can underflow. `index - 1` in `index` is written out with wrap-around. `c.x - 1` and `c.y - 1` in `fmt` are modelled with wrap-around as well; they underflow only for a cell at x = 0 or y = 0, which a laid-out vector never holds.
- **The class.** `Graph` is a class whose field `cells` is an `array<Cell>` of 81 cells. Its methods update the array in place.
- **Read-only operations on the vector.** `at`, `index`, `possible_values`, `is_valid`, `invalid_cells` and `fmt` are functions and methods over the cell vector as a sequence (`g.cells[..]`). This lets them apply to the graph itself and also to the `self.clone()` snapshot that `generate` consults.
- **Vector order.** Position k holds the cell with x = k/9+1 and y = k%9+1, the push order of `Graph::new` (`Layout.PointOf`). `Layout.WellFormed` states that a vector has this layout and that each cell's neighbour set is the static one.
- **The no-good memo.** The `HashMap<usize, Vec<Value>>` is a `map<int, seq<Value>>`.

### Choices made in modelling

- **Randomness.** Each random choice is a nondeterministic choice (`:|`). This covers the shuffle and `get(0)` of `generate`, and the `gen_range` index of `make_puzzle`.
- **The snapshot comes first.** The snapshot is taken before the reset loop clears the positions from i on. The candidates of position i are therefore computed against its pre-step value, because each neighbour set contains the cell's own point.
- **The reset loop** is written as two loops, one over the cells and one over the memo. They touch disjoint state.
- **`Cell::is_valid`** is called by the core but its body is not part of this model. `Rules.IsValid` states what its call sites rely on:
  - a cell holding 0 is valid;
  - otherwise no neighbour point other than the cell's own may hold the same value in the given graph;
  - a point `at` does not find is no clash.

  With this predicate, the branch of `generate` that zeroes the cell and sets `i = 1` is proved unreachable.
- **How `generate` ends.** It returns `()` in Rust. The model adds a ghost `Exit` result:
  - `Completed`: the cursor reached 81;
  - `DepthCapped(n)`: the depth cap of 1,000,000 stopped the loop;
  - `Panicked`: a dead end at position 0 made `i - 1` underflow, and `get(..).unwrap()` panics.

  This last case is proved possible only in the first iteration, and only when position 0 of the caller's grid has no candidate. A fresh `Graph::new()` grid always has one.
- **Termination of `generate`** follows from the measure (1,000,000 - depth, 81 - i).
- **The `mutable` field.** The struct literal of `Graph::new` (src/core/graph.rs:18-23) does not set the field `mutable`, which `Cell` declares (src/core/cell.rs:11). The model constructs every cell with `mutable == false`. No core function reads or writes it.

## Model

| member | source | states |
|---|---|---|
| `Values.Rank` | src/core/value.rs:8-20 | the derived ordering key is the declaration position; it is 9 exactly for `Unknown` |
| `Values.LessIsStrictTotalOrder` | src/core/value.rs:8-20 | the derived `<` is irreflexive, transitive and total, with `Unknown` above every digit |
| `Values.FromValMonotone` | src/core/value.rs:47-60 | on the digits, a < b exactly when from_val(a) < from_val(b) |
| `Values.Display` | src/core/value.rs:22-26 | the text is the single decimal digit of `from_val`; it is "0" exactly for `Unknown` |
| `Values.DisplayInjective` | src/core/value.rs:22-26 | different values display differently |
| `Values.Options` | src/core/value.rs:28-30 | holds exactly the nine digits, so 9 members and never `Unknown` |
| `Values.ToVal` | src/core/value.rs:32-45 | `Unknown` exactly for 0 and for bytes above 9; otherwise the digit of rank n-1 |
| `Values.FromVal` | src/core/value.rs:47-60 | at most 9; 0 exactly for `Unknown`; rank+1 for a digit |
| `Values.ToValOfFromVal` | src/core/value.rs:32-60 | to_val(from_val(v)) == v for every variant |
| `Values.FromValOfToVal` | src/core/value.rs:32-60 | from_val(to_val(n)) is n for n <= 9 and 0 above |
| `Values.ToValIsDigit` | src/core/value.rs:32-60 | for a digit d, to_val(n) == d exactly when n == from_val(d) |
| `Format.Dec` | src/core/value.rs:24 | decimal text: digits only, at least one, a leading '0' only for zero, one character exactly below 10 |
| `Format.DecRoundTrip` | src/core/value.rs:24 | reading the decimal text back yields the number |
| `Format.DecInjective` | src/core/value.rs:24 | distinct numbers print differently |
| `Format.DecPrefix` | src/core/cell.rs:37-41 | a decimal number followed by a non-digit reads back uniquely: equal texts of this shape agree on the number and on the rest |
| `Cells.NewPoint` | src/core/cell.rs:31-35 | the new point's fields are exactly x and y |
| `Cells.PointEquality` | src/core/cell.rs:25-29 | two points are equal exactly when both coordinates agree |
| `Cells.CellEquality` | src/core/cell.rs:6-13 | two cells are equal exactly when all five fields agree |
| `Cells.PointDebug` | src/core/cell.rs:37-41 | the text is parenthesised, at least five characters long, and holds no space |
| `Cells.PointDebugFields` | src/core/cell.rs:37-41 | between the parentheses the text is digits around one comma; the number before the comma is x and the number after it is y |
| `Cells.PointDebugInjective` | src/core/cell.rs:37-41 | the "(x,y)" text determines the point |
| `Cells.SetDebug` | src/core/cell.rs:19 | the neighbour set's Debug text is enclosed in braces; what it holds between them is stated by `Cells.SetDebugLists` |
| `Cells.JoinedLists` | src/core/cell.rs:19 | every entry's text occurs in the ", "-separated list |
| `Cells.SetDebugLists` | src/core/cell.rs:19 | the "(x,y)" text of every point of the visiting order occurs inside the braces |
| `Cells.CellDebug` | src/core/cell.rs:15-23 | the text starts with "Cell { x: ", then x, ", y: ", y, ", value: ", value in decimal and ", neighbors: ", and ends with " }" |
| `Cells.CellDebugListsNeighbor` | src/core/cell.rs:15-23 | the cell's text holds the "(x,y)" text of every neighbour, after the field prefix and before the closing " }" |
| `Cells.CellDebugInjective` | src/core/cell.rs:15-23 | two cells with the same text have the same x, y and value |
| `Cells.CellDebugIgnoresMutable` | src/core/cell.rs:15-23 | the text does not depend on `mutable` |
| `Adjacency.BoxArmBands` | src/core/graph.rs:65-110 | the overlapping arms, taken in first-match order, select the box of bands 1-3/4-6/7-9 of both coordinates; off the grid no box is added |
| `Adjacency.BoxSet` | src/core/graph.rs:114-122 | the result holds exactly the points of the rectangle, corners included |
| `Adjacency.NeighborsFor` | src/core/graph.rs:48-112 | the row loop followed by the matching box yields the neighbour set `Neighbors(x, y)` |
| `Adjacency.NeighborsClosedForm` | src/core/graph.rs:48-122 | on the grid, p is a neighbour of (x, y) exactly when it shares x, shares y, or lies in the same pair of bands |
| `Adjacency.NeighborsInGrid` | src/core/graph.rs:48-122 | every neighbour of a grid point is a grid point |
| `Adjacency.OwnPointIsNeighbor` | src/core/graph.rs:65-106 | the box puts the cell's own point into its neighbour set |
| `Adjacency.NeighborsSymmetric` | src/core/graph.rs:48-122 | q is a neighbour of p exactly when p is a neighbour of q |
| `Adjacency.NeighborCount` | src/core/graph.rs:48-122 | every neighbour set of a grid point has 21 members |
| `Layout.PointOf` | src/core/graph.rs:16-26 | position k of the push order is a grid point |
| `Layout.Pos` | src/core/graph.rs:16-26 | the position of a grid point lies in 0..80 and maps back to the point |
| `Layout.PosOfPointOf` | src/core/graph.rs:16-26 | positions and points correspond one to one |
| `Layout.LaidOutCoversGrid` | src/core/graph.rs:14-33 | a vector in push order holds every grid point, and each at one position only |
| `Layout.FindFrom` | src/core/graph.rs:36 | `find` returns the first matching position, and `None` only when no cell matches |
| `Layout.At` | src/core/graph.rs:35-38 | a found cell is in the vector at (x, y); `None` only when no cell is there |
| `Layout.FindLaidOut` | src/core/graph.rs:35-38 | in a vector in push order the search finds the position of exactly the grid points |
| `Layout.AtLaidOut` | src/core/graph.rs:35-38 | in a vector in push order `at` returns the cell of every grid point and `None` off the grid |
| `Layout.WrappingPred` | src/core/graph.rs:41-42 | u8 `index - 1` with wrap-around: adding one to the result modulo 256 gives index back |
| `Layout.Index` | src/core/graph.rs:40-46 | a found position lies inside the vector |
| `Layout.IndexRowMajor` | src/core/graph.rs:40-46 | for 1..81, the cell with x = (k-1)%9+1 and y = (k-1)/9+1, that is row-major order; `None` for 0 (u8 wrap-around) and for 82..255 |
| `Rules.AdjacentSymmetric` | src/core/graph.rs:48-122 | adjacency of vector positions is symmetric |
| `Rules.WellFormedResolvable` | src/core/graph.rs:229-231 | `at(..).unwrap()` succeeds for every neighbour of a well-formed vector's cell |
| `Rules.PossibleValues` | src/core/graph.rs:228-233 | the result holds exactly the digits that are in neither vals nor the `to_val` images of the neighbours' values |
| `Rules.CandidatesExact` | src/core/graph.rs:228-233 | a value is a candidate at k exactly when it is a digit that no neighbouring position, k included, holds |
| `Rules.CandidateIsValid` | src/core/graph.rs:211-224 | writing a candidate into the cell passes `is_valid` against the same graph |
| `Rules.InvalidCells` | src/core/graph.rs:235-246 | returns the nonzero cells that fail `is_valid`, in vector order |
| `Rules.ConflictsExact` | src/core/graph.rs:235-246 | a cell is listed exactly when it is in the vector, nonzero, and fails `is_valid` |
| `Rules.NoConflicts` | src/core/graph.rs:235-246 | when every nonzero cell is valid, nothing is listed |
| `Rules.SolvedHasNoConflicts` | src/core/graph.rs:235-246 | a complete grid without conflicts has an empty `invalid_cells` |
| `Rules.ClearingKeepsNoConflicts` | src/core/graph.rs:253-260 | zeroing any cells of a conflict-free grid leaves it conflict-free |
| `Render.DoubleRowTop` | src/core/graph.rs:266-268 | 37 characters, from '╔' to '╗' |
| `Render.DoubleRowBottom` | src/core/graph.rs:270-272 | 37 characters, from '╚' to '╝' |
| `Render.DoubleRowMiddle` | src/core/graph.rs:274-276 | 37 characters, from '╠' to '╣' |
| `Render.SingleRowMiddle` | src/core/graph.rs:278-280 | 37 characters, from '╟' to '╢' |
| `Render.Fmt` | src/core/graph.rs:286-313 | the text is the top border, each row preceded by its separator and "║", then "\n", the bottom border and "\n" |
| `Render.FmtRow` | src/core/graph.rs:299-308 | the inner loop produces the texts of the nine columns of row i in order |
| `Render.RowShowsVectorSlice` | src/core/graph.rs:299-308 | row i, column j shows the value of vector position 9i+j, followed by "║" after columns 2, 5 and 8 and by "│" otherwise |
| `Render.RenderingLength` | src/core/graph.rs:286-313 | with single-digit values the whole rendering is 19 × 38 characters long, the total of ten borders and nine rows of 37 characters with a newline each (its line-by-line shape is the contract of `Render.Fmt`) |
| `Graphs.PushCells` | src/core/graph.rs:16-26 | 81 cells in x-major order, each at its grid point, value 0, no neighbours |
| `Graphs.SetNeighbors` | src/core/graph.rs:28-31 | every cell gets exactly its static neighbour set; nothing else changes |
| `Graphs.Graph.constructor` | src/core/graph.rs:14-33 | 81 cells laid out x-major with the static neighbour sets; all values 0 |
| `Graphs.Graph.ClearFrom` | src/core/graph.rs:137-148 | positions from i on become 0 and nothing else changes |
| `Graphs.ResetMemo` | src/core/graph.rs:137-148 | the existing memo entries for positions i+1..81 become empty, the other entries are kept, and no key is added or removed |
| `Graphs.ResetBetweenEntries` | src/core/graph.rs:137-148 | emptying the entries one position after the other keeps every key and empties exactly the entries of lo+1..hi |
| `Graphs.FilterNoGoods` | src/core/graph.rs:153-166 | keeps exactly the candidates not in memo[i]; creates memo[i] empty exactly when it was absent and a candidate exists |
| `Graphs.Choose` | src/core/graph.rs:150-168 | a chosen value is a candidate of position i in the snapshot and not a no-good; `None` only when every candidate is a no-good |
| `Graphs.ResetAndChoose` | src/core/graph.rs:137-168 | the choice is a candidate of the snapshot outside memo[i], or `None` when every candidate is in memo[i]; the memo is the reset one with memo[i] created empty when absent and a candidate exists; an empty entry for position 0 survives, and with it position 0 always gets a value |
| `Graphs.Graph.Prepare` | src/core/graph.rs:133-168 | snapshot before the reset, cells cleared from i on, a choice that is a candidate and no no-good (it is absent from the new memo[i] as well), `None` only when every candidate is a no-good, the new memo as the reset followed by the creation of memo[i]; position 0 is stuck only in the first iteration |
| `Graphs.Graph.SetValue` | src/core/graph.rs:172 | only the value of position i changes |
| `Graphs.Graph.Place` | src/core/graph.rs:211-224 | only the value of position i changes, to the candidate; it always passes `is_valid`, so the cursor advances and the grid stays filled without conflicts below it |
| `Graphs.RecordDeadEnd` | src/core/graph.rs:174-197 | only the entry of position i-1 changes; a digit is appended to an existing entry only when i > 1, or a new entry is created for it |
| `Graphs.PlacingExtendsPrefix` | src/core/graph.rs:150-212 | a candidate placed at i over a conflict-free prefix extends that prefix to i+1 |
| `Graphs.BackStep` | src/core/graph.rs:199-207 | a dead end at i > 0 leaves positions below i filled and conflict-free and the rest 0 |
| `Graphs.FirstCellHasCandidate` | src/core/graph.rs:175 | position 0 has a candidate whenever every later position holds 0 |
| `Graphs.FirstChoiceExists` | src/core/graph.rs:150-175 | after the first iteration the choice at position 0 never comes up empty, so `i - 1` never underflows there |
| `Graphs.Graph.Backtrack` | src/core/graph.rs:174-207 | after a dead end at i > 0, positions below i stay filled and conflict-free, the rest are 0, and the memo entry for position 0 stays empty; the memo changes only at i-1, which gains the digit held at i-1 (an existing entry only when i > 1) |
| `Graphs.Graph.Iterate` | src/core/graph.rs:133-224 | one pass either places a candidate outside memo[i] at i over the cells cleared from i and moves the cursor to i+1, or, with every candidate a no-good, leaves the cleared cells and moves the cursor to i-1 while raising the depth by one. It stops only at the depth cap, with a conflict-free prefix, or on a panic at position 0, which needs a caller's grid with no candidate there |
| `Graphs.Graph.Generate` | src/core/graph.rs:124-226 | the layout is kept. A normal exit gives a complete conflict-free grid. A depth-capped exit leaves a conflict-free prefix and zeros after it. A panic happens only when position 0 of the caller's grid has no candidate, and leaves every cell 0 |
| `Graphs.PartialHasNoConflicts` | src/core/graph.rs:235-246 | a conflict-free prefix followed by zeros has an empty `invalid_cells` |
| `Graphs.CountBelowClear` | src/core/graph.rs:256-259 | zeroing one nonzero cell lowers the number of nonzero cells by one |
| `Graphs.PartialCount` | src/core/graph.rs:248-262 | a grid filled in its first n positions and 0 after them holds n nonzero cells |
| `Graphs.SolvedCount` | src/core/graph.rs:248-262 | a solved grid holds 81 nonzero cells |
| `Graphs.Graph.ClearClues` | src/core/graph.rs:252-260 | only nonzero cells become 0; exactly 81 - remaining of them for remaining < 81; nothing changes for remaining >= 81 |
| `Graphs.ClearStep` | src/core/graph.rs:252-260 | zeroing one clue keeps the layout and the kept-or-zeroed property, and removes exactly one nonzero cell |
| `Graphs.Graph.MakePuzzle` | src/core/graph.rs:248-262 | generation never panics. After a complete fill, exactly remaining clues are left, each holding its generated value. The result never has conflicts |

## Left out

- Randomness: `thread_rng`, the `shuffle` and `gen_range` are nondeterministic choices. Nothing is claimed about distribution or uniformity.
- The redraws of `make_puzzle`: when `gen_range` hits a cell that is already 0, the source draws again. The model always draws a nonzero cell, so the number of draws is not modelled.
- `Graphs.Graph.MakePuzzle`: when `generate` stops at the depth cap with fewer than 81 - remaining_clues nonzero cells, the source's clearing loop never ends. The model returns the generated grid with the ghost flag `ok` false, and makes no claim about the clues left.
- `Layout.Index`: `index` returns a `&mut Cell` into the vector. The model returns the cell's position. Writes through that reference are `Graphs.Graph.SetValue`.
- `Graphs.Graph.Iterate`: the memo after one pass is not repeated in its contract. It is stated by `Graphs.Graph.Prepare` and `Graphs.Graph.Backtrack`, which the pass runs one after the other.
- `index - 1` at 0: this wraps in release builds, which the model follows, and panics in debug builds.
- `Cell::is_valid`: its body is not part of this model. It is declared as the predicate `Rules.IsValid`, described above.
- `Cells.CellDebug`: the order in which a `HashSet` lists the neighbour points is a parameter. No claim is made about that order or about hashing.
- The `eprintln!` of the unreachable catch-all arm of `neighbors_for`. The arm itself is modelled as adding no box.
- The commented-out tracing in `generate`.
- The per-iteration `clone` cost and other performance aspects.
- The Bevy user interface, input handling, colours and `main`. These are outside the engine core.
