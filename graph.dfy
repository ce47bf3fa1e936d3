/**
 * The `Graph` of src/core/graph.rs: construction, the backtracking filler `generate`
 * and clue removal `make_puzzle`, over a fixed vector of 81 cells.
 */
module Graphs {
  import opened Wrappers
  import opened Values
  import opened Cells
  import opened Adjacency
  import opened Layout
  import opened Rules

  /** The `max_depth` of `generate`: the number of backtracking steps it allows. */
  const MaxDepth := 1_000_000

  /**
   * How `generate` ends: the cursor reached 81; the depth cap stopped it with the
   * first `filled` positions placed; or a dead end at position 0 made `i - 1`
   * underflow and `unwrap` panic.
   */
  datatype Exit = Completed | DepthCapped(filled: int) | Panicked

  /** The no-good memo `invalid_moves`: per vector position, the values ruled out there. */
  type Memo = map<int, seq<Value>>

  /** h differs from g at most in cell values. */
  ghost predicate SameLayout(g: seq<Cell>, h: seq<Cell>) {
    |g| == |h| && forall k :: 0 <= k < |g| ==> h[k] == g[k].(value := h[k].value)
  }

  lemma SameLayoutWellFormed(g: seq<Cell>, h: seq<Cell>)
    requires WellFormed(g) && SameLayout(g, h)
    ensures WellFormed(h)
  {
    forall k | 0 <= k < 81
      ensures Point(h[k].x, h[k].y) == PointOf(k) && h[k].neighbors == Neighbors(h[k].x, h[k].y)
    {
      assert h[k] == g[k].(value := h[k].value);
    }
  }

  /** Positions below n hold digits, and no two neighbouring ones among them share one. */
  ghost predicate Prefix(g: seq<Cell>, n: int)
    requires |g| == 81 && 0 <= n <= 81
  {
    FilledBelow(g, n) && ConflictFreeBelow(g, n)
  }

  /** A grid filled, without conflicts, in its first n positions and empty in the rest. */
  ghost predicate Partial(g: seq<Cell>, n: int)
    requires |g| == 81 && 0 <= n <= 81
  {
    Prefix(g, n) && forall k :: n <= k < 81 ==> g[k].value == 0
  }

  /** Every position after n holds 0. */
  ghost predicate ZeroAfter(g: seq<Cell>, n: int)
    requires |g| == 81
  {
    forall k :: 0 <= k < 81 && n < k ==> g[k].value == 0
  }

  /** g with every position from i on set to 0: what the reset loop of `generate` leaves. */
  function ClearedFrom(g: seq<Cell>, i: int): (h: seq<Cell>)
    ensures |h| == |g|
  {
    seq(|g|, k requires 0 <= k < |g| => if k < i then g[k] else g[k].(value := 0))
  }

  /**
   * The reset keeps the layout and the prefix below i, and zeros the rest; so the
   * prefix facts of g below i hold of the reset vector, which is partial with cursor i.
   */
  lemma ClearedFromFacts(g: seq<Cell>, i: int)
    requires |g| == 81 && 0 <= i <= 81 && Prefix(g, i)
    ensures SameLayout(g, ClearedFrom(g, i))
    ensures Partial(ClearedFrom(g, i), i)
    ensures i > 0 ==> Prefix(ClearedFrom(g, i), i - 1) && ZeroAfter(ClearedFrom(g, i), i - 1)
    ensures i < 81 ==> ClearedFrom(g, i)[i] == g[i].(value := 0)
  {
    var h := ClearedFrom(g, i);
    PrefixTransfer(g, h, i, i);
    if i > 0 {
      PrefixTransfer(g, h, i, i - 1);
    }
  }

  /** The no-good memo entry of position 0 exists and is empty. */
  ghost predicate FirstEntryEmpty(memo: Memo) {
    0 in memo && memo[0] == []
  }

  /**
   * The loop-head invariant of `generate` at cursor i. Before the first iteration the
   * cells are untouched and the memo empty; afterwards every position after i holds 0
   * and the memo entry of position 0 is empty. Throughout, positions below i are
   * filled without conflicts and only values have changed.
   */
  ghost predicate LoopHead(orig: seq<Cell>, g: seq<Cell>, i: int, memo: Memo, started: bool) {
    |g| == 81 && SameLayout(orig, g) && 0 <= i <= 81 && Prefix(g, i) &&
    (started ==> ZeroAfter(g, i) && FirstEntryEmpty(memo)) &&
    (!started ==> i == 0 && memo == map[] && g == orig)
  }

  /** A successful placement at i moves the loop head to i + 1. */
  lemma ForwardStep(orig: seq<Cell>, g: seq<Cell>, i: int, before: Memo, started: bool, memo: Memo, d: Value, c: seq<Cell>, h: seq<Cell>)
    requires WellFormed(g) && LoopHead(orig, g, i, before, started)
    requires i < 81 && d in Candidates(g, i) && FirstEntryEmpty(memo)
    requires c == ClearedFrom(g, i) && h == c[i := c[i].(value := FromVal(d))]
    ensures LoopHead(orig, h, i + 1, memo, true)
  {
    ClearedFromFacts(g, i);
    assert h == ClearedFrom(g, i)[i := g[i].(value := FromVal(d))];
    PlacingExtendsPrefix(g, h, i, d);
  }

  /** A dead end at i > 0 moves the loop head back to i - 1 with the cells from i on cleared. */
  lemma BackStep(orig: seq<Cell>, g: seq<Cell>, i: int, before: Memo, started: bool, memo: Memo, h: seq<Cell>)
    requires LoopHead(orig, g, i, before, started)
    requires 0 < i < 81 && FirstEntryEmpty(memo)
    requires h == ClearedFrom(g, i)
    ensures LoopHead(orig, h, i - 1, memo, true) && Partial(h, i)
  {
    ClearedFromFacts(g, i);
  }

  /** A dead end at 0 only happens in the first iteration, on the caller's cells. */
  lemma PanicState(orig: seq<Cell>, g: seq<Cell>, memo: Memo, started: bool, h: seq<Cell>)
    requires LoopHead(orig, g, 0, memo, started) && !started
    requires h == ClearedFrom(g, 0)
    ensures g == orig && SameLayout(orig, h) && Partial(h, 0)
  {
    ClearedFromFacts(g, 0);
  }

  /** The loop head at 81 is a solved grid. */
  lemma HeadAtEnd(orig: seq<Cell>, g: seq<Cell>, memo: Memo, started: bool)
    requires WellFormed(g) && LoopHead(orig, g, 81, memo, started)
    ensures Solved(g) && SameLayout(orig, g)
  {
  }

  /** Prefix facts carry over to a vector that agrees on the prefix, and to shorter prefixes. */
  lemma PrefixTransfer(g: seq<Cell>, h: seq<Cell>, n: int, m: int)
    requires |g| == 81 && |h| == 81 && 0 <= m <= n <= 81
    requires forall k :: 0 <= k < n ==> h[k].value == g[k].value
    requires Prefix(g, n)
    ensures Prefix(h, m)
  {
  }

  /**
   * Writing a candidate of position i of g at i, over g's prefix below i and zeros
   * above, extends the filled conflict-free prefix by one position.
   */
  lemma PlacingExtendsPrefix(g: seq<Cell>, h: seq<Cell>, i: int, d: Value)
    requires WellFormed(g) && 0 <= i < 81 && Prefix(g, i)
    requires d in Candidates(g, i)
    requires h == ClearedFrom(g, i)[i := g[i].(value := FromVal(d))]
    ensures SameLayout(g, h) && Partial(h, i + 1) && Prefix(h, i + 1) && ZeroAfter(h, i)
  {
    assert forall k :: 0 <= k < 81 ==>
      h[k] == g[k].(value := if k < i then g[k].value else if k == i then FromVal(d) else 0);
    CandidatesExact(g, i, d);
    forall j, k | 0 <= j < k < i + 1 && Adjacent(j, k)
      ensures h[j].value != h[k].value
    {
      if k == i {
        assert g[j].value != FromVal(d);
      }
    }
  }

  /** A partial grid has no conflicts: zeros never clash and the prefix is conflict-free. */
  lemma PartialHasNoConflicts(g: seq<Cell>, n: int)
    requires WellFormed(g) && 0 <= n <= 81 && Partial(g, n)
    ensures Conflicts(g) == []
  {
    forall k | 0 <= k < 81 && g[k].value != 0
      ensures IsValid(g[k], g)
    {
      forall p | p in g[k].neighbors && p != Point(g[k].x, g[k].y)
        ensures At(g, p.x, p.y).Some? && At(g, p.x, p.y).value.value != g[k].value
      {
        NeighborsInGrid(g[k].x, g[k].y, p);
        AtLaidOut(g, p.x, p.y);
        var j := Pos(p);
        assert Adjacent(j, k);
        AdjacentSymmetric(j, k);
        PosOfPointOf(k);
      }
    }
    NoConflicts(g);
  }

  /**
   * When every position after 0 holds 0, position 0 has a candidate: its neighbours
   * other than itself rule out nothing, its own value at most one digit.
   */
  lemma FirstCellHasCandidate(g: seq<Cell>) returns (d: Value)
    requires WellFormed(g)
    requires forall k :: 0 < k < 81 ==> g[k].value == 0
    ensures d in Candidates(g, 0)
  {
    d := if g[0].value == 1 then Two else One;
    CandidatesExact(g, 0, d);
  }

  /**
   * After the first iteration, position 0 always has a choice: its candidates are
   * nonempty and its memo entry stays empty through the reset.
   */
  lemma FirstChoiceExists(g: seq<Cell>, reset: Memo)
    requires WellFormed(g) && ZeroAfter(g, 0) && FirstEntryEmpty(reset)
    ensures exists d :: d in Candidates(g, 0) && !(0 in reset && d in reset[0])
  {
    var d := FirstCellHasCandidate(g);
  }

  /** The number of nonzero values among the first m positions. */
  function CountBelow(g: seq<Cell>, m: int): (n: nat)
    requires 0 <= m <= |g|
    ensures n <= m
  {
    if m == 0 then 0 else CountBelow(g, m - 1) + (if g[m - 1].value != 0 then 1 else 0)
  }

  /** The number of clues: cells holding a nonzero value. */
  function NonzeroCount(g: seq<Cell>): (n: nat)
    ensures n <= |g|
  {
    CountBelow(g, |g|)
  }

  /** Clearing one nonzero cell lowers the count by one. */
  lemma {:induction false} CountBelowClear(g: seq<Cell>, k: int, m: int)
    requires 0 <= k < |g| && g[k].value != 0 && 0 <= m <= |g|
    ensures CountBelow(g[k := g[k].(value := 0)], m) == CountBelow(g, m) - (if k < m then 1 else 0)
  {
    if m > 0 {
      CountBelowClear(g, k, m - 1);
    }
  }

  /** Some cell is nonzero when the count is. */
  lemma {:induction false} CountBelowWitness(g: seq<Cell>, m: int) returns (k: int)
    requires 0 <= m <= |g| && CountBelow(g, m) > 0
    ensures 0 <= k < m && g[k].value != 0
  {
    if g[m - 1].value != 0 {
      k := m - 1;
    } else {
      k := CountBelowWitness(g, m - 1);
    }
  }

  /** A partial grid with cursor n holds exactly n clues. */
  lemma {:induction false} CountBelowPartial(g: seq<Cell>, n: int, m: int)
    requires |g| == 81 && 0 <= n <= 81 && Partial(g, n) && 0 <= m <= 81
    ensures CountBelow(g, m) == if m <= n then m else n
  {
    if m > 0 {
      CountBelowPartial(g, n, m - 1);
    }
  }

  lemma PartialCount(g: seq<Cell>, n: int)
    requires |g| == 81 && 0 <= n <= 81 && Partial(g, n)
    ensures NonzeroCount(g) == n
  {
    CountBelowPartial(g, n, 81);
  }

  /** A solved grid holds 81 clues. */
  lemma SolvedCount(g: seq<Cell>)
    requires Solved(g)
    ensures NonzeroCount(g) == 81
  {
    PartialCount(g, 81);
  }

  /**
   * The memo half of the reset loop of `generate`: the entries that exist for
   * positions i+1..81 are emptied, the others kept.
   */
  method ResetMemo(memo: Memo, i: int) returns (memo': Memo)
    requires 0 <= i <= 81
    ensures memo' == ResetBetween(memo, i, 81)
    ensures memo'.Keys == memo.Keys
    ensures forall k :: k in memo ==> memo'[k] == if i < k <= 81 then [] else memo[k]
  {
    memo' := memo;
    var xi := i;
    while xi < 81
      invariant i <= xi <= 81
      invariant memo' == ResetBetween(memo, i, xi)
    {
      xi := xi + 1;
      if xi in memo' {
        memo' := memo'[xi := []];
      }
    }
    ResetBetweenEntries(memo, i, 81);
  }

  /** memo with the entries of positions lo+1..hi emptied, one position after the other. */
  function ResetBetween(memo: Memo, lo: int, hi: int): Memo
    decreases hi - lo
  {
    if hi <= lo then memo
    else
      var m := ResetBetween(memo, lo, hi - 1);
      if hi in m then m[hi := []] else m
  }

  /** The reset keeps every key and empties exactly the entries of lo+1..hi. */
  lemma {:induction false} ResetBetweenEntries(memo: Memo, lo: int, hi: int)
    ensures ResetBetween(memo, lo, hi).Keys == memo.Keys
    ensures forall k :: k in memo ==> ResetBetween(memo, lo, hi)[k] == if lo < k <= hi then [] else memo[k]
    decreases hi - lo
  {
    if hi > lo {
      ResetBetweenEntries(memo, lo, hi - 1);
    }
  }

  /**
   * The memo after a choice at cursor i from the reset memo `reset`: the entry of i
   * is created empty when it was absent and the snapshot offered a candidate.
   */
  function ChoiceMemo(reset: Memo, i: int, offered: bool): Memo
  {
    if i !in reset && offered then reset[i := []] else reset
  }

  /**
   * The `for n in set` loop of `generate`: the candidates not ruled out in memo[i].
   * memo[i] is created empty the first time a candidate meets an absent entry.
   */
  method FilterNoGoods(candidates: set<Value>, memo: Memo, i: int) returns (v: set<Value>, memo': Memo)
    ensures forall n :: n in v <==> n in candidates && !(i in memo && n in memo[i])
    ensures memo' == if i !in memo && candidates != {} then memo[i := []] else memo
  {
    v := {};
    memo' := memo;
    var rest := candidates;
    while rest != {}
      invariant rest <= candidates
      invariant forall n :: n in v <==> n in candidates - rest && !(i in memo && n in memo[i])
      invariant memo' == if i !in memo && rest != candidates then memo[i := []] else memo
      decreases rest
    {
      var n :| n in rest;
      if i in memo' {
        if n !in memo'[i] {
          v := v + {n};
        }
      } else {
        v := v + {n};
        memo' := memo'[i := []];
      }
      rest := rest - {n};
    }
  }

  /**
   * The dead-end branch of `generate` at cursor i: the previous position's value, when
   * it is a digit, becomes a no-good for that position. An existing entry is only
   * extended when i > 1, so the entry for position 0 never grows.
   */
  method RecordDeadEnd(memo: Memo, i: int, last: u8) returns (memo': Memo)
    requires i >= 1
    ensures DeadEndRecorded(memo, memo', i, last)
  {
    memo' := memo;
    if i - 1 in memo {
      if i > 1 {
        var moves := memo[i - 1];
        if ToVal(last) != Unknown {
          moves := moves + [ToVal(last)];
        }
        memo' := memo[i - 1 := moves];
      }
    } else if ToVal(last) != Unknown {
      memo' := memo[i - 1 := [ToVal(last)]];
    }
  }

  /**
   * memo' is memo after a dead end at cursor i whose previous position held `last`:
   * only the entry of i-1 changes; an existing one gains the digit (not at i = 1), a
   * missing one is created holding it.
   */
  ghost predicate DeadEndRecorded(memo: Memo, memo': Memo, i: int, last: u8)
  {
    && (forall k :: k != i - 1 ==> (k in memo' <==> k in memo) && (k in memo ==> memo'[k] == memo[k]))
    && (i - 1 in memo ==>
      i - 1 in memo' && memo'[i - 1] == memo[i - 1] + (if i > 1 && ToVal(last) != Unknown then [ToVal(last)] else []))
    && (i - 1 !in memo ==> memo' == if ToVal(last) != Unknown then memo[i - 1 := [ToVal(last)]] else memo)
  }

  /** What `possible_values` returns for position i with no extra values is its candidate set. */
  lemma ValuesAreCandidates(g: seq<Cell>, i: int, r: set<Value>)
    requires 0 <= i < |g|
    requires forall v :: v in r <==> IsDigit(v) && v !in {} && v !in NeighborValues(g, g[i].neighbors)
    ensures r == Candidates(g, i)
  {
  }

  /**
   * The choice step of `generate`: the candidates of position i in the snapshot, less
   * the no-goods of memo[i]. The shuffle followed by `get(0)` is a free choice among
   * them, `None` when none is left.
   */
  method Choose(snapshot: seq<Cell>, cell: Cell, i: int, memo: Memo) returns (choice: Option<Value>, memo': Memo)
    requires WellFormed(snapshot) && 0 <= i < 81 && cell.neighbors == snapshot[i].neighbors
    ensures choice.Some? ==> choice.value in Candidates(snapshot, i) && !(i in memo && choice.value in memo[i])
    ensures choice.None? ==> forall d :: d in Candidates(snapshot, i) ==> i in memo && d in memo[i]
    ensures memo' == ChoiceMemo(memo, i, Candidates(snapshot, i) != {})
  {
    WellFormedResolvable(snapshot, i);
    var vals: set<Value> := {};
    var candidates := PossibleValues(snapshot, cell, vals);
    ValuesAreCandidates(snapshot, i, candidates);
    var v;
    v, memo' := FilterNoGoods(candidates, memo, i);
    if v != {} {
      var num :| num in v;
      choice := Some(num);
    } else {
      choice := None;
    }
  }

  /**
   * The reset loop, then the choice, of one pass of `generate` at cursor i. The empty
   * entry of position 0 survives both, and the first pass creates it; with that entry
   * present and every position after 0 empty, position 0 always gets a value.
   */
  method ResetAndChoose(snapshot: seq<Cell>, cell: Cell, i: int, memo: Memo) returns (choice: Option<Value>, memo': Memo)
    requires WellFormed(snapshot) && 0 <= i < 81 && cell.neighbors == snapshot[i].neighbors
    ensures choice.Some? ==> choice.value in Candidates(snapshot, i)
    ensures choice.Some? ==> i in memo' && choice.value !in memo'[i]
    ensures choice.Some? ==> !(i in memo && choice.value in memo[i])
    ensures choice.None? ==> forall d :: d in Candidates(snapshot, i) ==> i in memo && d in memo[i]
    ensures memo' == ChoiceMemo(ResetBetween(memo, i, 81), i, Candidates(snapshot, i) != {})
    ensures FirstEntryEmpty(memo) ==> FirstEntryEmpty(memo')
    ensures i == 0 && memo == map[] && choice.Some? ==> FirstEntryEmpty(memo')
    ensures i == 0 && FirstEntryEmpty(memo) && ZeroAfter(snapshot, 0) ==> choice.Some?
  {
    var reset := ResetMemo(memo, i);
    choice, memo' := Choose(snapshot, cell, i, reset);
    if FirstEntryEmpty(memo) {
      assert reset[0] == memo[0];
      assert memo'[0] == reset[0];
      if i == 0 && ZeroAfter(snapshot, 0) {
        FirstChoiceExists(snapshot, reset);
      }
    } else if i == 0 && memo == map[] && choice.Some? {
      assert memo' == map[][0 := []];
    }
  }

  /**
   * The state of the clearing loop of `make_puzzle` with counter i: the layout and the
   * clues of the filled grid orig are kept or zeroed, and 81 - i clues are gone.
   */
  ghost predicate ClearingHead(orig: seq<Cell>, g: seq<Cell>, i: int, remaining: int) {
    && WellFormed(orig) && WellFormed(g) && SameLayout(orig, g)
    && (forall k :: 0 <= k < 81 ==> g[k].value == orig[k].value || g[k].value == 0)
    && NonzeroCount(g) == NonzeroCount(orig) - (81 - i)
    && (remaining < 81 ==> NonzeroCount(orig) >= 81 - remaining)
  }

  /** Zeroing one clue while the counter is above remaining keeps the loop state. */
  lemma ClearStep(orig: seq<Cell>, g: seq<Cell>, idx: int, i: int, remaining: int)
    requires ClearingHead(orig, g, i, remaining) && 0 <= idx < 81 && g[idx].value != 0
    ensures ClearingHead(orig, g[idx := g[idx].(value := 0)], i - 1, remaining)
  {
    var h := g[idx := g[idx].(value := 0)];
    CountBelowClear(g, idx, 81);
    assert SameLayout(orig, h) by {
      forall k | 0 <= k < 81
        ensures h[k] == orig[k].(value := h[k].value)
      {
        assert g[k] == orig[k].(value := g[k].value);
      }
    }
    SameLayoutWellFormed(orig, h);
  }

  /** The pushes of `Graph::new`: x outer, y inner, value 0, no neighbours yet. */
  method PushCells() returns (v: seq<Cell>)
    ensures LaidOut(v)
    ensures forall k :: 0 <= k < 81 ==> v[k].value == 0 && !v[k].mutable && v[k].neighbors == {}
  {
    v := [];
    for x := 1 to 10
      invariant |v| == 9 * (x - 1)
      invariant forall k :: 0 <= k < |v| ==> v[k] == Cell(PointOf(k).x, PointOf(k).y, 0, false, {})
    {
      for y := 1 to 10
        invariant |v| == 9 * (x - 1) + (y - 1)
        invariant forall k :: 0 <= k < |v| ==> v[k] == Cell(PointOf(k).x, PointOf(k).y, 0, false, {})
      {
        assert PointOf(|v|) == Point(x as u8, y as u8) by {
          assert Pos(Point(x as u8, y as u8)) == |v|;
        }
        v := v + [Cell(x as u8, y as u8, 0, false, {})];
      }
    }
  }

  /** The second loop of `Graph::new`: every cell gets its `neighbors_for` set. */
  method SetNeighbors(a: array<Cell>)
    requires LaidOut(a[..])
    modifies a
    ensures forall k :: 0 <= k < 81 ==> a[k] == old(a[k]).(neighbors := Neighbors(old(a[k]).x, old(a[k]).y))
    ensures WellFormed(a[..])
  {
    ghost var g := a[..];
    for k := 0 to 81
      invariant forall j :: 0 <= j < 81 ==>
        a[j] == if j < k then g[j].(neighbors := Neighbors(g[j].x, g[j].y)) else g[j]
    {
      var nb := NeighborsFor(a[k]);
      a[k] := a[k].(neighbors := nb);
    }
    NeighborsSetWellFormed(g, a[..]);
  }

  lemma NeighborsSetWellFormed(g: seq<Cell>, h: seq<Cell>)
    requires LaidOut(g) && |h| == 81
    requires forall k :: 0 <= k < 81 ==> h[k] == g[k].(neighbors := Neighbors(g[k].x, g[k].y))
    ensures WellFormed(h)
  {
  }

  class Graph {
    /** The cell vector; position k holds the cell at PointOf(k). */
    var cells: array<Cell>

    ghost predicate Valid()
      reads this, cells
    {
      WellFormed(cells[..])
    }

    /**
     * `Graph::new`: pushes the 81 cells x-major with value 0 and no neighbours, then
     * sets every cell's neighbour set.
     */
    constructor ()
      ensures Valid() && fresh(cells)
      ensures forall k :: 0 <= k < 81 ==> cells[k].value == 0 && !cells[k].mutable
    {
      var v := PushCells();
      var a := new Cell[81](k requires 0 <= k < 81 => v[k]);
      assert a[..] == v;
      SetNeighbors(a);
      cells := a;
    }

    /**
     * The cell half of the reset loop of `generate`: every position from i on holds 0.
     * The source interleaves both halves in one loop; they touch disjoint state.
     */
    method ClearFrom(i: int)
      requires Valid() && 0 <= i <= 81
      modifies cells
      ensures Valid()
      ensures cells[..] == ClearedFrom(old(cells[..]), i)
    {
      var xi := i;
      while xi < 81
        invariant i <= xi <= 81
        invariant forall k :: 0 <= k < 81 ==>
          cells[k] == if i <= k < xi then old(cells[k]).(value := 0) else old(cells[k])
      {
        cells[xi] := cells[xi].(value := 0);
        xi := xi + 1;
      }
      SameLayoutWellFormed(old(cells[..]), cells[..]);
    }

    /** `cell.value = v` through the `&mut Cell` of position i. */
    method SetValue(i: int, v: u8)
      requires Valid() && 0 <= i < 81
      modifies cells
      ensures Valid()
      ensures cells[..] == old(cells[..])[i := old(cells[i]).(value := v)]
    {
      cells[i] := cells[i].(value := v);
      SameLayoutWellFormed(old(cells[..]), cells[..]);
    }

    /**
     * The head of an iteration of `generate`: the snapshot `self.clone()`, the reset
     * loop, then the choice for position i from the snapshot and the memo.
     */
    method Prepare(i: int, memo: Memo, ghost orig: seq<Cell>, ghost started: bool)
      returns (snapshot: seq<Cell>, cell: Cell, choice: Option<Value>, memo': Memo)
      requires Valid() && 0 <= i < 81 && LoopHead(orig, cells[..], i, memo, started)
      modifies cells
      ensures Valid() && snapshot == old(cells[..])
      ensures cells[..] == ClearedFrom(snapshot, i) && cell == cells[i]
      ensures choice.Some? ==> choice.value in Candidates(snapshot, i)
      ensures choice.Some? ==> i in memo' && choice.value !in memo'[i]
      ensures choice.Some? ==> !(i in memo && choice.value in memo[i])
      ensures choice.None? ==> forall d :: d in Candidates(snapshot, i) ==> i in memo && d in memo[i]
      ensures memo' == ChoiceMemo(ResetBetween(memo, i, 81), i, Candidates(snapshot, i) != {})
      ensures started || choice.Some? ==> FirstEntryEmpty(memo')
      ensures choice.None? && i == 0 ==> !started && Candidates(snapshot, 0) == {}
    {
      snapshot := cells[..];
      ClearFrom(i);
      ghost var cleared := cells[..];
      ClearedFromFacts(snapshot, i);
      cell := cells[i];
      assert cell == cleared[i] == snapshot[i].(value := 0);
      choice, memo' := ResetAndChoose(snapshot, cell, i, memo);
    }

    /**
     * The `Some(num)` arm of `generate` and the `is_valid` test after it: the choice
     * is written into the cell at i and, passing `is_valid` against the snapshot, moves
     * the cursor on. The arm that zeroes the cell and restarts at 1 is never taken.
     */
    method Place(i: int, num: Value, cell: Cell, snapshot: seq<Cell>,
                 ghost orig: seq<Cell>, ghost before: Memo, ghost started: bool, ghost memo: Memo)
      returns (next: int)
      requires Valid() && WellFormed(snapshot) && LoopHead(orig, snapshot, i, before, started)
      requires i < 81 && cells[..] == ClearedFrom(snapshot, i) && cell == cells[i]
      requires num in Candidates(snapshot, i) && FirstEntryEmpty(memo)
      modifies cells
      ensures Valid() && LoopHead(orig, cells[..], next, memo, true) && next == i + 1
      ensures cells[..] == old(cells[..])[i := old(cells[i]).(value := FromVal(num))]
    {
      ghost var cleared := cells[..];
      ClearedFromFacts(snapshot, i);
      CandidateIsValid(snapshot, cell, num);
      var placed := cell.(value := FromVal(num));
      SetValue(i, FromVal(num));
      ForwardStep(orig, snapshot, i, before, started, memo, num, cleared, cells[..]);
      if IsValid(placed, snapshot) {
        next := i + 1;
      } else {
        assert false;
      }
    }

    /**
     * The dead-end branch of `generate`: the value of position i-1 becomes a no-good
     * of i-1 (unless i is 1 and the entry exists), and the cursor steps back.
     */
    method Backtrack(i: int, memo: Memo, ghost orig: seq<Cell>, ghost graph: seq<Cell>, ghost before: Memo,
                     ghost started: bool) returns (memo': Memo)
      requires Valid() && 0 < i < 81 && FirstEntryEmpty(memo)
      requires LoopHead(orig, graph, i, before, started) && cells[..] == ClearedFrom(graph, i)
      ensures LoopHead(orig, cells[..], i - 1, memo', true) && Partial(cells[..], i)
      ensures DeadEndRecorded(memo, memo', i, cells[i - 1].value)
    {
      var last := cells[i - 1];
      memo' := RecordDeadEnd(memo, i, last.value);
      if i == 1 {
        assert memo'[0] == memo[0] + [];
      }
      BackStep(orig, graph, i, before, started, memo', cells[..]);
    }

    /**
     * One pass of the body of the `generate` loop at cursor i: snapshot, reset, choice,
     * then either a placement or a step back. stop is set, and exit says why, when the
     * loop ends here: a panic at position 0 or the depth cap.
     */
    method Iterate(i: int, depth: int, memo: Memo, ghost orig: seq<Cell>, ghost started: bool)
      returns (i': int, depth': int, memo': Memo, stop: bool, ghost choice: Option<Value>, ghost exit: Exit)
      requires Valid() && 0 <= depth < MaxDepth && i < 81 && LoopHead(orig, cells[..], i, memo, started)
      modifies cells
      ensures Valid() && (stop <==> !exit.Completed?)
      ensures exit.Completed? ==>
        && 0 <= depth' < MaxDepth && LoopHead(orig, cells[..], i', memo', true)
        && (depth < depth' || (depth == depth' && i < i' <= 81))
      ensures exit.DepthCapped? ==>
        SameLayout(orig, cells[..]) && 0 < exit.filled <= 81 && Partial(cells[..], exit.filled)
      ensures exit.Panicked? ==>
        SameLayout(orig, cells[..]) && Candidates(orig, 0) == {} && Partial(cells[..], 0)
      ensures choice.Some? ==>
        && exit.Completed? && i' == i + 1 && depth' == depth
        && choice.value in Candidates(old(cells[..]), i) && !(i in memo && choice.value in memo[i])
        && cells[..] == ClearedFrom(old(cells[..]), i)[i := old(cells[i]).(value := FromVal(choice.value))]
      ensures choice.None? ==>
        && cells[..] == ClearedFrom(old(cells[..]), i)
        && (forall d :: d in Candidates(old(cells[..]), i) ==> i in memo && d in memo[i])
        && (i == 0 ==> exit.Panicked? && i' == i && depth' == depth)
        && (i > 0 ==> i' == i - 1 && depth' == depth + 1 && (exit.Completed? <==> depth' < MaxDepth))
    {
      ghost var memo0 := memo;
      var snapshot, cell, chosen;
      snapshot, cell, chosen, memo' := Prepare(i, memo, orig, started);
      choice := chosen;
      depth' := depth;
      stop := false;
      exit := Completed;
      if chosen.Some? {
        i' := Place(i, chosen.value, cell, snapshot, orig, memo0, started, memo');
      } else if i == 0 {
        PanicState(orig, snapshot, memo0, started, cells[..]);
        i' := i;
        stop := true;
        exit := Panicked;
      } else {
        memo' := Backtrack(i, memo', orig, snapshot, memo0, started);
        i' := i - 1;
        depth' := depth + 1;
        if depth' >= MaxDepth {
          stop := true;
          exit := DepthCapped(i);
        }
      }
    }

    /**
     * `generate`: chronological backtracking over the vector positions. Position i
     * takes a random candidate from the snapshot taken before the reset, minus the
     * values its memo entry rules out; a dead end records the previous position's
     * value as a no-good for it and steps back.
     */
    method Generate() returns (ghost exit: Exit)
      requires Valid()
      modifies cells
      ensures Valid() && SameLayout(old(cells[..]), cells[..])
      ensures exit.Completed? ==> Solved(cells[..])
      ensures exit.DepthCapped? ==> 0 < exit.filled <= 81 && Partial(cells[..], exit.filled)
      ensures exit.Panicked? ==> Candidates(old(cells[..]), 0) == {} && Partial(cells[..], 0)
    {
      ghost var orig := cells[..];
      var depth := 0;
      var i := 0;
      var memo: Memo := map[];
      ghost var started := false;
      while i < 81
        invariant Valid() && 0 <= depth < MaxDepth
        invariant LoopHead(orig, cells[..], i, memo, started)
        decreases MaxDepth - depth, 81 - i
      {
        var stop;
        ghost var choice;
        i, depth, memo, stop, choice, exit := Iterate(i, depth, memo, orig, started);
        if stop {
          return;
        }
        started := true;
      }
      exit := Completed;
      HeadAtEnd(orig, cells[..], memo, started);
    }

    /**
     * The clearing loop of `make_puzzle`: while the counter, starting at 81, exceeds
     * remaining, a nonzero cell is set to 0 and the counter drops.
     */
    method ClearClues(remaining: u8)
      requires Valid()
      requires remaining >= 81 || NonzeroCount(cells[..]) >= 81 - remaining as int
      modifies cells
      ensures Valid() && SameLayout(old(cells[..]), cells[..])
      ensures forall k :: 0 <= k < 81 ==> cells[k].value == old(cells[k].value) || cells[k].value == 0
      ensures remaining >= 81 ==> cells[..] == old(cells[..])
      ensures NonzeroCount(cells[..]) ==
        if remaining >= 81 then old(NonzeroCount(cells[..])) else old(NonzeroCount(cells[..])) - (81 - remaining as int)
    {
      ghost var orig := cells[..];
      var i: u8 := 81;
      while i > remaining
        invariant ClearingHead(orig, cells[..], i as int, remaining as int)
        invariant remaining <= i <= 81 || (i == 81 && remaining >= 81)
        invariant remaining >= 81 ==> cells[..] == orig
        decreases i
      {
        ghost var before := cells[..];
        ghost var w := CountBelowWitness(before, 81);
        var idx :| 0 <= idx < 81 && cells[idx].value != 0;
        cells[idx] := cells[idx].(value := 0);
        assert cells[..] == before[idx := before[idx].(value := 0)];
        ClearStep(orig, before, idx, i as int, remaining as int);
        i := i - 1;
      }
    }

    /**
     * `make_puzzle(remaining_clues)`: a new graph, filled by `generate`, with clues
     * cleared until remaining_clues are left. ok is false when the filled grid holds
     * too few clues for the clearing loop to stop; there the source loops forever and
     * the graph is returned as `generate` left it.
     */
    static method MakePuzzle(remaining: u8) returns (g: Graph, ghost solution: seq<Cell>, ghost exit: Exit, ghost ok: bool)
      ensures fresh(g.cells) && g.Valid() && WellFormed(solution)
      ensures !exit.Panicked?
      ensures exit.Completed? ==> Solved(solution) && ok
      ensures exit.DepthCapped? ==> NonzeroCount(solution) == exit.filled
      ensures ok <==> remaining >= 81 || NonzeroCount(solution) >= 81 - remaining as int
      ensures ok ==> NonzeroCount(g.cells[..]) == if remaining >= 81 then NonzeroCount(solution) else NonzeroCount(solution) - (81 - remaining as int)
      ensures exit.Completed? && remaining <= 81 ==> NonzeroCount(g.cells[..]) == remaining as int
      ensures !ok ==> g.cells[..] == solution
      ensures forall k :: 0 <= k < 81 ==>
        && g.cells[k] == solution[k].(value := g.cells[k].value)
        && (g.cells[k].value == solution[k].value || g.cells[k].value == 0)
        && !g.cells[k].mutable
      ensures Conflicts(g.cells[..]) == []
    {
      g := new Graph();
      ghost var d := FirstCellHasCandidate(g.cells[..]);
      exit := g.Generate();
      solution := g.cells[..];
      if exit.Completed? {
        SolvedCount(solution);
        PartialHasNoConflicts(solution, 81);
      } else {
        PartialCount(solution, exit.filled);
        PartialHasNoConflicts(solution, exit.filled);
      }
      if remaining >= 81 || NonzeroCount(g.cells[..]) >= 81 - remaining as int {
        g.ClearClues(remaining);
        ok := true;
        ClearingKeepsNoConflicts(solution, g.cells[..]);
      } else {
        ok := false;
      }
    }
  }
}
