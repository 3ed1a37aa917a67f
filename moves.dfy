/** The moves out of a grid state (swap_puzzle/grid.py, nextperm and
    adj_grids): the cells a tile can be swapped with, the keys of the states
    one swap away, and the order-preserving removal of repeated keys. */
module Moves {
  import opened Common
  import opened GridState
  import opened StateKey

  /** The cell nextperm tries t-th for (i, j): below, above, right, left. */
  function Candidate(i: int, j: int, t: nat): Cell {
    if t == 0 then (i + 1, j) else if t == 1 then (i - 1, j) else if t == 2 then (i, j + 1) else (i, j - 1)
  }

  /** The bound test nextperm makes before trying its t-th cell. */
  predicate Offered(i: int, j: int, m: nat, n: nat, t: nat) {
    if t == 0 then i < m - 1 else if t == 1 then i > 0 else if t == 2 then j < n - 1 else j > 0
  }

  /** The cells that pass the first t tests, in order. */
  function CellsUpTo(i: int, j: int, m: nat, n: nat, t: nat): seq<Cell> {
    if t == 0 then []
    else CellsUpTo(i, j, m, n, t - 1) + (if Offered(i, j, m, n, t - 1) then [Candidate(i, j, t - 1)] else [])
  }

  /** The cells next to (i, j) inside an m x n grid, in the order nextperm
      tries them. */
  function NeighbourCells(i: int, j: int, m: nat, n: nat): seq<Cell> {
    CellsUpTo(i, j, m, n, 4)
  }

  /** A cell that passes its test lies in the grid, next to (i, j). */
  lemma OfferedInBounds(i: int, j: int, m: nat, n: nat, t: nat)
    requires InBounds((i, j), m, n) && Offered(i, j, m, n, t)
    ensures InBounds(Candidate(i, j, t), m, n) && Adjacent((i, j), Candidate(i, j, t))
  {
  }

  /** The same four tests as nextperm writes them, with the row index
      compared against the column count and the column index against the
      row count. */
  function WrittenNeighbourCells(i: int, j: int, m: nat, n: nat): (r: seq<Cell>)
    ensures |r| <= 4
    ensures forall c :: c in r ==> Adjacent((i, j), c)
  {
    (if i < n - 1 then [(i + 1, j)] else [])
    + (if i > 0 then [(i - 1, j)] else [])
    + (if j < m - 1 then [(i, j + 1)] else [])
    + (if j > 0 then [(i, j - 1)] else [])
  }

  /** The four tests written out. */
  lemma NeighbourCellsUnfold(i: int, j: int, m: nat, n: nat)
    ensures NeighbourCells(i, j, m, n) ==
      (if i < m - 1 then [(i + 1, j)] else [])
      + (if i > 0 then [(i - 1, j)] else [])
      + (if j < n - 1 then [(i, j + 1)] else [])
      + (if j > 0 then [(i, j - 1)] else [])
  {
    var c0, c1, c2 := CellsUpTo(i, j, m, n, 1), CellsUpTo(i, j, m, n, 2), CellsUpTo(i, j, m, n, 3);
    assert CellsUpTo(i, j, m, n, 0) == [];
    assert c0 == [] + if i < m - 1 then [(i + 1, j)] else [];
    assert c1 == c0 + if i > 0 then [(i - 1, j)] else [];
    assert c2 == c1 + if j < n - 1 then [(i, j + 1)] else [];
  }

  /** The cells offered for (i, j) are exactly the legal swap partners: the
      cells of the grid at distance 1. */
  lemma NeighbourCellsExact(i: int, j: int, m: nat, n: nat, c: Cell)
    requires InBounds((i, j), m, n)
    ensures c in NeighbourCells(i, j, m, n) <==> InBounds(c, m, n) && Adjacent((i, j), c)
  {
    NeighbourCellsUnfold(i, j, m, n);
  }

  /** No cell is offered twice. */
  lemma NeighbourCellsDistinct(i: int, j: int, m: nat, n: nat)
    ensures NoDup(NeighbourCells(i, j, m, n))
  {
    NeighbourCellsUnfold(i, j, m, n);
  }

  /** As written, nextperm makes the tests of the transposed n x m grid. */
  lemma WrittenIsTransposed(i: int, j: int, m: nat, n: nat)
    ensures WrittenNeighbourCells(i, j, m, n) == NeighbourCells(i, j, n, m)
  {
    NeighbourCellsUnfold(i, j, n, m);
  }

  /** So on a square grid the bounds as written are the intended ones. */
  lemma WrittenSquareAgrees(i: int, j: int, n: nat)
    ensures WrittenNeighbourCells(i, j, n, n) == NeighbourCells(i, j, n, n)
  {
    WrittenIsTransposed(i, j, n, n);
  }

  /** On a 3 x 2 grid the written bounds never offer the legal move from
      (1, 0) down to (2, 0). */
  lemma WrittenMissesMove()
    ensures InBounds((2, 0), 3, 2) && Adjacent((1, 0), (2, 0))
    ensures (2, 0) !in WrittenNeighbourCells(1, 0, 3, 2)
  {
  }

  /** On a 2 x 3 grid the written bounds offer (2, 0), a row the grid does not
      have, so the swap from (1, 0) would index past the last row. */
  lemma WrittenLeavesGrid()
    ensures InBounds((1, 0), 2, 3) && (2, 0) in WrittenNeighbourCells(1, 0, 2, 3)
    ensures !InBounds((2, 0), 2, 3)
  {
    assert WrittenNeighbourCells(1, 0, 2, 3)[0] == (2, 0);
  }

  /** The key (Grid.id of the flattening) of the state reached by swapping
      c1 and c2. */
  function SwapKey(s: State, m: nat, n: nat, c1: Cell, c2: Cell): int
    requires CellOf(s, c1) && CellOf(s, c2)
  {
    KeySum(Flat(SwapCells(s, c1, c2)), m * n + 1)
  }

  /** key is the key of a state reached from s by one legal swap. */
  ghost predicate OneSwapAway(s: State, m: nat, n: nat, key: int)
    requires Shaped(s, m, n)
  {
    exists c1: Cell, c2: Cell :: InBounds(c1, m, n) && InBounds(c2, m, n) && Adjacent(c1, c2)
      && key == SwapKey(s, m, n, c1, c2)
  }

  /** Everything the cell helpers need from a shaped state. */
  lemma ShapedCells(s: State, m: nat, n: nat, i: int, j: int)
    requires Shaped(s, m, n) && InBounds((i, j), m, n)
    ensures CellOf(s, (i, j))
    ensures forall c :: c in NeighbourCells(i, j, m, n) ==> CellOf(s, c)
  {
    forall c | c in NeighbourCells(i, j, m, n)
      ensures CellOf(s, c)
    {
      NeighbourCellsExact(i, j, m, n, c);
    }
  }

  /** What nextperm returns: the keys of the states one swap of (i, j) away,
      in the order of NeighbourCells. */
  function NeighbourKeys(s: State, m: nat, n: nat, i: int, j: int): (r: seq<int>)
    requires Shaped(s, m, n) && InBounds((i, j), m, n)
    ensures |r| == |NeighbourCells(i, j, m, n)|
  {
    ShapedCells(s, m, n, i, j);
    var cs := NeighbourCells(i, j, m, n);
    seq(|cs|, k requires 0 <= k < |cs| => SwapKey(s, m, n, (i, j), cs[k]))
  }

  /** The flattenings of s with (i, j) swapped with each cell that passes
      one of the first t tests. */
  function FlatsUpTo(s: State, m: nat, n: nat, i: int, j: int, t: nat): (r: seq<seq<int>>)
    requires Shaped(s, m, n) && InBounds((i, j), m, n)
    ensures |r| == |CellsUpTo(i, j, m, n, t)|
  {
    if t == 0 then []
    else if Offered(i, j, m, n, t - 1) then
      OfferedInBounds(i, j, m, n, t - 1);
      FlatsUpTo(s, m, n, i, j, t - 1) + [Flat(SwapCells(s, (i, j), Candidate(i, j, t - 1)))]
    else FlatsUpTo(s, m, n, i, j, t - 1)
  }

  /** Entry k of FlatsUpTo belongs to entry k of CellsUpTo. */
  lemma {:induction false} FlatsUpToAt(s: State, m: nat, n: nat, i: int, j: int, t: nat, k: nat)
    requires Shaped(s, m, n) && InBounds((i, j), m, n) && k < |CellsUpTo(i, j, m, n, t)|
    ensures InBounds(CellsUpTo(i, j, m, n, t)[k], m, n) && Adjacent((i, j), CellsUpTo(i, j, m, n, t)[k])
    ensures CellOf(s, (i, j)) && CellOf(s, CellsUpTo(i, j, m, n, t)[k])
    ensures FlatsUpTo(s, m, n, i, j, t)[k] == Flat(SwapCells(s, (i, j), CellsUpTo(i, j, m, n, t)[k]))
  {
    if k < |CellsUpTo(i, j, m, n, t - 1)| {
      FlatsUpToAt(s, m, n, i, j, t - 1, k);
    } else {
      OfferedInBounds(i, j, m, n, t - 1);
    }
  }

  /** A test that passes appends the flattening of the swap with its cell. */
  lemma FlatsGrow(s: State, m: nat, n: nat, i: int, j: int, t: nat, swaps: seq<seq<int>>, l: seq<int>)
    requires Shaped(s, m, n) && InBounds((i, j), m, n) && swaps == FlatsUpTo(s, m, n, i, j, t)
    requires Offered(i, j, m, n, t) && CellOf(s, Candidate(i, j, t))
    requires l == Flat(SwapCells(s, (i, j), Candidate(i, j, t)))
    ensures swaps + [l] == FlatsUpTo(s, m, n, i, j, t + 1)
  {
  }

  /** A test that fails adds nothing. */
  lemma FlatsSkip(s: State, m: nat, n: nat, i: int, j: int, t: nat, swaps: seq<seq<int>>)
    requires Shaped(s, m, n) && InBounds((i, j), m, n) && swaps == FlatsUpTo(s, m, n, i, j, t)
    requires !Offered(i, j, m, n, t)
    ensures swaps == FlatsUpTo(s, m, n, i, j, t + 1)
  {
  }

  /** Keying the flattenings of the moves of (i, j) gives NeighbourKeys. */
  lemma KeysOfMoves(s: State, m: nat, n: nat, i: int, j: int, swaps: seq<seq<int>>)
    requires Shaped(s, m, n) && InBounds((i, j), m, n)
    requires swaps == FlatsUpTo(s, m, n, i, j, 4)
    ensures NeighbourKeys(s, m, n, i, j) == seq(|swaps|, k requires 0 <= k < |swaps| => KeySum(swaps[k], m * n + 1))
  {
    var ks := NeighbourKeys(s, m, n, i, j);
    assert |ks| == |swaps|;
    forall k | 0 <= k < |swaps|
      ensures ks[k] == KeySum(swaps[k], m * n + 1)
    {
      FlatsUpToAt(s, m, n, i, j, 4, k);
    }
  }

  /** The keys nextperm produces for the cells (i, 0) .. (i, j - 1), in order. */
  function RowKeys(s: State, m: nat, n: nat, i: nat, j: nat): seq<int>
    requires Shaped(s, m, n) && i < m && j <= n
  {
    if j == 0 then [] else RowKeys(s, m, n, i, j - 1) + NeighbourKeys(s, m, n, i, j - 1)
  }

  /** The keys nextperm produces for the rows 0 .. i - 1, in adj_grids' order. */
  function GridKeys(s: State, m: nat, n: nat, i: nat): seq<int>
    requires Shaped(s, m, n) && i <= m
  {
    if i == 0 then [] else GridKeys(s, m, n, i - 1) + RowKeys(s, m, n, i - 1, n)
  }

  /** The keys read before cell (i, j), then those of (i, j): the keys read
      before the next cell of the row. */
  lemma KeysBeforeNext(s: State, m: nat, n: nat, i: nat, j: nat)
    requires Shaped(s, m, n) && i < m && j < n
    ensures GridKeys(s, m, n, i) + RowKeys(s, m, n, i, j) + NeighbourKeys(s, m, n, i, j)
         == GridKeys(s, m, n, i) + RowKeys(s, m, n, i, j + 1)
  {
  }

  /** A row starts with nothing read from it and ends with all of it read. */
  lemma KeysRowEnds(s: State, m: nat, n: nat, i: nat)
    requires Shaped(s, m, n) && i < m
    ensures GridKeys(s, m, n, i) + RowKeys(s, m, n, i, 0) == GridKeys(s, m, n, i)
    ensures GridKeys(s, m, n, i) + RowKeys(s, m, n, i, n) == GridKeys(s, m, n, i + 1)
  {
  }

  /** The list with every repeat of an earlier entry dropped, keeping first
      occurrences in order: what adj_grids' "not in allswaps" test builds. */
  function Dedup(xs: seq<int>): (r: seq<int>)
    ensures |r| <= |xs|
  {
    if xs == [] then []
    else
      var d := Dedup(xs[..|xs| - 1]);
      if xs[|xs| - 1] in d then d else d + [xs[|xs| - 1]]
  }

  /** Dedup keeps exactly the entries of the list, each once. */
  lemma {:induction false} DedupSpec(xs: seq<int>)
    ensures NoDup(Dedup(xs))
    ensures forall x :: x in Dedup(xs) <==> x in xs
  {
    if xs != [] {
      var init := xs[..|xs| - 1];
      DedupSpec(init);
      assert xs == init + [xs[|xs| - 1]];
    }
  }

  /** Scanning one more entry of s: adj_grids' "not in allswaps" test keeps
      all equal to the repeat-free prefix read so far. */
  lemma DedupStep(before: seq<int>, s: seq<int>, t: nat, all: seq<int>)
    requires t < |s| && all == Dedup(before + s[..t])
    ensures (if s[t] in all then all else all + [s[t]]) == Dedup(before + s[..t + 1])
  {
    var xs := before + s[..t + 1];
    assert xs[..|xs| - 1] == before + s[..t];
  }

  /** A key nextperm yields for cell (i, j) with i < rows appears in GridKeys. */
  lemma GridKeysComplete(s: State, m: nat, n: nat, rows: nat, i: nat, j: nat, key: int)
    requires Shaped(s, m, n) && rows <= m && i < rows && j < n
    requires key in NeighbourKeys(s, m, n, i, j)
    ensures key in GridKeys(s, m, n, rows)
  {
    RowKeysComplete(s, m, n, i, n, j, key);
    GridKeysHasRow(s, m, n, rows, i, key);
  }

  /** A key read in row i < rows appears in GridKeys. */
  lemma {:induction false} GridKeysHasRow(s: State, m: nat, n: nat, rows: nat, i: nat, key: int)
    requires Shaped(s, m, n) && rows <= m && i < rows
    requires key in RowKeys(s, m, n, i, n)
    ensures key in GridKeys(s, m, n, rows)
  {
    var before, row := GridKeys(s, m, n, rows - 1), RowKeys(s, m, n, rows - 1, n);
    if i < rows - 1 {
      GridKeysHasRow(s, m, n, rows - 1, i, key);
    }
    InAppend(before, row, key);
  }

  /** A key nextperm yields for cell (i, j) with j < cols appears in RowKeys. */
  lemma {:induction false} RowKeysComplete(s: State, m: nat, n: nat, i: nat, cols: nat, j: nat, key: int)
    requires Shaped(s, m, n) && i < m && cols <= n && j < cols
    requires key in NeighbourKeys(s, m, n, i, j)
    ensures key in RowKeys(s, m, n, i, cols)
  {
    var before, cell := RowKeys(s, m, n, i, cols - 1), NeighbourKeys(s, m, n, i, cols - 1);
    if j < cols - 1 {
      RowKeysComplete(s, m, n, i, cols - 1, j, key);
    }
    InAppend(before, cell, key);
  }

  lemma InAppend(a: seq<int>, b: seq<int>, x: int)
    requires x in a || x in b
    ensures x in a + b
  {
  }

  /** Every key in GridKeys comes from a swap of two adjacent cells of the grid. */
  lemma {:induction false} GridKeysSound(s: State, m: nat, n: nat, rows: nat, key: int)
    requires Shaped(s, m, n) && rows <= m && key in GridKeys(s, m, n, rows)
    ensures OneSwapAway(s, m, n, key)
  {
    var before, row := GridKeys(s, m, n, rows - 1), RowKeys(s, m, n, rows - 1, n);
    assert GridKeys(s, m, n, rows) == before + row;
    if key in before {
      GridKeysSound(s, m, n, rows - 1, key);
    } else {
      RowKeysSound(s, m, n, rows - 1, n, key);
    }
  }

  lemma {:induction false} RowKeysSound(s: State, m: nat, n: nat, i: nat, cols: nat, key: int)
    requires Shaped(s, m, n) && i < m && cols <= n && key in RowKeys(s, m, n, i, cols)
    ensures OneSwapAway(s, m, n, key)
  {
    if key in RowKeys(s, m, n, i, cols - 1) {
      RowKeysSound(s, m, n, i, cols - 1, key);
    } else {
      var j := cols - 1;
      var ks := NeighbourKeys(s, m, n, i, j);
      var cs := NeighbourCells(i, j, m, n);
      var k :| 0 <= k < |ks| && ks[k] == key;
      NeighbourCellsExact(i, j, m, n, cs[k]);
      assert key == SwapKey(s, m, n, (i, j), cs[k]);
    }
  }

  /** The keys adj_grids collects are exactly the keys of the states one
      legal swap away. */
  lemma GridKeysExact(s: State, m: nat, n: nat, key: int)
    requires Shaped(s, m, n)
    ensures key in GridKeys(s, m, n, m) <==> OneSwapAway(s, m, n, key)
  {
    if key in GridKeys(s, m, n, m) {
      GridKeysSound(s, m, n, m, key);
    }
    if OneSwapAway(s, m, n, key) {
      var c1: Cell, c2: Cell :| InBounds(c1, m, n) && InBounds(c2, m, n) && Adjacent(c1, c2)
        && key == SwapKey(s, m, n, c1, c2);
      var i, j := c1.0, c1.1;
      NeighbourCellsExact(i, j, m, n, c2);
      var cs := NeighbourCells(i, j, m, n);
      var k :| 0 <= k < |cs| && cs[k] == c2;
      assert NeighbourKeys(s, m, n, i, j)[k] == key;
      GridKeysComplete(s, m, n, m, i, j, key);
    }
  }

  /** What adj_grids returns has no repeats and holds exactly the keys of the
      states one legal swap away. */
  lemma AdjKeysExact(s: State, m: nat, n: nat)
    requires Shaped(s, m, n)
    ensures NoDup(Dedup(GridKeys(s, m, n, m)))
    ensures forall key :: key in Dedup(GridKeys(s, m, n, m)) <==> OneSwapAway(s, m, n, key)
  {
    DedupSpec(GridKeys(s, m, n, m));
    forall key
      ensures key in Dedup(GridKeys(s, m, n, m)) <==> OneSwapAway(s, m, n, key)
    {
      GridKeysExact(s, m, n, key);
    }
  }

  /** The state graph adj_grids describes is undirected: when swapping c1 and
      c2 turns s into t, t's key is among adj_grids(s) and s's key is among
      adj_grids(t), since the same swap leads back. */
  lemma NeighbourSymmetric(s: State, m: nat, n: nat, c1: Cell, c2: Cell)
    requires Shaped(s, m, n) && InBounds(c1, m, n) && InBounds(c2, m, n) && Adjacent(c1, c2)
    ensures KeySum(Flat(SwapCells(s, c1, c2)), m * n + 1) in Dedup(GridKeys(s, m, n, m))
    ensures KeySum(Flat(s), m * n + 1) in Dedup(GridKeys(SwapCells(s, c1, c2), m, n, m))
  {
    var t := SwapCells(s, c1, c2);
    SwapCellsShaped(s, m, n, c1, c2);
    SwapCellsTwice(s, c1, c2);
    assert OneSwapAway(s, m, n, SwapKey(s, m, n, c1, c2));
    assert OneSwapAway(t, m, n, SwapKey(t, m, n, c1, c2));
    AdjKeysExact(s, m, n);
    AdjKeysExact(t, m, n);
  }
}
