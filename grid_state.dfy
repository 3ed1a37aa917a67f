/** Pure view of a swap-puzzle grid (swap_puzzle/grid.py): the m x n matrix of
    tiles, its row-major flattening, the sortedness test, adjacent-cell swaps
    and folds of swaps. The class in grid.dfy is specified in these terms. */
module GridState {
  import opened Common

  /** A cell (row, column). */
  type Cell = (int, int)

  /** The contents of a grid, row by row: state[i][j] is the tile in cell (i, j). */
  type State = seq<seq<int>>

  /** A swap request: the two cells to exchange. */
  type CellPair = (Cell, Cell)

  function Abs(x: int): nat {
    if x < 0 then -x else x
  }

  /** The state has m rows of n tiles each. */
  ghost predicate Shaped(s: State, m: nat, n: nat) {
    |s| == m && forall i :: 0 <= i < m ==> |s[i]| == n
  }

  predicate InBounds(c: Cell, m: nat, n: nat) {
    0 <= c.0 < m && 0 <= c.1 < n
  }

  /** Two cells at Manhattan distance exactly 1 (distinct and side by side). */
  predicate Adjacent(c1: Cell, c2: Cell) {
    Abs(c1.0 - c2.0) + Abs(c1.1 - c2.1) == 1
  }

  /** The cell exists in s (rows may in principle have different lengths). */
  predicate CellOf(s: State, c: Cell) {
    0 <= c.0 < |s| && 0 <= c.1 < |s[c.0]|
  }

  /** The default, sorted state: row i holds i*n+1 .. (i+1)*n. */
  function SortedState(m: nat, n: nat): (r: State)
    ensures Shaped(r, m, n)
  {
    seq(m, i => seq(n, j => i * n + j + 1))
  }

  /** Row-major flattening: the rows concatenated in order. */
  function Flat(s: State): seq<int> {
    if s == [] then [] else Flat(s[..|s| - 1]) + s[|s| - 1]
  }

  /** Every row-major successor is its predecessor plus one. */
  predicate Consecutive(l: seq<int>) {
    forall k :: 0 <= k < |l| - 1 ==> l[k] + 1 == l[k + 1]
  }

  /** The comparison is_sorted performs at cell (i, j): with its right-hand
      neighbour inside a row, with the first tile of the next row at a row end,
      and none at the last cell. */
  predicate SortedAt(s: State, m: nat, n: nat, i: nat, j: nat)
    requires Shaped(s, m, n) && i < m && j < n
  {
    if j < n - 1 then s[i][j] + 1 == s[i][j + 1]
    else if i < m - 1 then s[i][j] + 1 == s[i + 1][0]
    else true
  }

  ghost predicate AllSortedAt(s: State, m: nat, n: nat)
    requires Shaped(s, m, n)
  {
    forall i: nat, j: nat :: i < m && j < n ==> SortedAt(s, m, n, i, j)
  }

  lemma CellIndexBound(m: nat, n: nat, i: nat, j: nat)
    requires i < m && j < n
    ensures i * n + j < m * n
    ensures (i + 1) * n <= m * n
  {
    assert (m - (i + 1)) * n >= 0;
  }

  /** Index k of an m*n flattening is cell (k / n, k % n). */
  lemma SplitIndex(k: nat, m: nat, n: nat) returns (i: nat, j: nat)
    requires k < m * n
    ensures i < m && j < n && k == i * n + j
  {
    assert n > 0;
    i, j := k / n, k % n;
  }

  lemma MulStep(a: nat, b: nat, n: nat)
    requires a < b
    ensures a * n + n <= b * n
    decreases b - a
  {
    if a + 1 < b {
      MulStep(a + 1, b, n);
    }
  }

  lemma UniqueSplit(k: nat, n: nat, i: nat, j: nat, i': nat, j': nat)
    requires j < n && j' < n && k == i * n + j && k == i' * n + j'
    ensures i == i' && j == j'
  {
    if i < i' {
      MulStep(i, i', n);
    } else if i' < i {
      MulStep(i', i, n);
    }
  }

  lemma {:induction false} FlatLength(s: State, m: nat, n: nat)
    requires Shaped(s, m, n)
    ensures |Flat(s)| == m * n
  {
    if m > 0 {
      FlatLength(s[..m - 1], m - 1, n);
      assert (m - 1) * n + n == m * n;
    }
  }

  /** Cell (i, j) sits at index i*n+j of the flattening. */
  lemma {:induction false} FlatAt(s: State, m: nat, n: nat, i: nat, j: nat)
    requires Shaped(s, m, n) && i < m && j < n
    ensures i * n + j < |Flat(s)| && Flat(s)[i * n + j] == s[i][j]
  {
    FlatLength(s, m, n);
    CellIndexBound(m, n, i, j);
    var front := s[..m - 1];
    assert Flat(s) == Flat(front) + s[m - 1];
    FlatLength(front, m - 1, n);
    if i == m - 1 {
      assert i * n + j == (m - 1) * n + j;
    } else {
      FlatAt(front, m - 1, n, i, j);
      CellIndexBound(m - 1, n, i, j);
    }
  }

  /** Equal flattenings of two states of the same shape mean equal states. */
  lemma FlatInjective(s1: State, s2: State, m: nat, n: nat)
    requires Shaped(s1, m, n) && Shaped(s2, m, n)
    requires Flat(s1) == Flat(s2)
    ensures s1 == s2
  {
    forall i | 0 <= i < m
      ensures s1[i] == s2[i]
    {
      forall j | 0 <= j < n
        ensures s1[i][j] == s2[i][j]
      {
        FlatAt(s1, m, n, i, j);
        FlatAt(s2, m, n, i, j);
      }
    }
  }

  /** is_sorted's cell-by-cell comparisons succeed exactly when the row-major
      flattening counts up by one at every step (the first tile may be anything). */
  lemma SortedAtIffConsecutive(s: State, m: nat, n: nat)
    requires Shaped(s, m, n)
    ensures AllSortedAt(s, m, n) <==> Consecutive(Flat(s))
  {
    if AllSortedAt(s, m, n) {
      SortedAtToConsecutive(s, m, n);
    }
    if Consecutive(Flat(s)) {
      ConsecutiveToSortedAt(s, m, n);
    }
  }

  lemma SortedAtToConsecutive(s: State, m: nat, n: nat)
    requires Shaped(s, m, n) && AllSortedAt(s, m, n)
    ensures Consecutive(Flat(s))
  {
    var l := Flat(s);
    FlatLength(s, m, n);
    forall k | 0 <= k < |l| - 1
      ensures l[k] + 1 == l[k + 1]
    {
      var i, j := SplitIndex(k, m, n);
      FlatAt(s, m, n, i, j);
      assert SortedAt(s, m, n, i, j);
      if j < n - 1 {
        FlatAt(s, m, n, i, j + 1);
      } else {
        var i', j' := SplitIndex(k + 1, m, n);
        assert k + 1 == (i + 1) * n + 0;
        UniqueSplit(k + 1, n, i', j', i + 1, 0);
        FlatAt(s, m, n, i + 1, 0);
      }
    }
  }

  lemma ConsecutiveToSortedAt(s: State, m: nat, n: nat)
    requires Shaped(s, m, n) && Consecutive(Flat(s))
    ensures AllSortedAt(s, m, n)
  {
    forall i: nat, j: nat | i < m && j < n
      ensures SortedAt(s, m, n, i, j)
    {
      FlatAt(s, m, n, i, j);
      if j < n - 1 {
        FlatAt(s, m, n, i, j + 1);
      } else if i < m - 1 {
        FlatAt(s, m, n, i + 1, 0);
        assert i * n + j + 1 == (i + 1) * n + 0;
      }
    }
  }

  /** A consecutive flattening passes the comparison at any one cell. */
  lemma ConsecutiveSortedAt(s: State, m: nat, n: nat, i: nat, j: nat)
    requires Shaped(s, m, n) && i < m && j < n
    ensures Consecutive(Flat(s)) ==> SortedAt(s, m, n, i, j)
  {
    if Consecutive(Flat(s)) {
      ConsecutiveToSortedAt(s, m, n);
    }
  }

  /** The default state flattens to 1, 2, ..., m*n and passes is_sorted. */
  lemma SortedStateFlat(m: nat, n: nat)
    ensures Shaped(SortedState(m, n), m, n)
    ensures Flat(SortedState(m, n)) == seq(m * n, k => k + 1)
    ensures Consecutive(Flat(SortedState(m, n)))
  {
    var s := SortedState(m, n);
    var l := Flat(s);
    FlatLength(s, m, n);
    forall k | 0 <= k < m * n
      ensures l[k] == k + 1
    {
      var i, j := SplitIndex(k, m, n);
      FlatAt(s, m, n, i, j);
    }
  }

  /** Exchange the tiles of two cells, in the order grid.py writes them. */
  function SwapCells(s: State, c1: Cell, c2: Cell): (r: State)
    requires CellOf(s, c1) && CellOf(s, c2)
    ensures |r| == |s| && forall i :: 0 <= i < |s| ==> |r[i]| == |s[i]|
    ensures forall i, j :: 0 <= i < |s| && 0 <= j < |s[i]| ==>
      r[i][j] == (if (i, j) == c2 then s[c1.0][c1.1]
                  else if (i, j) == c1 then s[c2.0][c2.1]
                  else s[i][j])
  {
    var buff := s[c1.0][c1.1];
    var t := s[c1.0 := s[c1.0][c1.1 := s[c2.0][c2.1]]];
    t[c2.0 := t[c2.0][c2.1 := buff]]
  }

  lemma SwapCellsShaped(s: State, m: nat, n: nat, c1: Cell, c2: Cell)
    requires Shaped(s, m, n) && InBounds(c1, m, n) && InBounds(c2, m, n)
    ensures Shaped(SwapCells(s, c1, c2), m, n)
  {
  }

  /** Swapping the same two cells twice gives back the original state. */
  lemma SwapCellsTwice(s: State, c1: Cell, c2: Cell)
    requires CellOf(s, c1) && CellOf(s, c2)
    ensures SwapCells(SwapCells(s, c1, c2), c1, c2) == s
  {
    var r := SwapCells(SwapCells(s, c1, c2), c1, c2);
    forall i | 0 <= i < |s|
      ensures r[i] == s[i]
    {
      assert |r[i]| == |s[i]|;
    }
  }

  /** Every pair that is a legal move names two cells of the grid. */
  predicate SwapsInBounds(ps: seq<CellPair>, m: nat, n: nat) {
    forall k :: 0 <= k < |ps| ==>
      Adjacent(ps[k].0, ps[k].1) ==> InBounds(ps[k].0, m, n) && InBounds(ps[k].1, m, n)
  }

  /** Every pair is a legal move. */
  predicate AllAdjacent(ps: seq<CellPair>) {
    forall k :: 0 <= k < |ps| ==> Adjacent(ps[k].0, ps[k].1)
  }

  /** swap_seq as a fold of swap: the swaps are applied in list order and the
      first illegal pair stops the fold, the earlier swaps staying applied. */
  function ApplySwaps(s: State, m: nat, n: nat, ps: seq<CellPair>): (r: State)
    requires Shaped(s, m, n) && SwapsInBounds(ps, m, n)
    ensures Shaped(r, m, n)
    decreases ps
  {
    if ps == [] then s
    else if !Adjacent(ps[0].0, ps[0].1) then s
    else
      SwapCellsShaped(s, m, n, ps[0].0, ps[0].1);
      ApplySwaps(SwapCells(s, ps[0].0, ps[0].1), m, n, ps[1..])
  }

  /** Applying a list of legal swaps and then a second list is applying their
      concatenation. */
  lemma {:induction false} ApplySwapsAppend(s: State, m: nat, n: nat, a: seq<CellPair>, b: seq<CellPair>)
    requires Shaped(s, m, n) && SwapsInBounds(a, m, n) && SwapsInBounds(b, m, n)
    requires AllAdjacent(a)
    ensures SwapsInBounds(a + b, m, n)
    ensures ApplySwaps(s, m, n, a + b) == ApplySwaps(ApplySwaps(s, m, n, a), m, n, b)
    decreases a
  {
    assert SwapsInBounds(a + b, m, n) by {
      forall k | 0 <= k < |a + b|
        ensures Adjacent((a + b)[k].0, (a + b)[k].1) ==>
                InBounds((a + b)[k].0, m, n) && InBounds((a + b)[k].1, m, n)
      {
        if k >= |a| {
          assert (a + b)[k] == b[k - |a|];
        }
      }
    }
    if a != [] {
      SwapCellsShaped(s, m, n, a[0].0, a[0].1);
      assert (a + b)[1..] == a[1..] + b;
      assert (a + b)[0] == a[0];
      ApplySwapsAppend(SwapCells(s, a[0].0, a[0].1), m, n, a[1..], b);
    } else {
      assert a + b == b;
    }
  }

  /** Undoing: a list of legal swaps followed by the same swaps in reverse order
      leaves the grid as it was. */
  lemma {:induction false} ApplySwapsUndo(s: State, m: nat, n: nat, ps: seq<CellPair>)
    requires Shaped(s, m, n) && SwapsInBounds(ps, m, n) && AllAdjacent(ps)
    ensures SwapsInBounds(Reverse(ps), m, n)
    ensures ApplySwaps(ApplySwaps(s, m, n, ps), m, n, Reverse(ps)) == s
    decreases ps
  {
    ReverseLegal(ps, m, n);
    if ps != [] {
      var p := ps[0];
      var s1 := SwapCells(s, p.0, p.1);
      SwapCellsShaped(s, m, n, p.0, p.1);
      ApplySwapsUndo(s1, m, n, ps[1..]);
      var mid := ApplySwaps(s1, m, n, ps[1..]);
      var back := Reverse(ps[1..]);
      ReverseLegal(ps[1..], m, n);
      assert SwapsInBounds([p], m, n);
      assert Reverse(ps) == back + [p];
      calc {
        ApplySwaps(ApplySwaps(s, m, n, ps), m, n, Reverse(ps));
        ApplySwaps(mid, m, n, back + [p]);
        { ApplySwapsAppend(mid, m, n, back, [p]); }
        ApplySwaps(ApplySwaps(mid, m, n, back), m, n, [p]);
        ApplySwaps(s1, m, n, [p]);
        { assert [p][1..] == []; }
        SwapCells(s1, p.0, p.1);
        { SwapCellsTwice(s, p.0, p.1); }
        s;
      }
    }
  }

  lemma ReverseLegal(ps: seq<CellPair>, m: nat, n: nat)
    requires SwapsInBounds(ps, m, n)
    ensures SwapsInBounds(Reverse(ps), m, n)
    ensures AllAdjacent(ps) ==> AllAdjacent(Reverse(ps))
  {
    var r := Reverse(ps);
    forall k | 0 <= k < |r|
      ensures r[k] == ps[|ps| - 1 - k]
    {
    }
  }
}
