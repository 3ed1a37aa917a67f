/** The search heuristics of swap_puzzle/heuristics.py. Each compares two
    m x n grid states cell by cell; the source first turns two state keys
    into grids with a decoder that is not part of this model, so the model
    takes the two decoded states (hash_h, which uses the keys themselves,
    takes the keys). */
module Heuristics {
  import opened GridState

  /** The sum of |r1[k] - r2[k]| over the first j columns. */
  function RowGap(r1: seq<int>, r2: seq<int>, j: nat): nat
    requires j <= |r1| && j <= |r2|
  {
    if j == 0 then 0 else RowGap(r1, r2, j - 1) + Abs(r1[j - 1] - r2[j - 1])
  }

  /** The sum of the cell-wise gaps |g1[r][c] - g2[r][c]| over the first i
      rows: the value manhattan_distance accumulates. */
  function GridGap(g1: State, g2: State, m: nat, n: nat, i: nat): nat
    requires Shaped(g1, m, n) && Shaped(g2, m, n) && i <= m
  {
    if i == 0 then 0 else GridGap(g1, g2, m, n, i - 1) + RowGap(g1[i - 1], g2[i - 1], n)
  }

  /** manhattan_distance: adds up the cell-wise gaps row by row. */
  method ManhattanDistance(g1: State, g2: State, m: nat, n: nat) returns (acc: int)
    requires Shaped(g1, m, n) && Shaped(g2, m, n)
    ensures acc == GridGap(g1, g2, m, n, m)
  {
    acc := 0;
    var i := 0;
    while i < m
      invariant 0 <= i <= m && acc == GridGap(g1, g2, m, n, i)
    {
      var j := 0;
      while j < n
        invariant 0 <= j <= n && acc == GridGap(g1, g2, m, n, i) + RowGap(g1[i], g2[i], j)
      {
        acc := acc + Abs(g1[i][j] - g2[i][j]);
        j := j + 1;
      }
      i := i + 1;
    }
  }

  /** A row gap is 0 exactly when the rows agree on the columns read. */
  lemma {:induction false} RowGapZero(r1: seq<int>, r2: seq<int>, j: nat)
    requires j <= |r1| && j <= |r2|
    ensures RowGap(r1, r2, j) == 0 <==> r1[..j] == r2[..j]
  {
    if j > 0 {
      RowGapZero(r1, r2, j - 1);
      assert r1[..j] == r1[..j - 1] + [r1[j - 1]];
      assert r2[..j] == r2[..j - 1] + [r2[j - 1]];
      if r1[..j] == r2[..j] {
        assert r1[..j - 1] == r1[..j][..j - 1];
        assert r2[..j - 1] == r2[..j][..j - 1];
        assert r1[j - 1] == r1[..j][j - 1];
      }
    }
  }

  /** The distance is 0 exactly when the two states are equal. */
  lemma {:induction false} GridGapZero(g1: State, g2: State, m: nat, n: nat, i: nat)
    requires Shaped(g1, m, n) && Shaped(g2, m, n) && i <= m
    ensures GridGap(g1, g2, m, n, i) == 0 <==> g1[..i] == g2[..i]
  {
    if i > 0 {
      GridGapZero(g1, g2, m, n, i - 1);
      RowGapZero(g1[i - 1], g2[i - 1], n);
      assert g1[i - 1][..n] == g1[i - 1] && g2[i - 1][..n] == g2[i - 1];
      assert g1[..i] == g1[..i - 1] + [g1[i - 1]];
      assert g2[..i] == g2[..i - 1] + [g2[i - 1]];
      if g1[..i] == g2[..i] {
        assert g1[..i - 1] == g1[..i][..i - 1];
        assert g2[..i - 1] == g2[..i][..i - 1];
        assert g1[i - 1] == g1[..i][i - 1];
      }
    }
  }

  /** manhattan_distance is 0 on equal grids and only there. */
  lemma ManhattanZero(g1: State, g2: State, m: nat, n: nat)
    requires Shaped(g1, m, n) && Shaped(g2, m, n)
    ensures GridGap(g1, g2, m, n, m) == 0 <==> g1 == g2
  {
    GridGapZero(g1, g2, m, n, m);
    assert g1[..m] == g1 && g2[..m] == g2;
  }

  /** manhattan_distance does not depend on the order of its grids. */
  lemma {:induction false} ManhattanSymmetric(g1: State, g2: State, m: nat, n: nat, i: nat)
    requires Shaped(g1, m, n) && Shaped(g2, m, n) && i <= m
    ensures GridGap(g1, g2, m, n, i) == GridGap(g2, g1, m, n, i)
  {
    if i > 0 {
      ManhattanSymmetric(g1, g2, m, n, i - 1);
      RowGapSymmetric(g1[i - 1], g2[i - 1], n);
    }
  }

  lemma {:induction false} RowGapSymmetric(r1: seq<int>, r2: seq<int>, j: nat)
    requires j <= |r1| && j <= |r2|
    ensures RowGap(r1, r2, j) == RowGap(r2, r1, j)
  {
    if j > 0 {
      RowGapSymmetric(r1, r2, j - 1);
    }
  }

  /** manhattan_distance satisfies the triangle inequality. */
  lemma {:induction false} ManhattanTriangle(a: State, b: State, c: State, m: nat, n: nat, i: nat)
    requires Shaped(a, m, n) && Shaped(b, m, n) && Shaped(c, m, n) && i <= m
    ensures GridGap(a, c, m, n, i) <= GridGap(a, b, m, n, i) + GridGap(b, c, m, n, i)
  {
    if i > 0 {
      ManhattanTriangle(a, b, c, m, n, i - 1);
      RowGapTriangle(a[i - 1], b[i - 1], c[i - 1], n);
    }
  }

  lemma {:induction false} RowGapTriangle(r1: seq<int>, r2: seq<int>, r3: seq<int>, j: nat)
    requires j <= |r1| && j <= |r2| && j <= |r3|
    ensures RowGap(r1, r3, j) <= RowGap(r1, r2, j) + RowGap(r2, r3, j)
  {
    if j > 0 {
      RowGapTriangle(r1, r2, r3, j - 1);
    }
  }

  /** The largest cell-wise gap over the first rows rows, starting from 0. */
  function MaxGap(g1: State, g2: State, m: nat, n: nat, rows: nat): (r: nat)
    requires Shaped(g1, m, n) && Shaped(g2, m, n) && rows <= m
  {
    if rows == 0 then 0 else Max(MaxGap(g1, g2, m, n, rows - 1), RowMax(g1[rows - 1], g2[rows - 1], n))
  }

  function Max(a: nat, b: nat): nat {
    if a < b then b else a
  }

  /** The largest gap over the first j columns of a row, starting from 0. */
  function RowMax(r1: seq<int>, r2: seq<int>, j: nat): nat
    requires j <= |r1| && j <= |r2|
  {
    if j == 0 then 0 else Max(RowMax(r1, r2, j - 1), Abs(r1[j - 1] - r2[j - 1]))
  }

  /** The loop supnorm writes: the rows 0 .. rows - 1 are scanned and the
      accumulator, which starts at 0, keeps the largest gap seen. */
  method MaxCellGap(g1: State, g2: State, m: nat, n: nat, rows: nat) returns (best: int)
    requires Shaped(g1, m, n) && Shaped(g2, m, n) && rows <= m
    ensures best == MaxGap(g1, g2, m, n, rows)
  {
    best := 0;
    var i := 0;
    while i < rows
      invariant 0 <= i <= rows && best == MaxGap(g1, g2, m, n, i)
    {
      var j := 0;
      while j < n
        invariant 0 <= j <= n && best == Max(MaxGap(g1, g2, m, n, i), RowMax(g1[i], g2[i], j))
      {
        var v := Abs(g1[i][j] - g2[i][j]);
        if v > best {
          best := v;
        }
        j := j + 1;
      }
      i := i + 1;
    }
  }

  /** supnorm as written: the accumulator reuses the name m and is set to 0
      before range(m) is taken, so no row is scanned and 0 is returned
      whatever the grids. */
  method SupNorm(g1: State, g2: State, m: nat, n: nat) returns (r: int)
    requires Shaped(g1, m, n) && Shaped(g2, m, n)
    ensures r == 0
  {
    var rows := 0;
    r := MaxCellGap(g1, g2, m, n, rows);
  }

  /** supnorm as intended: the largest cell-wise gap over all m rows. */
  method SupNormIntended(g1: State, g2: State, m: nat, n: nat) returns (r: int)
    requires Shaped(g1, m, n) && Shaped(g2, m, n)
    ensures r == MaxGap(g1, g2, m, n, m)
  {
    r := MaxCellGap(g1, g2, m, n, m);
  }

  /** On the 1 x 2 grids [[1, 2]] and [[2, 1]] every cell differs by 1, yet
      supnorm as written returns 0. */
  lemma SupNormMissesGap()
    ensures Shaped([[1, 2]], 1, 2) && Shaped([[2, 1]], 1, 2)
    ensures MaxGap([[1, 2]], [[2, 1]], 1, 2, 1) == 1
  {
  }

  /** The intended supnorm bounds every cell-wise gap and is one of them
      (or 0 on an empty grid). */
  lemma {:induction false} MaxGapIsMax(g1: State, g2: State, m: nat, n: nat, rows: nat)
    requires Shaped(g1, m, n) && Shaped(g2, m, n) && rows <= m
    ensures forall i, j :: 0 <= i < rows && 0 <= j < n ==> Abs(g1[i][j] - g2[i][j]) <= MaxGap(g1, g2, m, n, rows)
    ensures MaxGap(g1, g2, m, n, rows) == 0 ||
      exists i, j :: 0 <= i < rows && 0 <= j < n && Abs(g1[i][j] - g2[i][j]) == MaxGap(g1, g2, m, n, rows)
  {
    if rows > 0 {
      MaxGapIsMax(g1, g2, m, n, rows - 1);
      RowMaxIsMax(g1[rows - 1], g2[rows - 1], n);
    }
  }

  lemma {:induction false} RowMaxIsMax(r1: seq<int>, r2: seq<int>, j: nat)
    requires j <= |r1| && j <= |r2|
    ensures forall k :: 0 <= k < j ==> Abs(r1[k] - r2[k]) <= RowMax(r1, r2, j)
    ensures RowMax(r1, r2, j) == 0 || exists k :: 0 <= k < j && Abs(r1[k] - r2[k]) == RowMax(r1, r2, j)
  {
    if j > 0 {
      RowMaxIsMax(r1, r2, j - 1);
    }
  }

  /** The distance between the positions of two cells. */
  function CellDistance(i: int, j: int, k: int, l: int): nat {
    Abs(i - k) + Abs(j - l)
  }

  /** h is what maxswap_h computes: no tile of g1 lies further than h from
      a cell of g2 holding the same tile, and h is 0 or one such distance. */
  ghost predicate IsMaxSwap(g1: State, g2: State, m: nat, n: nat, h: int)
    requires Shaped(g1, m, n) && Shaped(g2, m, n)
  {
    && h >= 0
    && (forall i, j, k, l :: 0 <= i < m && 0 <= j < n && 0 <= k < m && 0 <= l < n ==>
         (g2[k][l] == g1[i][j] ==> CellDistance(i, j, k, l) <= h))
    && (h == 0 || exists i, j, k, l :: (0 <= i < m && 0 <= j < n && 0 <= k < m && 0 <= l < n &&
         g2[k][l] == g1[i][j] && CellDistance(i, j, k, l) == h))
  }

  /** The two inner loops of maxswap_h, for the tile at (i, j) of g1: raises
      h0 to the largest distance from (i, j) to a cell of g2 holding that
      tile; (wk, wl) is the cell that set the new value. */
  method FarthestMatch(g1: State, g2: State, m: nat, n: nat, i: int, j: int, h0: int)
      returns (h: int, ghost wk: int, ghost wl: int)
    requires Shaped(g1, m, n) && Shaped(g2, m, n) && 0 <= i < m && 0 <= j < n
    ensures h >= h0
    ensures forall k, l :: 0 <= k < m && 0 <= l < n ==> (g2[k][l] == g1[i][j] ==> CellDistance(i, j, k, l) <= h)
    ensures h == h0 || (0 <= wk < m && 0 <= wl < n && g2[wk][wl] == g1[i][j] && CellDistance(i, j, wk, wl) == h)
  {
    h, wk, wl := h0, 0, 0;
    var v := g1[i][j];
    var k := 0;
    while k < m
      invariant 0 <= k <= m && h >= h0
      invariant forall k', l' :: 0 <= k' < k && 0 <= l' < n ==> (g2[k'][l'] == v ==> CellDistance(i, j, k', l') <= h)
      invariant h == h0 || (0 <= wk < m && 0 <= wl < n && g2[wk][wl] == v && CellDistance(i, j, wk, wl) == h)
    {
      var l := 0;
      while l < n
        invariant 0 <= l <= n && h >= h0
        invariant forall k', l' :: 0 <= k' < k && 0 <= l' < n ==> (g2[k'][l'] == v ==> CellDistance(i, j, k', l') <= h)
        invariant forall l' :: 0 <= l' < l ==> (g2[k][l'] == v ==> CellDistance(i, j, k, l') <= h)
        invariant h == h0 || (0 <= wk < m && 0 <= wl < n && g2[wk][wl] == v && CellDistance(i, j, wk, wl) == h)
      {
        if g2[k][l] == v {
          var val := Abs(i - k) + Abs(j - l);
          if val > h {
            h, wk, wl := val, k, l;
          }
        }
        l := l + 1;
      }
      k := k + 1;
    }
  }

  /** maxswap_h: for every cell of g1, the largest distance to a cell of g2
      holding the same tile, maximised over the cells of g1. */
  method MaxSwap(g1: State, g2: State, m: nat, n: nat) returns (h: int)
    requires Shaped(g1, m, n) && Shaped(g2, m, n)
    ensures IsMaxSwap(g1, g2, m, n, h)
  {
    h := 0;
    ghost var wi, wj, wk, wl := 0, 0, 0, 0;
    var i := 0;
    while i < m
      invariant 0 <= i <= m && h >= 0
      invariant forall i', j', k', l' :: 0 <= i' < i && 0 <= j' < n && 0 <= k' < m && 0 <= l' < n ==>
        (g2[k'][l'] == g1[i'][j'] ==> CellDistance(i', j', k', l') <= h)
      invariant h == 0 || (0 <= wi < m && 0 <= wj < n && 0 <= wk < m && 0 <= wl < n &&
        g2[wk][wl] == g1[wi][wj] && CellDistance(wi, wj, wk, wl) == h)
    {
      var j := 0;
      while j < n
        invariant 0 <= j <= n && h >= 0
        invariant forall i', j', k', l' :: 0 <= i' < i && 0 <= j' < n && 0 <= k' < m && 0 <= l' < n ==>
          (g2[k'][l'] == g1[i'][j'] ==> CellDistance(i', j', k', l') <= h)
        invariant forall j', k', l' :: 0 <= j' < j && 0 <= k' < m && 0 <= l' < n ==>
          (g2[k'][l'] == g1[i][j'] ==> CellDistance(i, j', k', l') <= h)
        invariant h == 0 || (0 <= wi < m && 0 <= wj < n && 0 <= wk < m && 0 <= wl < n &&
          g2[wk][wl] == g1[wi][wj] && CellDistance(wi, wj, wk, wl) == h)
      {
        var h', k, l := FarthestMatch(g1, g2, m, n, i, j, h);
        if h' != h {
          wi, wj, wk, wl := i, j, k, l;
        }
        h := h';
        j := j + 1;
      }
      i := i + 1;
    }
  }

  /** maxswap_h never exceeds the largest distance in the grid,
      (m - 1) + (n - 1). */
  lemma MaxSwapBound(g1: State, g2: State, m: nat, n: nat, h: int)
    requires Shaped(g1, m, n) && Shaped(g2, m, n) && m >= 1 && n >= 1
    requires IsMaxSwap(g1, g2, m, n, h)
    ensures 0 <= h <= (m - 1) + (n - 1)
  {
  }

  /** The tiles of g are pairwise distinct. */
  ghost predicate DistinctTiles(g: State, m: nat, n: nat)
    requires Shaped(g, m, n)
  {
    forall a, b, c, d :: 0 <= a < m && 0 <= b < n && 0 <= c < m && 0 <= d < n ==>
      (g[a][b] == g[c][d] ==> a == c && b == d)
  }

  /** maxswap_h of a grid with distinct tiles and itself is 0. */
  lemma MaxSwapSame(g: State, m: nat, n: nat, h: int)
    requires Shaped(g, m, n) && DistinctTiles(g, m, n)
    requires IsMaxSwap(g, g, m, n, h)
    ensures h == 0
  {
  }

  /** IsMaxSwap pins down one value: the maximum. */
  lemma MaxSwapUnique(g1: State, g2: State, m: nat, n: nat, h1: int, h2: int)
    requires Shaped(g1, m, n) && Shaped(g2, m, n)
    requires IsMaxSwap(g1, g2, m, n, h1) && IsMaxSwap(g1, g2, m, n, h2)
    ensures h1 == h2
  {
  }

  /** hash_h: the difference of the two keys. It is 0 exactly on equal keys
      and negative exactly when the first key is the smaller. */
  function HashH(p: int, q: int): (r: int)
    ensures r == 0 <==> p == q
    ensures r < 0 <==> p < q
  {
    p - q
  }

  /** Exchanging the two keys negates hash_h. */
  lemma HashHAntisymmetric(p: int, q: int)
    ensures HashH(p, q) == -HashH(q, p)
  {
  }
}
