/** The Grid class of swap_puzzle/grid.py: an m x n matrix of tiles that is
    swapped in place, flattened, copied, keyed, and asked for the keys of the
    states one legal swap away. */
module Grids {
  import opened Common
  import opened GridState
  import opened StateKey
  import opened Moves

  /** The outcome of a swap: done, or refused with IllegalMove. */
  datatype SwapResult = Swapped | IllegalMove

  class Grid {
    const m: nat
    const n: nat
    var state: State

    /** The state has m rows of n tiles. */
    ghost predicate Valid()
      reads this
    {
      Shaped(state, m, n)
    }

    /** An empty initial state stands for the sorted grid. */
    constructor (m0: nat, n0: nat, initial: State)
      ensures m == m0 && n == n0
      ensures state == if initial == [] then SortedState(m0, n0) else initial
      ensures initial == [] || Shaped(initial, m0, n0) ==> Valid()
    {
      m, n := m0, n0;
      if initial == [] {
        state := SortedState(m0, n0);
        SortedStateFlat(m0, n0);
      } else {
        state := initial;
      }
    }

    /** is_sorted: scans the cells row by row, comparing each tile with the
        next one (the first tile of the next row at a row's end). */
    method IsSorted() returns (b: bool)
      requires Valid()
      ensures b <==> Consecutive(Flat(state))
    {
      var i := 0;
      while i < m
        invariant 0 <= i <= m
        invariant forall i': nat, j': nat :: i' < i && j' < n ==> SortedAt(state, m, n, i', j')
      {
        var j := 0;
        while j < n
          invariant 0 <= j <= n
          invariant forall i': nat, j': nat :: i' < i && j' < n ==> SortedAt(state, m, n, i', j')
          invariant forall j': nat :: j' < j ==> SortedAt(state, m, n, i, j')
        {
          if j < n - 1 {
            if state[i][j] + 1 != state[i][j + 1] {
              ConsecutiveSortedAt(state, m, n, i, j);
              return false;
            }
          } else if i < m - 1 {
            if state[i][j] + 1 != state[i + 1][0] {
              ConsecutiveSortedAt(state, m, n, i, j);
              return false;
            }
          }
          j := j + 1;
        }
        i := i + 1;
      }
      SortedAtToConsecutive(state, m, n);
      return true;
    }

    /** swap: exchanges two cells at Manhattan distance 1, and refuses any
        other pair (the same cell twice included) without touching the state. */
    method Swap(c1: Cell, c2: Cell) returns (r: SwapResult)
      requires Valid()
      requires Adjacent(c1, c2) ==> InBounds(c1, m, n) && InBounds(c2, m, n)
      modifies this
      ensures Valid()
      ensures r == Swapped <==> Adjacent(c1, c2)
      ensures r == Swapped ==> state == SwapCells(old(state), c1, c2)
      ensures r == IllegalMove ==> state == old(state)
    {
      if Abs(c1.0 - c2.0) + Abs(c1.1 - c2.1) == 1 {
        SwapCellsShaped(state, m, n, c1, c2);
        var buff := state[c1.0][c1.1];
        state := state[c1.0 := state[c1.0][c1.1 := state[c2.0][c2.1]]];
        state := state[c2.0 := state[c2.0][c2.1 := buff]];
        r := Swapped;
      } else {
        r := IllegalMove;
      }
    }

    /** swap_seq: the swaps in list order, stopping at the first illegal pair
        with the earlier swaps kept. */
    method SwapSeq(ps: seq<CellPair>) returns (r: SwapResult)
      requires Valid() && SwapsInBounds(ps, m, n)
      modifies this
      ensures Valid()
      ensures state == ApplySwaps(old(state), m, n, ps)
      ensures r == Swapped <==> AllAdjacent(ps)
    {
      var k := 0;
      while k < |ps|
        invariant 0 <= k <= |ps| && Valid()
        invariant SwapsInBounds(ps[k..], m, n)
        invariant ApplySwaps(state, m, n, ps[k..]) == ApplySwaps(old(state), m, n, ps)
        invariant AllAdjacent(ps[..k])
      {
        r := Swap(ps[k].0, ps[k].1);
        if r == IllegalMove {
          return;
        }
        assert ps[k..][1..] == ps[k + 1..];
        assert ps[..k + 1] == ps[..k] + [ps[k]];
        k := k + 1;
      }
      assert ps[..k] == ps;
      return Swapped;
    }

    /** id: the flattening read as a number in base m*n+1, least significant
        digit first. A list of digits of that base is recovered from its id,
        so id is injective on such lists of one length. */
    function Id(l: seq<int>): (r: int)
      ensures m * n >= 1 && Digits(l, m * n + 1) ==> r >= 0 && Decode(r, m * n + 1, |l|) == l
    {
      var base := m * n + 1;
      if base >= 2 && Digits(l, base) then
        DecodeKeySum(l, base);
        KeySum(l, base)
      else
        KeySum(l, base)
    }

    /** flatten: the rows concatenated in order. */
    method Flatten() returns (l: seq<int>)
      requires Valid()
      ensures l == Flat(state)
    {
      l := [];
      var i := 0;
      while i < m
        invariant 0 <= i <= m
        invariant l == Flat(state[..i])
      {
        var j := 0;
        while j < |state[i]|
          invariant 0 <= j <= |state[i]|
          invariant l == Flat(state[..i]) + state[i][..j]
        {
          l := l + [state[i][j]];
          j := j + 1;
        }
        assert state[..i + 1][..i] == state[..i];
        assert state[i][..j] == state[i];
        i := i + 1;
      }
      assert state[..m] == state;
    }

    /** copy: a new grid of the same size holding the same tiles. */
    method Copy() returns (g: Grid)
      requires Valid()
      ensures fresh(g) && g.m == m && g.n == n && g.state == state && g.Valid()
    {
      var cpy: State := [];
      var k := 0;
      while k < |state|
        invariant 0 <= k <= |state| && cpy == state[..k]
      {
        cpy := cpy + [state[k]];
        k := k + 1;
      }
      assert cpy == state;
      g := new Grid(m, n, cpy);
    }

    /** One branch of nextperm: swap (i, j) with c on a copy, flatten the
        copy and append the result; t is the number of the test that passed. */
    method Moved(i: int, j: int, c: Cell, swaps: seq<seq<int>>, ghost t: nat) returns (swaps': seq<seq<int>>)
      requires Valid() && InBounds((i, j), m, n) && Offered(i, j, m, n, t) && c == Candidate(i, j, t)
      requires swaps == FlatsUpTo(state, m, n, i, j, t)
      ensures swaps' == FlatsUpTo(state, m, n, i, j, t + 1)
      ensures state == old(state)
    {
      OfferedInBounds(i, j, m, n, t);
      var g := Copy();
      var r := g.Swap((i, j), c);
      var l := g.Flatten();
      ShapedCells(state, m, n, i, j);
      FlatsGrow(state, m, n, i, j, t, swaps, l);
      swaps' := swaps + [l];
    }

    /** The first half of nextperm: for each of its four tests that passes,
        the flattening of a copy with (i, j) swapped with that cell. */
    method MovedStates(i: int, j: int) returns (swaps: seq<seq<int>>)
      requires Valid() && InBounds((i, j), m, n)
      ensures swaps == FlatsUpTo(state, m, n, i, j, 4)
    {
      swaps := [];
      if i < m - 1 {
        swaps := Moved(i, j, (i + 1, j), swaps, 0);
      } else {
        FlatsSkip(state, m, n, i, j, 0, swaps);
      }
      if i > 0 {
        swaps := Moved(i, j, (i - 1, j), swaps, 1);
      } else {
        FlatsSkip(state, m, n, i, j, 1, swaps);
      }
      if j < n - 1 {
        swaps := Moved(i, j, (i, j + 1), swaps, 2);
      } else {
        FlatsSkip(state, m, n, i, j, 2, swaps);
      }
      if j > 0 {
        swaps := Moved(i, j, (i, j - 1), swaps, 3);
      } else {
        FlatsSkip(state, m, n, i, j, 3, swaps);
      }
    }

    /** nextperm: the keys of the states one swap of cell (i, j) away. It
        works on copies, so it has no modifies clause and leaves state as it
        was. The bounds are the intended ones: rows against m, columns
        against n. */
    method NextPerm(i: int, j: int) returns (keys: seq<int>)
      requires Valid() && InBounds((i, j), m, n)
      ensures keys == NeighbourKeys(state, m, n, i, j)
      ensures state == old(state)
    {
      var swaps := MovedStates(i, j);
      KeysOfMoves(state, m, n, i, j, swaps);
      keys := seq(|swaps|, k requires 0 <= k < |swaps| => Id(swaps[k]));
    }

    /** The innermost loop of adj_grids: appends each key of s that all does
        not hold yet. */
    static method AddNew(all: seq<int>, s: seq<int>, ghost before: seq<int>) returns (all': seq<int>)
      requires all == Dedup(before)
      ensures all' == Dedup(before + s)
    {
      all' := all;
      var t := 0;
      assert before + s[..0] == before;
      while t < |s|
        invariant 0 <= t <= |s|
        invariant all' == Dedup(before + s[..t])
      {
        var p := s[t];
        DedupStep(before, s, t, all');
        if p !in all' {
          all' := all' + [p];
        }
        t := t + 1;
      }
      assert s[..t] == s;
    }

    /** One pass of the row loop of adj_grids: the keys of row i's cells are
        added, each kept at its first occurrence. */
    method AdjRow(i: int, all: seq<int>, ghost done: seq<int>) returns (all': seq<int>, ghost done': seq<int>)
      requires Valid() && 0 <= i < m
      requires done == GridKeys(state, m, n, i) && all == Dedup(done)
      ensures done' == GridKeys(state, m, n, i + 1) && all' == Dedup(done')
    {
      all', done' := all, done;
      KeysRowEnds(state, m, n, i);
      var j := 0;
      while j < n
        invariant 0 <= j <= n
        invariant done' == GridKeys(state, m, n, i) + RowKeys(state, m, n, i, j) && all' == Dedup(done')
      {
        var s := NextPerm(i, j);
        all' := AddNew(all', s, done');
        KeysBeforeNext(state, m, n, i, j);
        done' := done' + s;
        j := j + 1;
      }
    }

    /** adj_grids: the keys nextperm gives for every cell, row by row, each
        kept at its first occurrence only. */
    method AdjGrids() returns (all: seq<int>)
      requires Valid()
      ensures all == Dedup(GridKeys(state, m, n, m))
    {
      all := [];
      ghost var done := [];
      var i := 0;
      while i < m
        invariant 0 <= i <= m
        invariant done == GridKeys(state, m, n, i) && all == Dedup(done)
      {
        all, done := AdjRow(i, all, done);
        i := i + 1;
      }
    }
  }
}
