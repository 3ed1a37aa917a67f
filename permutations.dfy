/** Grid.permutations of swap_puzzle/grid.py: the recursive generator that
    inserts the head of a list at every position of every permutation of its
    tail. The yielded lists are modelled as one sequence, in yield order. */
module Permutations {
  import opened Graphs

  /** perm with x inserted before position 0, 1, ..., |perm|, in that order. */
  function Insertions(x: int, perm: seq<int>): (r: seq<seq<int>>)
    ensures |r| == |perm| + 1
  {
    seq(|perm| + 1, i requires 0 <= i <= |perm| => perm[..i] + [x] + perm[i..])
  }

  /** The insertions of x into each of perms, perm after perm. */
  function Spread(x: int, perms: seq<seq<int>>): seq<seq<int>> {
    if perms == [] then [] else Insertions(x, perms[0]) + Spread(x, perms[1..])
  }

  /** What permutations(l) yields: l itself when it has at most one entry,
      otherwise l[0] spread over the permutations of l[1..]. The source's
      range(len(l)) is range(|perm| + 1), since every permutation of l[1..]
      has |l| - 1 entries (PermutationsRearrange, PermutationsCount). The
      first list yielded is l itself, unchanged. */
  function Permutations(l: seq<int>): (r: seq<seq<int>>)
    ensures |r| >= 1 && r[0] == l
  {
    if |l| <= 1 then [l]
    else
      var perms := Permutations(l[1..]);
      assert Insertions(l[0], perms[0])[0] == [l[0]] + l[1..] == l;
      Spread(l[0], perms)
  }

  lemma MulSucc(a: nat, b: nat)
    ensures (a + 1) * b == a * b + b
  {
  }

  /** Spreading x over lists of length k gives k + 1 lists per list. */
  lemma {:induction false} SpreadLength(x: int, perms: seq<seq<int>>, k: nat)
    requires forall p :: p in perms ==> |p| == k
    ensures |Spread(x, perms)| == |perms| * (k + 1)
  {
    if perms != [] {
      var rest := perms[1..];
      SpreadLength(x, rest, k);
      assert |perms[0]| == k by { assert perms[0] in perms; }
      assert |Spread(x, perms)| == (k + 1) + |rest| * (k + 1);
      MulSucc(|rest|, k + 1);
    }
  }

  /** Every list of Spread(x, perms) is a list of perms with x added. */
  lemma {:induction false} SpreadMembers(x: int, perms: seq<seq<int>>, q: seq<int>)
    requires q in Spread(x, perms)
    ensures exists p :: p in perms && multiset(q) == multiset(p) + multiset{x}
  {
    if q in Insertions(x, perms[0]) {
      var p := perms[0];
      var i :| 0 <= i <= |p| && q == p[..i] + [x] + p[i..];
      assert p == p[..i] + p[i..];
      assert multiset(q) == multiset(p) + multiset{x};
      assert p in perms;
    } else {
      SpreadMembers(x, perms[1..], q);
      var p :| p in perms[1..] && multiset(q) == multiset(p) + multiset{x};
      assert p in perms;
    }
  }

  /** Each list permutations(l) yields is a rearrangement of l. */
  lemma {:induction false} PermutationsRearrange(l: seq<int>)
    ensures forall q :: q in Permutations(l) ==> multiset(q) == multiset(l)
  {
    if |l| > 1 {
      var tail := l[1..];
      PermutationsRearrange(tail);
      assert l == [l[0]] + tail;
      forall q | q in Permutations(l)
        ensures multiset(q) == multiset(l)
      {
        SpreadMembers(l[0], Permutations(tail), q);
      }
    }
  }

  /** permutations(l) yields exactly |l|! lists. */
  lemma {:induction false} PermutationsCount(l: seq<int>)
    ensures |Permutations(l)| == Fact(|l|)
  {
    if |l| == 0 {
      assert Fact(0) == 1;
    } else if |l| == 1 {
      assert Fact(1) == 1 * Fact(0);
    } else {
      var tail := l[1..];
      PermutationsCount(tail);
      PermutationsRearrange(tail);
      forall p | p in Permutations(tail)
        ensures |p| == |tail|
      {
        assert |multiset(p)| == |multiset(tail)|;
      }
      SpreadLength(l[0], Permutations(tail), |tail|);
      FactSucc(|tail|);
    }
  }

  lemma FactSucc(k: nat)
    ensures Fact(k + 1) == Fact(k) * (k + 1)
  {
  }
}
