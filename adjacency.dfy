/** Adjacency lists as swap_puzzle/graph.py keeps them, what add_edge does to
    them, and walks through them. */
module AdjacencyLists {
  import opened Common

  /** Adjacency lists: graph[node] lists the neighbours of node, one entry per
      edge end (an edge added twice appears twice). */
  type Adjacency = map<int, seq<int>>

  /** Every neighbour listed is itself a node. */
  ghost predicate Closed(g: Adjacency) {
    forall u, v :: u in g && v in g[u] ==> v in g
  }

  /** v occurs in u's list exactly as often as u occurs in v's. */
  ghost predicate Symmetric(g: Adjacency) {
    forall u, v :: u in g && v in g ==> Count(g[u], v) == Count(g[v], u)
  }

  /** How many times x occurs in xs. */
  function Count(xs: seq<int>, x: int): nat {
    if xs == [] then 0 else Count(xs[..|xs| - 1], x) + (if xs[|xs| - 1] == x then 1 else 0)
  }

  lemma CountAppend(xs: seq<int>, y: int, x: int)
    ensures Count(xs + [y], x) == Count(xs, x) + (if y == x then 1 else 0)
  {
    assert (xs + [y])[..|xs|] == xs;
  }

  lemma CountAbsent(xs: seq<int>, x: int)
    requires x !in xs
    ensures Count(xs, x) == 0
  {
    if xs != [] {
      CountAbsent(xs[..|xs| - 1], x);
    }
  }

  /** The nodes are exactly 1..count, the numbering bfs indexes its lists by. */
  ghost predicate Numbered(g: Adjacency, count: int) {
    forall v :: v in g <==> 1 <= v <= count
  }

  /** Consecutive entries of p are joined by an edge. */
  ghost predicate Walk(g: Adjacency, p: seq<int>) {
    |p| >= 1 && forall k :: 0 <= k < |p| - 1 ==> p[k] in g && p[k + 1] in g[p[k]]
  }

  ghost predicate WalkFromTo(g: Adjacency, p: seq<int>, a: int, b: int) {
    Walk(g, p) && p[0] == a && p[|p| - 1] == b
  }

  ghost predicate Reachable(g: Adjacency, a: int, b: int) {
    exists p :: WalkFromTo(g, p, a, b)
  }

  /** A node's list, or the empty list add_edge creates for a missing node. */
  function ListOf(g: Adjacency, v: int): seq<int> {
    if v in g then g[v] else []
  }

  /** The adjacency map after add_edge(a, b): a and b become nodes, b is
      appended to a's list, then a to b's (so a self-loop adds a twice), and
      every other list stays as it was. */
  function Link(g: Adjacency, a: int, b: int): (r: Adjacency)
    ensures r.Keys == g.Keys + {a, b}
  {
    var g1 := if a in g then g else g[a := []];
    var g2 := if b in g1 then g1 else g1[b := []];
    var g3 := g2[a := g2[a] + [b]];
    g3[b := g3[b] + [a]]
  }

  /** Between two distinct existing nodes add_edge only extends both lists. */
  lemma LinkExisting(g: Adjacency, a: int, b: int, e: Adjacency)
    requires a in g && b in g && a != b && e.Keys == g.Keys
    requires e[a] == g[a] + [b] && e[b] == g[b] + [a]
    requires forall k :: k in g && k != a && k != b ==> e[k] == g[k]
    ensures Link(g, a, b) == e
  {
    var r := Link(g, a, b);
    assert forall k :: k in r ==> r[k] == e[k];
  }

  /** What add_edge does to each list: b is appended to a's, a to b's, the
      others are untouched. */
  lemma LinkLists(g: Adjacency, a: int, b: int)
    ensures forall v :: v in Link(g, a, b) ==>
      Link(g, a, b)[v] == ListOf(g, v) + (if v == a then [b] else []) + (if v == b then [a] else [])
  {
  }

  /** add_edge keeps the adjacency lists closed and symmetric. */
  lemma LinkSymmetric(g: Adjacency, a: int, b: int)
    requires Closed(g) && Symmetric(g)
    ensures Closed(Link(g, a, b)) && Symmetric(Link(g, a, b))
  {
    LinkClosed(g, a, b);
    var r := Link(g, a, b);
    forall u, v | u in r && v in r
      ensures Count(r[u], v) == Count(r[v], u)
    {
      LinkPairSymmetric(g, a, b, u, v);
    }
  }

  lemma LinkClosed(g: Adjacency, a: int, b: int)
    requires Closed(g)
    ensures Closed(Link(g, a, b))
  {
    var r := Link(g, a, b);
    LinkLists(g, a, b);
    forall u, v | u in r && v in r[u]
      ensures v in r
    {
      if v !in {a, b} {
        assert v in ListOf(g, u);
      }
    }
  }

  lemma LinkPairSymmetric(g: Adjacency, a: int, b: int, u: int, v: int)
    requires Closed(g) && Symmetric(g)
    requires u in Link(g, a, b) && v in Link(g, a, b)
    ensures Count(Link(g, a, b)[u], v) == Count(Link(g, a, b)[v], u)
  {
    var gu, gv := ListOf(g, u), ListOf(g, v);
    assert Count(gu, v) == Count(gv, u) by {
      if u in g && v in g {
      } else if u in g {
        CountAbsent(gu, v);
      } else if v in g {
        CountAbsent(gv, u);
      }
    }
    LinkCount(g, a, b, u, v);
    LinkCount(g, a, b, v, u);
  }

  lemma LinkCount(g: Adjacency, a: int, b: int, u: int, v: int)
    requires u in Link(g, a, b)
    ensures Count(Link(g, a, b)[u], v) ==
      Count(ListOf(g, u), v) + (if u == a && v == b then 1 else 0) + (if u == b && v == a then 1 else 0)
  {
    LinkLists(g, a, b);
    var l := ListOf(g, u);
    if u == a && u == b {
      CountAppend(l, b, v);
      CountAppend(l + [b], a, v);
    } else if u == a {
      CountAppend(l, b, v);
    } else if u == b {
      CountAppend(l, a, v);
    }
  }

  /** The endpoints add_edge creates, in the order it appends them to nodes. */
  function NewEnds(keys: set<int>, a: int, b: int): seq<int> {
    (if a in keys then [] else [a]) + (if b in keys || b == a then [] else [b])
  }

  lemma DistinctCard(xs: seq<int>)
    requires NoDup(xs)
    ensures |set x | x in xs| == |xs|
  {
    if xs != [] {
      var rest := xs[1..];
      DistinctCard(rest);
      assert (set x | x in xs) == (set x | x in rest) + {xs[0]};
    }
  }

  /** nodes lists every key of g exactly once. */
  ghost predicate NodeList(nodes: seq<int>, g: Adjacency) {
    && NoDup(nodes)
    && (forall k :: 0 <= k < |nodes| ==> nodes[k] in g)
    && |nodes| == |g.Keys|
  }

  /** The endpoints add_edge appends are new and distinct, so the node list
      stays free of repeats. */
  lemma NewEndsNoDup(nodes: seq<int>, g: Adjacency, a: int, b: int)
    requires NodeList(nodes, g)
    ensures NoDup(nodes + NewEnds(g.Keys, a, b))
  {
    var ns := nodes + NewEnds(g.Keys, a, b);
    forall i, j | 0 <= i < j < |ns| ensures ns[i] != ns[j] {
      if j >= |nodes| && i < |nodes| {
        assert ns[j] !in g;
      }
    }
  }

  /** One key is added per endpoint appended to the node list. */
  lemma NewEndsCard(keys: set<int>, a: int, b: int)
    ensures |keys + {a, b}| == |keys| + |NewEnds(keys, a, b)|
  {
    var ka := keys + {a};
    if a in keys {
      assert ka == keys;
    }
    assert keys + {a, b} == ka + {b};
    if b in ka {
      assert ka + {b} == ka;
    }
  }

  /** The node list after add_edge still lists every key once. */
  lemma NewEndsNodeList(nodes: seq<int>, g: Adjacency, a: int, b: int)
    requires NodeList(nodes, g)
    ensures NodeList(nodes + NewEnds(g.Keys, a, b), Link(g, a, b))
  {
    NewEndsNoDup(nodes, g, a, b);
    NewEndsCard(g.Keys, a, b);
  }

  /** Everything add_edge promises about the new lists and node list. */
  lemma LinkValid(nodes: seq<int>, g: Adjacency, a: int, b: int, ns: seq<int>, r: Adjacency)
    requires NodeList(nodes, g) && Closed(g)
    requires ns == nodes + NewEnds(g.Keys, a, b) && r == Link(g, a, b)
    ensures NodeList(ns, r) && Closed(r)
  {
    NewEndsNodeList(nodes, g, a, b);
    LinkClosed(g, a, b);
  }
}
