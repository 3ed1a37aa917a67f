/** The Graph class of swap_puzzle/graph.py: construction, edge insertion,
    breadth-first search over nodes numbered 1..nb_nodes, path reconstruction
    from the predecessor list, and the factorial helper. */
module Graphs {
  import opened Common
  import opened AdjacencyLists
  import opened Search

  /** n! (fact): the bound graph.py sizes a state graph's parent and
      explored lists with. */
  function Fact(n: nat): (r: nat)
    ensures r >= 1 && r >= n
  {
    if n == 0 then 1 else n * Fact(n - 1)
  }

  class Graph {
    var nodes: seq<int>
    var graph: Adjacency
    var nbNodes: int
    var nbEdges: int
    var edges: seq<(int, int)>

    /** The object invariant: nodes lists distinct keys of graph, as many as
        there are keys (so every key once), the counters agree with nodes and
        edges, and every listed neighbour is a node. That add_edge also keeps
        the lists symmetric is AdjacencyLists.LinkSymmetric. */
    ghost predicate Valid()
      reads this
    {
      && NodeList(nodes, graph)
      && nbNodes == |nodes|
      && nbEdges == |edges|
      && Closed(graph)
    }

    /** A graph on the given nodes and no edges (a fresh list stands for the
        default argument). */
    constructor (nodes0: seq<int>)
      ensures nodes == nodes0 && nbNodes == |nodes0|
      ensures graph == map v | v in nodes0 :: []
      ensures nbEdges == 0 && edges == []
      ensures NoDup(nodes0) ==> Valid()
    {
      nodes := nodes0;
      graph := map v | v in nodes0 :: [];
      nbNodes := |nodes0|;
      nbEdges := 0;
      edges := [];
      new;
      if NoDup(nodes0) {
        DistinctCard(nodes0);
        assert graph.Keys == set x | x in nodes0;
      }
    }

    /** add_edge: creates missing endpoints, links both ways, counts the edge. */
    method AddEdge(a: int, b: int)
      requires Valid()
      modifies this
      ensures Valid()
      ensures graph == Link(old(graph), a, b)
      ensures nodes == old(nodes) + NewEnds(old(graph).Keys, a, b)
      ensures nbEdges == old(nbEdges) + 1 && edges == old(edges) + [(a, b)]
    {
      var g, ns, count := graph, nodes, nbNodes;
      if a !in g {
        g := g[a := []];
        count := count + 1;
        ns := ns + [a];
      }
      if b !in g {
        g := g[b := []];
        count := count + 1;
        ns := ns + [b];
      }
      g := g[a := g[a] + [b]];
      g := g[b := g[b] + [a]];
      assert g == Link(graph, a, b);
      assert ns == nodes + NewEnds(graph.Keys, a, b);
      LinkValid(nodes, graph, a, b, ns, g);
      graph, nodes, nbNodes := g, ns, count;
      nbEdges := nbEdges + 1;
      edges := edges + [(a, b)];
    }

    /** bfs_aux: breadth-first search from src that stops when dst leaves the
        queue. It returns the predecessor list (one entry per node, -1 for no
        parent) or [] when the queue runs dry; depth is the ghost level of
        each node in the search tree. */
    method BfsAux(src: int, dst: int) returns (prev: seq<int>, ghost depth: seq<nat>)
      requires Valid() && Numbered(graph, nbNodes) && 1 <= src <= nbNodes
      ensures prev == [] <==> !Reachable(graph, src, dst)
      ensures prev != [] ==> Found(graph, nbNodes, src, dst, prev, depth)
    {
      var g, count := graph, nbNodes;
      var queue: seq<int> := [];
      prev := seq(count, _ => -1);
      var explored := seq(count, _ => false);
      depth := seq(count, _ => 0);
      explored := explored[src - 1 := true];
      queue := queue + [src];
      ghost var done: set<int> := {};
      ghost var lo: nat := 0;
      Start(g, count, src, dst, explored, prev, depth);
      while queue != []
        invariant Searching(g, count, src, dst, explored, prev, depth, queue, done, lo)
        decreases Falses(explored) + |queue|
      {
        if queue[0] == dst {
          FoundAtHead(g, count, src, dst, explored, prev, depth, queue, done, lo);
          TreeReach(g, count, src, prev, depth, dst);
          return prev, depth;
        }
        Pop(g, count, src, dst, explored, prev, depth, queue, done, lo);
        var v := queue[0];
        queue := queue[1..];
        ghost var budget := Falses(explored) + |queue|;
        var ns := g[v];
        var i := 0;
        while i < |ns|
          invariant Expanding(g, count, src, dst, explored, prev, depth, queue, done, v, ns, i)
          invariant Falses(explored) + |queue| == budget
        {
          var n := ns[i];
          if !explored[n - 1] {
            Discover(g, count, src, dst, explored, prev, depth, queue, done, v, ns, i);
            FalsesFlip(explored, n - 1);
            explored := explored[n - 1 := true];
            prev := prev[n - 1 := v];
            depth := depth[n - 1 := depth[v - 1] + 1];
            queue := queue + [n];
          } else {
            Skip(g, count, src, dst, explored, prev, depth, queue, done, v, ns, i);
          }
          i := i + 1;
        }
        Finish(g, count, src, dst, explored, prev, depth, queue, done, v, ns);
        done := done + {v};
        lo := depth[v - 1];
      }
      Exhausted(g, count, src, dst, explored, prev, depth, done, lo);
      return [], depth;
    }

    /** get_path: follows prev back from dst to the root and reverses the
        list, giving a walk from src to dst with one entry per level. */
    method GetPath(src: int, dst: int, prev: seq<int>, ghost depth: seq<nat>) returns (path: seq<int>)
      requires PrevTree(graph, nbNodes, src, prev, depth)
      requires 1 <= dst <= nbNodes && InTree(src, prev, dst)
      ensures WalkFromTo(graph, path, src, dst) && |path| == depth[dst - 1] + 1
    {
      path := [dst];
      var cur := dst - 1;
      while prev[cur] != -1
        invariant 0 <= cur < nbNodes && InTree(src, prev, cur + 1)
        invariant BackWalk(graph, path) && path[0] == dst && path[|path| - 1] == cur + 1
        invariant |path| + depth[cur] == depth[dst - 1] + 1
        decreases depth[cur]
      {
        ParentInTree(graph, nbNodes, src, prev, depth, cur);
        assert ParentOk(graph, nbNodes, src, prev, depth, cur);
        cur := prev[cur] - 1;
        path := path + [cur + 1];
      }
      ReverseBackWalk(graph, path);
      path := Reverse(path);
    }

    /** bfs: a shortest walk from src to dst, or None when dst cannot be
        reached (where the source prints a message and returns None). */
    method Bfs(src: int, dst: int) returns (r: Option<seq<int>>)
      requires Valid() && Numbered(graph, nbNodes) && 1 <= src <= nbNodes
      ensures r.None? <==> !Reachable(graph, src, dst)
      ensures r.Some? ==> WalkFromTo(graph, r.value, src, dst)
      ensures r.Some? ==> forall p :: WalkFromTo(graph, p, src, dst) ==> |r.value| <= |p|
      ensures src == dst ==> r == Some([src])
    {
      var prev;
      ghost var depth;
      prev, depth := BfsAux(src, dst);
      if src == dst {
        assert WalkFromTo(graph, [src], src, dst);
      }
      if prev != [] {
        var path := GetPath(src, dst, prev, depth);
        if src == dst {
          assert path == [src];
        }
        r := Some(path);
      } else {
        r := None;
      }
    }
  }
}
