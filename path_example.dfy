/** The graph of tests/test_path.py and the shortest path bfs finds in it. */
module PathExample {
  import opened Common
  import opened AdjacencyLists
  import opened Search
  import opened Graphs

  /** The adjacency lists after the seven add_edge calls of the test
      (BuildTestGraph shows the calls build exactly these). Its nodes are
      1..7 and every listed neighbour is one of them, as bfs requires. */
  function TestAdjacency(): (r: Adjacency)
    ensures Indexed(r, 7)
  {
    map[1 := [2, 3, 4], 2 := [1, 4], 3 := [1, 5, 7], 4 := [1, 2], 5 := [3], 6 := [7], 7 := [3, 6]]
  }

  /** In the test graph the only walk from 1 to 6 with at most four entries
      is 1, 3, 7, 6. */
  lemma OnlyShortWalk(p: seq<int>)
    requires WalkFromTo(TestAdjacency(), p, 1, 6) && |p| <= 4
    ensures p == [1, 3, 7, 6]
  {
    var g := TestAdjacency();
    assert p[0] in g && p[1] in g[p[0]];
    if |p| == 4 {
      assert p[1] in g && p[2] in g[p[1]];
      assert p[2] in g && p[3] in g[p[2]];
    }
  }

  /** Any answer bfs(1, 6) may give on the test graph, a walk from 1 to 6 no
      longer than any other, is [1, 3, 7, 6]. */
  lemma TestShortestPath(p: seq<int>)
    requires WalkFromTo(TestAdjacency(), p, 1, 6)
    requires forall q :: WalkFromTo(TestAdjacency(), q, 1, 6) ==> |p| <= |q|
    ensures p == [1, 3, 7, 6]
  {
    assert WalkFromTo(TestAdjacency(), [1, 3, 7, 6], 1, 6);
    OnlyShortWalk(p);
  }

  /** The first three add_edge calls of the test, on the lists of
      Graph([1, 2, 3, 4, 5, 6, 7]). */
  lemma TestLinksFirst(g0: Adjacency) returns (g3: Adjacency)
    requires g0 == map[1 := [], 2 := [], 3 := [], 4 := [], 5 := [], 6 := [], 7 := []]
    ensures g3 == Link(Link(Link(g0, 1, 2), 1, 3), 1, 4)
    ensures g3 == map[1 := [2, 3, 4], 2 := [1], 3 := [1], 4 := [1], 5 := [], 6 := [], 7 := []]
  {
    var g1 := map[1 := [2], 2 := [1], 3 := [], 4 := [], 5 := [], 6 := [], 7 := []];
    LinkExisting(g0, 1, 2, g1);
    var g2 := map[1 := [2, 3], 2 := [1], 3 := [1], 4 := [], 5 := [], 6 := [], 7 := []];
    LinkExisting(g1, 1, 3, g2);
    g3 := map[1 := [2, 3, 4], 2 := [1], 3 := [1], 4 := [1], 5 := [], 6 := [], 7 := []];
    LinkExisting(g2, 1, 4, g3);
  }

  /** The next two: add_edge(2, 4) and add_edge(3, 5). */
  lemma TestLinksMiddle(g3: Adjacency) returns (g5: Adjacency)
    requires g3 == map[1 := [2, 3, 4], 2 := [1], 3 := [1], 4 := [1], 5 := [], 6 := [], 7 := []]
    ensures g5 == Link(Link(g3, 2, 4), 3, 5)
    ensures g5 == map[1 := [2, 3, 4], 2 := [1, 4], 3 := [1, 5], 4 := [1, 2], 5 := [3], 6 := [], 7 := []]
  {
    var g4 := map[1 := [2, 3, 4], 2 := [1, 4], 3 := [1], 4 := [1, 2], 5 := [], 6 := [], 7 := []];
    LinkExisting(g3, 2, 4, g4);
    g5 := map[1 := [2, 3, 4], 2 := [1, 4], 3 := [1, 5], 4 := [1, 2], 5 := [3], 6 := [], 7 := []];
    LinkExisting(g4, 3, 5, g5);
  }

  /** The last two: add_edge(3, 7) and add_edge(6, 7). */
  lemma TestLinksLast(g5: Adjacency)
    requires g5 == map[1 := [2, 3, 4], 2 := [1, 4], 3 := [1, 5], 4 := [1, 2], 5 := [3], 6 := [], 7 := []]
    ensures Link(Link(g5, 3, 7), 6, 7) == TestAdjacency()
  {
    var g6 := map[1 := [2, 3, 4], 2 := [1, 4], 3 := [1, 5, 7], 4 := [1, 2], 5 := [3], 6 := [], 7 := [3]];
    LinkExisting(g5, 3, 7, g6);
    LinkExisting(g6, 6, 7, TestAdjacency());
  }

  /** The seven add_edge calls of the test, applied to the lists of
      Graph([1, 2, 3, 4, 5, 6, 7]), give TestAdjacency. */
  lemma TestLinks(g0: Adjacency)
    requires g0 == map v | v in [1, 2, 3, 4, 5, 6, 7] :: []
    ensures Link(Link(Link(Link(Link(Link(Link(g0, 1, 2), 1, 3), 1, 4), 2, 4), 3, 5), 3, 7), 6, 7) == TestAdjacency()
  {
    assert g0 == map[1 := [], 2 := [], 3 := [], 4 := [], 5 := [], 6 := [], 7 := []];
    var g3 := TestLinksFirst(g0);
    var g5 := TestLinksMiddle(g3);
    TestLinksLast(g5);
  }

  /** The module-level set-up of the test: Graph([1, 2, 3, 4, 5, 6, 7]) and
      its seven add_edge calls, which give the lists of TestAdjacency and
      keep the nodes 1..7. */
  method BuildTestGraph() returns (g: Graph)
    ensures fresh(g) && g.Valid()
    ensures g.graph == TestAdjacency() && g.nbNodes == 7
  {
    g := new Graph([1, 2, 3, 4, 5, 6, 7]);
    ghost var g0 := g.graph;
    g.AddEdge(1, 2);
    g.AddEdge(1, 3);
    g.AddEdge(1, 4);
    g.AddEdge(2, 4);
    g.AddEdge(3, 5);
    g.AddEdge(3, 7);
    g.AddEdge(6, 7);
    TestLinks(g0);
    SevenNodes(g.nodes, g.graph);
  }

  /** A node list of the test graph has seven entries. */
  lemma SevenNodes(nodes: seq<int>, g: Adjacency)
    requires NodeList(nodes, g) && g == TestAdjacency()
    ensures |nodes| == 7
  {
  }

  /** test1 of tests/test_path.py: on the test graph, bfs(1, 6) returns
      [1, 3, 7, 6]. */
  method TestBfs() returns (path: Option<seq<int>>)
    ensures path == Some([1, 3, 7, 6])
  {
    var g := BuildTestGraph();
    assert WalkFromTo(g.graph, [1, 3, 7, 6], 1, 6);
    path := g.Bfs(1, 6);
    TestShortestPath(path.value);
  }
}
