/** The breadth-first search of swap_puzzle/graph.py (bfs_aux, get_path, bfs)
    stated over values: the predecessor tree it builds, the loop invariants of
    its queue, and the lemmas that make the tree a tree of shortest walks. */
module Search {
  import opened Common
  import opened AdjacencyLists

  /** The nodes are 1..count and every listed neighbour is one of them, which
      is what lets bfs index its lists by node - 1. */
  ghost predicate Indexed(g: Adjacency, count: int) {
    Numbered(g, count) && Closed(g)
  }

  /** A listed neighbour is a node numbered 1..count. */
  lemma Neighbour(g: Adjacency, count: int, u: int, v: int)
    requires Indexed(g, count) && u in g && v in g[u]
    ensures v in g && 1 <= v <= count
  {
  }

  /** Entry i of prev (for node i + 1) as bfs_aux leaves it: -1 and depth 0
      for a node without a parent; otherwise the parent is a node that lists
      i + 1, one level up, and it is src when i + 1 is at depth 1. */
  ghost predicate ParentOk(g: Adjacency, count: int, src: int, prev: seq<int>, depth: seq<nat>, i: int)
    requires |prev| == count && |depth| == count && 0 <= i < count
  {
    if prev[i] == -1 then depth[i] == 0
    else
      && 1 <= prev[i] <= count
      && prev[i] in g && i + 1 in g[prev[i]]
      && depth[i] == depth[prev[i] - 1] + 1
      && (depth[i] == 1 ==> prev[i] == src)
  }

  /** The predecessor list is a tree rooted at src: src has no parent and
      depth 0, and every other entry satisfies ParentOk, so from any node with
      a parent the prev links lead back to src. */
  ghost predicate PrevTree(g: Adjacency, count: int, src: int, prev: seq<int>, depth: seq<nat>) {
    && |prev| == count && |depth| == count && 1 <= src <= count
    && prev[src - 1] == -1 && depth[src - 1] == 0
    && forall i :: 0 <= i < count && i != src - 1 ==> ParentOk(g, count, src, prev, depth, i)
  }

  /** Node v is src or has a parent: it was reached by the search. */
  ghost predicate InTree(src: int, prev: seq<int>, v: int)
    requires 1 <= v <= |prev|
  {
    v == src || prev[v - 1] != -1
  }

  /** The parent of a node in the tree is in the tree. */
  lemma ParentInTree(g: Adjacency, count: int, src: int, prev: seq<int>, depth: seq<nat>, i: int)
    requires PrevTree(g, count, src, prev, depth)
    requires 0 <= i < count && i != src - 1 && prev[i] != -1
    ensures 1 <= prev[i] <= count && InTree(src, prev, prev[i])
    ensures depth[i] == depth[prev[i] - 1] + 1
  {
    assert ParentOk(g, count, src, prev, depth, i);
    var p := prev[i];
    if p != src && depth[i] != 1 {
      assert ParentOk(g, count, src, prev, depth, p - 1);
    }
  }

  /** bfs_aux's answer when it finds dst: prev is a tree containing dst, and
      no walk from src to dst is shorter than dst's depth. */
  ghost predicate Found(g: Adjacency, count: int, src: int, dst: int, prev: seq<int>, depth: seq<nat>) {
    && PrevTree(g, count, src, prev, depth)
    && 1 <= dst <= count && InTree(src, prev, dst)
    && forall p :: WalkFromTo(g, p, src, dst) ==> depth[dst - 1] < |p|
  }

  /** Following the tree from a reached node back to src gives a walk. */
  lemma {:induction false} TreeReach(g: Adjacency, count: int, src: int, prev: seq<int>, depth: seq<nat>, v: int)
    requires PrevTree(g, count, src, prev, depth)
    requires 1 <= v <= count && InTree(src, prev, v)
    ensures Reachable(g, src, v)
    decreases depth[v - 1]
  {
    if v == src {
      assert WalkFromTo(g, [src], src, src);
    } else {
      ParentInTree(g, count, src, prev, depth, v - 1);
      assert ParentOk(g, count, src, prev, depth, v - 1);
      var u := prev[v - 1];
      TreeReach(g, count, src, prev, depth, u);
      var p :| WalkFromTo(g, p, src, u);
      assert WalkFromTo(g, p + [v], src, v);
    }
  }

  /** A list read backwards is a walk: each entry is listed by the next. */
  ghost predicate BackWalk(g: Adjacency, p: seq<int>) {
    |p| >= 1 && forall k :: 1 <= k < |p| ==> p[k] in g && p[k - 1] in g[p[k]]
  }

  lemma ReverseBackWalk(g: Adjacency, p: seq<int>)
    requires BackWalk(g, p)
    ensures Walk(g, Reverse(p))
  {
    var r := Reverse(p);
    forall k | 0 <= k < |r| - 1
      ensures r[k] in g && r[k + 1] in g[r[k]]
    {
      var j := |p| - 1 - k;
      assert r[k] == p[j] && r[k + 1] == p[j - 1];
    }
  }

  /** Every entry of a walk that starts at a node is a node. */
  lemma WalkNodes(g: Adjacency, count: int, p: seq<int>)
    requires Indexed(g, count) && Walk(g, p) && p[0] in g
    ensures forall k :: 0 <= k < |p| ==> 1 <= p[k] <= count
  {
    forall k | 0 <= k < |p|
      ensures 1 <= p[k] <= count
    {
      if 0 < k {
        Neighbour(g, count, p[k - 1], p[k]);
      }
    }
  }

  // ---------------------------------------------------------------------
  // The state of bfs_aux's loop.

  /** explored marks exactly the nodes of the tree. */
  ghost predicate TreeOk(g: Adjacency, count: int, src: int, explored: seq<bool>, prev: seq<int>, depth: seq<nat>) {
    && PrevTree(g, count, src, prev, depth)
    && |explored| == count
    && forall i :: 0 <= i < count ==> (explored[i] <==> (i == src - 1 || prev[i] != -1))
  }

  /** The queue holds distinct explored nodes that are not done yet, in order
      of depth, all at depth lo or lo + 1. */
  ghost predicate QueueOk(count: int, explored: seq<bool>, depth: seq<nat>, queue: seq<int>, done: set<int>, lo: int) {
    && |explored| == count && |depth| == count
    && NoDup(queue)
    && (forall k :: 0 <= k < |queue| ==>
          1 <= queue[k] <= count && explored[queue[k] - 1] && queue[k] !in done
          && lo <= depth[queue[k] - 1] <= lo + 1)
    && (forall k, l :: 0 <= k < l < |queue| ==> depth[queue[k] - 1] <= depth[queue[l] - 1])
  }

  /** A done node has had its whole list scanned: its neighbours are
      explored, at most one level below it. */
  ghost predicate DoneOk(g: Adjacency, count: int, explored: seq<bool>, depth: seq<nat>, done: set<int>) {
    && |explored| == count && |depth| == count
    && (forall u :: u in done ==> 1 <= u <= count && explored[u - 1])
    && (forall u, w :: u in done && 1 <= u <= count && u in g && w in g[u] ==>
          1 <= w <= count && explored[w - 1] && depth[w - 1] <= depth[u - 1] + 1)
  }

  /** Done nodes are no deeper than lo, the depth the queue starts at. */
  ghost predicate DoneBelow(count: int, depth: seq<nat>, done: set<int>, lo: int) {
    && |depth| == count
    && forall u :: u in done && 1 <= u <= count ==> depth[u - 1] <= lo
  }

  /** Every explored node is done, queued, or the one being expanded. */
  ghost predicate Covered(count: int, explored: seq<bool>, queue: seq<int>, done: set<int>, extra: set<int>) {
    && |explored| == count
    && forall i :: 0 <= i < count && explored[i] ==> i + 1 in done || i + 1 in queue || i + 1 in extra
  }

  /** The invariant of bfs_aux's while loop. */
  ghost predicate Searching(g: Adjacency, count: int, src: int, dst: int, explored: seq<bool>, prev: seq<int>,
                            depth: seq<nat>, queue: seq<int>, done: set<int>, lo: int) {
    && Indexed(g, count)
    && TreeOk(g, count, src, explored, prev, depth)
    && QueueOk(count, explored, depth, queue, done, lo)
    && DoneOk(g, count, explored, depth, done)
    && DoneBelow(count, depth, done, lo)
    && Covered(count, explored, queue, done, {})
    && dst !in done
  }

  /** The invariant of the inner loop over v's list ns, after i entries. */
  ghost predicate Expanding(g: Adjacency, count: int, src: int, dst: int, explored: seq<bool>, prev: seq<int>,
                            depth: seq<nat>, queue: seq<int>, done: set<int>, v: int, ns: seq<int>, i: int) {
    && Indexed(g, count)
    && TreeOk(g, count, src, explored, prev, depth)
    && 1 <= v <= count && explored[v - 1] && v !in done && v !in queue && v != dst
    && QueueOk(count, explored, depth, queue, done, depth[v - 1])
    && DoneOk(g, count, explored, depth, done)
    && DoneBelow(count, depth, done, depth[v - 1])
    && Covered(count, explored, queue, done, {v})
    && dst !in done
    && v in g && ns == g[v] && 0 <= i <= |ns|
    && (forall k :: 0 <= k < |ns| ==> 1 <= ns[k] <= count)
    && (forall k :: 0 <= k < i ==> explored[ns[k] - 1] && depth[ns[k] - 1] <= depth[v - 1] + 1)
  }

  /** How many nodes are still unexplored: the loop's termination measure. */
  function Falses(e: seq<bool>): (r: nat)
    ensures r <= |e|
  {
    if e == [] then 0 else Falses(e[..|e| - 1]) + (if e[|e| - 1] then 0 else 1)
  }

  lemma {:induction false} FalsesFlip(e: seq<bool>, i: int)
    requires 0 <= i < |e| && !e[i]
    ensures Falses(e[i := true]) == Falses(e) - 1
  {
    var e' := e[i := true];
    if i == |e| - 1 {
      assert e'[..|e| - 1] == e[..|e| - 1];
    } else {
      assert e'[..|e| - 1] == e[..|e| - 1][i := true];
      FalsesFlip(e[..|e| - 1], i);
    }
  }

  // ---------------------------------------------------------------------
  // The steps of bfs_aux.

  /** The state before the loop: src explored and queued, nothing else. */
  lemma Start(g: Adjacency, count: int, src: int, dst: int, explored: seq<bool>, prev: seq<int>, depth: seq<nat>)
    requires Indexed(g, count) && 1 <= src <= count
    requires |explored| == count && forall i :: 0 <= i < count ==> explored[i] == (i == src - 1)
    requires |prev| == count && forall i :: 0 <= i < count ==> prev[i] == -1
    requires |depth| == count && forall i :: 0 <= i < count ==> depth[i] == 0
    ensures Searching(g, count, src, dst, explored, prev, depth, [src], {}, 0)
  {
    forall i | 0 <= i < count && i != src - 1
      ensures ParentOk(g, count, src, prev, depth, i)
    {
    }
  }

  /** Popping the head v (not dst) starts the scan of v's list. */
  lemma Pop(g: Adjacency, count: int, src: int, dst: int, explored: seq<bool>, prev: seq<int>,
            depth: seq<nat>, queue: seq<int>, done: set<int>, lo: int)
    requires Searching(g, count, src, dst, explored, prev, depth, queue, done, lo)
    requires queue != [] && queue[0] != dst
    ensures queue[0] in g
    ensures Expanding(g, count, src, dst, explored, prev, depth, queue[1..], done, queue[0], g[queue[0]], 0)
  {
    PopQueue(count, explored, depth, queue, done, lo);
    PopCovered(count, explored, queue, done);
    ListInRange(g, count, queue[0]);
  }

  /** The rest of the queue starts no shallower than the popped head. */
  lemma PopQueue(count: int, explored: seq<bool>, depth: seq<nat>, queue: seq<int>, done: set<int>, lo: int)
    requires QueueOk(count, explored, depth, queue, done, lo) && queue != []
    ensures QueueOk(count, explored, depth, queue[1..], done, depth[queue[0] - 1])
    ensures queue[0] !in queue[1..]
  {
    var v, rest := queue[0], queue[1..];
    forall k | 0 <= k < |rest|
      ensures rest[k] != v && depth[v - 1] <= depth[rest[k] - 1] <= depth[v - 1] + 1
    {
      assert rest[k] == queue[k + 1];
    }
  }

  /** The popped head is covered as the node being expanded. */
  lemma PopCovered(count: int, explored: seq<bool>, queue: seq<int>, done: set<int>)
    requires Covered(count, explored, queue, done, {}) && queue != []
    ensures Covered(count, explored, queue[1..], done, {queue[0]})
  {
    var v, rest := queue[0], queue[1..];
    forall i | 0 <= i < count && explored[i]
      ensures i + 1 in done || i + 1 in rest || i + 1 in {v}
    {
      if i + 1 in queue && i + 1 != v {
        var k :| 0 <= k < |queue| && queue[k] == i + 1;
        assert rest[k - 1] == i + 1;
      }
    }
  }

  /** Every entry of a node's list is a node numbered 1..count. */
  lemma ListInRange(g: Adjacency, count: int, v: int)
    requires Indexed(g, count) && 1 <= v <= count
    ensures v in g && forall k :: 0 <= k < |g[v]| ==> 1 <= g[v][k] <= count
  {
    var ns := g[v];
    forall k | 0 <= k < |ns| ensures 1 <= ns[k] <= count {
      Neighbour(g, count, v, ns[k]);
    }
  }

  /** An unexplored neighbour n of v gets prev v, depth one more than v's and
      joins the queue. */
  lemma Discover(g: Adjacency, count: int, src: int, dst: int, explored: seq<bool>, prev: seq<int>,
                 depth: seq<nat>, queue: seq<int>, done: set<int>, v: int, ns: seq<int>, i: int)
    requires Expanding(g, count, src, dst, explored, prev, depth, queue, done, v, ns, i)
    requires i < |ns| && !explored[ns[i] - 1]
    ensures Expanding(g, count, src, dst, explored[ns[i] - 1 := true], prev[ns[i] - 1 := v],
                      depth[ns[i] - 1 := depth[v - 1] + 1], queue + [ns[i]], done, v, ns, i + 1)
  {
    var n := ns[i];
    var explored', prev', depth' := explored[n - 1 := true], prev[n - 1 := v], depth[n - 1 := depth[v - 1] + 1];
    DiscoverTree(g, count, src, explored, prev, depth, v, n);
    DiscoverQueue(count, explored, depth, queue, done, depth[v - 1], n);
    DiscoverDone(g, count, explored, depth, done, n, depth[v - 1] + 1);
    forall k | 0 <= k < i + 1
      ensures explored'[ns[k] - 1] && depth'[ns[k] - 1] <= depth'[v - 1] + 1
    {
      if k < i {
        assert ns[k] != n;
      }
    }
  }

  /** A newly discovered node joins the back of the queue one level down. */
  lemma DiscoverQueue(count: int, explored: seq<bool>, depth: seq<nat>, queue: seq<int>, done: set<int>, lo: nat, n: int)
    requires QueueOk(count, explored, depth, queue, done, lo)
    requires 1 <= n <= count && !explored[n - 1] && n !in done
    ensures QueueOk(count, explored[n - 1 := true], depth[n - 1 := lo + 1], queue + [n], done, lo)
  {
    var explored', depth', queue' := explored[n - 1 := true], depth[n - 1 := lo + 1], queue + [n];
    forall k | 0 <= k < |queue|
      ensures queue'[k] == queue[k] && queue[k] != n && depth'[queue[k] - 1] == depth[queue[k] - 1]
    {
    }
  }

  /** Discovering a node changes no entry the done nodes depend on. */
  lemma DiscoverDone(g: Adjacency, count: int, explored: seq<bool>, depth: seq<nat>, done: set<int>, n: int, d: nat)
    requires DoneOk(g, count, explored, depth, done)
    requires 1 <= n <= count && !explored[n - 1]
    ensures DoneOk(g, count, explored[n - 1 := true], depth[n - 1 := d], done)
  {
    var explored', depth' := explored[n - 1 := true], depth[n - 1 := d];
    forall u, w | u in done && 1 <= u <= count && u in g && w in g[u]
      ensures 1 <= w <= count && explored'[w - 1] && depth'[w - 1] <= depth'[u - 1] + 1
    {
      assert u != n && w != n;
    }
  }

  /** Discovering n from v keeps prev a tree marked by explored. */
  lemma DiscoverTree(g: Adjacency, count: int, src: int, explored: seq<bool>, prev: seq<int>,
                     depth: seq<nat>, v: int, n: int)
    requires Indexed(g, count) && TreeOk(g, count, src, explored, prev, depth)
    requires 1 <= v <= count && explored[v - 1] && v in g && n in g[v]
    requires 1 <= n <= count && !explored[n - 1]
    ensures TreeOk(g, count, src, explored[n - 1 := true], prev[n - 1 := v], depth[n - 1 := depth[v - 1] + 1])
  {
    var explored', prev', depth' := explored[n - 1 := true], prev[n - 1 := v], depth[n - 1 := depth[v - 1] + 1];
    if v != src {
      ParentInTree(g, count, src, prev, depth, v - 1);
    }
    forall i | 0 <= i < count && i != src - 1
      ensures ParentOk(g, count, src, prev', depth', i)
    {
      if i != n - 1 {
        assert ParentOk(g, count, src, prev, depth, i);
        if prev[i] != -1 {
          ParentInTree(g, count, src, prev, depth, i);
          assert prev[i] != n;
        }
      }
    }
  }

  /** An explored neighbour changes nothing. */
  lemma Skip(g: Adjacency, count: int, src: int, dst: int, explored: seq<bool>, prev: seq<int>,
             depth: seq<nat>, queue: seq<int>, done: set<int>, v: int, ns: seq<int>, i: int)
    requires Expanding(g, count, src, dst, explored, prev, depth, queue, done, v, ns, i)
    requires i < |ns| && explored[ns[i] - 1]
    ensures Expanding(g, count, src, dst, explored, prev, depth, queue, done, v, ns, i + 1)
  {
    var n := ns[i];
    assert n in done || n in queue || n in {v};
    if n in queue {
      var k :| 0 <= k < |queue| && queue[k] == n;
    }
  }

  /** With v's list scanned, v is done and the queue's depths start at v's. */
  lemma Finish(g: Adjacency, count: int, src: int, dst: int, explored: seq<bool>, prev: seq<int>,
               depth: seq<nat>, queue: seq<int>, done: set<int>, v: int, ns: seq<int>)
    requires Expanding(g, count, src, dst, explored, prev, depth, queue, done, v, ns, |ns|)
    ensures Searching(g, count, src, dst, explored, prev, depth, queue, done + {v}, depth[v - 1])
  {
    var done' := done + {v};
    assert DoneOk(g, count, explored, depth, done') by {
      forall u, w | u in done' && 1 <= u <= count && u in g && w in g[u]
        ensures 1 <= w <= count && explored[w - 1] && depth[w - 1] <= depth[u - 1] + 1
      {
        if u == v {
          var k :| 0 <= k < |ns| && ns[k] == w;
        }
      }
    }
  }

  /** Along a walk from src, either the whole walk is done, its end at most
      its number of steps deep, or some entry j is queued at depth at most j. */
  lemma {:induction false} Frontier(g: Adjacency, count: int, src: int, explored: seq<bool>, depth: seq<nat>,
                                    queue: seq<int>, done: set<int>, p: seq<int>)
    requires Indexed(g, count) && DoneOk(g, count, explored, depth, done)
    requires Covered(count, explored, queue, done, {})
    requires 1 <= src <= count && explored[src - 1] && depth[src - 1] == 0
    requires Walk(g, p) && p[0] == src
    requires forall k :: 0 <= k < |p| ==> 1 <= p[k] <= count
    ensures (p[|p| - 1] in done && depth[p[|p| - 1] - 1] <= |p| - 1)
         || exists j :: 0 <= j < |p| && p[j] in queue && depth[p[j] - 1] <= j
  {
    if |p| == 1 {
      assert src in done || src in queue || src in {};
      if src in queue {
        assert p[0] in queue;
      }
    } else {
      var q := p[..|p| - 1];
      assert Walk(g, q);
      Frontier(g, count, src, explored, depth, queue, done, q);
      if j :| 0 <= j < |q| && q[j] in queue && depth[q[j] - 1] <= j {
        assert p[j] == q[j];
      } else {
        var u, w := p[|p| - 2], p[|p| - 1];
        assert u == q[|q| - 1];
        assert w in g[u];
        assert w in done || w in queue || w in {};
      }
    }
  }

  /** bfs_aux returns prev when dst reaches the head of the queue: dst is in
      the tree and no walk reaches it in fewer steps than its depth. */
  lemma FoundAtHead(g: Adjacency, count: int, src: int, dst: int, explored: seq<bool>, prev: seq<int>,
                    depth: seq<nat>, queue: seq<int>, done: set<int>, lo: int)
    requires Searching(g, count, src, dst, explored, prev, depth, queue, done, lo)
    requires queue != [] && queue[0] == dst
    ensures Found(g, count, src, dst, prev, depth)
  {
    forall p | WalkFromTo(g, p, src, dst)
      ensures depth[dst - 1] < |p|
    {
      WalkNodes(g, count, p);
      Frontier(g, count, src, explored, depth, queue, done, p);
      if j :| 0 <= j < |p| && p[j] in queue && depth[p[j] - 1] <= j {
        var l :| 0 <= l < |queue| && queue[l] == p[j];
        if l > 0 {
          assert depth[queue[0] - 1] <= depth[queue[l] - 1];
        }
      }
    }
  }

  /** bfs_aux returns [] when the queue runs dry: dst is then unreachable. */
  lemma Exhausted(g: Adjacency, count: int, src: int, dst: int, explored: seq<bool>, prev: seq<int>,
                  depth: seq<nat>, done: set<int>, lo: int)
    requires Searching(g, count, src, dst, explored, prev, depth, [], done, lo)
    ensures !Reachable(g, src, dst)
  {
    forall p | WalkFromTo(g, p, src, dst)
      ensures false
    {
      WalkNodes(g, count, p);
      Frontier(g, count, src, explored, depth, [], done, p);
    }
  }
}
