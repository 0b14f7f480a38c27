/** `dijkstra`: build a directed graph from a list of routes, every edge of weight 1, and ask for
    a shortest path from `source` to `target`. With unit weights a shortest path is one with the
    fewest hops; the search below finds one level by level. */
module ShortestPath {
  import opened Reachability
  import opened Adjacencies

  /** The outcome of a shortest-path query: a path, no path, or an endpoint that is not a vertex
      of the graph (an error the query raises and `dijkstra` does not catch). */
  datatype PathResult = Path(nodes: seq<Node>) | NoPath | NodeNotFound

  /** Every vertex named by some route. */
  function Endpoints(routes: seq<Edge>): set<Node>
    decreases |routes|
  {
    if routes == [] then {}
    else
      var n := |routes| - 1;
      Endpoints(routes[..n]) + {routes[n].0, routes[n].1}
  }

  /** `p` follows listed routes from stop to stop. */
  ghost predicate IsRoute(routes: seq<Edge>, p: seq<Node>) {
    |p| > 0 && forall i :: 0 <= i < |p| - 1 ==> (p[i], p[i + 1]) in routes
  }

  /** `q` is a path of `adj` that starts at `s`. */
  ghost predicate PathFrom(adj: SuccMap, s: Node, q: seq<Node>) {
    IsPath(adj, q) && q[0] == s
  }

  /** `p` is a path of `adj` from `s` to `t` with no more vertices than any other. */
  ghost predicate IsShortest(adj: SuccMap, s: Node, t: Node, p: seq<Node>) {
    && PathFrom(adj, s, p) && Last(p) == t
    && forall q {:trigger PathFrom(adj, s, q)} :: PathFrom(adj, s, q) && Last(q) == t ==> |p| <= |q|
  }

  /** The state of the search after `d` levels: `found` maps each vertex found so far to a
      shortest path reaching it, and `frontier` lists exactly the vertices at `d` hops. */
  ghost predicate Layered(adj: SuccMap, s: Node, found: map<Node, seq<Node>>, frontier: seq<Node>, d: nat) {
    && (forall x :: x in found ==> PathFrom(adj, s, found[x]) && Last(found[x]) == x && |found[x]| <= d + 1)
    && (forall x :: x in frontier ==> x in found && |found[x]| == d + 1)
    && (forall x :: x in found && |found[x]| == d + 1 ==> x in frontier)
    && (forall q {:trigger PathFrom(adj, s, q)} :: PathFrom(adj, s, q) && |q| <= d + 1 ==> Last(q) in found)
    && (forall q {:trigger PathFrom(adj, s, q)} ::
          PathFrom(adj, s, q) && Last(q) in found ==> |found[Last(q)]| <= |q|)
    && (forall x, y {:trigger HasEdge(adj, x, y), x in found} ::
          x in found && x !in frontier && HasEdge(adj, x, y) ==> y in found)
  }

  /** Part way through a level: `found'` extends `found` with vertices at `d + 1` hops, listed in
      `next`, and every successor of the first `i` frontier vertices is found. */
  ghost predicate Expanding(adj: SuccMap, s: Node, found: map<Node, seq<Node>>, frontier: seq<Node>, d: nat,
                           found': map<Node, seq<Node>>, next: seq<Node>, i: nat) {
    && (forall x :: x in found ==> x in found' && found'[x] == found[x])
    && (forall x :: x in found' && x !in found ==>
          x in next && PathFrom(adj, s, found'[x]) && Last(found'[x]) == x && |found'[x]| == d + 2)
    && (forall x :: x in next ==> x in found' && x !in found)
    && (forall k, y {:trigger HasEdge(adj, frontier[k], y)} ::
          0 <= k < i && k < |frontier| && HasEdge(adj, frontier[k], y) ==> y in found')
  }

  lemma PathExtend(adj: SuccMap, p: seq<Node>, w: Node)
    requires IsPath(adj, p) && HasEdge(adj, Last(p), w)
    ensures IsPath(adj, p + [w]) && (p + [w])[0] == p[0] && Last(p + [w]) == w
  {
    PathConcat(adj, p, [Last(p), w]);
    assert [Last(p), w][1..] == [w];
  }

  /** The search starts with the source alone, at no hops. */
  lemma LayeredStart(adj: SuccMap, s: Node)
    ensures Layered(adj, s, map[s := [s]], [s], 0)
  {
    var found := map[s := [s]];
    assert IsPath(adj, [s]);
    forall q | PathFrom(adj, s, q) && |q| <= 1
      ensures Last(q) in found
    {
      assert Last(q) == q[0];
    }
  }

  /** Once every frontier vertex is expanded, the new vertices form the next level. */
  lemma LevelDone(adj: SuccMap, s: Node, found: map<Node, seq<Node>>, frontier: seq<Node>, d: nat,
                  found': map<Node, seq<Node>>, next: seq<Node>)
    requires Layered(adj, s, found, frontier, d)
    requires Expanding(adj, s, found, frontier, d, found', next, |frontier|)
    ensures Layered(adj, s, found', next, d + 1)
  {
    assert forall x :: x in found' && |found'[x]| == d + 2 ==> x !in found;
    forall q | PathFrom(adj, s, q) && |q| <= d + 2
      ensures Last(q) in found'
    {
      if |q| <= d + 1 {
        assert Last(q) in found;
      } else {
        var pre := q[..d + 1];
        PathSlice(adj, q, 0, d + 1);
        assert PathFrom(adj, s, pre) && Last(pre) == q[d];
        assert q[d] in found;
        assert HasEdge(adj, q[d], q[d + 1]);
        assert Last(q) == q[d + 1];
        if q[d] in frontier {
          var k :| 0 <= k < |frontier| && frontier[k] == q[d];
          assert HasEdge(adj, frontier[k], q[d + 1]);
        } else {
          assert q[d + 1] in found;
        }
      }
    }
    forall q | PathFrom(adj, s, q) && Last(q) in found'
      ensures |found'[Last(q)]| <= |q|
    {
      if Last(q) !in found {
        assert |q| > d + 1;
      }
    }
    forall x, y | x in found' && x !in next && HasEdge(adj, x, y)
      ensures y in found'
    {
      assert x in found;
      if x in frontier {
        var k :| 0 <= k < |frontier| && frontier[k] == x;
        assert HasEdge(adj, frontier[k], y);
      } else {
        assert y in found;
      }
    }
  }

  /** Finding `w` through the frontier vertex `frontier[i]` keeps the level's partial state. */
  lemma FoundStep(adj: SuccMap, s: Node, found: map<Node, seq<Node>>, frontier: seq<Node>, d: nat,
                  found': map<Node, seq<Node>>, next: seq<Node>, i: nat, w: Node)
    requires Layered(adj, s, found, frontier, d)
    requires Expanding(adj, s, found, frontier, d, found', next, i)
    requires i < |frontier| && w !in found' && HasEdge(adj, frontier[i], w)
    ensures frontier[i] in found' && found'[frontier[i]] == found[frontier[i]]
    ensures Expanding(adj, s, found, frontier, d, found'[w := found'[frontier[i]] + [w]], next + [w], i)
  {
    var u := frontier[i];
    PathExtend(adj, found[u], w);
  }

  /** When every successor of `frontier[i]` is found, the row is done. */
  lemma RowDone(adj: SuccMap, s: Node, found: map<Node, seq<Node>>, frontier: seq<Node>, d: nat,
                found': map<Node, seq<Node>>, next: seq<Node>, i: nat)
    requires Expanding(adj, s, found, frontier, d, found', next, i)
    requires i < |frontier|
    requires forall k :: 0 <= k < |Succ(adj, frontier[i])| ==> Succ(adj, frontier[i])[k] in found'
    ensures Expanding(adj, s, found, frontier, d, found', next, i + 1)
  {
    forall k, y | 0 <= k < i + 1 && k < |frontier| && HasEdge(adj, frontier[k], y)
      ensures y in found'
    {
      if k == i {
        var j :| 0 <= j < |Succ(adj, frontier[i])| && Succ(adj, frontier[i])[j] == y;
      }
    }
  }

  /** Expands the frontier vertex `frontier[i]`: each successor not found yet is found through
      it and queued for the next level. */
  method ExpandVertex(adj: SuccMap, nodes: set<Node>, s: Node, found: map<Node, seq<Node>>,
                      frontier: seq<Node>, ghost d: nat, found0: map<Node, seq<Node>>, next0: seq<Node>,
                      i: nat)
    returns (found': map<Node, seq<Node>>, next: seq<Node>)
    requires EdgesWithin(adj, nodes) && found0.Keys <= nodes
    requires Layered(adj, s, found, frontier, d)
    requires i < |frontier| && Expanding(adj, s, found, frontier, d, found0, next0, i)
    ensures Expanding(adj, s, found, frontier, d, found', next, i + 1)
    ensures found'.Keys <= nodes
  {
    found', next := found0, next0;
    var u := frontier[i];
    var succs := Succ(adj, u);
    for j := 0 to |succs|
      invariant Expanding(adj, s, found, frontier, d, found', next, i)
      invariant found'.Keys <= nodes
      invariant forall k :: 0 <= k < j ==> succs[k] in found'
    {
      var w := succs[j];
      if w !in found' {
        assert HasEdge(adj, u, w);
        FoundStep(adj, s, found, frontier, d, found', next, i, w);
        found' := found'[w := found'[u] + [w]];
        next := next + [w];
      }
    }
    RowDone(adj, s, found, frontier, d, found', next, i);
  }

  /** Expands one level: every successor of a frontier vertex not found yet is found through that
      frontier vertex, and the newly found vertices form the next frontier. */
  method ExpandLevel(adj: SuccMap, nodes: set<Node>, s: Node, found: map<Node, seq<Node>>,
                     frontier: seq<Node>, ghost d: nat)
    returns (found': map<Node, seq<Node>>, next: seq<Node>)
    requires EdgesWithin(adj, nodes) && found.Keys <= nodes
    requires Layered(adj, s, found, frontier, d)
    ensures Layered(adj, s, found', next, d + 1)
    ensures found.Keys <= found'.Keys <= nodes
    ensures next != [] ==> found.Keys < found'.Keys
  {
    found' := found;
    next := [];
    for i := 0 to |frontier|
      invariant Expanding(adj, s, found, frontier, d, found', next, i)
      invariant found'.Keys <= nodes
    {
      found', next := ExpandVertex(adj, nodes, s, found, frontier, d, found', next, i);
    }
    LevelDone(adj, s, found, frontier, d, found', next);
    if next != [] {
      assert next[0] in found' && next[0] !in found;
    }
  }

  /** Breadth-first search from `s` that stops as soon as `t` is found or a level adds nothing. */
  method Search(adj: SuccMap, nodes: set<Node>, s: Node, t: Node) returns (r: PathResult)
    requires EdgesWithin(adj, nodes) && s in nodes
    ensures r.Path? ==> IsShortest(adj, s, t, r.nodes)
    ensures r.NoPath? ==> !Reach(adj, s, t)
    ensures !r.NodeNotFound?
  {
    var found := map[s := [s]];
    var frontier := [s];
    ghost var d := 0;
    LayeredStart(adj, s);
    while frontier != [] && t !in found
      invariant Layered(adj, s, found, frontier, d) && found.Keys <= nodes
      decreases nodes - found.Keys, |frontier|
    {
      found, frontier := ExpandLevel(adj, nodes, s, found, frontier, d);
      d := d + 1;
    }
    if t in found {
      r := Path(found[t]);
    } else {
      assert PathFrom(adj, s, [s]);
      assert s in found.Keys;
      ClosedUnreachable(adj, found.Keys, s, t);
      r := NoPath;
    }
  }

  /** A vertex of the graph built from `routes` is exactly an endpoint of some route. */
  lemma {:induction false} EndpointsIff(routes: seq<Edge>, x: Node)
    ensures x in Endpoints(routes) <==> exists e :: e in routes && (e.0 == x || e.1 == x)
    decreases |routes|
  {
    if routes != [] {
      var n := |routes| - 1;
      EndpointsIff(routes[..n], x);
      assert routes == routes[..n] + [routes[n]];
      if x in Endpoints(routes[..n]) {
        var e :| e in routes[..n] && (e.0 == x || e.1 == x);
        assert e in routes;
      }
    }
  }

  /** Every route stays within the endpoints. */
  lemma RoutesWithin(routes: seq<Edge>)
    ensures EdgesWithin(WithEdges(Empty, routes).succ, Endpoints(routes))
  {
    EdgeListAllEdges(routes);
    forall u, v | HasEdge(WithEdges(Empty, routes).succ, u, v)
      ensures u in Endpoints(routes) && v in Endpoints(routes)
    {
      EndpointsIff(routes, u);
      EndpointsIff(routes, v);
    }
  }

  /** A sequence of stops follows listed routes exactly when it is a path of the graph built from
      them. */
  lemma RoutesArePaths(routes: seq<Edge>)
    ensures forall p {:trigger IsRoute(routes, p)} {:trigger IsPath(WithEdges(Empty, routes).succ, p)} ::
              IsRoute(routes, p) <==> IsPath(WithEdges(Empty, routes).succ, p)
  {
    EdgeListAllEdges(routes);
  }

  /** `dijkstra`: builds the graph from the routes, then asks for a path from `source` to
      `target` with the fewest hops. */
  method Dijkstra(routes: seq<Edge>, source: Node, target: Node) returns (r: PathResult)
    ensures r.NodeNotFound? <==> source !in Endpoints(routes) || target !in Endpoints(routes)
    ensures r.Path? ==> IsRoute(routes, r.nodes) && r.nodes[0] == source && Last(r.nodes) == target
    ensures r.Path? ==> forall q {:trigger IsRoute(routes, q)} ::
                          IsRoute(routes, q) && q[0] == source && Last(q) == target ==> |r.nodes| <= |q|
    ensures r.NoPath? ==> forall q {:trigger IsRoute(routes, q)} ::
                            IsRoute(routes, q) && q[0] == source ==> Last(q) != target
  {
    var adj := Empty;
    var nodes: set<Node> := {};
    for i := 0 to |routes|
      invariant adj == WithEdges(Empty, routes[..i]) && nodes == Endpoints(routes[..i])
    {
      assert routes[..i + 1] == routes[..i] + [routes[i]];
      WithEdgesAppend(Empty, routes[..i], routes[i]);
      adj := WithEdge(adj, routes[i].0, routes[i].1);
      nodes := nodes + {routes[i].0, routes[i].1};
    }
    assert routes[..|routes|] == routes;
    if source !in nodes || target !in nodes {
      return NodeNotFound;
    }
    RoutesWithin(routes);
    r := Search(adj.succ, nodes, source, target);
    RoutesArePaths(routes);
    forall q | IsRoute(routes, q) && q[0] == source
      ensures r.NoPath? ==> Last(q) != target
      ensures r.Path? && Last(q) == target ==> |r.nodes| <= |q|
    {
      assert PathFrom(adj.succ, source, q);
    }
  }
}
