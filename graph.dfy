/** The `Graph` class: a declared vertex list and a dictionary of successor lists updated in
    place by `AddEdge`, with the two depth-first searches and Kosaraju's algorithm. */
module Graphs {
  import opened Reachability
  import opened Adjacencies
  import opened KosarajuProof

  /** `sccs` partitions the vertices of `vs` into non-empty lists without repeats, and each list
      holds exactly the vertices mutually reachable with any one of its members. */
  ghost predicate IsSccPartition(adj: SuccMap, vs: seq<Node>, sccs: seq<seq<Node>>) {
    && (forall i :: 0 <= i < |sccs| ==> sccs[i] != [] && NoDup(sccs[i]))
    && Disjoint(sccs)
    && ExactComponents(adj, sccs, Elems(vs))
  }

  /** Once every vertex is claimed, exact and disjoint lists of components form the partition. */
  lemma CompletePartition(adj: SuccMap, vs: seq<Node>, order: seq<Node>, sccs: seq<seq<Node>>, visited: set<Node>)
    requires Elems(order) == Elems(vs) && visited <= Elems(vs)
    requires forall k :: 0 <= k < |order| ==> order[k] in visited
    requires ExactComponents(adj, sccs, visited) && Disjoint(sccs)
    requires forall i :: 0 <= i < |sccs| ==> sccs[i] != [] && NoDup(sccs[i])
    ensures IsSccPartition(adj, vs, sccs)
  {
    forall x | x in Elems(vs)
      ensures x in visited
    {
      assert x in Elems(order);
    }
    assert visited == Elems(vs);
  }

  /** One step of the second pass: the search of the transposed graph from the unclaimed vertex
      `order[cut]`, which claimed exactly the vertices of `comp`, adds one exact component. */
  lemma ClaimComponent(adj: SuccMap, t: SuccMap, order: seq<Node>, cut: nat, sccs: seq<seq<Node>>,
                       visited: set<Node>, visited': set<Node>, comp: seq<Node>)
    requires IsTransposeOf(t, adj) && RootsFinishLast(adj, order)
    requires cut < |order| && forall k :: cut < k < |order| ==> order[k] in visited
    requires ExactComponents(adj, sccs, visited) && Disjoint(sccs) && order[cut] !in visited
    requires forall i :: 0 <= i < |sccs| ==> sccs[i] != [] && NoDup(sccs[i])
    requires comp != [] && comp[0] == order[cut] && NoDup(comp) && visited' == visited + Elems(comp)
    requires visited' <= Elems(order)
    requires forall b :: b in comp ==> b !in visited && Reach(t, order[cut], b)
    requires forall y {:trigger ReachAvoiding(t, order[cut], y, visited)} ::
               ReachAvoiding(t, order[cut], y, visited) ==> y in comp
    ensures ExactComponents(adj, sccs + [comp], visited') && Disjoint(sccs + [comp])
    ensures forall i :: 0 <= i < |sccs + [comp]| ==> (sccs + [comp])[i] != [] && NoDup((sccs + [comp])[i])
    ensures forall k :: cut <= k < |order| ==> order[k] in visited'
  {
    assert forall b :: b in comp ==> b in Elems(order);
    CollectedExactly(adj, t, order, cut, sccs, visited, comp);
    AddComponent(adj, sccs, visited, comp, order[cut]);
    assert comp[0] in comp;
  }

  /** What finishing `v` after its successor loop establishes: `v` is pushed after everything
      its search pushed, the invariant of the first pass holds again, and every vertex reachable
      from `v` along unvisited vertices was pushed by this search. */
  lemma FinishVisit(adj: SuccMap, stack: seq<Node>, finished: seq<Node>, gray: seq<Node>, v: Node,
                    visited: set<Node>, visited': set<Node>)
    requires DfsState(adj, stack + finished, gray + [v]) && v !in gray
    requires visited == Elems(stack) + Elems(gray)
    requires visited' == Elems(stack + finished) + Elems(gray + [v])
    requires forall y :: HasEdge(adj, v, y) ==> y in visited'
    ensures DfsState(adj, stack + finished + [v], gray)
    ensures visited' == Elems(stack + finished + [v]) + Elems(gray) && visited <= visited'
    ensures forall y {:trigger ReachAvoiding(adj, v, y, visited)} ::
              ReachAvoiding(adj, v, y, visited) ==> y in finished + [v]
  {
    ElemsConcat(gray, [v]);
    FinishStep(adj, stack + finished, gray, v);
    var black := stack + finished + [v];
    ElemsConcat(stack + finished, [v]);
    assert black == stack + (finished + [v]);
    ElemsConcat(stack, finished + [v]);
    ClosedReachAvoiding(adj, Elems(black), visited, v);
  }

  lemma ElemsConcat(s: seq<Node>, t: seq<Node>)
    ensures Elems(s + t) == Elems(s) + Elems(t)
  {
  }

  /** Depth-first search of the successor lists `adj` of a graph over `vertices`, from the
      unvisited vertex `v`: marks every vertex it enters and pushes each one on `stack` when it
      finishes (after all its successors). The searches only read the graph, so they take its
      dictionary as a value rather than running on the object. `gray` is the
      chain of active calls above this one and `finished` the vertices pushed by this call;
      both are proof devices with no counterpart at run time. */
  method DfsFillOrder(adj: SuccMap, vertices: set<Node>, v: Node, visited: set<Node>, stack: seq<Node>, ghost gray: seq<Node>)
    returns (visited': set<Node>, stack': seq<Node>, ghost finished: seq<Node>)
    requires EdgesWithin(adj, vertices)
    requires v in vertices && v !in visited && visited <= vertices
    requires visited == Elems(stack) + Elems(gray)
    requires DfsState(adj, stack, gray)
    requires gray == [] || HasEdge(adj, Last(gray), v)
    ensures stack' == stack + finished && finished != [] && Last(finished) == v
    ensures visited' == Elems(stack') + Elems(gray) && visited <= visited' <= vertices
    ensures DfsState(adj, stack', gray)
    ensures forall y {:trigger ReachAvoiding(adj, v, y, visited)} ::
              ReachAvoiding(adj, v, y, visited) ==> y in finished
    decreases vertices - visited, 0
  {
    DiscoverStep(adj, stack, gray, v);
    ElemsConcat(gray, [v]);
    visited', stack', finished := FillFromSuccessors(adj, vertices, v, visited + {v}, stack, gray + [v]);
    FinishVisit(adj, stack, finished, gray, v, visited, visited');
    AppendAssoc(stack, finished, [v]);
    stack' := stack' + [v];
    finished := finished + [v];
  }

  /** The successor loop of `DfsFillOrder` for the vertex `v` on top of `gray`: searches from
      each successor of `v` not yet visited, in the order of its list. */
  method FillFromSuccessors(adj: SuccMap, vertices: set<Node>, v: Node, visited: set<Node>, stack: seq<Node>,
                            ghost gray: seq<Node>)
    returns (visited': set<Node>, stack': seq<Node>, ghost finished: seq<Node>)
    requires EdgesWithin(adj, vertices) && visited <= vertices
    requires gray != [] && Last(gray) == v
    requires visited == Elems(stack) + Elems(gray)
    requires DfsState(adj, stack, gray)
    ensures stack' == stack + finished
    ensures visited' == Elems(stack') + Elems(gray) && visited <= visited' <= vertices
    ensures DfsState(adj, stack', gray)
    ensures forall y :: HasEdge(adj, v, y) ==> y in visited'
    decreases vertices - visited, 1
  {
    visited' := visited;
    stack' := stack;
    finished := [];
    var succs := Succ(adj, v);
    for i := 0 to |succs|
      invariant stack' == stack + finished
      invariant visited' == Elems(stack') + Elems(gray) && visited <= visited' <= vertices
      invariant DfsState(adj, stack', gray)
      invariant forall k :: 0 <= k < i ==> succs[k] in visited'
    {
      var w := succs[i];
      if w !in visited' {
        assert HasEdge(adj, v, w);
        ghost var more;
        visited', stack', more := DfsFillOrder(adj, vertices, w, visited', stack', gray);
        AppendAssoc(stack, finished, more);
        finished := finished + more;
      }
    }
  }

  /** Depth-first search of the successor lists `adj` of a graph over `vertices`, from the
      unvisited vertex `v`: marks every vertex it enters and appends each one to `scc` on entry;
      `added` names the appended vertices. */
  method DfsCollectScc(adj: SuccMap, vertices: set<Node>, v: Node, visited: set<Node>, scc: seq<Node>)
    returns (visited': set<Node>, scc': seq<Node>, ghost added: seq<Node>)
    requires EdgesWithin(adj, vertices)
    requires v in vertices && v !in visited && visited <= vertices
    ensures scc' == scc + added && added != [] && added[0] == v
    ensures visited' == visited + Elems(added) && visited' <= vertices
    ensures NoDup(added) && forall x :: x in added ==> x !in visited
    ensures forall y :: y in added ==> Reach(adj, v, y)
    ensures forall x, y {:trigger HasEdge(adj, x, y), x in added} ::
              x in added && HasEdge(adj, x, y) ==> y in visited'
    ensures forall y {:trigger ReachAvoiding(adj, v, y, visited)} ::
              ReachAvoiding(adj, v, y, visited) ==> y in added
    decreases vertices - visited
  {
    visited' := visited + {v};
    scc' := scc + [v];
    added := [v];
    ReachRefl(adj, v);
    var succs := Succ(adj, v);
    for i := 0 to |succs|
      invariant scc' == scc + added && added != [] && added[0] == v
      invariant visited' == visited + Elems(added) && visited' <= vertices
      invariant visited <= visited' && v in visited'
      invariant NoDup(added) && forall x :: x in added ==> x !in visited
      invariant forall y :: y in added ==> Reach(adj, v, y)
      invariant forall x, y {:trigger HasEdge(adj, x, y), x in added} ::
                  x in added && x != v && HasEdge(adj, x, y) ==> y in visited'
      invariant forall k :: 0 <= k < i ==> succs[k] in visited'
    {
      var w := succs[i];
      if w !in visited' {
        assert HasEdge(adj, v, w);
        ReachEdge(adj, v, w);
        ghost var more;
        visited', scc', more := DfsCollectScc(adj, vertices, w, visited', scc');
        forall y | y in more
          ensures Reach(adj, v, y)
        {
          ReachTrans(adj, v, w, y);
        }
        NoDupConcat(added, more);
        ElemsConcat(added, more);
        AppendAssoc(scc, added, more);
        added := added + more;
      }
    }
    ClosedReachAvoiding(adj, Elems(added), visited, v);
  }

  class Graph {
    /** The declared vertex list. */
    var V: seq<Node>
    /** The successor lists, keyed in insertion order. */
    var graph: Adjacency

    ghost predicate Valid()
      reads this
    {
      WellFormed(graph)
    }

    /** A graph over `vertices` with no edges. */
    constructor (vertices: seq<Node>)
      ensures V == vertices && graph == Empty && Valid()
    {
      V := vertices;
      graph := Empty;
    }

    /** Appends `v` to the successor list of `u`, leaving every other list as it was. */
    method AddEdge(u: Node, v: Node)
      requires Valid()
      modifies this
      ensures Valid() && V == old(V)
      ensures graph == WithEdge(old(graph), u, v)
      ensures Succ(graph.succ, u) == Succ(old(graph.succ), u) + [v]
      ensures forall w :: w != u ==> Succ(graph.succ, w) == Succ(old(graph.succ), w)
    {
      graph := WithEdge(graph, u, v);
    }

    /** A new graph over the same vertex list with every edge reversed, built by visiting the
        keys in insertion order and each successor list in order. The receiver is unchanged. */
    method Transpose() returns (t: Graph)
      requires Valid()
      ensures fresh(t) && t.Valid() && t.V == V
      ensures t.graph == WithEdges(Empty, Flipped(EdgeList(graph.keys, graph.succ)))
      ensures forall x, y :: Count(t.graph.succ, x, y) == Count(graph.succ, y, x)
      ensures IsTransposeOf(t.graph.succ, graph.succ)
    {
      t := new Graph(V);
      var keys := graph.keys;
      for i := 0 to |keys|
        invariant fresh(t) && t.Valid() && t.V == V
        invariant t.graph == WithEdges(Empty, Flipped(EdgeList(keys[..i], graph.succ)))
      {
        var node := keys[i];
        var succs := Succ(graph.succ, node);
        ghost var done := EdgeList(keys[..i], graph.succ);
        OutEdgesNone(done, node, succs);
        for j := 0 to |succs|
          invariant fresh(t) && t.Valid() && t.V == V
          invariant t.graph == WithEdges(Empty, Flipped(done + OutEdges(node, succs[..j])))
        {
          FlippedOutEdgeStep(done, node, succs, j);
          t.AddEdge(succs[j], node);
        }
        EdgeListAppend(keys, graph.succ, i);
      }
      assert keys[..|keys|] == keys;
      TransposedAll(graph);
    }

    /** The first pass of Kosaraju's algorithm: a depth-first search from every vertex not yet
        visited, in the order of `V`, leaving every vertex on the stack once, in finishing order. */
    method FirstPass() returns (stack: seq<Node>)
      requires EdgesWithin(graph.succ, Elems(V))
      ensures NoDup(stack) && Elems(stack) == Elems(V)
      ensures RootsFinishLast(graph.succ, stack)
    {
      stack := [];
      var visited: set<Node> := {};
      for i := 0 to |V|
        invariant visited == Elems(stack) && visited <= Elems(V)
        invariant DfsState(graph.succ, stack, [])
        invariant forall k :: 0 <= k < i ==> V[k] in visited
      {
        if V[i] !in visited {
          ghost var finished;
          visited, stack, finished := DfsFillOrder(graph.succ, Elems(V), V[i], visited, stack, []);
        }
      }
      FinishedOrder(graph.succ, stack);
    }

    /** Kosaraju's algorithm: the first pass, the transposed graph, then the second pass over
        the transposed graph in reverse finishing order. */
    method KosarajuScc() returns (sccs: seq<seq<Node>>)
      requires Valid() && EdgesWithin(graph.succ, Elems(V))
      ensures IsSccPartition(graph.succ, V, sccs)
    {
      var stack := FirstPass();
      var transposed := Transpose();
      sccs := SecondPass(transposed.graph.succ, V, stack, graph.succ);
    }
  }

  /** The second pass of Kosaraju's algorithm: pop vertices off the finish-order stack and run a
      depth-first search of the transposed graph `t` from each one not yet claimed; each such
      search yields one strongly connected component of `adj`. */
  method SecondPass(t: SuccMap, vs: seq<Node>, order: seq<Node>, ghost adj: SuccMap) returns (sccs: seq<seq<Node>>)
    requires IsTransposeOf(t, adj) && EdgesWithin(adj, Elems(vs))
    requires NoDup(order) && Elems(order) == Elems(vs) && RootsFinishLast(adj, order)
    ensures IsSccPartition(adj, vs, sccs)
  {
    var stack := order;
    TransposeWithin(t, adj, Elems(vs));
    var visited: set<Node> := {};
    sccs := [];
    while stack != []
      invariant stack == order[..|stack|]
      invariant visited <= Elems(vs)
      invariant forall k :: |stack| <= k < |order| ==> order[k] in visited
      invariant ExactComponents(adj, sccs, visited)
      invariant forall i :: 0 <= i < |sccs| ==> sccs[i] != [] && NoDup(sccs[i])
      invariant Disjoint(sccs)
      decreases |stack|
    {
      var v := stack[|stack| - 1];
      assert v == order[|stack| - 1];
      stack := stack[..|stack| - 1];
      if v !in visited {
        ghost var visited0 := visited;
        var scc;
        ghost var added;
        visited, scc, added := DfsCollectScc(t, Elems(vs), v, visited, []);
        assert scc == added;
        ClaimComponent(adj, t, order, |stack|, sccs, visited0, visited, scc);
        sccs := sccs + [scc];
      }
    }
    CompletePartition(adj, vs, order, sccs, visited);
  }

  /** Builds the graph of `vertices` by adding every route in order. */
  method Build(vertices: seq<Node>, routes: seq<Edge>) returns (g: Graph)
    ensures fresh(g) && g.Valid() && g.V == vertices
    ensures g.graph == WithEdges(Empty, routes)
    ensures forall u, v {:trigger HasEdge(g.graph.succ, u, v)} :: HasEdge(g.graph.succ, u, v) <==> (u, v) in routes
  {
    g := new Graph(vertices);
    for i := 0 to |routes|
      invariant fresh(g) && g.Valid() && g.V == vertices
      invariant g.graph == WithEdges(Empty, routes[..i])
    {
      WithEdgesPrefix(Empty, routes, i);
      g.AddEdge(routes[i].0, routes[i].1);
    }
    assert routes[..|routes|] == routes;
    EdgeListAllEdges(routes);
  }

  /** Some list of `sccs` holds exactly the vertices of `c`. */
  ghost predicate Listed(sccs: seq<seq<Node>>, c: set<Node>) {
    exists j :: 0 <= j < |sccs| && Elems(sccs[j]) == c
  }

  /** Any two partitions of `vs` into components list the same components: each list of one has
      the vertex set of a list of the other, whatever order the searches visited them in. */
  lemma PartitionUnique(adj: SuccMap, vs: seq<Node>, sccs: seq<seq<Node>>, others: seq<seq<Node>>)
    requires IsSccPartition(adj, vs, sccs) && IsSccPartition(adj, vs, others)
    ensures forall i :: 0 <= i < |sccs| ==> Listed(others, Elems(sccs[i]))
  {
    forall i | 0 <= i < |sccs|
      ensures Listed(others, Elems(sccs[i]))
    {
      var a := sccs[i][0];
      assert a in sccs[i] && a in Elems(vs);
      var j :| 0 <= j < |others| && a in others[j];
      assert Elems(sccs[i]) == Elems(others[j]) by {
        forall b
          ensures b in sccs[i] <==> b in others[j]
        {
          assert b in sccs[i] <==> Mutual(adj, a, b);
          assert b in others[j] <==> Mutual(adj, a, b);
        }
      }
    }
  }

  /** From a vertex without successors, or into a vertex without predecessors, only the vertex
      itself is reached. */
  lemma LoneReach(adj: SuccMap, v: Node, b: Node)
    requires Succ(adj, v) == [] || forall u :: !HasEdge(adj, u, v)
    requires Reach(adj, v, b) && Reach(adj, b, v)
    ensures b == v
  {
    if b != v {
      if Succ(adj, v) == [] {
        var x, y := ExitEdge(adj, v, b, {v});
      } else {
        var p :| IsPath(adj, p) && p[0] == b && Last(p) == v;
        var k := PathExit(adj, p, Elems(p) - {v});
      }
    }
  }

  /** A vertex without successors, or without predecessors, is a component of its own. */
  lemma SingletonComponent(adj: SuccMap, vs: seq<Node>, sccs: seq<seq<Node>>, v: Node)
    requires IsSccPartition(adj, vs, sccs) && v in vs
    requires Succ(adj, v) == [] || forall u :: !HasEdge(adj, u, v)
    ensures exists i :: 0 <= i < |sccs| && sccs[i] == [v]
  {
    assert v in Elems(vs);
    var i :| 0 <= i < |sccs| && v in sccs[i];
    forall b | b in sccs[i]
      ensures b == v
    {
      assert Mutual(adj, v, b);
      LoneReach(adj, v, b);
    }
    var w := sccs[i];
    forall k | 0 <= k < |w|
      ensures w[k] == v
    {
      assert w[k] in w;
    }
    assert w[0] == Last(w);
    assert w == [v];
  }
}
