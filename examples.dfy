/** Worked instances: the two unit tests of the repository and the airport network the page
    analyses. */
module Examples {
  import opened Reachability
  import opened Adjacencies
  import opened Graphs
  import opened ShortestPath
  import opened SccLookup

  /** The component test: a triangle `A -> B -> C -> A` and a single edge `D -> E`. */
  const Letters: seq<Node> := ["A", "B", "C", "D", "E"]
  const TriangleRoutes: seq<Edge> := [("A", "B"), ("B", "C"), ("C", "A"), ("D", "E")]

  /** The shortest-path test: the chain `A -> B -> C -> D`. */
  const ChainRoutes: seq<Edge> := [("A", "B"), ("B", "C"), ("C", "D")]

  /** The airport network of the analyser. */
  const Airports: seq<Node> := ["DEL", "BOM", "BLR", "MAA", "HYD", "CCU", "GOI", "PNQ",
                                "AMD", "JAI", "TRV", "LKO", "IXB", "COK", "STV", "VGA"]
  const FlightRoutes: seq<Edge> := [
    ("GOI", "BOM"), ("DEL", "BLR"), ("BOM", "HYD"), ("BLR", "MAA"),
    ("MAA", "CCU"), ("HYD", "CCU"), ("CCU", "DEL"), ("BLR", "DEL"),
    ("PNQ", "AMD"), ("AMD", "PNQ"), ("DEL", "BOM"), ("DEL", "PNQ"),
    ("JAI", "TRV"), ("TRV", "LKO"), ("LKO", "JAI"),
    ("IXB", "COK"),
    ("COK", "STV"),
    ("STV", "VGA"),
    ("VGA", "IXB")
  ]

  predicate Among(k: int, a: int, b: int, c: int) {
    k == a || k == b || k == c
  }

  /** Three distinct indices below `n` that every index below `n` equals: then `n` is three. */
  lemma ThreeIndices(n: nat, a: nat, b: nat, c: nat)
    requires a < n && b < n && c < n && a != b && b != c && a != c
    requires forall k :: 0 <= k < n ==> Among(k, a, b, c)
    ensures n == 3
  {
    assert Among(0, a, b, c) && Among(1, a, b, c) && Among(2, a, b, c);
    assert 3 < n ==> Among(3, a, b, c);
  }

  /** `A`, `B` and `C` reach each other around the triangle. */
  lemma TriangleCycle(adj: SuccMap)
    requires forall u, v {:trigger HasEdge(adj, u, v)} :: HasEdge(adj, u, v) <==> (u, v) in TriangleRoutes
    ensures Mutual(adj, "A", "B") && Mutual(adj, "A", "C")
  {
    assert ("A", "B") in TriangleRoutes && ("B", "C") in TriangleRoutes && ("C", "A") in TriangleRoutes;
    assert IsPath(adj, ["A", "B"]) && IsPath(adj, ["B", "C", "A"]);
    assert IsPath(adj, ["A", "B", "C"]) && IsPath(adj, ["C", "A"]);
  }

  /** Nothing leaves the triangle, and nothing leaves `E`. */
  lemma TriangleSeparate(adj: SuccMap)
    requires forall u, v {:trigger HasEdge(adj, u, v)} :: HasEdge(adj, u, v) <==> (u, v) in TriangleRoutes
    ensures !Reach(adj, "A", "D") && !Reach(adj, "A", "E") && !Reach(adj, "E", "D")
  {
    ClosedUnreachable(adj, {"A", "B", "C"}, "A", "D");
    ClosedUnreachable(adj, {"A", "B", "C"}, "A", "E");
    ClosedUnreachable(adj, {"E"}, "E", "D");
  }

  /** Every route joins two of the letters. */
  lemma TriangleWithin(adj: SuccMap)
    requires forall u, v {:trigger HasEdge(adj, u, v)} :: HasEdge(adj, u, v) <==> (u, v) in TriangleRoutes
    ensures EdgesWithin(adj, Elems(Letters))
  {
  }

  /** Three classes of mutually reachable letters give three components. */
  lemma TriangleComponents(adj: SuccMap, sccs: seq<seq<Node>>)
    requires Mutual(adj, "A", "B") && Mutual(adj, "A", "C")
    requires !Reach(adj, "A", "D") && !Reach(adj, "A", "E") && !Reach(adj, "E", "D")
    requires IsSccPartition(adj, Letters, sccs)
    ensures |sccs| == 3
  {
    assert "A" in Elems(Letters) && "D" in Elems(Letters) && "E" in Elems(Letters);
    var i1 :| 0 <= i1 < |sccs| && "A" in sccs[i1];
    var i2 :| 0 <= i2 < |sccs| && "D" in sccs[i2];
    var i3 :| 0 <= i3 < |sccs| && "E" in sccs[i3];
    assert !Mutual(adj, "A", "D") && !Mutual(adj, "A", "E") && !Mutual(adj, "D", "E");
    assert "D" !in sccs[i1] && "E" !in sccs[i1] && "E" !in sccs[i2];
    forall k | 0 <= k < |sccs|
      ensures Among(k, i1, i2, i3)
    {
      var x := sccs[k][0];
      assert x in sccs[k] && x in Elems(Letters);
      TriangleRoot(adj, sccs, k, x, i1, i2, i3);
    }
    ThreeIndices(|sccs|, i1, i2, i3);
  }

  /** The list holding a letter is the one holding `A`, `D` or `E`. */
  lemma TriangleRoot(adj: SuccMap, sccs: seq<seq<Node>>, k: nat, x: Node, i1: nat, i2: nat, i3: nat)
    requires Mutual(adj, "A", "B") && Mutual(adj, "A", "C")
    requires IsSccPartition(adj, Letters, sccs)
    requires k < |sccs| && x in sccs[k] && x in Letters
    requires i1 < |sccs| && "A" in sccs[i1] && i2 < |sccs| && "D" in sccs[i2] && i3 < |sccs| && "E" in sccs[i3]
    ensures k == i1 || k == i2 || k == i3
  {
    if x == "D" {
      assert x in sccs[i2];
    } else if x == "E" {
      assert x in sccs[i3];
    } else {
      assert Mutual(adj, "A", x);
      assert x in sccs[i1];
    }
  }

  /** The component test: the triangle and the edge give three components. */
  method TriangleTest() returns (sccs: seq<seq<Node>>)
    ensures |sccs| == 3
  {
    var g := Build(Letters, TriangleRoutes);
    TriangleWithin(g.graph.succ);
    sccs := g.KosarajuScc();
    TriangleCycle(g.graph.succ);
    TriangleSeparate(g.graph.succ);
    TriangleComponents(g.graph.succ, sccs);
  }

  /** The only route from `A` to `D` along the chain with at most four stops is the chain. */
  lemma ChainRoute(p: seq<Node>)
    requires IsRoute(ChainRoutes, p) && p[0] == "A" && Last(p) == "D" && |p| <= 4
    ensures p == ["A", "B", "C", "D"]
  {
    assert |p| >= 2 && (p[0], p[1]) in ChainRoutes && p[1] == "B";
    assert |p| >= 3 && (p[1], p[2]) in ChainRoutes && p[2] == "C";
    assert |p| >= 4 && (p[2], p[3]) in ChainRoutes && p[3] == "D";
  }

  /** The shortest-path test: along the chain the path is the chain itself. */
  method ChainTest() returns (r: PathResult)
    ensures r == Path(["A", "B", "C", "D"])
  {
    r := Dijkstra(ChainRoutes, "A", "D");
    EndpointsIff(ChainRoutes, "A");
    EndpointsIff(ChainRoutes, "D");
    assert ChainRoutes[0].0 == "A" && ChainRoutes[2].1 == "D";
    assert IsRoute(ChainRoutes, ["A", "B", "C", "D"]);
    if r.Path? {
      ChainRoute(r.nodes);
    }
  }

  /** Every flight out of Pune or Ahmedabad lands in Pune or Ahmedabad. */
  lemma PuneStep(u: Node, v: Node)
    requires (u, v) in FlightRoutes && (u == "PNQ" || u == "AMD")
    ensures v == "PNQ" || v == "AMD"
  {
  }

  /** Pune and Ahmedabad only fly to each other, so nothing from Pune reaches Delhi. */
  lemma PuneClosed(adj: SuccMap)
    requires forall u, v {:trigger HasEdge(adj, u, v)} :: HasEdge(adj, u, v) <==> (u, v) in FlightRoutes
    ensures !Reach(adj, "PNQ", "DEL")
  {
    forall u, v | u in {"PNQ", "AMD"} && HasEdge(adj, u, v)
      ensures v in {"PNQ", "AMD"}
    {
      PuneStep(u, v);
    }
    ClosedUnreachable(adj, {"PNQ", "AMD"}, "PNQ", "DEL");
  }

  /** Pune and Delhi are both served by some route. */
  lemma PuneDelhiServed()
    ensures "PNQ" in Endpoints(FlightRoutes) && "DEL" in Endpoints(FlightRoutes)
  {
    assert ("PNQ", "AMD") in FlightRoutes && ("DEL", "BLR") in FlightRoutes;
    EndpointsIff(FlightRoutes, "PNQ");
    EndpointsIff(FlightRoutes, "DEL");
  }

  /** Pune and Ahmedabad fly to each other. */
  lemma PuneAhmedabad(adj: SuccMap)
    requires forall u, v {:trigger HasEdge(adj, u, v)} :: HasEdge(adj, u, v) <==> (u, v) in FlightRoutes
    ensures Mutual(adj, "PNQ", "AMD")
  {
    assert ("PNQ", "AMD") in FlightRoutes && ("AMD", "PNQ") in FlightRoutes;
    assert IsPath(adj, ["PNQ", "AMD"]) && IsPath(adj, ["AMD", "PNQ"]);
  }

  /** No route leads from Pune to Delhi, although both are airports of the network. */
  method PuneToDelhi() returns (r: PathResult)
    ensures r == NoPath
  {
    r := Dijkstra(FlightRoutes, "PNQ", "DEL");
    PuneDelhiServed();
    ghost var adj := WithEdges(Empty, FlightRoutes).succ;
    EdgeListAllEdges(FlightRoutes);
    PuneClosed(adj);
    RoutesArePaths(FlightRoutes);
  }

  /** Every route joins two airports of the network. */
  lemma FlightsWithin(adj: SuccMap)
    requires forall u, v {:trigger HasEdge(adj, u, v)} :: HasEdge(adj, u, v) <==> (u, v) in FlightRoutes
    ensures EdgesWithin(adj, Elems(Airports))
  {
    forall u, v | (u, v) in FlightRoutes
      ensures u in Airports && v in Airports
    {
      var k :| 0 <= k < |FlightRoutes| && FlightRoutes[k] == (u, v);
    }
  }

  /** The component lookup on the airport network: Pune and Ahmedabad share a component,
      Pune and Delhi do not. */
  method PuneLookups() returns (withAhmedabad: bool, withDelhi: bool)
    ensures withAhmedabad && !withDelhi
  {
    var g := Build(Airports, FlightRoutes);
    FlightsWithin(g.graph.succ);
    var sccs := g.KosarajuScc();
    withAhmedabad := SameScc(sccs, "PNQ", "AMD");
    withDelhi := SameScc(sccs, "PNQ", "DEL");
    ghost var adj := g.graph.succ;
    PuneAhmedabad(adj);
    PuneClosed(adj);
    assert "PNQ" in Airports;
    SameSccIffMutual(adj, Airports, sccs, "PNQ", "AMD");
    SameSccIffMutual(adj, Airports, sccs, "PNQ", "DEL");
  }
}
