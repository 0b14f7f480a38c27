/** The graph's dictionary of successor lists, as a value: the keys in the order they were
    first inserted, and the list stored under each key. */
module Adjacencies {
  import opened Reachability

  type Edge = (Node, Node)

  datatype Adjacency = Adjacency(keys: seq<Node>, succ: SuccMap)

  /** The key order lists each key of the dictionary exactly once. */
  ghost predicate WellFormed(a: Adjacency) {
    NoDup(a.keys) && Elems(a.keys) == a.succ.Keys
  }

  /** A fresh dictionary: no keys, every successor list empty. */
  const Empty: Adjacency := Adjacency([], map[])

  /** Appends `v` to the successor list of `u`; a new key goes to the end of the key order. */
  function WithEdge(a: Adjacency, u: Node, v: Node): (r: Adjacency)
    ensures WellFormed(a) ==> WellFormed(r)
    ensures Succ(r.succ, u) == Succ(a.succ, u) + [v]
    ensures forall w :: w != u ==> Succ(r.succ, w) == Succ(a.succ, w)
    ensures r.succ.Keys == a.succ.Keys + {u}
    ensures r.keys == if u in a.succ then a.keys else a.keys + [u]
  {
    if u in a.succ then Adjacency(a.keys, a.succ[u := a.succ[u] + [v]])
    else Adjacency(a.keys + [u], a.succ[u := [v]])
  }

  /** The dictionary after `WithEdge` for each edge of `es`, in order. */
  function WithEdges(a: Adjacency, es: seq<Edge>): Adjacency
    decreases |es|
  {
    if es == [] then a
    else
      var n := |es| - 1;
      WithEdge(WithEdges(a, es[..n]), es[n].0, es[n].1)
  }

  /** How many times `v` occurs in the successor list of `u`. */
  function Count(adj: SuccMap, u: Node, v: Node): nat {
    multiset(Succ(adj, u))[v]
  }

  /** The edges `(u, v)` for each `v` of `vs`, in order. */
  function OutEdges(u: Node, vs: seq<Node>): seq<Edge>
    decreases |vs|
  {
    if vs == [] then []
    else
      var n := |vs| - 1;
      OutEdges(u, vs[..n]) + [(u, vs[n])]
  }

  /** Every edge, visiting the keys in `keys` order and each successor list in order. */
  function EdgeList(keys: seq<Node>, succ: SuccMap): seq<Edge>
    decreases |keys|
  {
    if keys == [] then []
    else
      var n := |keys| - 1;
      EdgeList(keys[..n], succ) + OutEdges(keys[n], Succ(succ, keys[n]))
  }

  /** Every edge of `es` reversed, in order. */
  function Flipped(es: seq<Edge>): seq<Edge>
    decreases |es|
  {
    if es == [] then []
    else
      var n := |es| - 1;
      Flipped(es[..n]) + [(es[n].1, es[n].0)]
  }

  lemma FlippedAppend(es: seq<Edge>, e: Edge)
    ensures Flipped(es + [e]) == Flipped(es) + [(e.1, e.0)]
  {
    assert (es + [e])[..|es|] == es;
  }

  lemma WithEdgesAppend(a: Adjacency, es: seq<Edge>, e: Edge)
    ensures WithEdges(a, es + [e]) == WithEdge(WithEdges(a, es), e.0, e.1)
  {
    assert (es + [e])[..|es|] == es;
  }

  /** Adding the edges of one more prefix of `es` is one more `WithEdge`. */
  lemma WithEdgesPrefix(a: Adjacency, es: seq<Edge>, i: nat)
    requires i < |es|
    ensures WithEdges(a, es[..i + 1]) == WithEdge(WithEdges(a, es[..i]), es[i].0, es[i].1)
  {
    assert es[..i + 1] == es[..i] + [es[i]];
    WithEdgesAppend(a, es[..i], es[i]);
  }

  /** Reversing one more out-edge of `u` is one more `WithEdge`. */
  lemma FlippedOutEdgeStep(done: seq<Edge>, u: Node, vs: seq<Node>, j: nat)
    requires j < |vs|
    ensures WithEdges(Empty, Flipped(done + OutEdges(u, vs[..j + 1])))
         == WithEdge(WithEdges(Empty, Flipped(done + OutEdges(u, vs[..j]))), vs[j], u)
  {
    var es := done + OutEdges(u, vs[..j]);
    OutEdgesAppend(u, vs, j);
    assert done + OutEdges(u, vs[..j + 1]) == es + [(u, vs[j])];
    FlippedAppend(es, (u, vs[j]));
    WithEdgesAppend(Empty, Flipped(es), (vs[j], u));
  }

  /** Before the first out-edge of `u` nothing is added. */
  lemma OutEdgesNone(done: seq<Edge>, u: Node, vs: seq<Node>)
    ensures done + OutEdges(u, vs[..0]) == done
  {
    assert vs[..0] == [];
  }

  lemma OutEdgesAppend(u: Node, vs: seq<Node>, j: nat)
    requires j < |vs|
    ensures OutEdges(u, vs[..j + 1]) == OutEdges(u, vs[..j]) + [(u, vs[j])]
  {
    assert vs[..j + 1][..j] == vs[..j];
  }

  lemma EdgeListAppend(keys: seq<Node>, succ: SuccMap, i: nat)
    requires i < |keys|
    ensures EdgeList(keys[..i + 1], succ) == EdgeList(keys[..i], succ) + OutEdges(keys[i], Succ(succ, keys[i]))
    ensures EdgeList(keys[..i + 1], succ)
         == EdgeList(keys[..i], succ) + OutEdges(keys[i], Succ(succ, keys[i])[..|Succ(succ, keys[i])|])
  {
    assert keys[..i + 1][..i] == keys[..i];
    assert Succ(succ, keys[i])[..|Succ(succ, keys[i])|] == Succ(succ, keys[i]);
  }

  /** Adding one edge adds one to its own multiplicity and changes no other. */
  lemma WithEdgeCount(a: Adjacency, e: Edge, u: Node, v: Node)
    ensures Count(WithEdge(a, e.0, e.1).succ, u, v) == Count(a.succ, u, v) + if e == (u, v) then 1 else 0
  {
    var old_ := Succ(a.succ, u);
    if e.0 == u {
      assert Succ(WithEdge(a, e.0, e.1).succ, u) == old_ + [e.1];
      assert multiset(old_ + [e.1]) == multiset(old_) + multiset{e.1};
    } else {
      assert Succ(WithEdge(a, e.0, e.1).succ, u) == old_;
    }
  }

  /** Adding edges adds exactly their multiplicities to the successor counts. */
  lemma {:induction false} WithEdgesCount(a: Adjacency, es: seq<Edge>, u: Node, v: Node)
    ensures Count(WithEdges(a, es).succ, u, v) == Count(a.succ, u, v) + multiset(es)[(u, v)]
    decreases |es|
  {
    if es != [] {
      var n := |es| - 1;
      var e := es[n];
      WithEdgesCount(a, es[..n], u, v);
      WithEdgeCount(WithEdges(a, es[..n]), e, u, v);
      MultisetLast(es);
    }
  }

  lemma {:induction false} OutEdgesCount(u: Node, vs: seq<Node>, a: Node, b: Node)
    ensures multiset(OutEdges(u, vs))[(a, b)] == if a == u then multiset(vs)[b] else 0
    decreases |vs|
  {
    if vs != [] {
      var n := |vs| - 1;
      OutEdgesCount(u, vs[..n], a, b);
      MultisetLast(vs);
    }
  }

  lemma {:induction false} EdgeListCount(keys: seq<Node>, succ: SuccMap, a: Node, b: Node)
    requires NoDup(keys)
    ensures multiset(EdgeList(keys, succ))[(a, b)] == if a in keys then Count(succ, a, b) else 0
    decreases |keys|
  {
    if keys != [] {
      var n := |keys| - 1;
      assert NoDup(keys[..n]);
      EdgeListCount(keys[..n], succ, a, b);
      OutEdgesCount(keys[n], Succ(succ, keys[n]), a, b);
      assert keys == keys[..n] + [keys[n]];
      assert a in keys <==> a in keys[..n] || a == keys[n];
    }
  }

  lemma {:induction false} FlippedCount(es: seq<Edge>, a: Node, b: Node)
    ensures multiset(Flipped(es))[(a, b)] == multiset(es)[(b, a)]
    decreases |es|
  {
    if es != [] {
      var n := |es| - 1;
      FlippedCount(es[..n], a, b);
      MultisetLast(es);
      MultisetLast(Flipped(es));
    }
  }

  /** Building a dictionary from every edge of `a`, reversed, gives each edge `(x, y)` the
      multiplicity that `(y, x)` has in `a`. */
  lemma TransposedCount(a: Adjacency, x: Node, y: Node)
    requires WellFormed(a)
    ensures Count(WithEdges(Empty, Flipped(EdgeList(a.keys, a.succ))).succ, x, y) == Count(a.succ, y, x)
  {
    var es := EdgeList(a.keys, a.succ);
    WithEdgesCount(Empty, Flipped(es), x, y);
    FlippedCount(es, x, y);
    EdgeListCount(a.keys, a.succ, y, x);
  }

  /** The dictionary built from every edge of `a`, reversed, is the transpose of `a`, with every
      multiplicity kept. */
  lemma TransposedAll(a: Adjacency)
    requires WellFormed(a)
    ensures forall x, y :: Count(WithEdges(Empty, Flipped(EdgeList(a.keys, a.succ))).succ, x, y) == Count(a.succ, y, x)
    ensures IsTransposeOf(WithEdges(Empty, Flipped(EdgeList(a.keys, a.succ))).succ, a.succ)
  {
    forall x, y
      ensures Count(WithEdges(Empty, Flipped(EdgeList(a.keys, a.succ))).succ, x, y) == Count(a.succ, y, x)
    {
      TransposedCount(a, x, y);
    }
    CountsTranspose(WithEdges(Empty, Flipped(EdgeList(a.keys, a.succ))).succ, a.succ);
  }

  /** Equal multiplicities of reversed edges make a transpose. */
  lemma CountsTranspose(t: SuccMap, adj: SuccMap)
    requires forall x, y :: Count(t, x, y) == Count(adj, y, x)
    ensures IsTransposeOf(t, adj)
  {
    forall x, y
      ensures HasEdge(t, x, y) <==> HasEdge(adj, y, x)
    {
      assert Count(t, x, y) == Count(adj, y, x);
    }
  }

  /** The dictionary built from an edge list has exactly the listed edges. */
  lemma EdgeListEdges(es: seq<Edge>, u: Node, v: Node)
    ensures HasEdge(WithEdges(Empty, es).succ, u, v) <==> (u, v) in es
  {
    WithEdgesCount(Empty, es, u, v);
  }

  lemma EdgeListAllEdges(es: seq<Edge>)
    ensures forall u, v {:trigger HasEdge(WithEdges(Empty, es).succ, u, v)} :: HasEdge(WithEdges(Empty, es).succ, u, v) <==> (u, v) in es
  {
    forall u, v
      ensures HasEdge(WithEdges(Empty, es).succ, u, v) <==> (u, v) in es
    {
      EdgeListEdges(es, u, v);
    }
  }
}
