/** Directed graphs given by successor lists: edges, paths and reachability. */
module Reachability {

  /** A vertex label, such as an airport code. */
  type Node = string

  /** Successor lists keyed by vertex. */
  type SuccMap = map<Node, seq<Node>>

  function Elems<T>(s: seq<T>): set<T> {
    set x | x in s
  }

  predicate NoDup<T(==)>(s: seq<T>) {
    forall i, j :: 0 <= i < j < |s| ==> s[i] != s[j]
  }

  lemma NoDupConcat<T>(s: seq<T>, t: seq<T>)
    requires NoDup(s) && NoDup(t) && forall x :: x in s ==> x !in t
    ensures NoDup(s + t)
  {
    var st := s + t;
    forall i, j | 0 <= i < j < |st|
      ensures st[i] != st[j]
    {
      if i < |s| && j >= |s| {
        assert st[i] in s && st[j] == t[j - |s|];
      }
    }
  }

  /** Concatenation is associative. */
  lemma AppendAssoc<T>(a: seq<T>, b: seq<T>, c: seq<T>)
    ensures (a + b) + c == a + (b + c)
  {
  }

  /** Splitting off the last element keeps the multiset of elements. */
  lemma MultisetLast<T>(s: seq<T>)
    requires |s| > 0
    ensures multiset(s) == multiset(s[..|s| - 1]) + multiset{s[|s| - 1]}
  {
    assert s == s[..|s| - 1] + [s[|s| - 1]];
  }

  function Last<T>(s: seq<T>): T
    requires |s| > 0
  {
    s[|s| - 1]
  }

  /** The successor list of `u`; a vertex without an entry has none, as with a dictionary of lists
      that yields an empty list for a missing key. */
  function Succ(adj: SuccMap, u: Node): seq<Node> {
    if u in adj then adj[u] else []
  }

  predicate HasEdge(adj: SuccMap, u: Node, v: Node) {
    v in Succ(adj, u)
  }

  /** A non-empty walk along edges. */
  ghost predicate IsPath(adj: SuccMap, p: seq<Node>) {
    |p| > 0 && forall i :: 0 <= i < |p| - 1 ==> HasEdge(adj, p[i], p[i + 1])
  }

  /** `y` can be reached from `x` (every vertex reaches itself). */
  ghost predicate Reach(adj: SuccMap, x: Node, y: Node) {
    exists p :: IsPath(adj, p) && p[0] == x && Last(p) == y
  }

  /** `x` and `y` lie in one strongly connected component. */
  ghost predicate Mutual(adj: SuccMap, x: Node, y: Node) {
    Reach(adj, x, y) && Reach(adj, y, x)
  }

  /** Every edge has both endpoints in `vs`. */
  ghost predicate EdgesWithin(adj: SuccMap, vs: set<Node>) {
    forall u, v :: HasEdge(adj, u, v) ==> u in vs && v in vs
  }

  /** `t` has exactly the edges of `adj`, reversed. */
  ghost predicate IsTransposeOf(t: SuccMap, adj: SuccMap) {
    forall a, b :: HasEdge(t, a, b) <==> HasEdge(adj, b, a)
  }

  /** The elements of `s` in the opposite order. */
  function Reverse<T>(s: seq<T>): seq<T> {
    seq(|s|, i requires 0 <= i < |s| => s[|s| - 1 - i])
  }

  lemma ReachRefl(adj: SuccMap, x: Node)
    ensures Reach(adj, x, x)
  {
    assert IsPath(adj, [x]);
  }

  lemma ReachEdge(adj: SuccMap, x: Node, y: Node)
    requires HasEdge(adj, x, y)
    ensures Reach(adj, x, y)
  {
    assert IsPath(adj, [x, y]);
  }

  lemma PathConcat(adj: SuccMap, p: seq<Node>, q: seq<Node>)
    requires IsPath(adj, p) && IsPath(adj, q) && Last(p) == q[0]
    ensures IsPath(adj, p + q[1..])
  {
    var r := p + q[1..];
    forall i | 0 <= i < |r| - 1
      ensures HasEdge(adj, r[i], r[i + 1])
    {
      if i < |p| - 1 {
        assert r[i] == p[i] && r[i + 1] == p[i + 1];
      } else {
        assert r[i] == q[i - |p| + 1] && r[i + 1] == q[i - |p| + 2];
      }
    }
  }

  lemma ReachTrans(adj: SuccMap, x: Node, y: Node, z: Node)
    requires Reach(adj, x, y) && Reach(adj, y, z)
    ensures Reach(adj, x, z)
  {
    var p :| IsPath(adj, p) && p[0] == x && Last(p) == y;
    var q :| IsPath(adj, q) && q[0] == y && Last(q) == z;
    PathConcat(adj, p, q);
    var r := p + q[1..];
    if |q| == 1 {
      assert r == p;
    } else {
      assert Last(r) == Last(q);
    }
    assert IsPath(adj, r) && r[0] == x && Last(r) == z;
  }

  lemma MutualTrans(adj: SuccMap, x: Node, y: Node, z: Node)
    requires Mutual(adj, x, y) && Mutual(adj, y, z)
    ensures Mutual(adj, x, z)
  {
    ReachTrans(adj, x, y, z);
    ReachTrans(adj, z, y, x);
  }

  /** Every slice of a path is a path. */
  lemma PathSlice(adj: SuccMap, p: seq<Node>, i: nat, j: nat)
    requires IsPath(adj, p) && i < j <= |p|
    ensures IsPath(adj, p[i..j])
  {
    var s := p[i..j];
    forall k | 0 <= k < |s| - 1
      ensures HasEdge(adj, s[k], s[k + 1])
    {
      assert s[k] == p[i + k] && s[k + 1] == p[i + k + 1];
    }
  }

  /** A vertex on a path is reached from the start and reaches the end. */
  lemma PathThrough(adj: SuccMap, p: seq<Node>, i: nat)
    requires IsPath(adj, p) && i < |p|
    ensures Reach(adj, p[0], p[i]) && Reach(adj, p[i], Last(p))
  {
    PathSlice(adj, p, 0, i + 1);
    PathSlice(adj, p, i, |p|);
    assert p[..i + 1][0] == p[0] && Last(p[..i + 1]) == p[i];
    assert p[i..][0] == p[i] && Last(p[i..]) == Last(p);
  }

  /** A path that starts inside `s` and ends outside it leaves `s` along some edge. */
  lemma PathExit(adj: SuccMap, p: seq<Node>, s: set<Node>) returns (k: nat)
    requires IsPath(adj, p) && p[0] in s && Last(p) !in s
    ensures k + 1 < |p| && p[k] in s && p[k + 1] !in s
  {
    k := 0;
    while p[k + 1] in s
      invariant k < |p| - 1 && p[k] in s
      decreases |p| - k
    {
      k := k + 1;
    }
  }

  /** If `x` in `s` reaches `y` outside `s`, some edge `a -> b` leaves `s` on the way. */
  lemma ExitEdge(adj: SuccMap, x: Node, y: Node, s: set<Node>) returns (a: Node, b: Node)
    requires Reach(adj, x, y) && x in s && y !in s
    ensures a in s && b !in s && HasEdge(adj, a, b)
    ensures Reach(adj, x, b) && Reach(adj, b, y)
  {
    var p :| IsPath(adj, p) && p[0] == x && Last(p) == y;
    var k := PathExit(adj, p, s);
    a, b := p[k], p[k + 1];
    PathThrough(adj, p, k + 1);
  }

  /** A path that starts in `a`, where every edge out of `a` stays in `a` or goes into `b`,
      and that avoids `b`, stays in `a`. */
  lemma {:induction false} ClosedPath(adj: SuccMap, p: seq<Node>, a: set<Node>, b: set<Node>)
    requires IsPath(adj, p) && p[0] in a
    requires forall x, y {:trigger HasEdge(adj, x, y), x in a} :: x in a && HasEdge(adj, x, y) ==> y in a || y in b
    requires forall i :: 0 <= i < |p| ==> p[i] !in b
    ensures forall i :: 0 <= i < |p| ==> p[i] in a
  {
    var k := 0;
    while k < |p| - 1
      invariant 0 <= k < |p|
      invariant forall i :: 0 <= i <= k ==> p[i] in a
    {
      assert HasEdge(adj, p[k], p[k + 1]);
      k := k + 1;
    }
  }

  /** `y` is reached from `x` along a path that touches no vertex of `avoid`. */
  ghost predicate ReachAvoiding(adj: SuccMap, x: Node, y: Node, avoid: set<Node>) {
    exists p :: IsPath(adj, p) && p[0] == x && Last(p) == y && forall i :: 0 <= i < |p| ==> p[i] !in avoid
  }

  /** From inside `a`, where every edge out of `a` stays in `a` or enters `b`, a path avoiding `b`
      cannot leave `a`. */
  lemma ClosedReachAvoiding(adj: SuccMap, a: set<Node>, b: set<Node>, x: Node)
    requires forall u, v {:trigger HasEdge(adj, u, v), u in a} :: u in a && HasEdge(adj, u, v) ==> v in a || v in b
    requires x in a
    ensures forall y {:trigger ReachAvoiding(adj, x, y, b)} :: ReachAvoiding(adj, x, y, b) ==> y in a && y !in b
  {
    forall y | ReachAvoiding(adj, x, y, b)
      ensures y in a && y !in b
    {
      var p :| IsPath(adj, p) && p[0] == x && Last(p) == y && forall i :: 0 <= i < |p| ==> p[i] !in b;
      ClosedPath(adj, p, a, b);
      assert p[|p| - 1] == y;
    }
  }

  /** Nothing outside a set closed under edges is reachable from inside it. */
  lemma ClosedUnreachable(adj: SuccMap, a: set<Node>, x: Node, y: Node)
    requires forall u, v {:trigger HasEdge(adj, u, v), u in a} :: u in a && HasEdge(adj, u, v) ==> v in a
    requires x in a && y !in a
    ensures !Reach(adj, x, y)
  {
    if Reach(adj, x, y) {
      var p :| IsPath(adj, p) && p[0] == x && Last(p) == y;
      ClosedPath(adj, p, a, {});
      assert false;
    }
  }

  /** Reversing a path of `adj` gives a path of its transpose. */
  lemma ReversePath(t: SuccMap, adj: SuccMap, p: seq<Node>)
    requires IsTransposeOf(t, adj) && IsPath(adj, p)
    ensures IsPath(t, Reverse(p))
  {
    var r := Reverse(p);
    forall i | 0 <= i < |r| - 1
      ensures HasEdge(t, r[i], r[i + 1])
    {
      var j := |p| - 2 - i;
      assert r[i] == p[j + 1] && r[i + 1] == p[j];
      assert HasEdge(adj, p[j], p[j + 1]);
    }
  }

  lemma TransposeSymmetric(t: SuccMap, adj: SuccMap)
    requires IsTransposeOf(t, adj)
    ensures IsTransposeOf(adj, t)
  {
  }

  /** Reversing the edges keeps them between the same vertices. */
  lemma TransposeWithin(t: SuccMap, adj: SuccMap, vs: set<Node>)
    requires IsTransposeOf(t, adj) && EdgesWithin(adj, vs)
    ensures EdgesWithin(t, vs)
  {
  }

  /** Reachability in the transpose is reachability in the original, backwards. */
  lemma ReachTransposed(t: SuccMap, adj: SuccMap, x: Node, y: Node)
    requires IsTransposeOf(t, adj) && Reach(t, x, y)
    ensures Reach(adj, y, x)
  {
    var p :| IsPath(t, p) && p[0] == x && Last(p) == y;
    TransposeSymmetric(t, adj);
    ReversePath(adj, t, p);
    assert Reverse(p)[0] == y && Last(Reverse(p)) == x;
  }
}
