/** What the first depth-first pass of Kosaraju's algorithm establishes about the order in
    which vertices finish, and why the second pass then collects exactly one strongly connected
    component per root.

    During the first pass the vertices are black (finished, in the finish-order stack `black`),
    gray (entered but not finished: the chain of active recursive calls, `gray`) or white. */
module KosarajuProof {
  import opened Reachability

  /** Each gray vertex was entered from the gray vertex before it. */
  ghost predicate GrayPath(adj: SuccMap, gray: seq<Node>) {
    forall i :: 0 <= i < |gray| - 1 ==> HasEdge(adj, gray[i], gray[i + 1])
  }

  /** A finished vertex has no white successor. */
  ghost predicate BlackClosed(adj: SuccMap, black: seq<Node>, gray: seq<Node>) {
    forall x, y {:trigger HasEdge(adj, x, y), x in black} :: x in black && HasEdge(adj, x, y) ==> y in black || y in gray
  }

  /** The finished vertex `x` reaches the unfinished vertex `y`. Named, like `ReachesAt` below, so
      that the quantifier over it is not re-triggered by the facts its own witnesses produce. */
  ghost predicate ReachesOut(adj: SuccMap, black: seq<Node>, x: Node, y: Node) {
    x in black && y !in black && Reach(adj, x, y)
  }

  /** A finished vertex reaches an unfinished one only if it shares a component with some
      active (gray) vertex. */
  ghost predicate EscapesViaGray(adj: SuccMap, black: seq<Node>, gray: seq<Node>) {
    forall x, y :: ReachesOut(adj, black, x, y) ==>
      exists g :: g in gray && Mutual(adj, x, g)
  }

  /** `s[i]` reaches `s[j]`. Stating this about positions keeps the quantifiers below from being
      re-triggered by the reachability facts their own witnesses produce. */
  ghost predicate ReachesAt(adj: SuccMap, s: seq<Node>, i: int, j: int) {
    0 <= i < |s| && 0 <= j < |s| && Reach(adj, s[i], s[j])
  }

  /** When `black[i]` reaches `black[j]`, the component of `black[i]` has a vertex that finished
      no earlier than `black[j]`, or one that is still active (and so finishes later still). */
  ghost predicate FinishDominates(adj: SuccMap, black: seq<Node>, gray: seq<Node>) {
    forall i, j :: ReachesAt(adj, black, i, j) ==>
      (exists k :: j <= k < |black| && Mutual(adj, black[i], black[k])) ||
      (exists g :: g in gray && Mutual(adj, black[i], g))
  }

  /** The invariant of the first pass between steps. */
  ghost predicate DfsState(adj: SuccMap, black: seq<Node>, gray: seq<Node>) {
    && NoDup(black)
    && NoDup(gray)
    && (forall x :: x in black ==> x !in gray)
    && GrayPath(adj, gray)
    && BlackClosed(adj, black, gray)
    && EscapesViaGray(adj, black, gray)
    && FinishDominates(adj, black, gray)
  }

  /** The property of the finished order that the second pass relies on: whenever `order[i]`
      reaches `order[j]`, some vertex of `order[i]`'s component finishes at `j` or later. */
  ghost predicate RootsFinishLast(adj: SuccMap, order: seq<Node>) {
    forall i, j :: ReachesAt(adj, order, i, j) ==>
      exists k :: j <= k < |order| && Mutual(adj, order[i], order[k])
  }

  lemma GrayReaches(adj: SuccMap, gray: seq<Node>, i: nat, j: nat)
    requires GrayPath(adj, gray) && i <= j < |gray|
    ensures Reach(adj, gray[i], gray[j])
  {
    var p := gray[i..j + 1];
    assert IsPath(adj, p) by {
      forall k | 0 <= k < |p| - 1
        ensures HasEdge(adj, p[k], p[k + 1])
      {
        assert p[k] == gray[i + k] && p[k + 1] == gray[i + k + 1];
      }
    }
    assert p[0] == gray[i] && Last(p) == gray[j];
  }

  /** Entering a white vertex `v` from the top of the gray chain keeps the invariant. */
  lemma DiscoverStep(adj: SuccMap, black: seq<Node>, gray: seq<Node>, v: Node)
    requires DfsState(adj, black, gray)
    requires v !in black && v !in gray
    requires gray == [] || HasEdge(adj, Last(gray), v)
    ensures DfsState(adj, black, gray + [v])
  {
    var gv := gray + [v];
    forall i | 0 <= i < |gv| - 1
      ensures HasEdge(adj, gv[i], gv[i + 1])
    {
      if i < |gray| - 1 {
        assert gv[i] == gray[i] && gv[i + 1] == gray[i + 1];
      }
    }
    forall x, y | ReachesOut(adj, black, x, y)
      ensures exists g :: g in gv && Mutual(adj, x, g)
    {
      var g :| g in gray && Mutual(adj, x, g);
      assert g in gv;
    }
    forall i, j | ReachesAt(adj, black, i, j)
      ensures (exists k :: j <= k < |black| && Mutual(adj, black[i], black[k])) ||
              (exists g :: g in gv && Mutual(adj, black[i], g))
    {
      if !exists k :: j <= k < |black| && Mutual(adj, black[i], black[k]) {
        var g :| g in gray && Mutual(adj, black[i], g);
        assert g in gv;
      }
    }
  }

  /** Finishing the top gray vertex `v`, once all its successors are black or gray, keeps the
      invariant with `v` pushed on the finish-order stack. */
  lemma FinishStep(adj: SuccMap, black: seq<Node>, gray: seq<Node>, v: Node)
    requires DfsState(adj, black, gray + [v]) && v !in gray
    requires forall y :: HasEdge(adj, v, y) ==> y in black || y in gray || y == v
    ensures DfsState(adj, black + [v], gray)
  {
    var gv := gray + [v];
    var black' := black + [v];
    assert v in gv;
    assert v !in black;
    assert NoDup(gray) by {
      forall i, j | 0 <= i < j < |gray|
        ensures gray[i] != gray[j]
      {
        assert gray[i] == gv[i] && gray[j] == gv[j];
      }
    }
    assert GrayPath(adj, gray) by {
      forall i | 0 <= i < |gray| - 1
        ensures HasEdge(adj, gray[i], gray[i + 1])
      {
        assert gray[i] == gv[i] && gray[i + 1] == gv[i + 1];
      }
    }
    assert BlackClosed(adj, black', gray) by {
      forall x, y | x in black' && HasEdge(adj, x, y)
        ensures y in black' || y in gray
      {
        if x in black {
          assert y in black || y in gv;
        }
      }
    }
    forall x, y | ReachesOut(adj, black', x, y)
      ensures exists g :: g in gray && Mutual(adj, x, g)
    {
      var a, b := ExitEdge(adj, x, y, Elems(black'));
      assert b in gray;
      var ib :| 0 <= ib < |gray| && gray[ib] == b;
      GrayReaches(adj, gv, ib, |gray|);
      assert gv[ib] == b && gv[|gray|] == v;
      if x == v {
        assert Mutual(adj, x, b);
      } else {
        assert ReachesOut(adj, black, x, b);
        var g :| g in gv && Mutual(adj, x, g);
        if g == v {
          ReachTrans(adj, b, v, x);
          assert Mutual(adj, x, b);
        } else {
          assert g in gray;
        }
      }
    }
    forall i, j | ReachesAt(adj, black', i, j)
      ensures (exists k :: j <= k < |black'| && Mutual(adj, black'[i], black'[k])) ||
              (exists g :: g in gray && Mutual(adj, black'[i], g))
    {
      var top := |black|;
      if i == top {
        ReachRefl(adj, v);
        assert Mutual(adj, black'[i], black'[top]);
      } else {
        var x := black[i];
        assert black'[i] == x;
        if j == top {
          assert ReachesOut(adj, black, x, v);
          var g :| g in gv && Mutual(adj, x, g);
          if g == v {
            assert Mutual(adj, x, black'[top]);
          } else {
            assert g in gray;
          }
        } else {
          assert black'[j] == black[j];
          assert ReachesAt(adj, black, i, j);
          if exists k :: j <= k < |black| && Mutual(adj, x, black[k]) {
            var k :| j <= k < |black| && Mutual(adj, x, black[k]);
            assert black'[k] == black[k];
          } else {
            var g :| g in gv && Mutual(adj, x, g);
            if g == v {
              assert Mutual(adj, x, black'[top]);
            } else {
              assert g in gray;
            }
          }
        }
      }
    }
  }

  /** With no active vertex left, the finish order has the property the second pass needs. */
  lemma FinishedOrder(adj: SuccMap, order: seq<Node>)
    requires DfsState(adj, order, [])
    ensures RootsFinishLast(adj, order)
  {
    forall i, j | ReachesAt(adj, order, i, j)
      ensures exists k :: j <= k < |order| && Mutual(adj, order[i], order[k])
    {
    }
  }

  /** The components collected by the second pass so far: each is exactly the component of any
      of its members, and together they hold exactly the `visited` vertices. */
  ghost predicate ExactComponents(adj: SuccMap, sccs: seq<seq<Node>>, visited: set<Node>) {
    && (forall x :: x in visited <==> exists i :: 0 <= i < |sccs| && x in sccs[i])
    && (forall i, a, b :: 0 <= i < |sccs| && a in sccs[i] ==> (b in sccs[i] <==> Mutual(adj, a, b)))
  }

  /** No vertex lies in two of the lists. */
  ghost predicate Disjoint(sccs: seq<seq<Node>>) {
    forall i, j, x :: 0 <= i < j < |sccs| && x in sccs[i] ==> x !in sccs[j]
  }

  /** Appending `comp`, which holds exactly the component of the unclaimed vertex `r`, keeps the
      collected lists exact and disjoint. */
  lemma AddComponent(adj: SuccMap, sccs: seq<seq<Node>>, visited: set<Node>, comp: seq<Node>, r: Node)
    requires ExactComponents(adj, sccs, visited) && Disjoint(sccs)
    requires forall b :: b in comp <==> Mutual(adj, r, b)
    requires forall x :: x in comp ==> x !in visited
    ensures ExactComponents(adj, sccs + [comp], visited + Elems(comp))
    ensures Disjoint(sccs + [comp])
  {
    var s := sccs + [comp];
    forall x | x in visited + Elems(comp)
      ensures exists i :: 0 <= i < |s| && x in s[i]
    {
      if x in visited {
        var i :| 0 <= i < |sccs| && x in sccs[i];
        assert s[i] == sccs[i];
      } else {
        assert s[|sccs|] == comp;
      }
    }
    forall x | exists i :: 0 <= i < |s| && x in s[i]
      ensures x in visited + Elems(comp)
    {
      var i :| 0 <= i < |s| && x in s[i];
      if i < |sccs| {
        assert s[i] == sccs[i];
      } else {
        assert s[i] == comp;
      }
    }
    forall i, a, b | 0 <= i < |s| && a in s[i]
      ensures b in s[i] <==> Mutual(adj, a, b)
    {
      if i < |sccs| {
        assert s[i] == sccs[i];
      } else {
        assert s[i] == comp;
        if b in comp {
          MutualTrans(adj, a, r, b);
        } else if Mutual(adj, a, b) {
          MutualTrans(adj, r, a, b);
        }
      }
    }
    forall i, j, x | 0 <= i < j < |s| && x in s[i]
      ensures x !in s[j]
    {
      assert s[i] == sccs[i];
      if j == |sccs| {
        assert x in visited;
      } else {
        assert s[j] == sccs[j];
      }
    }
  }

  lemma MutualVisited(adj: SuccMap, sccs: seq<seq<Node>>, visited: set<Node>, x: Node, y: Node)
    requires ExactComponents(adj, sccs, visited)
    requires x in visited && Mutual(adj, x, y)
    ensures y in visited
  {
    var i :| 0 <= i < |sccs| && x in sccs[i];
    assert y in sccs[i];
  }

  /** `visited` is a union of whole components. */
  ghost predicate UnionOfComponents(adj: SuccMap, visited: set<Node>) {
    forall x, y :: x in visited && Mutual(adj, x, y) ==> y in visited
  }

  lemma ExactIsUnion(adj: SuccMap, sccs: seq<seq<Node>>, visited: set<Node>)
    requires ExactComponents(adj, sccs, visited)
    ensures UnionOfComponents(adj, visited)
  {
    forall x, y | x in visited && Mutual(adj, x, y)
      ensures y in visited
    {
      MutualVisited(adj, sccs, visited, x, y);
    }
  }

  /** A vertex collected from the root `order[cut]` through the transpose `t`, while every
      vertex finishing after the root is already claimed, lies in the root's component. */
  lemma CollectedInComponent(adj: SuccMap, t: SuccMap, order: seq<Node>, cut: nat,
                             visited: set<Node>, b: Node)
    requires IsTransposeOf(t, adj) && RootsFinishLast(adj, order)
    requires cut < |order| && forall k :: cut < k < |order| ==> order[k] in visited
    requires UnionOfComponents(adj, visited)
    requires b !in visited && b in order && Reach(t, order[cut], b)
    ensures Mutual(adj, order[cut], b)
  {
    var r := order[cut];
    ReachTransposed(t, adj, r, b);
    var jb :| 0 <= jb < |order| && order[jb] == b;
    var k := LaterMutual(adj, order, jb, cut);
    if k != cut {
      assert order[k] in visited && Mutual(adj, order[k], b);
      assert false;
    }
  }

  /** The vertices collected through the transpose `t` from the unclaimed root `order[cut]`, when
      every vertex finishing after the root is claimed, are exactly the root's component. */
  lemma CollectedExactly(adj: SuccMap, t: SuccMap, order: seq<Node>, cut: nat,
                         sccs: seq<seq<Node>>, visited: set<Node>, comp: seq<Node>)
    requires IsTransposeOf(t, adj) && RootsFinishLast(adj, order)
    requires cut < |order| && forall k :: cut < k < |order| ==> order[k] in visited
    requires ExactComponents(adj, sccs, visited) && order[cut] !in visited
    requires forall b :: b in comp ==> b in order && b !in visited && Reach(t, order[cut], b)
    requires forall y {:trigger ReachAvoiding(t, order[cut], y, visited)} ::
               ReachAvoiding(t, order[cut], y, visited) ==> y in comp
    ensures forall b :: b in comp <==> Mutual(adj, order[cut], b)
  {
    var r := order[cut];
    ExactIsUnion(adj, sccs, visited);
    forall b
      ensures b in comp <==> Mutual(adj, r, b)
    {
      if b in comp {
        CollectedInComponent(adj, t, order, cut, visited, b);
      }
      if Mutual(adj, r, b) {
        var p := ComponentReachedUnclaimed(adj, t, r, visited, sccs, b);
        assert ReachAvoiding(t, r, b, visited);
      }
    }
  }

  lemma LaterMutual(adj: SuccMap, order: seq<Node>, i: nat, j: nat) returns (k: nat)
    requires RootsFinishLast(adj, order)
    requires i < |order| && j < |order| && Reach(adj, order[i], order[j])
    ensures j <= k < |order| && Mutual(adj, order[i], order[k])
  {
    assert ReachesAt(adj, order, i, j);
    k :| j <= k < |order| && Mutual(adj, order[i], order[k]);
  }

  /** Every vertex of an unclaimed root's component is reached from the root through the
      transpose `t` along unclaimed vertices only. */
  lemma ComponentReachedUnclaimed(adj: SuccMap, t: SuccMap, r: Node, visited: set<Node>,
                                  sccs: seq<seq<Node>>, b: Node) returns (p: seq<Node>)
    requires IsTransposeOf(t, adj) && ExactComponents(adj, sccs, visited)
    requires r !in visited && Mutual(adj, r, b)
    ensures IsPath(t, p) && p[0] == r && Last(p) == b
    ensures forall i :: 0 <= i < |p| ==> p[i] !in visited
  {
    var q :| IsPath(adj, q) && q[0] == b && Last(q) == r;
    forall i | 0 <= i < |q|
      ensures q[i] !in visited
    {
      PathThrough(adj, q, i);
      ReachTrans(adj, r, b, q[i]);
      if q[i] in visited {
        MutualVisited(adj, sccs, visited, q[i], r);
        assert false;
      }
    }
    ReversePath(t, adj, q);
    p := Reverse(q);
    forall i | 0 <= i < |p|
      ensures p[i] !in visited
    {
      assert p[i] == q[|q| - 1 - i];
    }
  }
}
