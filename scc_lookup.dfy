/** The "same component?" query over the computed list of components: find the first component
    that lists the source airport, then ask whether it also lists the destination. */
module SccLookup {
  import opened Reachability
  import opened Graphs

  datatype Option<T> = None | Some(value: T)

  /** The index of the first component listing `a`, or `None` when no component lists it. */
  function FirstComponent(sccs: seq<seq<Node>>, a: Node): (r: Option<nat>)
    ensures r.Some? ==> r.value < |sccs| && a in sccs[r.value]
    ensures r.Some? ==> forall k :: 0 <= k < r.value ==> a !in sccs[k]
    ensures r.None? ==> forall k :: 0 <= k < |sccs| ==> a !in sccs[k]
    decreases |sccs|
  {
    if sccs == [] then None
    else if a in sccs[0] then Some(0)
    else match FirstComponent(sccs[1..], a)
      case None => None
      case Some(i) => Some(i + 1)
  }

  /** The first component listing `source` exists and lists `destination` too. */
  function InFirstComponent(sccs: seq<seq<Node>>, source: Node, destination: Node): bool {
    match FirstComponent(sccs, source)
    case None => false
    case Some(i) => destination in sccs[i]
  }

  /** The lookup of the SCC page: scan the components in order, stop at the first one listing
      `source`, and report whether that one lists `destination`. */
  method SameScc(sccs: seq<seq<Node>>, source: Node, destination: Node) returns (same: bool)
    ensures same == InFirstComponent(sccs, source, destination)
  {
    var found: Option<seq<Node>> := None;
    var i := 0;
    while i < |sccs|
      invariant 0 <= i <= |sccs|
      invariant found.None? && forall k :: 0 <= k < i ==> source !in sccs[k]
      decreases |sccs| - i
    {
      if source in sccs[i] {
        found := Some(sccs[i]);
        break;
      }
      i := i + 1;
    }
    same := found.Some? && destination in found.value;
  }

  /** Over a partition of the vertices into components, the lookup answers "same component"
      exactly when both airports are vertices that reach each other. */
  lemma SameSccIffMutual(adj: SuccMap, vs: seq<Node>, sccs: seq<seq<Node>>, source: Node, destination: Node)
    requires IsSccPartition(adj, vs, sccs)
    ensures InFirstComponent(sccs, source, destination) <==> source in vs && Mutual(adj, source, destination)
  {
    match FirstComponent(sccs, source)
    case None =>
      assert source in vs ==> source in Elems(vs);
    case Some(i) =>
      assert source in Elems(vs);
  }
}
