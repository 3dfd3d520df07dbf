/** The closure step of `produce_svg` (rfc_browser/load_xml.py): the updated-by and
    obsoleted-by graphs are merged, each root contributes the subgraph induced by
    everything it reaches, and these subgraphs are merged into one. */
module Closure {
  import opened Graphs

  /** Every node some root reaches (each root included). */
  function ReachAll(es: set<Edge>, roots: seq<Id>): set<Id> {
    set r, v | r in roots && v in Reach(es, r) :: v
  }

  /** The closure of `roots` in the merged graph `c`: the subgraph induced by all
      nodes reachable from some root. */
  function ClosureGraph(c: Graph, roots: seq<Id>): Graph {
    Subgraph(c, ReachAll(c.edges, roots))
  }

  /** Lines 131-138: `c = nx.compose(ubg, obg)`, then for each root the subgraph induced
      by its descendants and itself is appended to `l`, and `nx.compose_all(l)` merges
      them. networkx raises for a root that is not a node and for an empty list. */
  method ComputeClosure(ubg: Graph, obg: Graph, rfcList: seq<Id>) returns (g: Graph)
    requires WellFormed(ubg) && WellFormed(obg)
    requires |rfcList| > 0
    requires forall r | r in rfcList :: r in ubg.nodes || r in obg.nodes
    ensures g == ClosureGraph(Compose(ubg, obg), rfcList)
  {
    var c := Compose(ubg, obg);
    var l: seq<Graph> := [];
    for i := 0 to |rfcList|
      invariant |l| == i
      invariant forall j | 0 <= j < i :: l[j] == Subgraph(c, Reach(c.edges, rfcList[j]))
    {
      var r := rfcList[i];
      var x := Descendants(c, r);
      x := x + {r};
      DescendantsWithSource(c, r);
      l := l + [Subgraph(c, x)];
    }
    g := ComposeAll(l);
    UnionOfInducedSubgraphs(c, rfcList, l);
  }

  /** Merging the per-root induced subgraphs gives the subgraph induced by the union of
      the reach sets: an edge between two reach sets cannot exist, because each reach set
      is closed under successors. */
  lemma UnionOfInducedSubgraphs(c: Graph, roots: seq<Id>, l: seq<Graph>)
    requires WellFormed(c)
    requires |roots| > 0 && |l| == |roots|
    requires forall r | r in roots :: r in c.nodes
    requires forall j | 0 <= j < |l| :: l[j] == Subgraph(c, Reach(c.edges, roots[j]))
    ensures ComposeAll(l) == ClosureGraph(c, roots)
  {
    var g, h := ComposeAll(l), ClosureGraph(c, roots);
    forall v ensures v in g.nodes <==> v in h.nodes {
      if v in h.nodes {
        var r :| r in roots && v in Reach(c.edges, r);
        var j :| 0 <= j < |roots| && roots[j] == r;
        assert v in l[j].nodes;
      }
    }
    forall e ensures e in g.edges <==> e in h.edges {
      if e in h.edges {
        var r :| r in roots && e.0 in Reach(c.edges, r);
        var j :| 0 <= j < |roots| && roots[j] == r;
        assert e.1 in Reach(c.edges, r);
        assert e in l[j].edges;
      }
    }
  }

  /** A node is in the closure exactly when some root reaches it by a walk of zero or
      more updated-by / obsoleted-by edges. */
  lemma ClosureNodes(c: Graph, roots: seq<Id>, v: Id)
    requires WellFormed(c)
    requires forall r | r in roots :: r in c.nodes
    ensures v in ClosureGraph(c, roots).nodes <==> exists r | r in roots :: Reachable(c.edges, r, v)
  {
    forall r | r in roots ensures v in Reach(c.edges, r) <==> Reachable(c.edges, r, v) {
      ReachIsReachable(c.edges, r, v);
      ReachWithinNodes(c, r);
    }
    if exists r | r in roots :: Reachable(c.edges, r, v) {
      var r :| r in roots && Reachable(c.edges, r, v);
      ReachWithinNodes(c, r);
    }
  }

  /** The closure keeps every merged-graph edge that leaves one of its nodes. */
  lemma ClosureEdges(c: Graph, roots: seq<Id>, e: Edge)
    requires WellFormed(c)
    ensures e in ClosureGraph(c, roots).edges <==> e in c.edges && e.0 in ClosureGraph(c, roots).nodes
  {
    if e in c.edges && e.0 in ClosureGraph(c, roots).nodes {
      var r :| r in roots && e.0 in Reach(c.edges, r);
      assert e.1 in Reach(c.edges, r);
    }
  }

  /** More roots give a closure with more nodes and more edges; order and repetition of
      the roots do not matter. */
  lemma ClosureMonotone(c: Graph, roots1: seq<Id>, roots2: seq<Id>)
    requires forall r | r in roots1 :: r in roots2
    ensures ClosureGraph(c, roots1).nodes <= ClosureGraph(c, roots2).nodes
    ensures ClosureGraph(c, roots1).edges <= ClosureGraph(c, roots2).edges
  {
  }

  /** Every root is a node of the closure, and the closure is a well-formed subgraph of `c`. */
  lemma ClosureContainsRoots(c: Graph, roots: seq<Id>)
    requires WellFormed(c)
    requires forall r | r in roots :: r in c.nodes
    ensures forall r | r in roots :: r in ClosureGraph(c, roots).nodes
    ensures ClosureGraph(c, roots).nodes <= c.nodes
    ensures ClosureGraph(c, roots).edges <= c.edges
    ensures WellFormed(ClosureGraph(c, roots))
  {
    forall r | r in roots ensures r in ClosureGraph(c, roots).nodes {
      ReachContainsSource(c.edges, r);
    }
  }
}
