/** `produce_svg` (rfc_browser/load_xml.py) from the record map on: build the relation
    graphs, take the closure of the requested roots, reduce it unless `full` is set, and
    style the graph handed to the output. */
module Pipeline {
  import opened Graphs
  import opened Records
  import opened Builder
  import opened Closure
  import opened Reduction
  import opened Styling

  /** The merged updated-by / obsoleted-by graph of the registry. */
  function Combined(rfcs: map<Id, Record>): Graph {
    Compose(RelationGraph(rfcs, UpdatedBy), RelationGraph(rfcs, ObsoletedBy))
  }

  /** The closure of the roots in the registry's merged graph. */
  function RegistryClosure(rfcs: map<Id, Record>, roots: seq<Id>): Graph {
    ClosureGraph(Combined(rfcs), roots)
  }

  /** What the program passes to `print_graph`. */
  function Emitted(rfcs: map<Id, Record>, roots: seq<Id>, full: bool): Graph
    requires full || Acyclic(RegistryClosure(rfcs, roots))
  {
    ClosureFacts(rfcs, roots);
    Reduce(RegistryClosure(rfcs, roots), full)
  }

  lemma ClosureFacts(rfcs: map<Id, Record>, roots: seq<Id>)
    ensures WellFormed(Combined(rfcs))
    ensures WellFormed(RegistryClosure(rfcs, roots))
  {
    forall kind: Relation ensures WellFormed(RelationGraph(rfcs, kind)) {
      RelationGraphWellFormed(rfcs, kind);
    }
  }

  /** What is emitted has the closure's nodes and some of its edges, is the closure itself
      when `full` is set, and otherwise still connects every pair the closure connects. */
  lemma EmittedFacts(rfcs: map<Id, Record>, roots: seq<Id>, full: bool, u: Id)
    requires full || Acyclic(RegistryClosure(rfcs, roots))
    ensures Emitted(rfcs, roots, full).nodes == RegistryClosure(rfcs, roots).nodes
    ensures Emitted(rfcs, roots, full).edges <= RegistryClosure(rfcs, roots).edges
    ensures full ==> Emitted(rfcs, roots, full) == RegistryClosure(rfcs, roots)
    ensures Reach(Emitted(rfcs, roots, full).edges, u) == Reach(RegistryClosure(rfcs, roots).edges, u)
  {
    ClosureFacts(rfcs, roots);
    ReduceIsSubgraph(RegistryClosure(rfcs, roots), full);
    if !full {
      ReducePreservesReach(RegistryClosure(rfcs, roots), u);
    }
  }

  /** An emitted edge is drawn dotted exactly when its source record lists its target
      as obsoleting it. */
  lemma DottedEdges(rfcs: map<Id, Record>, e: Edge)
    ensures "style" in EdgeAttrs(e, RelationGraph(rfcs, ObsoletedBy))
        <==> e.0 in rfcs && e.1 in rfcs[e.0].obsoletedBy
  {
    RelationGraphFacts(rfcs, ObsoletedBy, e.0, e.1);
  }

  /** Lines 102-149 once the records are read: the styled graph holds exactly the nodes and
      edges of Emitted, each node carries NodeAttrs of its status, and an edge carries the
      dotted style exactly when it is an obsoleted-by edge. The preconditions are where
      networkx or the record lookup would raise: an empty root list, a root that is not a
      node, a cyclic closure to reduce, an emitted node without a record. */
  method ProduceSvg(rfcs: map<Id, Record>, rfcList: seq<Id>, full: bool) returns (a: AGraph)
    requires Indexed(rfcs)
    requires |rfcList| > 0
    requires forall r | r in rfcList :: r in Combined(rfcs).nodes
    requires full || Acyclic(RegistryClosure(rfcs, rfcList))
    requires forall n | n in RegistryClosure(rfcs, rfcList).nodes :: n in rfcs
    ensures fresh(a) && a.Valid()
    ensures a.nodes == Emitted(rfcs, rfcList, full).nodes
    ensures a.edges == Emitted(rfcs, rfcList, full).edges
    ensures forall n | n in a.nodes :: a.nodeAttr[n] == NodeAttrs(n, rfcs[n].currentStatus)
    ensures forall e | e in a.edges :: a.edgeAttr[e] == EdgeAttrs(e, RelationGraph(rfcs, ObsoletedBy))
  {
    var nodes, ug, ubg, og, obg := BuildRelationGraphs(rfcs);
    ClosureFacts(rfcs, rfcList);
    RelationGraphWellFormed(rfcs, UpdatedBy);
    RelationGraphWellFormed(rfcs, ObsoletedBy);
    var g := ComputeClosure(ubg.Value(), obg.Value(), rfcList);
    var out := g;
    if !full {
      var t := TransitiveReduction(g);
      out := Intersection(g, t);
    }
    ReduceIsSubgraph(g, full);
    a := PrintGraph(out, rfcs, obg.Value());
  }

  /** `print_graph` without the writing: convert to an AGraph and style it. */
  method PrintGraph(g: Graph, rfcs: map<Id, Record>, obg: Graph) returns (a: AGraph)
    requires forall n | n in g.nodes :: n in rfcs
    ensures fresh(a) && a.Valid()
    ensures a.nodes == g.nodes && a.edges == g.edges
    ensures forall n | n in a.nodes :: a.nodeAttr[n] == NodeAttrs(n, rfcs[n].currentStatus)
    ensures forall e | e in a.edges :: a.edgeAttr[e] == EdgeAttrs(e, obg)
  {
    a := new AGraph.FromGraph(g);
    StyleGraph(a, rfcs, obg);
  }
}
