/** The relation-graph builder of `produce_svg` (rfc_browser/load_xml.py): every
    record becomes a node of all four relation graphs, then each record adds one
    edge per listed target to the graph of that relation. The module-level graphs
    of the program are the objects this builder allocates and returns. */
module Builder {
  import opened Graphs
  import opened Records

  /** A networkx `DiGraph` as the builder mutates it. */
  class DiGraph {
    var nodes: set<Id>
    var edges: set<Edge>

    /** The graph's current value. */
    function Value(): Graph
      reads this
    {
      Graph(nodes, edges)
    }

    ghost predicate Valid()
      reads this
    {
      WellFormed(Value())
    }

    /** `nx.DiGraph()`: no nodes, no edges. */
    constructor ()
      ensures Valid() && nodes == {} && edges == {}
    {
      nodes, edges := {}, {};
    }

    /** `add_node(n)`. */
    method AddNode(n: Id)
      requires Valid()
      modifies this
      ensures Valid()
      ensures nodes == old(nodes) + {n} && edges == old(edges)
    {
      nodes := nodes + {n};
    }

    /** `add_nodes_from(ns)`. */
    method AddNodesFrom(ns: set<Id>)
      requires Valid()
      modifies this
      ensures Valid()
      ensures nodes == old(nodes) + ns && edges == old(edges)
    {
      nodes := nodes + ns;
    }

    /** `add_edge(u, v)`: the endpoints become nodes; adding an edge twice adds it once. */
    method AddEdge(u: Id, v: Id)
      requires Valid()
      modifies this
      ensures Valid()
      ensures Value() == WithEdge(old(Value()), u, v)
    {
      nodes := nodes + {u, v};
      edges := edges + {(u, v)};
    }
  }

  /** The record map is keyed by record identifier, as `rfcs[rfc.id] = rfc` builds it. */
  ghost predicate Indexed(rfcs: map<Id, Record>) {
    forall a | a in rfcs :: rfcs[a].id == a
  }

  /** The edges one record contributes to the graph of one relation. */
  function OutEdges(u: Id, targets: seq<Id>): set<Edge> {
    set k | k in targets :: (u, k)
  }

  /** The edges the records named in `ids` contribute to the graph of `kind`. */
  function RelationEdges(rfcs: map<Id, Record>, ids: set<Id>, kind: Relation): set<Edge>
    requires ids <= rfcs.Keys
  {
    set a, k | a in ids && k in rfcs[a].Related(kind) :: (a, k)
  }

  /** The graph of `kind` once the records named in `done` have added their edges: every
      record identifier and every edge target is a node. */
  function Partial(rfcs: map<Id, Record>, done: set<Id>, kind: Relation): Graph
    requires done <= rfcs.Keys
  {
    var es := RelationEdges(rfcs, done, kind);
    Graph(rfcs.Keys + Targets(es), es)
  }

  /** The finished graph of one relation: every record has added its edges, so `a -> k`
      is an edge exactly when `k` is in `a`'s list for `kind`. */
  function RelationGraph(rfcs: map<Id, Record>, kind: Relation): Graph {
    Partial(rfcs, rfcs.Keys, kind)
  }

  /** The finished graphs hold every record as a node and are well formed. */
  lemma RelationGraphWellFormed(rfcs: map<Id, Record>, kind: Relation)
    ensures rfcs.Keys <= RelationGraph(rfcs, kind).nodes
    ensures WellFormed(RelationGraph(rfcs, kind))
  {
    PartialWellFormed(rfcs, rfcs.Keys, kind);
  }

  /** A finished graph contains `a -> k` exactly when `a`'s list for `kind` names `k`. */
  lemma RelationGraphFacts(rfcs: map<Id, Record>, kind: Relation, a: Id, k: Id)
    ensures (a, k) in RelationGraph(rfcs, kind).edges <==> a in rfcs && k in rfcs[a].Related(kind)
  {
  }

  /** Adding one more record's edges. */
  lemma RelationEdgesStep(rfcs: map<Id, Record>, ids: set<Id>, a: Id, kind: Relation)
    requires ids <= rfcs.Keys && a in rfcs
    ensures RelationEdges(rfcs, ids + {a}, kind)
         == RelationEdges(rfcs, ids, kind) + OutEdges(a, rfcs[a].Related(kind))
  {
  }

  lemma TargetsUnion(es: set<Edge>, fs: set<Edge>)
    ensures Targets(es + fs) == Targets(es) + Targets(fs)
  {
  }

  /** `for k in targets: g.add_edge(u, k)`. */
  method AddEdgesFrom(g: DiGraph, u: Id, targets: seq<Id>)
    requires g.Valid() && u in g.nodes
    modifies g
    ensures g.Valid()
    ensures g.edges == old(g.edges) + OutEdges(u, targets)
    ensures g.nodes == old(g.nodes) + Targets(OutEdges(u, targets))
  {
    for i := 0 to |targets|
      invariant g.Valid() && u in g.nodes
      invariant g.edges == old(g.edges) + OutEdges(u, targets[..i])
      invariant g.nodes == old(g.nodes) + Targets(OutEdges(u, targets[..i]))
    {
      g.AddEdge(u, targets[i]);
      assert OutEdges(u, targets[..i + 1]) == OutEdges(u, targets[..i]) + {(u, targets[i])} by {
        assert targets[..i + 1] == targets[..i] + [targets[i]];
      }
    }
    assert targets[..|targets|] == targets;
  }

  /** Lines 111-127 of `produce_svg`: one graph holding every record as a node, its nodes
      copied into the four relation graphs, then the edges of every record added. */
  method BuildRelationGraphs(rfcs: map<Id, Record>)
    returns (nodes: DiGraph, ug: DiGraph, ubg: DiGraph, og: DiGraph, obg: DiGraph)
    requires Indexed(rfcs)
    ensures fresh(nodes) && fresh(ug) && fresh(ubg) && fresh(og) && fresh(obg)
    ensures nodes.Value() == Graph(rfcs.Keys, {})
    ensures ug.Value() == RelationGraph(rfcs, Updates)
    ensures ubg.Value() == RelationGraph(rfcs, UpdatedBy)
    ensures og.Value() == RelationGraph(rfcs, Obsoletes)
    ensures obg.Value() == RelationGraph(rfcs, ObsoletedBy)
  {
    nodes := new DiGraph();
    ug := new DiGraph();
    ubg := new DiGraph();
    og := new DiGraph();
    obg := new DiGraph();

    AddRecordNodes(nodes, rfcs);

    ug.AddNodesFrom(nodes.nodes);
    ubg.AddNodesFrom(nodes.nodes);
    og.AddNodesFrom(nodes.nodes);
    obg.AddNodesFrom(nodes.nodes);

    AddRecordEdges(rfcs, ug, ubg, og, obg);
  }

  /** `for rfc in rfcs.values(): nodes.add_node(rfc.id)`. */
  method AddRecordNodes(nodes: DiGraph, rfcs: map<Id, Record>)
    requires Indexed(rfcs)
    requires nodes.Valid()
    modifies nodes
    ensures nodes.Valid()
    ensures nodes.Value() == Graph(old(nodes.nodes) + rfcs.Keys, old(nodes.edges))
  {
    var todo := rfcs.Keys;
    while todo != {}
      invariant todo <= rfcs.Keys
      invariant nodes.Valid() && nodes.edges == old(nodes.edges)
      invariant nodes.nodes == old(nodes.nodes) + (rfcs.Keys - todo)
      decreases todo
    {
      var a :| a in todo;
      nodes.AddNode(rfcs[a].id);
      todo := todo - {a};
    }
  }

  /** The loop over the records that adds every relation edge to the graph of its kind. */
  method AddRecordEdges(rfcs: map<Id, Record>, ug: DiGraph, ubg: DiGraph, og: DiGraph, obg: DiGraph)
    requires Indexed(rfcs)
    requires ug != ubg && ug != og && ug != obg && ubg != og && ubg != obg && og != obg
    requires ug.Value() == ubg.Value() == og.Value() == obg.Value() == Graph(rfcs.Keys, {})
    modifies ug, ubg, og, obg
    ensures ug.Value() == RelationGraph(rfcs, Updates)
    ensures ubg.Value() == RelationGraph(rfcs, UpdatedBy)
    ensures og.Value() == RelationGraph(rfcs, Obsoletes)
    ensures obg.Value() == RelationGraph(rfcs, ObsoletedBy)
  {
    var todo := rfcs.Keys;
    var done: set<Id> := {};
    forall kind: Relation ensures Partial(rfcs, done, kind) == Graph(rfcs.Keys, {}) {
      assert RelationEdges(rfcs, done, kind) == {};
    }
    while todo != {}
      invariant todo !! done && todo + done == rfcs.Keys
      invariant ug.Value() == Partial(rfcs, done, Updates)
      invariant ubg.Value() == Partial(rfcs, done, UpdatedBy)
      invariant og.Value() == Partial(rfcs, done, Obsoletes)
      invariant obg.Value() == Partial(rfcs, done, ObsoletedBy)
      decreases todo
    {
      var a :| a in todo;
      var rfc := rfcs[a];
      PartialWellFormed(rfcs, done, Updates);
      AddEdgesFrom(ug, rfc.id, rfc.updates);
      PartialStep(rfcs, done, a, Updates);
      PartialWellFormed(rfcs, done, UpdatedBy);
      AddEdgesFrom(ubg, rfc.id, rfc.updatedBy);
      PartialStep(rfcs, done, a, UpdatedBy);
      PartialWellFormed(rfcs, done, Obsoletes);
      AddEdgesFrom(og, rfc.id, rfc.obsoletes);
      PartialStep(rfcs, done, a, Obsoletes);
      PartialWellFormed(rfcs, done, ObsoletedBy);
      AddEdgesFrom(obg, rfc.id, rfc.obsoletedBy);
      PartialStep(rfcs, done, a, ObsoletedBy);
      todo, done := todo - {a}, done + {a};
    }
    assert done == rfcs.Keys;
  }

  lemma PartialWellFormed(rfcs: map<Id, Record>, done: set<Id>, kind: Relation)
    requires done <= rfcs.Keys
    ensures WellFormed(Partial(rfcs, done, kind))
  {
  }

  lemma PartialStep(rfcs: map<Id, Record>, done: set<Id>, a: Id, kind: Relation)
    requires done <= rfcs.Keys && a in rfcs
    ensures Partial(rfcs, done + {a}, kind)
         == Graph(Partial(rfcs, done, kind).nodes + Targets(OutEdges(a, rfcs[a].Related(kind))),
                  Partial(rfcs, done, kind).edges + OutEdges(a, rfcs[a].Related(kind)))
  {
    RelationEdgesStep(rfcs, done, a, kind);
    TargetsUnion(RelationEdges(rfcs, done, kind), OutEdges(a, rfcs[a].Related(kind)));
  }
}
