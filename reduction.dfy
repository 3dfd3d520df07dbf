/** The reduction step of the pipeline: networkx's `transitive_reduction`, the
    intersection of its result with the closure, and the `full` bypass. */
module Reduction {
  import opened Graphs

  /** No node reaches itself by a path of one or more edges. networkx's
      `transitive_reduction` raises on any other graph. */
  ghost predicate Acyclic(g: Graph) {
    forall v | v in g.nodes :: v !in Plus(g.edges, v)
  }

  /** The edge `e` is implied by a longer path: some other successor of its source
      reaches its target. */
  predicate Redundant(es: set<Edge>, e: Edge) {
    exists v | v in Succ(es, {e.0}) :: e.1 in Plus(es, v)
  }

  /** `nx.transitive_reduction(g)`: every node, and every edge that no longer path implies.
      This is the set that networkx's algorithm leaves in each node's successor set
      after removing the descendants of each successor. */
  function TransitiveReduction(g: Graph): (t: Graph)
    requires WellFormed(g) && Acyclic(g)
    ensures t.nodes == g.nodes && t.edges <= g.edges
    ensures WellFormed(t)
  {
    Graph(g.nodes, set e | e in g.edges && !Redundant(g.edges, e))
  }

  /** The graph the program emits from the closure `g`: `g` itself when `full` is set,
      otherwise `nx.intersection(g, nx.transitive_reduction(g))`. */
  function Reduce(g: Graph, full: bool): (r: Graph)
    requires full || (WellFormed(g) && Acyclic(g))
  {
    if full then g else Intersection(g, TransitiveReduction(g))
  }

  /** With `full` set nothing is reduced. */
  lemma ReduceFull(g: Graph)
    ensures Reduce(g, true) == g
  {
  }

  /** The intersection changes nothing: the reduction already lies inside `g`. */
  lemma IntersectionIsReduction(g: Graph)
    requires WellFormed(g) && Acyclic(g)
    ensures Reduce(g, false) == TransitiveReduction(g)
  {
  }

  /** The reduced graph has the closure's nodes and a subset of its edges. */
  lemma ReduceIsSubgraph(g: Graph, full: bool)
    requires full || (WellFormed(g) && Acyclic(g))
    ensures Reduce(g, full).nodes == g.nodes
    ensures Reduce(g, full).edges <= g.edges
    ensures WellFormed(g) ==> WellFormed(Reduce(g, full))
  {
  }

  /** On acyclic input the reduction keeps exactly the reachability of `g`. */
  lemma ReducePreservesReach(g: Graph, u: Id)
    requires WellFormed(g) && Acyclic(g)
    ensures Reach(Reduce(g, false).edges, u) == Reach(g.edges, u)
  {
    var t := TransitiveReduction(g);
    IntersectionIsReduction(g);
    ReachMono(t.edges, g.edges, u);
    if u in g.nodes {
      ReachKept(g, u);
    } else {
      ReachOutsideNodes(g, u);
      ReachOutsideNodes(t, u);
    }
  }

  /** A name that is not a node reaches only itself. */
  lemma ReachOutsideNodes(g: Graph, u: Id)
    requires WellFormed(g) && u !in g.nodes
    ensures Reach(g.edges, u) == {u}
  {
    assert Closed(g.edges, {u});
    SaturateLeast(g.edges, {u}, {u});
  }

  /** On an acyclic graph, a node that `x` reaches in one or more steps reaches strictly less. */
  lemma PlusShrinksStrictly(g: Graph, x: Id, y: Id)
    requires WellFormed(g) && Acyclic(g) && x in g.nodes
    requires y in Plus(g.edges, x)
    ensures Plus(g.edges, y) < Plus(g.edges, x)
  {
    PlusShrinks(g.edges, x, y);
    ReachWithinNodes(g, x);
    ReachSplit(g.edges, x);
    assert y !in Plus(g.edges, y);
  }

  /** Everything `x` reaches in `g` it also reaches in the reduction. */
  lemma {:induction false} ReachKept(g: Graph, x: Id)
    requires WellFormed(g) && Acyclic(g) && x in g.nodes
    ensures Reach(g.edges, x) <= Reach(TransitiveReduction(g).edges, x)
    decreases Plus(g.edges, x)
  {
    var es, ts := g.edges, TransitiveReduction(g).edges;
    ReachContainsSource(ts, x);
    forall y | y in Succ(es, {x}) ensures Reach(es, y) <= Reach(ts, x) {
      EdgeKept(g, x, y);
      PlusShrinksStrictly(g, x, y);
      ReachKept(g, y);
      ReachSubset(ts, x, y);
    }
    ReachBySuccessors(es, x, Reach(ts, x));
  }

  /** Every edge of `g` is followed in the reduction by a path. */
  lemma {:induction false} EdgeKept(g: Graph, x: Id, y: Id)
    requires WellFormed(g) && Acyclic(g) && x in g.nodes
    requires (x, y) in g.edges
    ensures y in Reach(TransitiveReduction(g).edges, x)
    decreases Plus(g.edges, x), Targets(g.edges) - Plus(g.edges, y)
  {
    var es, ts := g.edges, TransitiveReduction(g).edges;
    ReachContainsSource(ts, x);
    if (x, y) !in ts {
      var v :| v in Succ(es, {x}) && y in Plus(es, v);
      assert v in Plus(es, x);
      ReachWithinNodes(g, x);
      // `y` lies strictly deeper below `x` than `v` does.
      PlusShrinksStrictly(g, v, y);
      assert y in Targets(es) - Plus(es, y);
      ReachWithinNodes(g, v);
      assert Plus(es, v) <= Targets(es);
      EdgeKept(g, x, v);
      PlusShrinksStrictly(g, x, v);
      ReachKept(g, v);
      ReachSplit(es, v);
      ReachSubset(ts, x, v);
    }
  }

  /** Without the edge `(u, w)`, a set of edges of `g` that still leads from `u` to `w`
      makes that edge redundant. */
  lemma DetourMakesRedundant(g: Graph, fs: set<Edge>, u: Id, w: Id)
    requires WellFormed(g) && Acyclic(g)
    requires (u, w) in g.edges && fs <= g.edges && (u, w) !in fs
    requires w in Reach(fs, u)
    ensures Redundant(g.edges, (u, w))
  {
    var es := g.edges;
    var beyond := {u} + set x, y | x in Succ(fs, {u}) && y in Reach(es, x) :: y;
    forall x | x in Succ(fs, {u}) ensures Reach(fs, x) <= beyond {
      ReachMono(fs, es, x);
    }
    ReachBySuccessors(fs, u, beyond);
    assert w in Plus(es, u);
    assert w != u;
    var x :| x in Succ(fs, {u}) && w in Reach(es, x);
    ReachSplit(es, x);
    assert x in Succ(es, {u}) && w in Plus(es, x);
  }

  /** No edge of the reduction can be dropped: without it, its target is no longer
      reachable from its source. */
  lemma ReductionMinimal(g: Graph, u: Id, w: Id)
    requires WellFormed(g) && Acyclic(g)
    requires (u, w) in TransitiveReduction(g).edges
    ensures w !in Reach(TransitiveReduction(g).edges - {(u, w)}, u)
  {
    var fs := TransitiveReduction(g).edges - {(u, w)};
    if w in Reach(fs, u) {
      DetourMakesRedundant(g, fs, u, w);
      assert false;
    }
  }
}
