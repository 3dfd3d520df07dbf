/** Directed graphs as the program holds them in networkx `DiGraph`s, without
    attributes: a node set and an edge set. The networkx operations the pipeline
    calls (`compose`, `compose_all`, `subgraph`, `intersection`, `descendants`)
    are stated here as set and relation operations. */
module Graphs {

  /** A document identifier such as "RFC0791"; node identity in every graph. */
  type Id = string

  type Edge = (Id, Id)

  datatype Graph = Graph(nodes: set<Id>, edges: set<Edge>)

  /** Every edge joins two nodes of the graph, as in any networkx graph. */
  ghost predicate WellFormed(g: Graph) {
    forall e | e in g.edges :: e.0 in g.nodes && e.1 in g.nodes
  }

  /** `g.add_edge(u, v)`: both endpoints become nodes and the edge is added once. */
  function WithEdge(g: Graph, u: Id, v: Id): (r: Graph)
    ensures u in r.nodes && v in r.nodes && (u, v) in r.edges
    ensures g.nodes <= r.nodes && g.edges <= r.edges
    ensures WellFormed(g) ==> WellFormed(r)
    ensures WellFormed(g) && (u, v) in g.edges ==> r == g
  {
    Graph(g.nodes + {u, v}, g.edges + {(u, v)})
  }

  /** `nx.compose(g, h)`: union of nodes and of edges. */
  function Compose(g: Graph, h: Graph): Graph {
    Graph(g.nodes + h.nodes, g.edges + h.edges)
  }

  /** `nx.compose_all(gs)`, which raises on an empty list. */
  function ComposeAll(gs: seq<Graph>): (r: Graph)
    requires |gs| > 0
    ensures forall v :: v in r.nodes <==> exists i :: 0 <= i < |gs| && v in gs[i].nodes
    ensures forall e :: e in r.edges <==> exists i :: 0 <= i < |gs| && e in gs[i].edges
    decreases |gs|
  {
    if |gs| == 1 then gs[0]
    else
      var front := ComposeAll(gs[..|gs| - 1]);
      assert forall i | 0 <= i < |gs| - 1 :: gs[..|gs| - 1][i] == gs[i];
      Compose(front, gs[|gs| - 1])
  }

  /** `nx.subgraph(g, s)`: the subgraph induced by the members of `s` that are nodes of `g`. */
  function Subgraph(g: Graph, s: set<Id>): Graph {
    Graph(s * g.nodes, set e | e in g.edges && e.0 in s && e.1 in s)
  }

  /** `nx.intersection(g, h)`: the nodes and the edges present in both. */
  function Intersection(g: Graph, h: Graph): Graph {
    Graph(g.nodes * h.nodes, g.edges * h.edges)
  }

  // ---------------------------------------------------------------------------
  // Reachability

  /** The nodes one edge away from some member of `s`. */
  function Succ(es: set<Edge>, s: set<Id>): set<Id> {
    set e | e in es && e.0 in s :: e.1
  }

  /** Every edge target. */
  function Targets(es: set<Edge>): set<Id> {
    set e | e in es :: e.1
  }

  /** No edge leaves `s`. */
  ghost predicate Closed(es: set<Edge>, s: set<Id>) {
    forall e | e in es && e.0 in s :: e.1 in s
  }

  /** The nodes reachable from `s` by paths of length zero or more, computed by
      adding successors until nothing changes. The result contains `s`, is closed
      under the edges, and (SaturateLeast) lies inside every closed superset of `s`. */
  function Saturate(es: set<Edge>, s: set<Id>): (r: set<Id>)
    ensures s <= r <= s + Targets(es)
    ensures Closed(es, r)
    decreases Targets(es) - s
  {
    var next := s + Succ(es, s);
    if next == s then s
    else
      assert Targets(es) - next < Targets(es) - s by {
        var t :| t in next && t !in s;
        assert t in Targets(es) - s;
      }
      Saturate(es, next)
  }

  lemma {:induction false} SaturateLeast(es: set<Edge>, s: set<Id>, t: set<Id>)
    requires s <= t && Closed(es, t)
    ensures Saturate(es, s) <= t
    decreases Targets(es) - s
  {
    var next := s + Succ(es, s);
    if next != s {
      assert Targets(es) - next < Targets(es) - s by {
        var x :| x in next && x !in s;
        assert x in Targets(es) - s;
      }
      SaturateLeast(es, next, t);
    }
  }

  /** `u` together with everything reachable from it. */
  function Reach(es: set<Edge>, u: Id): set<Id> {
    Saturate(es, {u})
  }

  /** Everything reachable from `u` by a path of at least one edge. */
  function Plus(es: set<Edge>, u: Id): set<Id> {
    Saturate(es, Succ(es, {u}))
  }

  /** `nx.descendants(g, u)`: the nodes reachable from `u`, without `u` itself;
      networkx raises when `u` is not a node. */
  function Descendants(g: Graph, u: Id): set<Id>
    requires u in g.nodes
  {
    Plus(g.edges, u) - {u}
  }

  lemma ReachContainsSource(es: set<Edge>, u: Id)
    ensures u in Reach(es, u)
  {
  }

  /** Reachability is transitive. */
  lemma ReachTrans(es: set<Edge>, u: Id, v: Id, w: Id)
    requires v in Reach(es, u) && w in Reach(es, v)
    ensures w in Reach(es, u)
  {
    SaturateLeast(es, {v}, Reach(es, u));
  }

  /** Everything reachable from a reachable node is reachable. */
  lemma ReachSubset(es: set<Edge>, u: Id, v: Id)
    requires v in Reach(es, u)
    ensures Reach(es, v) <= Reach(es, u)
  {
    SaturateLeast(es, {v}, Reach(es, u));
  }

  /** More edges reach more. */
  lemma ReachMono(es: set<Edge>, fs: set<Edge>, u: Id)
    requires es <= fs
    ensures Reach(es, u) <= Reach(fs, u)
  {
    SaturateLeast(es, {u}, Reach(fs, u));
  }

  /** Paths of length zero or more are the empty path and paths of length one or more. */
  lemma ReachSplit(es: set<Edge>, u: Id)
    ensures Reach(es, u) == {u} + Plus(es, u)
  {
    var r, p := Reach(es, u), Plus(es, u);
    assert Succ(es, {u}) <= r;
    SaturateLeast(es, Succ(es, {u}), r);
    assert Closed(es, {u} + p);
    SaturateLeast(es, {u}, {u} + p);
  }

  /** A node reachable in one or more steps reaches no more than its ancestor does. */
  lemma PlusShrinks(es: set<Edge>, v: Id, x: Id)
    requires x in Plus(es, v)
    ensures Plus(es, x) <= Plus(es, v)
  {
    assert Succ(es, {x}) <= Plus(es, v);
    SaturateLeast(es, Succ(es, {x}), Plus(es, v));
  }

  /** What a node reaches is itself plus what its successors reach. */
  lemma ReachBySuccessors(es: set<Edge>, u: Id, t: set<Id>)
    requires u in t
    requires forall x | x in Succ(es, {u}) :: Reach(es, x) <= t
    ensures Reach(es, u) <= t
  {
    ReachSplit(es, u);
    var beyond := set x, y | x in Succ(es, {u}) && y in Reach(es, x) :: y;
    assert Succ(es, {u}) <= beyond by {
      forall x | x in Succ(es, {u}) ensures x in beyond {
        ReachContainsSource(es, x);
      }
    }
    assert Closed(es, beyond);
    SaturateLeast(es, Succ(es, {u}), beyond);
    assert Plus(es, u) <= t;
  }

  /** Within a well-formed graph, everything reachable from a node is a node. */
  lemma ReachWithinNodes(g: Graph, u: Id)
    requires WellFormed(g) && u in g.nodes
    ensures Reach(g.edges, u) <= g.nodes
  {
  }

  /** `nx.descendants(g, u)` plus `u` is exactly what `u` reaches. */
  lemma DescendantsWithSource(g: Graph, u: Id)
    requires u in g.nodes
    ensures Descendants(g, u) + {u} == Reach(g.edges, u)
  {
    ReachSplit(g.edges, u);
  }

  // ---------------------------------------------------------------------------
  // Reachability as walks: an independent, inductive definition

  /** There is a walk of exactly `n` edges from `u` to `v`. */
  ghost predicate Walk(es: set<Edge>, u: Id, v: Id, n: nat)
    decreases n
  {
    if n == 0 then u == v
    else exists w :: (u, w) in es && Walk(es, w, v, n - 1)
  }

  ghost predicate Reachable(es: set<Edge>, u: Id, v: Id) {
    exists n: nat :: Walk(es, u, v, n)
  }

  lemma {:induction false} WalkInReach(es: set<Edge>, u: Id, v: Id, n: nat)
    requires Walk(es, u, v, n)
    ensures v in Reach(es, u)
    decreases n
  {
    if n > 0 {
      var w :| (u, w) in es && Walk(es, w, v, n - 1);
      WalkInReach(es, w, v, n - 1);
      assert w in Reach(es, u);
      ReachTrans(es, u, w, v);
    }
  }

  lemma {:induction false} WalkSnoc(es: set<Edge>, u: Id, v: Id, w: Id, n: nat)
    requires Walk(es, u, v, n) && (v, w) in es
    ensures Walk(es, u, w, n + 1)
    decreases n
  {
    if n == 0 {
      assert Walk(es, w, w, 0);
    } else {
      var x :| (u, x) in es && Walk(es, x, v, n - 1);
      WalkSnoc(es, x, v, w, n - 1);
    }
  }

  /** Reach computes exactly the nodes joined to `u` by some walk. */
  lemma ReachIsReachable(es: set<Edge>, u: Id, v: Id)
    ensures v in Reach(es, u) <==> Reachable(es, u, v)
  {
    if Reachable(es, u, v) {
      var n: nat :| Walk(es, u, v, n);
      WalkInReach(es, u, v, n);
    }
    if v in Reach(es, u) {
      var walked := set x | x in {u} + Targets(es) && Reachable(es, u, x);
      assert Walk(es, u, u, 0);
      forall e | e in es && e.0 in walked ensures e.1 in walked {
        var n: nat :| Walk(es, u, e.0, n);
        WalkSnoc(es, u, e.0, e.1, n);
      }
      SaturateLeast(es, {u}, walked);
    }
  }
}
