/** `style_graph` (rfc_browser/load_xml.py): display attributes for the emitted graph.
    Every node gets a URL and, for a known status, a shape, a label and maybe a fill;
    every edge that is also an obsoleted-by edge is drawn dotted. */
module Styling {
  import opened Wrappers
  import opened Ascii
  import opened Graphs
  import opened Records

  /** The document statuses of the registry. */
  datatype Status =
    | InternetStandard
    | DraftStandard
    | ProposedStandard
    | Unknown
    | BestCurrentPractice
    | ForYourInformation
    | Experimental
    | Historic
    | Informational

  /** How the registry spells a status. */
  function StatusName(st: Status): string {
    match st
    case InternetStandard => "INTERNET STANDARD"
    case DraftStandard => "DRAFT STANDARD"
    case ProposedStandard => "PROPOSED STANDARD"
    case Unknown => "UNKNOWN"
    case BestCurrentPractice => "BEST CURRENT PRACTICE"
    case ForYourInformation => "FOR YOUR INFORMATION"
    case Experimental => "EXPERIMENTAL"
    case Historic => "HISTORIC"
    case Informational => "INFORMATIONAL"
  }

  /** The `match` on `current_status`: a status spelled any other way falls to `case _`. */
  function ParseStatus(s: string): (r: Option<Status>)
    ensures r.Some? ==> StatusName(r.value) == s
    ensures r.None? ==> forall st: Status :: StatusName(st) != s
  {
    match s
    case "INTERNET STANDARD" => Some(InternetStandard)
    case "DRAFT STANDARD" => Some(DraftStandard)
    case "PROPOSED STANDARD" => Some(ProposedStandard)
    case "UNKNOWN" => Some(Unknown)
    case "BEST CURRENT PRACTICE" => Some(BestCurrentPractice)
    case "FOR YOUR INFORMATION" => Some(ForYourInformation)
    case "EXPERIMENTAL" => Some(Experimental)
    case "HISTORIC" => Some(Historic)
    case "INFORMATIONAL" => Some(Informational)
    case _ => None
  }

  /** Every status is recognised under its own spelling. */
  lemma ParseStatusName(st: Status)
    ensures ParseStatus(StatusName(st)) == Some(st)
  {
  }

  /** The display of one status: a Graphviz shape, the label's second line, and a fill colour
      for the two standards-track statuses that are drawn filled. */
  datatype Style = Style(shape: string, suffix: string, fill: Option<string>)

  function StatusStyle(st: Status): Style {
    match st
    case InternetStandard => Style("box", "STD", Some("darkorchid1"))
    case DraftStandard => Style("doublecircle", "DRAFT", None)
    case ProposedStandard => Style("ellipse", "PROPOSED", Some("cornflowerblue"))
    case Unknown => Style("plaintext", "UNKNOWN", None)
    case BestCurrentPractice => Style("diamond", "BEST PRACTICE", None)
    case ForYourInformation => Style("house", "FYI", None)
    case Experimental => Style("invhouse", "EXPERIMENTAL", None)
    case Historic => Style("folder", "HISTORIC", None)
    case Informational => Style("cds", "INFO", None)
  }

  const InfoUrl: string := "https://www.rfc-editor.org/info/"

  /** The attributes `style_graph` sets on the node `id` whose record has status `status`. */
  function NodeAttrs(id: Id, status: string): (r: map<string, string>)
    ensures "URL" in r && r["URL"] == InfoUrl + Lower(id)
    ensures ParseStatus(status).None? <==> r.Keys == {"URL"}
    ensures ParseStatus(status).Some? ==>
      && "shape" in r && r["shape"] == StatusStyle(ParseStatus(status).value).shape
      && "label" in r && r["label"] == id + "\n" + StatusStyle(ParseStatus(status).value).suffix
    ensures "style" in r <==> status == "INTERNET STANDARD" || status == "PROPOSED STANDARD"
    ensures "style" in r ==> r["style"] == "filled"
    ensures "fillcolor" in r <==> "style" in r
    ensures status == "INTERNET STANDARD" ==> r["fillcolor"] == "darkorchid1"
    ensures status == "PROPOSED STANDARD" ==> r["fillcolor"] == "cornflowerblue"
    ensures ParseStatus(status).Some? ==> r.Keys <= {"URL", "shape", "label", "fillcolor", "style"}
  {
    var url := map["URL" := InfoUrl + Lower(id)];
    match ParseStatus(status)
    case None => url
    case Some(st) =>
      var style := StatusStyle(st);
      var labelled := url["shape" := style.shape]["label" := id + "\n" + style.suffix];
      assert "shape" in labelled.Keys - {"URL"};
      match style.fill
      case None => labelled
      case Some(colour) => labelled["fillcolor" := colour]["style" := "filled"]
  }

  /** The attributes `style_graph` adds to the edge `e`. */
  function EdgeAttrs(e: Edge, obg: Graph): (r: map<string, string>)
    ensures "style" in r <==> e in obg.edges
    ensures "style" in r ==> r["style"] == "dotted"
    ensures r.Keys <= {"style"}
  {
    if e in obg.edges then map["style" := "dotted"] else map[]
  }

  /** The pygraphviz `AGraph` that `print_graph` builds from the emitted graph and
      `style_graph` decorates in place. */
  class AGraph {
    var nodes: set<Id>
    var edges: set<Edge>
    var nodeAttr: map<Id, map<string, string>>
    var edgeAttr: map<Edge, map<string, string>>

    ghost predicate Valid()
      reads this
    {
      nodeAttr.Keys == nodes && edgeAttr.Keys == edges
    }

    /** `nx.nx_agraph.to_agraph(g)` for a graph without attributes. */
    constructor FromGraph(g: Graph)
      ensures Valid()
      ensures nodes == g.nodes && edges == g.edges
      ensures forall n | n in nodes :: nodeAttr[n] == map[]
      ensures forall e | e in edges :: edgeAttr[e] == map[]
    {
      nodes, edges := g.nodes, g.edges;
      nodeAttr := map n | n in g.nodes :: map[];
      edgeAttr := map e | e in g.edges :: map[];
    }
  }

  /** Lines 48-87: each node's attributes are extended by NodeAttrs of its record's status,
      each obsoleted-by edge is marked dotted; no node or edge is added or removed.
      A node without a record would raise a KeyError. */
  method StyleGraph(a: AGraph, rfcs: map<Id, Record>, obg: Graph)
    requires a.Valid()
    requires forall n | n in a.nodes :: n in rfcs
    modifies a
    ensures a.Valid()
    ensures a.nodes == old(a.nodes) && a.edges == old(a.edges)
    ensures forall n | n in a.nodes :: a.nodeAttr[n] == old(a.nodeAttr[n]) + NodeAttrs(n, rfcs[n].currentStatus)
    ensures forall e | e in a.edges :: a.edgeAttr[e] == old(a.edgeAttr[e]) + EdgeAttrs(e, obg)
  {
    StyleNodes(a, rfcs);
    StyleEdges(a, obg);
  }

  /** Lines 49-84, the loop over the nodes. */
  method StyleNodes(a: AGraph, rfcs: map<Id, Record>)
    requires a.Valid()
    requires forall n | n in a.nodes :: n in rfcs
    modifies a
    ensures a.Valid()
    ensures a.nodes == old(a.nodes) && a.edges == old(a.edges) && a.edgeAttr == old(a.edgeAttr)
    ensures forall n | n in a.nodes :: a.nodeAttr[n] == old(a.nodeAttr[n]) + NodeAttrs(n, rfcs[n].currentStatus)
  {
    var todo := a.nodes;
    while todo != {}
      invariant todo <= a.nodes
      invariant a.Valid() && a.nodes == old(a.nodes) && a.edges == old(a.edges)
      invariant a.edgeAttr == old(a.edgeAttr)
      invariant forall n | n in a.nodes - todo ::
        a.nodeAttr[n] == old(a.nodeAttr[n]) + NodeAttrs(n, rfcs[n].currentStatus)
      invariant forall n | n in todo :: a.nodeAttr[n] == old(a.nodeAttr[n])
      decreases todo
    {
      var n :| n in todo;
      a.nodeAttr := a.nodeAttr[n := a.nodeAttr[n] + NodeAttrs(n, rfcs[n].currentStatus)];
      todo := todo - {n};
    }
  }

  /** Lines 85-87, the loop over the edges. */
  method StyleEdges(a: AGraph, obg: Graph)
    requires a.Valid()
    modifies a
    ensures a.Valid()
    ensures a.nodes == old(a.nodes) && a.edges == old(a.edges) && a.nodeAttr == old(a.nodeAttr)
    ensures forall e | e in a.edges :: a.edgeAttr[e] == old(a.edgeAttr[e]) + EdgeAttrs(e, obg)
  {
    var pending := a.edges;
    while pending != {}
      invariant pending <= a.edges
      invariant a.Valid() && a.nodes == old(a.nodes) && a.edges == old(a.edges)
      invariant a.nodeAttr == old(a.nodeAttr)
      invariant forall e | e in a.edges - pending :: a.edgeAttr[e] == old(a.edgeAttr[e]) + EdgeAttrs(e, obg)
      invariant forall e | e in pending :: a.edgeAttr[e] == old(a.edgeAttr[e])
      decreases pending
    {
      var e :| e in pending;
      if e in obg.edges {
        a.edgeAttr := a.edgeAttr[e := a.edgeAttr[e]["style" := "dotted"]];
      }
      pending := pending - {e};
    }
  }
}
