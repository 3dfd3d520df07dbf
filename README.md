# rfc_browser in Dafny

rfc_browser reads the RFC Editor's index of documents. For the RFCs named on the command line, it emits a Graphviz graph of every later document that updates or obsoletes them, directly or transitively. Unless `--full` is given, the graph is cut down to its transitive reduction. Each node is styled by the document's status, and obsoleted-by edges are drawn dotted.

This project models the core of that program and proves what it computes:

- **Records** (`records.dfy`): a document record holds an identifier, a status string and four relation lists (updates, updated-by, obsoletes, obsoleted-by). Each list is filtered at construction so that it keeps only RFC names.
- **Graph builder** (`builder.dfy`): a `DiGraph` class with `add_node`, `add_nodes_from` and `add_edge`. One node graph and four relation graphs are built from the record map. Each finished graph is proved equal to a declarative definition: `a -> k` is an edge exactly when `a`'s list names `k`.
- **Graphs** (`graphs.dfy`): directed graphs are values, with networkx's `compose`, `compose_all`, `subgraph`, `intersection` and `descendants`. Reachability is a least fixpoint (`Saturate`). It is proved equal to an independent definition by walks.
- **Closure** (`closure.dfy`): the loop over the requested roots. It collects the induced subgraph of each root's descendants and merges them. It is proved equal to the subgraph induced by everything some root reaches.
- **Reduction** (`reduction.dfy`): the transitive reduction of an acyclic graph, intersected with the graph. It is proved to keep every node, to keep reachability, and to be minimal: removing any kept edge loses a connection.
- **Styling** (`styling.dfy`): the status `match` of `style_graph` and an `AGraph` class whose node and edge attributes the styling updates in place.
- **Pipeline** (`pipeline.dfy`): `produce_svg` from the record map to the styled graph.
- **Command line** (`cli.dfy`): `parse_rfc_name` and the argparse action that applies it to every argument.

The builder and the pipeline accept any record map keyed by record id: nothing they compute or prove relies on the relation lists having been filtered, so they do not require it.

The module-level globals of the program (`rfcs`, `nodes`, `ug`, `ubg`, `og`, `obg`) are explicit parameters and results here. The builder allocates the five graphs and returns them.

## Model

| member | source | states |
|---|---|---|
| Records.FilterRfc | rfc_browser/load_xml.py:24-28 | the filtered list is no longer than the input; every element starts with "RFC" and comes from the input |
| Records.FilterRfcCounts | rfc_browser/load_xml.py:24-43 | an RFC name is kept exactly as many times as it occurs; any other target is dropped |
| Records.FilterRfcAppend | rfc_browser/load_xml.py:24-28 | filtering distributes over concatenation, so the kept targets stay in their original order |
| Records.FilterRfcIdempotent | rfc_browser/load_xml.py:24-28 | filtering a filtered list changes nothing |
| Records.NewRecord | rfc_browser/load_xml.py:18-43 | the record keeps its id and status; each of its four relation lists holds only RFC names, and every RFC-named target of the input list exactly as often as it occurs there |
| Builder.DiGraph.constructor | rfc_browser/load_xml.py:10-14 | a new graph has no nodes and no edges |
| Builder.DiGraph.AddNode | rfc_browser/load_xml.py:112 | adds one node and leaves the edges alone |
| Builder.DiGraph.AddNodesFrom | rfc_browser/load_xml.py:114-117 | adds the given nodes and leaves the edges alone |
| Builder.DiGraph.AddEdge | rfc_browser/load_xml.py:121 | both endpoints become nodes and the edge is present; adding an existing edge changes nothing |
| Builder.AddEdgesFrom | rfc_browser/load_xml.py:120-121 | after the loop, the graph gains the edge from the source to every listed target, and the targets as nodes |
| Builder.AddRecordNodes | rfc_browser/load_xml.py:111-112 | the node graph gains every record identifier as a node and no edge |
| Builder.AddRecordEdges | rfc_browser/load_xml.py:119-127 | each of the four graphs ends up equal to the relation graph of its kind |
| Builder.BuildRelationGraphs | rfc_browser/load_xml.py:111-127 | returns five fresh graphs: the node graph holds every record and no edge; each relation graph is RelationGraph of its kind |
| Builder.RelationGraphWellFormed | rfc_browser/load_xml.py:111-127 | a relation graph holds every record as a node and is well formed |
| Builder.RelationGraphFacts | rfc_browser/load_xml.py:119-127 | `a -> k` is an edge of a relation graph iff `a` is a record whose list of that kind names `k` |
| Graphs.WithEdge | rfc_browser/load_xml.py:121 | the edge and its endpoints are present; nothing is removed; well-formedness is kept; re-adding an edge is a no-op |
| Graphs.ComposeAll | rfc_browser/load_xml.py:138 | a node or edge is in the merge iff it is in some merged graph |
| Graphs.Saturate | rfc_browser/load_xml.py:134 | the reach set contains the start set, no edge leaves it, and it adds only edge targets |
| Graphs.SaturateLeast | rfc_browser/load_xml.py:134 | the reach set lies inside every closed superset of the start set, so it is the least fixpoint |
| Graphs.ReachIsReachable | rfc_browser/load_xml.py:134 | `v` is in the reach set of `u` iff there is a walk from `u` to `v` |
| Graphs.WalkInReach | rfc_browser/load_xml.py:134 | the end of every walk from `u` is in the reach set of `u` |
| Graphs.ReachTrans | rfc_browser/load_xml.py:134 | reachability is transitive |
| Graphs.ReachMono | rfc_browser/load_xml.py:134 | more edges reach at least as much |
| Graphs.ReachSplit | rfc_browser/load_xml.py:134-135 | the reach set is the source plus everything reached by one or more edges |
| Graphs.DescendantsWithSource | rfc_browser/load_xml.py:134-135 | `descendants(c, r)` with `r` added is exactly the reach set of `r` |
| Graphs.ReachWithinNodes | rfc_browser/load_xml.py:134 | in a well-formed graph, everything a node reaches is a node |
| Closure.ComputeClosure | rfc_browser/load_xml.py:131-138 | the merged per-root subgraphs equal the subgraph of the composed graph induced by everything some root reaches |
| Closure.UnionOfInducedSubgraphs | rfc_browser/load_xml.py:136-138 | merging the subgraphs induced by the roots' reach sets gives the subgraph induced by their union, with no edge lost between reach sets |
| Closure.ClosureNodes | rfc_browser/load_xml.py:131-138 | a node is in the closure iff some root has a walk to it through updated-by and obsoleted-by edges |
| Closure.ClosureEdges | rfc_browser/load_xml.py:131-138 | the closure holds exactly the composed-graph edges that leave one of its nodes |
| Closure.ClosureMonotone | rfc_browser/load_xml.py:133-138 | more roots give a closure with at least the same nodes and edges; order and repetition of roots do not matter |
| Closure.ClosureContainsRoots | rfc_browser/load_xml.py:133-138 | every root is in the closure, and the closure is a well-formed subgraph of the composed graph |
| Reduction.TransitiveReduction | rfc_browser/load_xml.py:147 | the reduction has the same nodes, a subset of the edges, and is well formed |
| Reduction.ReduceFull | rfc_browser/load_xml.py:141-143 | with `full` set the closure is emitted unchanged |
| Reduction.IntersectionIsReduction | rfc_browser/load_xml.py:147-148 | intersecting the graph with its reduction gives the reduction itself |
| Reduction.ReduceIsSubgraph | rfc_browser/load_xml.py:141-149 | the emitted graph has the closure's nodes and a subset of its edges, and stays well formed |
| Reduction.ReducePreservesReach | rfc_browser/load_xml.py:147-148 | on an acyclic graph, the reduced graph reaches from every node exactly what the graph reaches |
| Reduction.ReachKept | rfc_browser/load_xml.py:147 | on an acyclic graph, everything a node reaches is still reached through the reduction's edges |
| Reduction.EdgeKept | rfc_browser/load_xml.py:147 | the target of every dropped edge is still reached from its source through the reduction |
| Reduction.ReductionMinimal | rfc_browser/load_xml.py:147 | removing any edge of the reduction disconnects its target from its source, so no kept edge is redundant |
| Reduction.DetourMakesRedundant | rfc_browser/load_xml.py:147 | an edge whose target is reached by other edges of the graph is one the reduction drops |
| Styling.ParseStatus | rfc_browser/load_xml.py:51-83 | a recognised status has exactly that spelling; an unrecognised string matches no status |
| Styling.ParseStatusName | rfc_browser/load_xml.py:51-82 | every status is recognised under its own spelling |
| Styling.NodeAttrs | rfc_browser/load_xml.py:50-84 | the URL is the info address plus the lower-cased id; an unknown status sets only the URL; a known status sets its shape and the label "id\nsuffix" and no key beyond URL, shape, label, fillcolor and style; a fill colour is set iff the style is, which happens only for INTERNET STANDARD (darkorchid1) and PROPOSED STANDARD (cornflowerblue) |
| Styling.EdgeAttrs | rfc_browser/load_xml.py:85-87 | an edge is dotted iff it is an edge of the obsoleted-by graph, and no other edge attribute is set |
| Styling.AGraph.FromGraph | rfc_browser/load_xml.py:91 | the AGraph has the graph's nodes and edges, all without attributes |
| Styling.StyleNodes | rfc_browser/load_xml.py:49-84 | each node's attributes are extended by NodeAttrs of its record's status; edges are untouched |
| Styling.StyleEdges | rfc_browser/load_xml.py:85-87 | each edge's attributes are extended by EdgeAttrs; nodes are untouched |
| Styling.StyleGraph | rfc_browser/load_xml.py:48-87 | no node or edge is added or removed; nodes get NodeAttrs; edges get EdgeAttrs |
| Pipeline.PrintGraph | rfc_browser/load_xml.py:90-92 | the styled AGraph has the given graph's nodes and edges, with exactly the styling attributes |
| Pipeline.ProduceSvg | rfc_browser/load_xml.py:102-149 | the output has exactly the nodes and edges of the closure, reduced unless `full`; each node carries its status attributes; each edge is dotted iff it is an obsoleted-by edge |
| Pipeline.EmittedFacts | rfc_browser/load_xml.py:131-149 | the emitted graph has the closure's nodes and a subset of its edges; it is the closure when `full`; it reaches from every node what the closure reaches |
| Pipeline.DottedEdges | rfc_browser/load_xml.py:85-87 | an edge is dotted iff its source record lists its target among the documents obsoleting it |
| Pipeline.ClosureFacts | rfc_browser/load_xml.py:131 | the composed registry graph and its closure are well formed |
| Cli.Decimal | rfc_browser/cli.py:11 | the decimal form of `n` is a non-empty digit string without a leading zero that reads back as `n` |
| Cli.LeadingZeros | rfc_browser/cli.py:11 | leading zeros do not change the value of a digit string |
| Cli.FormatRfc | rfc_browser/cli.py:11 | `"RFC%.4d" % n` is "RFC" and at least four digits that read back as `n`, with no zero beyond the padding |
| Cli.ParseRfcName | rfc_browser/cli.py:5-11 | None iff what follows the optional case-insensitive "RFC" prefix is not a non-empty decimal string; otherwise a canonical name of the same number |
| Cli.FormatRfcIsCanonical | rfc_browser/cli.py:5-11 | a canonical name is parsed to itself |
| Cli.ParseDigitName | rfc_browser/cli.py:6-11 | "RFC" followed by digits worth `n` is parsed to the canonical name of `n` |
| Cli.ParseRfcNameIdempotent | rfc_browser/cli.py:5-11 | parsing a parsed name changes nothing |
| Cli.ParseRfcNameCaseInsensitive | rfc_browser/cli.py:6 | a string, its upper-case form and its lower-case form parse alike |
| Cli.ParseRfcNameExamples | rfc_browser/cli.py:5-11 | "1" gives RFC0001, "rfc000012" gives RFC0012, "RFC1234" is kept, "12345" gives RFC12345 |
| Cli.ParseRfcNameFailures | rfc_browser/cli.py:9-10 | "RFC", "RFC12a" and "RFCRFC1" are rejected |
| Cli.ParseRfcNameAsWritten | rfc_browser/cli.py:5-11 | the function as written fails with a ValueError iff the rest is digit-like but not decimal, or is a decimal string longer than Python's 4300-digit conversion limit; otherwise it agrees with ParseRfcName |
| Cli.SuperscriptDigitCrashes | rfc_browser/cli.py:9-11 | "RFC¹" crashes the function as written (and the argparse action as written passes the ValueError on), while the corrected parse and ParseRfcNames, built on it, reject it |
| Cli.LongNumberCrashes | rfc_browser/cli.py:9-11 | a string of 4301 ones crashes the function as written, while the corrected parse gives it a canonical name |
| Cli.ParseRfcNames | rfc_browser/cli.py:18-23 | over the corrected parse: an argument error iff some argument does not parse; otherwise the parsed names, one per argument and in order |
| Cli.ParsedNamesAreRfcNames | rfc_browser/cli.py:18-23 | every stored name starts with "RFC", so the record filter keeps the stored list unchanged |
| Ascii.Upper | rfc_browser/cli.py:6 | same length; every ASCII lower-case letter becomes the upper-case letter that lower-cases back to it, every other character is unchanged, and no lower-case letter remains |
| Ascii.Lower | rfc_browser/load_xml.py:50 | same length; every ASCII upper-case letter becomes the lower-case letter that upper-cases back to it, every other character is unchanged, and no upper-case letter remains |
| Ascii.UpperOfLower | rfc_browser/cli.py:6 | upper-casing a lower-cased string equals upper-casing the original |

## Left out

- Reading `rfc-index.xml` (lines 103-109 of load_xml.py) is not modelled. The record map is a parameter. The title, date, stream and DOI fields are dropped because nothing in the core reads them.
- Writing the DOT text to standard output (`a.write`), `write_cyjs`, and the argparse `main` are not modelled. `PrintGraph` returns the styled graph instead of writing it.
- The commented-out edge-contraction code after line 150 of load_xml.py is not modelled, because it never runs.
- Several networkx calls raise an exception that the program does not catch. These error paths are preconditions rather than modelled failures:
  - a root that is not a node (`nx.descendants`);
  - an empty root list (`nx.compose_all`);
  - a cyclic closure handed to `nx.transitive_reduction`;
  - an emitted node without a record (`rfcs[node]` in `style_graph`).
- networkx's own algorithms are stated through set definitions, not the library's code: descendants, the transitive reduction, compose and intersection. Node insertion order, which affects only the order of the output text, is not modelled: nodes and edges are sets.
- Node and edge attributes that `to_agraph` would copy from the networkx graph are not modelled, because the core graphs carry none.
- `str.upper`, `str.lower` and `str.isdigit` are modelled on ASCII only. Other Unicode case mappings are not modelled, and neither are decimal digits of other scripts, which Python accepts and `int` converts.
- Cli.MaxStrDigits: is Python's default limit; a limit changed through `PYTHONINTMAXSTRDIGITS` or `sys.set_int_max_str_digits` is not modelled.
- Cli.IsDigitLike: lists only the three Latin-1 superscript digits among the characters that `isdigit` accepts and `int` rejects.

## Findings

| source | as written | input that shows it | evidently intended | confidence | as-written member | corrected member |
|---|---|---|---|---|---|---|
| rfc_browser/cli.py:9-11 | `s.isdigit()` accepts digit-like characters such as superscript digits, which `int(s)` then rejects with an uncaught ValueError | `RFC¹` | the argument is reported as not referring to an RFC | high, not executed | Cli.ParseRfcNameAsWritten, Cli.SuperscriptDigitCrashes | Cli.ParseRfcName |
| rfc_browser/cli.py:9-11 | `int(s)` raises an uncaught ValueError on a decimal string longer than `sys.get_int_max_str_digits()`, 4300 by default | `"1" * 4301` | the argument is parsed, or rejected as not an RFC, without an uncaught exception | high, not executed | Cli.ParseRfcNameAsWritten, Cli.LongNumberCrashes | Cli.ParseRfcName |
