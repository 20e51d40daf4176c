# Actor dependency graph of `snactor discover`

This project models the dependency-graph core of leapp's `snactor discover` command
(`leapp/snactor/commands/discover.py`).

- `construct_graph_from_actors` takes the repository's actor descriptors. Each descriptor is a
  class name plus the message types it produces and consumes. The function builds a producer
  table and a consumer table. For every message type that appears in both ("spoken"), it adds
  an edge labelled with that type from each producer to each consumer.
- `RepositoryGraph` holds three fields:
  - a forward map `source -> target -> set of message types`;
  - a reverse index `target -> set of sources`;
  - the node set `actors`.

  Its operations are:
  - `add_edge`;
  - `iter_edges`;
  - export to Graphviz DOT text (`into_dot`);
  - extraction of the subgraph related to a list of entities (`make_subgraph_related_to`). Entities are classified into forward and backward seeds, and the seeds are closed by a forward, a backward or a direction-ignoring worklist scan. The edges among the scanned actors are copied into a new graph.

The project has three files.

- `graph.dfy` (module `Graphs`) holds the graph as a value, `Graph`, with the following:
  - lookups with the empty default that Python's `defaultdict` supplies;
  - the graph invariant `Valid`: no empty label set, every endpoint is an actor, and the reverse index mirrors the forward map;
  - the effect of `add_edge` (`WithEdge`);
  - the seed sets;
  - reachability, defined through walks;
  - the restriction of a graph to a node set.

  It also proves the lemmas about these.
- `dot.dfy` (module `DotFormat`) gives the exact DOT text and proves how it reads line by line.
- `discover.dfy` (module `Discover`) holds the imperative code:
  - the class `RepositoryGraph`, whose methods update its fields in place;
  - the scans, written as `while` loops over a worklist;
  - the builder.

  Each method is proved against the value view `State()` and the functions of `Graphs`.

Python iterates sets and dictionaries in hash order. The model iterates them with `Enumerate`, which returns each element once in an order the model does not fix. Every result is therefore specified for any such order.

Two descriptors with the same name contribute the union of what they produce and consume, because `producers_table[msg_type].add(actor_name)` and its consumer counterpart (lines 218-223) add the name to a set. `Produces` and `Consumes` quantify over all descriptors with that name. The original reports no diagnostic for duplicate names, and none is modelled.

## Model

| member | source | states |
|---|---|---|
| Graphs.EmptyGraph | leapp/snactor/commands/discover.py:90-95 | a fresh graph satisfies the invariant, has no edge triples and no actors |
| Graphs.Graph.Targets | leapp/snactor/commands/discover.py:151 | `self.edges[actor]` iterated as a dictionary: the successors of `s`, empty when `s` has no entry |
| Graphs.Graph.Labels | leapp/snactor/commands/discover.py:93 | `self.edges[s][t]`: the message types on `s -> t`, empty when there is no such edge |
| Graphs.Graph.Sources | leapp/snactor/commands/discover.py:156 | `self.reverse_edges[t]`: the predecessors of `t`, empty when `t` has no entry |
| Graphs.Graph.Triples | leapp/snactor/commands/discover.py:103-108 | `(s, m, t)` is a triple iff `m` is a label of `s -> t` |
| Graphs.Graph.WithEdge | leapp/snactor/commands/discover.py:97-101 | the graph after `add_edge(s, m, t)`: `m` added to the label set of `s -> t`, `s` to the reverse entry of `t`, both endpoints to the actors |
| Graphs.Graph.WithLabelSet | leapp/snactor/commands/discover.py:206-207 | the graph after `edges[s][t] = labels` and `reverse_edges[t].add(s)`; actors unchanged |
| Graphs.Graph.ForwardSeeds | leapp/snactor/commands/discover.py:126-142 | the forward seed set of an entity list: an actor seeds itself, any other entity the targets of the edges it labels |
| Graphs.Graph.BackwardSeeds | leapp/snactor/commands/discover.py:126-142 | the backward seed set: an actor seeds itself, any other entity the sources of the edges it labels |
| Graphs.Graph.Reach | leapp/snactor/commands/discover.py:144-188 | the nodes at the end of a walk, in the scan's direction, that starts at a seed |
| DotFormat.Header | leapp/snactor/commands/discover.py:112-115 | the four header lines joined by newlines, without a trailing newline |
| DotFormat.NodeLine | leapp/snactor/commands/discover.py:117 | `{0} [label={0}]` for one actor, with no quoting |
| DotFormat.EdgeLine | leapp/snactor/commands/discover.py:119 | `{source} -> {target} [label={msg}]` for one triple, with no quoting |
| DotFormat.Join | leapp/snactor/commands/discover.py:123-124 | `'\n'.join(lines)`, the empty string for no lines |
| DotFormat.Layout | leapp/snactor/commands/discover.py:123 | the format string `'{header}\n {nodes}\n {edges}\n {footer}\n'` |
| DotFormat.Render | leapp/snactor/commands/discover.py:110-124 | the whole DOT text over the actors and the triples in the order they are iterated |
| Discover.Actor | leapp/snactor/commands/discover.py:216-223 | an actor descriptor: its class name and the names of the message types it produces and consumes |
| Discover.Produces | leapp/snactor/commands/discover.py:218-220 | some descriptor with name `p` lists `m` among its produced types |
| Discover.Consumes | leapp/snactor/commands/discover.py:221-223 | some descriptor with name `c` lists `m` among its consumed types |
| Discover.Get | leapp/snactor/commands/discover.py:213-214 | `table[key]` on a `defaultdict(set)`: the entry, or the empty set when the key is absent |
| Graphs.Graph.SourcesLabelled | leapp/snactor/commands/discover.py:136-139 | `s` is in the result iff some edge leaving `s` carries the message type |
| Graphs.Graph.TargetsLabelled | leapp/snactor/commands/discover.py:136-140 | `t` is in the result iff some edge entering `t` carries the message type |
| Graphs.AddEdgeEffect | leapp/snactor/commands/discover.py:97-101 | after `add_edge(s, m, t)`: both endpoints are actors, `m` labels `s -> t`, `t` is a successor and `s` a predecessor; every other label set, successor set and predecessor set is unchanged |
| Graphs.AddEdgeValid | leapp/snactor/commands/discover.py:97-101 | `add_edge` preserves the invariant: non-empty label sets, endpoints are actors, reverse index mirrors the forward map |
| Graphs.AddEdgeTriples | leapp/snactor/commands/discover.py:97-101 | the edge triples grow by exactly `(s, m, t)` |
| Graphs.AddEdgeIdempotent | leapp/snactor/commands/discover.py:97-101 | adding the same triple twice leaves the graph as adding it once |
| Graphs.AddEdgeEndpoints | leapp/snactor/commands/discover.py:97-101 | if the actors were exactly the edge endpoints, they still are |
| Graphs.NoLabelsNoGraph | leapp/snactor/commands/discover.py:227-236 | a valid graph whose actors are its endpoints and which has no labels has no triples and no actors |
| Graphs.SeedsMembers | leapp/snactor/commands/discover.py:126-142 | `x` is a forward seed iff it is a listed entity that is an actor, or is the target of an edge labelled by a listed non-actor entity; the backward analogue holds with edge sources |
| Graphs.UnmatchedEntity | leapp/snactor/commands/discover.py:133-140 | an entity that is no actor and labels no edge adds no seed in either direction |
| Graphs.SeedsWithinActors | leapp/snactor/commands/discover.py:126-142 | on a valid graph both seed sets are subsets of the actors |
| Graphs.NeighboursInActors | leapp/snactor/commands/discover.py:151-159 | on a valid graph every successor and predecessor is an actor |
| Graphs.ReachableSeed | leapp/snactor/commands/discover.py:145-146 | every seed is reachable |
| Graphs.ReachableStep | leapp/snactor/commands/discover.py:151-159 | a neighbour of a reachable node is reachable |
| Graphs.ReachableInDomain | leapp/snactor/commands/discover.py:144-188 | on a valid graph a reachable node is a seed or an actor |
| Graphs.WalkStaysInClosed | leapp/snactor/commands/discover.py:144-188 | a walk that starts in a set closed under the scan's relation ends in it |
| Graphs.ReachLeast | leapp/snactor/commands/discover.py:144-188 | the reachable set lies inside every closed set that contains the seeds |
| Graphs.ReachClosed | leapp/snactor/commands/discover.py:144-188 | the reachable set contains the seeds and is closed under successors (forward), predecessors (backward) or both (undirected) |
| Graphs.DirectedWalkIsUndirected | leapp/snactor/commands/discover.py:144-188 | a walk along forward edges only, or reverse edges only, is a walk of the direction-ignoring scan |
| Graphs.TightWithinLoose | leapp/snactor/commands/discover.py:190-198 | the tight node set (forward closure of the forward seeds plus backward closure of the backward seeds) lies inside the loose one (undirected closure of all seeds) |
| Graphs.ScanStart | leapp/snactor/commands/discover.py:145-146 | a worklist and visited set both holding the seeds satisfy the scan invariant |
| Graphs.ScanStep | leapp/snactor/commands/discover.py:148-159 | popping a node and pushing its unvisited neighbours keeps the scan invariant |
| Graphs.ScanAdvance | leapp/snactor/commands/discover.py:148-159 | one round keeps the invariant and strictly lowers unvisited nodes plus pending entries, so the scans terminate |
| Graphs.ScanDone | leapp/snactor/commands/discover.py:148-160 | when the worklist is empty, the visited set is exactly the reachable set |
| Graphs.CopyStart | leapp/snactor/commands/discover.py:199 | the new graph is a copy of the edges of no source yet |
| Graphs.CopyStep | leapp/snactor/commands/discover.py:200-207 | handling one more source (skipped when not kept, its kept targets copied otherwise) extends the copy to that source |
| Graphs.CopyLabelsStep | leapp/snactor/commands/discover.py:203-206 | the label-set part of the copy after one more source |
| Graphs.CopyTargetsStep | leapp/snactor/commands/discover.py:203-206 | the successor part of the copy after one more source |
| Graphs.CopySourcesStep | leapp/snactor/commands/discover.py:203-207 | the predecessor part of the copy after one more source |
| Graphs.RowStart | leapp/snactor/commands/discover.py:203 | before the inner loop no target of the source has been copied |
| Graphs.RowStep | leapp/snactor/commands/discover.py:206-207 | copying the label set of one kept target and recording the source in its reverse entry extends the copied row by that target |
| Graphs.RowLabelsStep | leapp/snactor/commands/discover.py:206 | the label sets after copying one target |
| Graphs.RowTargetsStep | leapp/snactor/commands/discover.py:206 | the successors after copying one target |
| Graphs.RowSourcesStep | leapp/snactor/commands/discover.py:207 | the predecessors after copying one target |
| Graphs.CopyDone | leapp/snactor/commands/discover.py:200-208 | once every source is handled and `actors` is set to the kept set, the new graph is the restriction of the original to it |
| Graphs.RestrictionValid | leapp/snactor/commands/discover.py:199-208 | a restriction of a valid graph to any node set is valid, so its reverse index mirrors its forward map |
| Graphs.RestrictionTriples | leapp/snactor/commands/discover.py:200-209 | the triples of a restriction are exactly the original triples with both endpoints kept |
| DotFormat.SplitAppend | leapp/snactor/commands/discover.py:123-124 | splitting at a newline splits the two sides independently |
| DotFormat.SplitJoin | leapp/snactor/commands/discover.py:123-124 | newline-joining lines without newlines and splitting again gives the lines back (a single empty line for none) |
| DotFormat.RenderLines | leapp/snactor/commands/discover.py:110-124 | read line by line, the text is the four header lines, the node lines, the edge lines, ` }` and the empty piece after the final newline, with one leading space on the first node line, the first edge line and the brace |
| DotFormat.HeaderSplit | leapp/snactor/commands/discover.py:112-115 | the header is the four lines `digraph "leapp-actors" {`, `nodesep=2`, `ranksep=2`, `rankdir=LR` |
| DotFormat.SplitLayout | leapp/snactor/commands/discover.py:123-124 | the line structure of the format string `'{header}\n {nodes}\n {edges}\n {footer}\n'` for any header |
| DotFormat.SplitIndentedLine | leapp/snactor/commands/discover.py:123 | the lines of one `' ' + joined lines + '\n'` section of the format string |
| DotFormat.FooterSplit | leapp/snactor/commands/discover.py:123 | the footer section reads as ` }` followed by the empty piece after the final newline |
| Discover.Enumerate | leapp/snactor/commands/discover.py:105-107 | iterating a set or the keys of a dictionary visits each element exactly once |
| Discover.Visit | leapp/snactor/commands/discover.py:151-154 | the candidates become visited; the old worklist stays its prefix and the entries appended after it are exactly the previously unvisited candidates, one each |
| Discover.LabelledThroughTargets | leapp/snactor/commands/discover.py:137-139 | scanning the listed successors of a source finds a labelled edge iff it has one |
| Discover.LabelledThroughSources | leapp/snactor/commands/discover.py:136-140 | scanning every source in the forward map finds every labelled edge's source and target |
| Discover.RepositoryGraph.constructor | leapp/snactor/commands/discover.py:90-95 | the new graph is empty and valid |
| Discover.RepositoryGraph.AddEdge | leapp/snactor/commands/discover.py:97-101 | the new state is the old one with the edge added; the invariant is kept |
| Discover.RepositoryGraph.IterEdges | leapp/snactor/commands/discover.py:103-108 | yields exactly the triples `(s, m, t)` with `m` a label of `s -> t`, each once |
| Discover.RepositoryGraph.IntoDot | leapp/snactor/commands/discover.py:110-124 | the text is the DOT layout over some duplicate-free ordering of exactly the actors and exactly the edge triples |
| Discover.RepositoryGraph.LabelEndpointsFrom | leapp/snactor/commands/discover.py:137-140 | after one source's successors: the source joins the backward set iff one of its edges carries the type, and exactly the targets of those edges join the forward set |
| Discover.RepositoryGraph.LabelEndpoints | leapp/snactor/commands/discover.py:133-140 | a message-type entity yields exactly the sources and exactly the targets of the edges it labels |
| Discover.RepositoryGraph.CollectActorsForEntities | leapp/snactor/commands/discover.py:126-142 | the results are exactly the forward and backward seed sets (characterised by `Graphs.SeedsMembers`) |
| Discover.VisitBoth | leapp/snactor/commands/discover.py:151-159 | successors and then predecessors of the popped actor become visited; the old worklist stays its prefix, the unvisited successors are appended first and the remaining unvisited predecessors after them |
| Discover.RepositoryGraph.DfsGraphScan | leapp/snactor/commands/discover.py:144-160 | terminates with exactly the nodes reachable from the seeds along edges in either direction |
| Discover.RepositoryGraph.ForwardScan | leapp/snactor/commands/discover.py:162-174 | terminates with exactly the nodes reachable from the seeds along forward edges |
| Discover.RepositoryGraph.BackwardScan | leapp/snactor/commands/discover.py:176-188 | terminates with exactly the nodes reachable from the seeds along reverse edges |
| Discover.RepositoryGraph.CopyKeptTargets | leapp/snactor/commands/discover.py:203-207 | the kept targets of one source get its label sets copied verbatim and the source in their reverse entries; nothing else changes |
| Discover.RepositoryGraph.CopySource | leapp/snactor/commands/discover.py:200-207 | one round of the outer copy loop extends the copy to one more source |
| Discover.RepositoryGraph.MakeSubgraphRelatedTo | leapp/snactor/commands/discover.py:190-209 | returns a new valid graph that is the exact restriction of this one to the tight or the loose closure of the seeds; this graph is unchanged |
| Discover.RepositoryGraph.RestrictTo | leapp/snactor/commands/discover.py:199-209 | a new valid graph whose actors are the kept set and whose edges are exactly the original edges between kept actors, label sets copied |
| Discover.Register | leapp/snactor/commands/discover.py:218-223 | the table gains the descriptor's name under each listed message type and nothing else; no entry is empty |
| Discover.BuildTables | leapp/snactor/commands/discover.py:213-223 | `p` is listed under `m` iff a descriptor named `p` produces `m` (likewise for consumers); no entry is empty |
| Discover.AddEdgesFrom | leapp/snactor/commands/discover.py:233-234 | adds exactly the label `msg` from each listed producer to the consumer; invariant and actors-are-endpoints kept |
| Discover.AddEdgesFor | leapp/snactor/commands/discover.py:230-234 | adds exactly the label `msg` on every producer-consumer pair of the product |
| Discover.AddSpokenEdges | leapp/snactor/commands/discover.py:225-234 | `m` labels `p -> c` iff `m` is in both tables, `p` produces it and `c` consumes it |
| Discover.SpokenLabels | leapp/snactor/commands/discover.py:225-234 | restricting to spoken types loses nothing: the labels are exactly the produced-and-consumed pairs |
| Discover.NoDescriptorsNoGraph | leapp/snactor/commands/discover.py:212-236 | with no descriptors the built graph has no triples and no actors |
| Discover.ConstructGraphFromActors | leapp/snactor/commands/discover.py:212-236 | edge `(p, m, c)` exists iff a descriptor named `p` produces `m` and one named `c` consumes `m` (so types only produced or only consumed give no edge; self-loops included); no empty label set; the reverse index mirrors the forward map; the actors are exactly the edge endpoints; empty input gives an empty graph |

## Left out

- The `discover` command itself (`cli`, lines 249-305) is not modelled: argument handling, repository scanning and loading, `safe_discover`, console and JSON output are I/O and calls into other modules. The same holds for the path and reflection helpers `_is_local`, `_get_class_file`, `_get_actor_path`, `_print_group` and the `_get_*_details` functions (lines 20-70).
- Descriptors are given directly as a name plus sets of message-type names. The `class_name` / `__name__` reflection of lines 217-222 is not modelled.
- Hash iteration order of Python sets and dictionaries is not modelled. Iteration picks an arbitrary order. `IterEdges` and `IntoDot` are specified for every order, and `IntoDot` reports the orders it used as ghost outputs.
- The scans' worklist order is not fixed either. `Enumerate` seeds the worklist in an arbitrary order and `Visit` appends new nodes in an arbitrary order, so the scans' results are stated as sets, not as a visiting sequence.
- Discover.RepositoryGraph.DfsGraphScan, Discover.RepositoryGraph.ForwardScan, Discover.RepositoryGraph.BackwardScan: the original reads `self.edges[actor]` and `self.reverse_edges[actor]` on `defaultdict`s. This inserts empty entries into the graph being scanned, and the model does not insert them. Lookups treat a missing key as empty, so the two are indistinguishable through every lookup, through `iter_edges` and through `into_dot`. For the same reason `MakeSubgraphRelatedTo` promises that the source graph's state is unchanged, not that its dictionaries keep the same keys.
- DotFormat.RenderLines: the line-by-line reading assumes no actor or message-type name contains a newline. The original does no quoting or escaping, and `Render` itself is stated for all names.
