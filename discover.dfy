/**
 * `RepositoryGraph` and `construct_graph_from_actors` from `snactor discover`: the mutable
 * graph object, its worklist scans, subgraph extraction and DOT export, and the builder that
 * derives the graph from actor descriptors.
 *
 * Python iterates sets and dictionaries in hash order. Here that order is whatever
 * `Enumerate` picks, so every result is specified up to that order.
 */
module Discover {
  import opened Graphs
  import opened DotFormat

  /** An actor descriptor: its class name and the names of the message types it produces and consumes. */
  datatype Actor = Actor(name: string, produces: set<string>, consumes: set<string>)

  /** Some descriptor named `p` produces message type `m`. */
  ghost predicate Produces(defs: seq<Actor>, p: string, m: string) {
    exists d :: d in defs && d.name == p && m in d.produces
  }

  /** Some descriptor named `c` consumes message type `m`. */
  ghost predicate Consumes(defs: seq<Actor>, c: string, m: string) {
    exists d :: d in defs && d.name == c && m in d.consumes
  }

  predicate Distinct<T(==)>(s: seq<T>) {
    forall i, j :: 0 <= i < j < |s| ==> s[i] != s[j]
  }

  /** The elements of the first `n` entries of `s`. */
  function PrefixSet(s: seq<string>, n: nat): (r: set<string>)
    requires n <= |s|
    ensures forall x :: x in r <==> x in s[..n]
  {
    if n == 0 then {} else
      assert s[..n] == s[..n - 1] + [s[n - 1]];
      PrefixSet(s, n - 1) + {s[n - 1]}
  }

  /** In a list without repeats, an entry does not occur before its own position. */
  lemma NotInPrefix(s: seq<string>, i: nat)
    requires Distinct(s) && i < |s|
    ensures s[i] !in PrefixSet(s, i)
  {
  }

  /** `table[key]` on a `defaultdict(set)`: the empty set when the key is absent. */
  function Get(table: map<string, set<string>>, key: string): set<string> {
    if key in table then table[key] else {}
  }

  /** Iterating a set: each element once, in an order the model does not fix. */
  method Enumerate<T(==)>(s: set<T>) returns (r: seq<T>)
    ensures Distinct(r)
    ensures forall x :: x in r <==> x in s
  {
    r := [];
    var rest := s;
    while rest != {}
      invariant rest <= s
      invariant Distinct(r)
      invariant forall x :: x in r <==> x in s && x !in rest
      decreases rest
    {
      var x :| x in rest;
      r := r + [x];
      rest := rest - {x};
    }
  }

  /**
   * The inner loop of a scan: each candidate not yet visited is marked visited and appended
   * to the worklist, so the old worklist stays its prefix and the appended entries are
   * exactly the unvisited candidates, each once.
   */
  method Visit(candidates: set<string>, visited: set<string>, worklist: seq<string>)
    returns (visited': set<string>, worklist': seq<string>)
    ensures visited' == visited + candidates
    ensures |worklist'| == |worklist| + |candidates - visited|
    ensures worklist'[..|worklist|] == worklist
    ensures forall y :: y in worklist'[|worklist|..] <==> y in candidates && y !in visited
    ensures forall y :: y in worklist' <==> y in worklist || (y in candidates && y !in visited)
  {
    visited', worklist' := visited, worklist;
    var rest := candidates;
    ghost var done: set<string> := {};
    ghost var pushed: seq<string> := [];
    while rest != {}
      invariant done <= candidates && rest == candidates - done
      invariant visited' == visited + done
      invariant |pushed| == |done - visited|
      invariant worklist' == worklist + pushed
      invariant forall y :: y in pushed <==> y in done && y !in visited
      decreases rest
    {
      var y :| y in rest;
      UnvisitedGrows(done, visited, y);
      if y !in visited' {
        visited' := visited' + {y};
        worklist' := worklist' + [y];
        pushed := pushed + [y];
      }
      rest := rest - {y};
      done := done + {y};
    }
    AppendedParts(worklist, pushed);
  }

  /** Handling one more candidate adds one unvisited node exactly when it was unvisited. */
  lemma UnvisitedGrows(done: set<string>, visited: set<string>, y: string)
    requires y !in done
    ensures |(done + {y}) - visited| == |done - visited| + if y in visited then 0 else 1
  {
    if y in visited {
      assert (done + {y}) - visited == done - visited;
    } else {
      assert (done + {y}) - visited == (done - visited) + {y};
    }
  }

  /** A list extended at its end keeps its prefix, and holds the old and the new entries. */
  lemma AppendedParts(w: seq<string>, pushed: seq<string>)
    ensures (w + pushed)[..|w|] == w && (w + pushed)[|w|..] == pushed
    ensures forall y :: y in w + pushed <==> y in w || y in pushed
  {
  }

  /** Visiting `a` and then `b` pushes as many nodes as visiting `a + b` at once. */
  lemma UnvisitedOfUnion(a: set<string>, b: set<string>, visited: set<string>)
    ensures |a - visited| + |b - (visited + a)| == |(a + b) - visited|
  {
    assert (a + b) - visited == (a - visited) + (b - (visited + a));
    assert (a - visited) * (b - (visited + a)) == {};
  }

  /**
   * The body of one round of the undirected scan: the successors of the popped actor (read
   * from `edges`) and then its predecessors (read from `reverse_edges`) are visited, so the
   * unvisited successors are pushed first and the remaining unvisited predecessors after them.
   */
  method VisitBoth(successors: set<string>, predecessors: set<string>, visited: set<string>, worklist: seq<string>)
    returns (visited': set<string>, worklist': seq<string>)
    ensures visited' == visited + (successors + predecessors)
    ensures |worklist'| == |worklist| + |(successors + predecessors) - visited|
    ensures worklist'[..|worklist|] == worklist
    ensures var mid := |worklist| + |successors - visited|;
      mid <= |worklist'| &&
      (forall y :: y in worklist'[|worklist|..mid] <==> y in successors && y !in visited) &&
      (forall y :: y in worklist'[mid..] <==> y in predecessors && y !in visited && y !in successors)
    ensures forall y :: y in worklist' <==> y in worklist || (y in successors + predecessors && y !in visited)
  {
    var visited1, worklist1 := Visit(successors, visited, worklist);
    visited', worklist' := Visit(predecessors, visited1, worklist1);
    TwoVisits(worklist, worklist1, worklist', successors, predecessors, visited);
  }

  /**
   * Two inner loops in a row, over `a` and then over `b`: together they keep the worklist
   * as a prefix, push the unvisited nodes of `a` first and then those of `b` not in `a`.
   */
  lemma TwoVisits(w: seq<string>, w1: seq<string>, w2: seq<string>, a: set<string>, b: set<string>, visited: set<string>)
    requires |w1| == |w| + |a - visited| && w1[..|w|] == w
    requires forall y :: y in w1[|w|..] <==> y in a && y !in visited
    requires |w2| == |w1| + |b - (visited + a)| && w2[..|w1|] == w1
    requires forall y :: y in w2[|w1|..] <==> y in b && y !in visited + a
    ensures |w2| == |w| + |(a + b) - visited|
    ensures w2[..|w|] == w
    ensures forall y :: y in w2[|w|..|w1|] <==> y in a && y !in visited
    ensures forall y :: y in w2[|w1|..] <==> y in b && y !in visited && y !in a
    ensures forall y :: y in w2 <==> y in w || (y in a + b && y !in visited)
  {
    UnvisitedOfUnion(a, b, visited);
    assert w2[|w|..|w1|] == w1[|w|..];
    assert w2 == w + w1[|w|..] + w2[|w1|..];
  }

  /** `s` is a source of an edge labelled `msg` iff one of its listed targets carries `msg`. */
  lemma LabelledThroughTargets(g: Graph, msg: string, s: string, tgts: seq<string>)
    requires forall t :: t in tgts <==> t in g.Targets(s)
    ensures s in g.SourcesLabelled(msg) <==> exists k :: 0 <= k < |tgts| && msg in g.Labels(s, tgts[k])
  {
    if s in g.SourcesLabelled(msg) {
      var t :| msg in g.Labels(s, t);
      assert t in g.Targets(s);
      var k :| 0 <= k < |tgts| && tgts[k] == t;
    }
  }

  /** Scanning every source in the table finds every edge labelled `msg`. */
  lemma LabelledThroughSources(g: Graph, msg: string, srcs: seq<string>)
    requires forall s :: s in srcs <==> s in g.edges
    ensures g.SourcesLabelled(msg) <= set k | 0 <= k < |srcs| :: srcs[k]
    ensures forall t :: (exists k :: 0 <= k < |srcs| && msg in g.Labels(srcs[k], t)) <==> t in g.TargetsLabelled(msg)
  {
    forall t | t in g.TargetsLabelled(msg)
      ensures exists k :: 0 <= k < |srcs| && msg in g.Labels(srcs[k], t)
    {
      var s :| msg in g.Labels(s, t);
      assert s in srcs;
      var k :| 0 <= k < |srcs| && srcs[k] == s;
    }
    forall a | a in g.SourcesLabelled(msg) ensures a in set k | 0 <= k < |srcs| :: srcs[k] {
      var t :| msg in g.Labels(a, t);
      assert a in srcs;
      var k :| 0 <= k < |srcs| && srcs[k] == a;
    }
  }

  class RepositoryGraph {
    var edges: map<string, map<string, set<string>>>
    var reverseEdges: map<string, set<string>>
    var actors: set<string>

    /** The graph as a value. */
    function State(): Graph
      reads this
    {
      Graph(edges, reverseEdges, actors)
    }

    ghost predicate Valid()
      reads this
    {
      State().Valid()
    }

    constructor ()
      ensures edges == map[] && reverseEdges == map[] && actors == {}
      ensures State() == EmptyGraph() && Valid()
    {
      edges, reverseEdges, actors := map[], map[], {};
    }

    /** Adds label `msg` to the edge `source -> target`, registering both actors. */
    method AddEdge(source: string, msg: string, target: string)
      requires Valid()
      modifies this
      ensures State() == old(State()).WithEdge(source, msg, target)
      ensures Valid()
    {
      AddEdgeValid(State(), source, msg, target);
      actors := actors + {source, target};
      var out := if source in edges then edges[source] else map[];
      var labels := if target in out then out[target] else {};
      edges := edges[source := out[target := labels + {msg}]];
      var sources := if target in reverseEdges then reverseEdges[target] else {};
      reverseEdges := reverseEdges[target := sources + {source}];
    }

    /** Every `(source, message type, target)` triple of the graph, each exactly once. */
    method IterEdges() returns (triples: seq<Triple>)
      ensures Distinct(triples)
      ensures forall tr :: tr in triples <==> tr in State().Triples()
    {
      triples := [];
      var sources := Enumerate(edges.Keys);
      for i := 0 to |sources|
        invariant Distinct(triples)
        invariant forall tr :: tr in triples <==> tr in State().Triples() && tr.source in sources[..i]
      {
        var s := sources[i];
        assert s !in sources[..i];
        var targets := Enumerate(edges[s].Keys);
        for j := 0 to |targets|
          invariant Distinct(triples)
          invariant forall tr :: tr in triples <==> (tr in State().Triples() &&
            (tr.source in sources[..i] || (tr.source == s && tr.target in targets[..j])))
        {
          var t := targets[j];
          assert t !in targets[..j];
          var msgs := Enumerate(edges[s][t]);
          for k := 0 to |msgs|
            invariant Distinct(triples)
            invariant forall tr :: tr in triples <==> (tr in State().Triples() &&
              (tr.source in sources[..i] || (tr.source == s && tr.target in targets[..j]) ||
               (tr.source == s && tr.target == t && tr.msg in msgs[..k])))
          {
            assert msgs[k] !in msgs[..k];
            assert Triple(s, msgs[k], t) !in triples;
            assert msgs[..k + 1] == msgs[..k] + [msgs[k]];
            triples := triples + [Triple(s, msgs[k], t)];
          }
          assert targets[..j + 1] == targets[..j] + [t];
        }
        assert sources[..i + 1] == sources[..i] + [s];
      }
      assert sources[..|sources|] == sources;
    }

    /**
     * The Graphviz text of the graph: the header, one node line per actor, one edge line per
     * triple and the footer, with actors and triples in the order the sets are iterated.
     */
    method IntoDot() returns (text: string, ghost actorOrder: seq<string>, ghost edgeOrder: seq<Triple>)
      ensures Distinct(actorOrder) && forall a :: a in actorOrder <==> a in actors
      ensures Distinct(edgeOrder) && forall tr :: tr in edgeOrder <==> tr in State().Triples()
      ensures text == Render(actorOrder, edgeOrder)
    {
      var nodes := Enumerate(actors);
      var triples := IterEdges();
      text := Render(nodes, triples);
      actorOrder, edgeOrder := nodes, triples;
    }

    /**
     * One pass over the edges leaving `s`: when an edge carries `msg`, `s` joins `sources`
     * and the edge's target joins `targets`.
     */
    method LabelEndpointsFrom(msg: string, s: string, sources: set<string>, targets: set<string>)
      returns (sources': set<string>, targets': set<string>)
      requires s in edges
      ensures sources' == sources + (if s in State().SourcesLabelled(msg) then {s} else {})
      ensures forall t :: t in targets' <==> t in targets || msg in State().Labels(s, t)
    {
      ghost var g := State();
      sources', targets' := sources, targets;
      var tgts := Enumerate(edges[s].Keys);
      for j := 0 to |tgts|
        invariant sources' == sources + (if exists k :: 0 <= k < j && msg in g.Labels(s, tgts[k]) then {s} else {})
        invariant forall t :: t in targets' <==> t in targets || (t in tgts[..j] && msg in g.Labels(s, t))
      {
        var t := tgts[j];
        if msg in edges[s][t] {
          sources' := sources' + {s};
          targets' := targets' + {t};
        }
        assert tgts[..j + 1] == tgts[..j] + [t];
      }
      assert tgts[..|tgts|] == tgts;
      LabelledThroughTargets(g, msg, s, tgts);
      forall t | msg in g.Labels(s, t) ensures t in tgts {
        assert t in g.Targets(s);
      }
    }

    /** The sources and the targets of the edges that carry label `msg`. */
    method LabelEndpoints(msg: string) returns (sources: set<string>, targets: set<string>)
      ensures sources == State().SourcesLabelled(msg)
      ensures targets == State().TargetsLabelled(msg)
    {
      ghost var g := State();
      sources, targets := {}, {};
      var srcs := Enumerate(edges.Keys);
      for i := 0 to |srcs|
        invariant sources == g.SourcesLabelled(msg) * set k | 0 <= k < i :: srcs[k]
        invariant forall t :: t in targets <==> exists k :: 0 <= k < i && msg in g.Labels(srcs[k], t)
      {
        sources, targets := LabelEndpointsFrom(msg, srcs[i], sources, targets);
      }
      LabelledThroughSources(g, msg, srcs);
    }

    /**
     * Seeds for subgraph extraction: an entity that is an actor goes into both sets; any
     * other entity is taken as a message type, whose edges put their targets into the forward
     * set and their sources into the backward set.
     */
    method CollectActorsForEntities(entities: seq<string>) returns (forward: set<string>, backward: set<string>)
      ensures forward == State().ForwardSeeds(entities)
      ensures backward == State().BackwardSeeds(entities)
    {
      forward, backward := {}, {};
      for i := 0 to |entities|
        invariant forward == State().ForwardSeeds(entities[..i])
        invariant backward == State().BackwardSeeds(entities[..i])
      {
        var e := entities[i];
        assert entities[..i + 1][..i] == entities[..i];
        if e in actors {
          forward := forward + {e};
          backward := backward + {e};
        } else {
          var sources, targets := LabelEndpoints(e);
          backward := backward + sources;
          forward := forward + targets;
        }
      }
      assert entities[..|entities|] == entities;
    }

    /** The nodes reachable from `start` along edges taken in either direction. */
    method DfsGraphScan(start: set<string>) returns (visited: set<string>)
      requires Valid()
      ensures visited == State().Reach(Undirected, start)
    {
      ghost var g := State();
      var worklist := Enumerate(start);
      visited := start;
      ScanStart(g, Undirected, start, worklist);
      while worklist != []
        invariant g.ScanInvariant(Undirected, start, visited, worklist)
        decreases |g.actors + start - visited| + |worklist|
      {
        var actor := worklist[|worklist| - 1];
        var visited', worklist' := VisitBoth(State().Targets(actor), State().Sources(actor), visited, worklist[..|worklist| - 1]);
        ScanAdvance(g, Undirected, start, visited, worklist, visited', worklist');
        visited, worklist := visited', worklist';
      }
      ScanDone(g, Undirected, start, visited);
    }

    /** The nodes reachable from `start` along forward edges. */
    method ForwardScan(start: set<string>) returns (visited: set<string>)
      requires Valid()
      ensures visited == State().Reach(Forward, start)
    {
      ghost var g := State();
      var worklist := Enumerate(start);
      visited := start;
      ScanStart(g, Forward, start, worklist);
      while worklist != []
        invariant g.ScanInvariant(Forward, start, visited, worklist)
        decreases |g.actors + start - visited| + |worklist|
      {
        var actor := worklist[|worklist| - 1];
        var visited', worklist' := Visit(State().Targets(actor), visited, worklist[..|worklist| - 1]);
        ScanAdvance(g, Forward, start, visited, worklist, visited', worklist');
        visited, worklist := visited', worklist';
      }
      ScanDone(g, Forward, start, visited);
    }

    /** The nodes reachable from `start` along reverse edges. */
    method BackwardScan(start: set<string>) returns (visited: set<string>)
      requires Valid()
      ensures visited == State().Reach(Backward, start)
    {
      ghost var g := State();
      var worklist := Enumerate(start);
      visited := start;
      ScanStart(g, Backward, start, worklist);
      while worklist != []
        invariant g.ScanInvariant(Backward, start, visited, worklist)
        decreases |g.actors + start - visited| + |worklist|
      {
        var actor := worklist[|worklist| - 1];
        var visited', worklist' := Visit(State().Sources(actor), visited, worklist[..|worklist| - 1]);
        ScanAdvance(g, Backward, start, visited, worklist, visited', worklist');
        visited, worklist := visited', worklist';
      }
      ScanDone(g, Backward, start, visited);
    }

    /**
     * The inner loop of `make_subgraph_related_to` for source `s` with successor map `out`:
     * every target in `keep` gets the label set `out[t]` and `s` in its reverse entry.
     */
    method CopyKeptTargets(s: string, out: map<string, set<string>>, keep: set<string>)
      modifies this
      ensures State().RowCopied(old(State()), s, KeptRow(out, keep))
    {
      ghost var g0 := State();
      ghost var row: map<string, set<string>> := map[];
      RowStart(g0, s);
      var targets := Enumerate(out.Keys);
      for j := 0 to |targets|
        invariant State().RowCopied(g0, s, row)
        invariant forall b :: b in row ==> b in out && b in keep && row[b] == out[b]
        invariant forall k :: 0 <= k < j && targets[k] in keep ==> targets[k] in row
      {
        var t := targets[j];
        if t in keep {
          RowStep(g0, State(), s, row, t, out[t]);
          var successors := if s in edges then edges[s] else map[];
          edges := edges[s := successors[t := out[t]]];
          var preds := if t in reverseEdges then reverseEdges[t] else {};
          reverseEdges := reverseEdges[t := preds + {s}];
          row := row[t := out[t]];
        }
      }
      assert row == KeptRow(out, keep);
    }

    /**
     * One round of the outer loop of `make_subgraph_related_to`, run on the new graph: a source
     * that is not kept is skipped, and the kept targets of a kept one are copied.
     */
    method CopySource(ghost g: Graph, keep: set<string>, ghost done: set<string>, s: string, out: map<string, set<string>>)
      requires g.Valid() && s in g.edges && out == g.edges[s] && s !in done
      requires State().CopiedFrom(g, keep, done)
      modifies this
      ensures actors == old(actors)
      ensures State().CopiedFrom(g, keep, done + {s})
    {
      ghost var before := State();
      if s in keep {
        CopyKeptTargets(s, out, keep);
      }
      CopyStep(g, keep, done, s, before, State());
    }

    /**
     * A new graph holding the actors related to `entities` and the edges among them. Tight
     * mode follows forward edges from the forward seeds and reverse edges from the backward
     * seeds; loose mode follows edges in either direction from all seeds. This graph is not
     * changed.
     */
    method MakeSubgraphRelatedTo(entities: seq<string>, tight: bool) returns (r: RepositoryGraph)
      requires Valid()
      ensures fresh(r) && r.Valid()
      ensures State() == old(State())
      ensures var g := State();
        var fwd := g.ForwardSeeds(entities);
        var bwd := g.BackwardSeeds(entities);
        r.State().IsRestrictionOf(g,
          if tight then g.Reach(Forward, fwd) + g.Reach(Backward, bwd) else g.Reach(Undirected, fwd + bwd))
    {
      ghost var g := State();
      var startForward, startBackward := CollectActorsForEntities(entities);
      var seen: set<string>;
      if tight {
        seen := ForwardScan(startForward);
        var backward := BackwardScan(startBackward);
        seen := seen + backward;
      } else {
        seen := DfsGraphScan(startForward + startBackward);
      }

      r := RestrictTo(seen);
    }

    /**
     * The second half of `make_subgraph_related_to`: a new graph with node set `keep` and a
     * copy of every edge whose endpoints are both kept, with its label set.
     */
    method RestrictTo(keep: set<string>) returns (r: RepositoryGraph)
      requires Valid()
      ensures fresh(r) && r.Valid()
      ensures r.State().IsRestrictionOf(State(), keep)
    {
      ghost var g := State();
      r := new RepositoryGraph();
      var sources := Enumerate(edges.Keys);
      CopyStart(g, keep);
      for i := 0 to |sources|
        invariant fresh(r) && r.actors == {}
        invariant r.State().CopiedFrom(g, keep, PrefixSet(sources, i))
      {
        var s := sources[i];
        NotInPrefix(sources, i);
        r.CopySource(g, keep, PrefixSet(sources, i), s, edges[s]);
      }
      assert sources[..|sources|] == sources;
      assert PrefixSet(sources, |sources|) == g.edges.Keys;
      ghost var copy := r.State();
      r.actors := keep;
      assert r.State() == copy.(actors := keep);
      CopyDone(g, keep, copy);
      RestrictionValid(g, r.State(), keep);
    }
  }

  /**
   * Adds `name` to the entry of every message type in `msgs`, as one of the two inner loops
   * of `construct_graph_from_actors` does for a descriptor's produced or consumed messages.
   */
  method Register(table: map<string, set<string>>, name: string, msgs: set<string>)
    returns (table': map<string, set<string>>)
    requires forall m :: m in table ==> table[m] != {}
    ensures forall m :: m in table' ==> table'[m] != {}
    ensures forall m, a :: a in Get(table', m) <==> a in Get(table, m) || (a == name && m in msgs)
  {
    table' := table;
    var listed := Enumerate(msgs);
    for k := 0 to |listed|
      invariant forall m :: m in table' ==> table'[m] != {}
      invariant forall m, a :: a in Get(table', m) <==> a in Get(table, m) || (a == name && m in listed[..k])
    {
      table' := table'[listed[k] := Get(table', listed[k]) + {name}];
      assert listed[..k + 1] == listed[..k] + [listed[k]];
    }
    assert listed[..|listed|] == listed;
  }

  /**
   * The first half of `construct_graph_from_actors`: the producers table maps each message
   * type to the names of the descriptors producing it, the consumers table likewise; neither
   * holds an empty entry.
   */
  method BuildTables(defs: seq<Actor>) returns (producers: map<string, set<string>>, consumers: map<string, set<string>>)
    ensures forall m :: m in producers ==> producers[m] != {}
    ensures forall m :: m in consumers ==> consumers[m] != {}
    ensures forall m, p :: p in Get(producers, m) <==> Produces(defs, p, m)
    ensures forall m, c :: c in Get(consumers, m) <==> Consumes(defs, c, m)
  {
    producers, consumers := map[], map[];
    for i := 0 to |defs|
      invariant forall m :: m in producers ==> producers[m] != {}
      invariant forall m :: m in consumers ==> consumers[m] != {}
      invariant forall m, p :: p in Get(producers, m) <==> Produces(defs[..i], p, m)
      invariant forall m, c :: c in Get(consumers, m) <==> Consumes(defs[..i], c, m)
    {
      var d := defs[i];
      assert defs[..i + 1] == defs[..i] + [d];
      producers := Register(producers, d.name, d.produces);
      consumers := Register(consumers, d.name, d.consumes);
    }
    assert defs[..|defs|] == defs;
  }

  /** `graph.add_edge(producer, msg, consumer)` for every producer in the list. */
  method AddEdgesFrom(g: RepositoryGraph, producers: seq<string>, msg: string, consumer: string)
    requires g.Valid() && forall x :: x in g.actors <==> g.State().Touches(x)
    modifies g
    ensures g.Valid() && forall x :: x in g.actors <==> g.State().Touches(x)
    ensures forall p, m, c :: m in g.State().Labels(p, c) <==>
      m in old(g.State()).Labels(p, c) || (m == msg && c == consumer && p in producers)
  {
    ghost var g0 := g.State();
    for b := 0 to |producers|
      invariant g.Valid() && forall x :: x in g.actors <==> g.State().Touches(x)
      invariant forall p, m, c :: m in g.State().Labels(p, c) <==>
        m in g0.Labels(p, c) || (m == msg && c == consumer && p in producers[..b])
    {
      var producer := producers[b];
      AddEdgeEndpoints(g.State(), producer, msg, consumer);
      AddEdgeEffect(g.State(), producer, msg, consumer);
      g.AddEdge(producer, msg, consumer);
      assert producers[..b + 1] == producers[..b] + [producer];
    }
    assert producers[..|producers|] == producers;
  }

  /** The edges of one spoken message: an edge labelled `msg` from each producer to each consumer. */
  method AddEdgesFor(g: RepositoryGraph, producers: set<string>, msg: string, consumers: set<string>)
    requires g.Valid() && forall x :: x in g.actors <==> g.State().Touches(x)
    modifies g
    ensures g.Valid() && forall x :: x in g.actors <==> g.State().Touches(x)
    ensures forall p, m, c :: m in g.State().Labels(p, c) <==>
      m in old(g.State()).Labels(p, c) || (m == msg && p in producers && c in consumers)
  {
    ghost var g0 := g.State();
    var msgConsumers := Enumerate(consumers);
    var msgProducers := Enumerate(producers);
    for a := 0 to |msgConsumers|
      invariant g.Valid() && forall x :: x in g.actors <==> g.State().Touches(x)
      invariant forall p, m, c :: m in g.State().Labels(p, c) <==>
        m in g0.Labels(p, c) || (m == msg && p in producers && c in msgConsumers[..a])
    {
      var consumer := msgConsumers[a];
      AddEdgesFrom(g, msgProducers, msg, consumer);
      assert msgConsumers[..a + 1] == msgConsumers[..a] + [consumer];
    }
    assert msgConsumers[..|msgConsumers|] == msgConsumers;
  }

  /**
   * The second half of `construct_graph_from_actors`: for each message type with an entry in
   * both tables, the edges from each of its producers to each of its consumers.
   */
  method AddSpokenEdges(g: RepositoryGraph, producers: map<string, set<string>>, consumers: map<string, set<string>>)
    requires g.Valid() && forall x :: x in g.actors <==> g.State().Touches(x)
    requires forall p, m, c :: m !in g.State().Labels(p, c)
    modifies g
    ensures g.Valid() && forall x :: x in g.actors <==> g.State().Touches(x)
    ensures forall p, m, c :: m in g.State().Labels(p, c) <==>
      m in producers.Keys * consumers.Keys && p in Get(producers, m) && c in Get(consumers, m)
  {
    var spoken := producers.Keys * consumers.Keys;
    var messages := Enumerate(spoken);
    for i := 0 to |messages|
      invariant g.Valid() && forall x :: x in g.actors <==> g.State().Touches(x)
      invariant forall p, m, c :: m in g.State().Labels(p, c) <==>
        m in PrefixSet(messages, i) && p in Get(producers, m) && c in Get(consumers, m)
    {
      var msg := messages[i];
      assert msg in spoken;
      AddEdgesFor(g, producers[msg], msg, consumers[msg]);
    }
    assert PrefixSet(messages, |messages|) == spoken by {
      assert messages[..|messages|] == messages;
    }
  }

  /**
   * Labelling the edges of the spoken messages, those with both a producer and a consumer,
   * gives exactly the labels that a producing and a consuming descriptor call for.
   */
  lemma SpokenLabels(gr: Graph, defs: seq<Actor>, producers: map<string, set<string>>, consumers: map<string, set<string>>)
    requires forall m, p :: p in Get(producers, m) <==> Produces(defs, p, m)
    requires forall m, c :: c in Get(consumers, m) <==> Consumes(defs, c, m)
    requires forall p, m, c :: m in gr.Labels(p, c) <==>
      m in producers.Keys * consumers.Keys && p in Get(producers, m) && c in Get(consumers, m)
    ensures forall p, m, c :: m in gr.Labels(p, c) <==> Produces(defs, p, m) && Consumes(defs, c, m)
  {
  }

  /** With no descriptors nothing is produced, so the built graph has no edges and no actors. */
  lemma NoDescriptorsNoGraph(gr: Graph, defs: seq<Actor>)
    requires defs == []
    requires gr.Valid() && forall x :: x in gr.actors <==> gr.Touches(x)
    requires forall p, m, c :: m in gr.Labels(p, c) <==> Produces(defs, p, m) && Consumes(defs, c, m)
    ensures gr.Triples() == {} && gr.actors == {}
  {
    NoLabelsNoGraph(gr);
  }

  /**
   * Builds the dependency graph of a list of actor descriptors: for every message type that
   * some descriptor produces and some descriptor consumes, an edge labelled with it from each
   * producer to each consumer (a self-loop when they are the same actor).
   */
  method ConstructGraphFromActors(defs: seq<Actor>) returns (g: RepositoryGraph)
    ensures fresh(g) && g.Valid()
    ensures forall p, m, c :: m in g.State().Labels(p, c) <==> Produces(defs, p, m) && Consumes(defs, c, m)
    ensures forall x :: x in g.actors <==> g.State().Touches(x)
    ensures defs == [] ==> g.State().Triples() == {} && g.actors == {}
  {
    var producers, consumers := BuildTables(defs);
    g := new RepositoryGraph();
    AddSpokenEdges(g, producers, consumers);
    SpokenLabels(g.State(), defs, producers, consumers);
    if defs == [] {
      NoDescriptorsNoGraph(g.State(), defs);
    }
  }
}
