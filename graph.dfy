/**
 * The value view of the actor dependency graph of `snactor discover`.
 *
 * A graph has a forward map `source -> target -> set of message labels`, a reverse index
 * `target -> set of sources` and a node set `actors`. The original keeps the maps in nested
 * default-constructing dictionaries, so a lookup of a missing key yields an empty container;
 * here every lookup (Targets, Labels, Sources) makes that default explicit, and two graphs that
 * differ only in keys bound to empty containers are observed the same way.
 */
module Graphs {

  /** One `(source_actor, message_type, target_actor)` triple as `iter_edges` yields it. */
  datatype Triple = Triple(source: string, msg: string, target: string)

  /** The relation a reachability scan follows. */
  datatype Direction = Forward | Backward | Undirected

  datatype Graph = Graph(
    edges: map<string, map<string, set<string>>>,
    reverseEdges: map<string, set<string>>,
    actors: set<string>)
  {
    /** Successors of `s`: `edges[s]` iterated as a dictionary, empty when absent. */
    function Targets(s: string): set<string> {
      if s in edges then edges[s].Keys else {}
    }

    /** Message labels on the edge `s -> t`, empty when there is no such edge. */
    function Labels(s: string, t: string): set<string> {
      if s in edges && t in edges[s] then edges[s][t] else {}
    }

    /** Predecessors of `t`: `reverse_edges[t]`, empty when absent. */
    function Sources(t: string): set<string> {
      if t in reverseEdges then reverseEdges[t] else {}
    }

    /** The nodes a scan in direction `dir` moves to from `x`. */
    function Neighbours(dir: Direction, x: string): set<string> {
      match dir
      case Forward => Targets(x)
      case Backward => Sources(x)
      case Undirected => Targets(x) + Sources(x)
    }

    /** `x` is the source or the target of some edge. */
    predicate Touches(x: string) {
      Targets(x) != {} || Sources(x) != {}
    }

    /**
     * The graph invariant: every materialised label set is non-empty, every edge endpoint
     * is a registered actor, and the reverse index mirrors the forward map exactly.
     */
    ghost predicate Valid() {
      && (forall s, t :: t in Targets(s) ==> Labels(s, t) != {} && s in actors && t in actors)
      && (forall s, t :: s in Sources(t) <==> t in Targets(s))
    }

    /** The set of edge triples, each `(s, m, t)` with `m` a label of `s -> t`. */
    ghost function Triples(): (r: set<Triple>)
      ensures forall tr :: tr in r <==> tr.msg in Labels(tr.source, tr.target)
    {
      set s, t, m | s in edges && t in edges[s] && m in edges[s][t] :: Triple(s, m, t)
    }

    /**
     * The graph after `edges[s][t] = labels` and `reverse_edges[t].add(s)`, the two writes
     * `make_subgraph_related_to` makes for each copied edge.
     */
    function WithLabelSet(s: string, t: string, labels: set<string>): Graph {
      var out := if s in edges then edges[s] else map[];
      Graph(edges[s := out[t := labels]], reverseEdges[t := Sources(t) + {s}], actors)
    }

    /** The graph after `add_edge(s, m, t)`. */
    function WithEdge(s: string, m: string, t: string): Graph {
      var out := if s in edges then edges[s] else map[];
      Graph(edges[s := out[t := Labels(s, t) + {m}]],
            reverseEdges[t := Sources(t) + {s}],
            actors + {s, t})
    }

    /** Sources of the edges that carry label `msg`. */
    function SourcesLabelled(msg: string): (r: set<string>)
      ensures forall s :: s in r <==> exists t :: msg in Labels(s, t)
    {
      var r := set s, t | s in edges && t in edges[s] && msg in edges[s][t] :: s;
      assert forall s :: s in r <==> exists t :: msg in Labels(s, t) by {
        forall s | exists t :: msg in Labels(s, t) ensures s in r {
          var t :| msg in Labels(s, t);
          assert s in edges && t in edges[s] && msg in edges[s][t];
        }
        forall s | s in r ensures exists t :: msg in Labels(s, t) {
          var s0, t0 :| s0 in edges && t0 in edges[s0] && msg in edges[s0][t0] && s0 == s;
          assert msg in Labels(s, t0);
        }
      }
      r
    }

    /** Targets of the edges that carry label `msg`. */
    function TargetsLabelled(msg: string): (r: set<string>)
      ensures forall t :: t in r <==> exists s :: msg in Labels(s, t)
    {
      var r := set s, t | s in edges && t in edges[s] && msg in edges[s][t] :: t;
      assert forall t :: t in r <==> exists s :: msg in Labels(s, t) by {
        forall t | exists s :: msg in Labels(s, t) ensures t in r {
          var s :| msg in Labels(s, t);
          assert s in edges && t in edges[s] && msg in edges[s][t];
        }
        forall t | t in r ensures exists s :: msg in Labels(s, t) {
          var s0, t0 :| s0 in edges && t0 in edges[s0] && msg in edges[s0][t0] && t0 == t;
          assert msg in Labels(s0, t);
        }
      }
      r
    }

    /**
     * Forward seeds of a list of entities: an entity that is an actor seeds itself; any
     * other entity is read as a message type and seeds the targets of the edges labelled
     * with it.
     */
    function ForwardSeeds(entities: seq<string>): set<string> {
      if entities == [] then {}
      else
        var e := entities[|entities| - 1];
        ForwardSeeds(entities[..|entities| - 1])
          + (if e in actors then {e} else TargetsLabelled(e))
    }

    /** Backward seeds: as ForwardSeeds, but a message type seeds the edge sources. */
    function BackwardSeeds(entities: seq<string>): set<string> {
      if entities == [] then {}
      else
        var e := entities[|entities| - 1];
        BackwardSeeds(entities[..|entities| - 1])
          + (if e in actors then {e} else SourcesLabelled(e))
    }

    /** `p` is a walk: each node is a neighbour, in direction `dir`, of the one before it. */
    ghost predicate IsWalk(dir: Direction, p: seq<string>) {
      forall i :: 0 <= i < |p| - 1 ==> p[i + 1] in Neighbours(dir, p[i])
    }

    /** Some walk in direction `dir` starts in `seeds` and ends at `x`. */
    ghost predicate Reachable(dir: Direction, seeds: set<string>, x: string) {
      exists p :: IsWalk(dir, p) && |p| > 0 && p[0] in seeds && p[|p| - 1] == x
    }

    /** The set of nodes reachable from `seeds` in direction `dir`. */
    ghost function Reach(dir: Direction, seeds: set<string>): set<string> {
      set x | x in actors + seeds && Reachable(dir, seeds, x)
    }

    /** `r` contains the neighbours, in direction `dir`, of each of its members. */
    ghost predicate Closed(dir: Direction, r: set<string>) {
      forall x :: x in r ==> Neighbours(dir, x) <= r
    }

    /**
     * What a worklist scan keeps true: the seeds are visited, every visited node is a seed
     * or an actor and is reachable, every node on the worklist is visited, and a visited node
     * that has left the worklist has all its neighbours visited.
     */
    ghost predicate ScanInvariant(dir: Direction, start: set<string>, visited: set<string>, worklist: seq<string>) {
      && start <= visited <= actors + start
      && (forall i :: 0 <= i < |worklist| ==> worklist[i] in visited)
      && (forall v :: v in visited && v !in worklist ==> Neighbours(dir, v) <= visited)
      && (forall v :: v in visited ==> Reachable(dir, start, v))
    }

    /**
     * `this` is `g` restricted to the nodes in `keep`: its node set is `keep`, and it holds
     * exactly the edges of `g` whose endpoints are both kept, with their label sets copied.
     */
    ghost predicate IsRestrictionOf(g: Graph, keep: set<string>) {
      && actors == keep
      && (forall a, b :: Labels(a, b) == if a in keep && b in keep then g.Labels(a, b) else {})
      && (forall a :: Targets(a) == if a in keep then g.Targets(a) * keep else {})
      && (forall b :: Sources(b) == if b in keep then g.Sources(b) * keep else {})
    }

    /**
     * This graph is `g0` after the edges `s -> t` for `t` in `row` were given the label
     * sets `row` maps them to, with `s` recorded as a source of each such `t`.
     */
    ghost predicate RowCopied(g0: Graph, s: string, row: map<string, set<string>>) {
      actors == g0.actors && RowLabels(g0, s, row) && RowTargets(g0, s, row) && RowSources(g0, s, row)
    }

    ghost predicate RowLabels(g0: Graph, s: string, row: map<string, set<string>>) {
      forall a, b :: Labels(a, b) == if a == s && b in row then row[b] else g0.Labels(a, b)
    }

    ghost predicate RowTargets(g0: Graph, s: string, row: map<string, set<string>>) {
      forall a :: Targets(a) == if a == s then g0.Targets(a) + row.Keys else g0.Targets(a)
    }

    ghost predicate RowSources(g0: Graph, s: string, row: map<string, set<string>>) {
      forall b :: Sources(b) == if b in row then g0.Sources(b) + {s} else g0.Sources(b)
    }

    /**
     * The edges between kept nodes whose source is in `done` have been copied from `g`, with
     * their label sets, and nothing else has: the state of the copy in `make_subgraph_related_to`
     * once the sources in `done` have been handled.
     */
    ghost predicate CopiedFrom(g: Graph, keep: set<string>, done: set<string>) {
      CopiedLabels(g, keep, done) && CopiedTargets(g, keep, done) && CopiedSources(g, keep, done)
    }

    ghost predicate CopiedLabels(g: Graph, keep: set<string>, done: set<string>) {
      forall a, b :: Labels(a, b) == if a in done && a in keep && b in keep then g.Labels(a, b) else {}
    }

    ghost predicate CopiedTargets(g: Graph, keep: set<string>, done: set<string>) {
      forall a :: Targets(a) == if a in done && a in keep then g.Targets(a) * keep else {}
    }

    ghost predicate CopiedSources(g: Graph, keep: set<string>, done: set<string>) {
      forall b :: Sources(b) == if b in keep then g.Sources(b) * done * keep else {}
    }
  }

  /** The graph of a fresh `RepositoryGraph()`. */
  function EmptyGraph(): (g: Graph)
    ensures g.Valid() && g.Triples() == {} && g.actors == {}
  {
    Graph(map[], map[], {})
  }

  // ---------------------------------------------------------------------------------------
  // add_edge

  /**
   * `add_edge(s, m, t)` registers both endpoints, adds `m` to the label set of `s -> t`,
   * records `s` as a predecessor of `t`, and changes no other label set, successor set or
   * predecessor set.
   */
  lemma AddEdgeEffect(g: Graph, s: string, m: string, t: string)
    ensures var h := g.WithEdge(s, m, t);
      && h.actors == g.actors + {s, t}
      && m in h.Labels(s, t) && t in h.Targets(s) && s in h.Sources(t)
      && (forall a, b :: h.Labels(a, b) == if a == s && b == t then g.Labels(s, t) + {m} else g.Labels(a, b))
      && (forall a :: h.Targets(a) == if a == s then g.Targets(s) + {t} else g.Targets(a))
      && (forall b :: h.Sources(b) == if b == t then g.Sources(t) + {s} else g.Sources(b))
  {
  }

  /** `add_edge` keeps the graph invariant. */
  lemma AddEdgeValid(g: Graph, s: string, m: string, t: string)
    requires g.Valid()
    ensures g.WithEdge(s, m, t).Valid()
  {
    var h := g.WithEdge(s, m, t);
    AddEdgeEffect(g, s, m, t);
    forall a, b | b in h.Targets(a)
      ensures h.Labels(a, b) != {} && a in h.actors && b in h.actors
    {
      if a == s && b == t {
        assert m in h.Labels(a, b);
      } else {
        assert b in g.Targets(a);
      }
    }
  }

  /** `add_edge(s, m, t)` adds exactly the triple `(s, m, t)` to the edge triples. */
  lemma AddEdgeTriples(g: Graph, s: string, m: string, t: string)
    ensures g.WithEdge(s, m, t).Triples() == g.Triples() + {Triple(s, m, t)}
  {
    var h := g.WithEdge(s, m, t);
    AddEdgeEffect(g, s, m, t);
    forall tr ensures tr in h.Triples() <==> tr in g.Triples() + {Triple(s, m, t)} {
      assert tr in h.Triples() <==> tr.msg in h.Labels(tr.source, tr.target);
    }
  }

  /** Adding the same triple a second time changes nothing. */
  lemma AddEdgeIdempotent(g: Graph, s: string, m: string, t: string)
    ensures g.WithEdge(s, m, t).WithEdge(s, m, t) == g.WithEdge(s, m, t)
  {
    var h := g.WithEdge(s, m, t);
    var h2 := h.WithEdge(s, m, t);
    AddEdgeEffect(g, s, m, t);
    assert h2.edges[s] == h.edges[s];
    assert h2.edges == h.edges;
    assert h2.reverseEdges == h.reverseEdges;
  }

  /** On a valid graph whose actors are exactly the edge endpoints, `add_edge` keeps that so. */
  lemma AddEdgeEndpoints(g: Graph, s: string, m: string, t: string)
    requires forall x :: x in g.actors <==> g.Touches(x)
    ensures var h := g.WithEdge(s, m, t); forall x :: x in h.actors <==> h.Touches(x)
  {
    AddEdgeEffect(g, s, m, t);
  }

  /** A valid graph without labels, whose actors are the edge endpoints, is empty. */
  lemma NoLabelsNoGraph(g: Graph)
    requires g.Valid() && forall x :: x in g.actors <==> g.Touches(x)
    requires forall p, m, c :: m !in g.Labels(p, c)
    ensures g.Triples() == {} && g.actors == {}
  {
    forall s, t ensures t !in g.Targets(s) {
      assert g.Labels(s, t) == {};
    }
    forall x ensures x !in g.actors {
      assert g.Targets(x) == {};
      assert forall s :: s !in g.Sources(x) by {
        forall s ensures s !in g.Sources(x) {
          assert x !in g.Targets(s);
        }
      }
      assert g.Sources(x) == {};
    }
  }

  // ---------------------------------------------------------------------------------------
  // Seed classification

  /**
   * An entity that is an actor seeds itself in both directions; an entity that is not an
   * actor seeds the targets of the edges labelled with it forward, and their sources
   * backward; nothing else is a seed.
   */
  lemma {:induction false} SeedsMembers(g: Graph, entities: seq<string>, x: string)
    ensures x in g.ForwardSeeds(entities) <==>
      (x in entities && x in g.actors) ||
      (exists e, s :: e in entities && e !in g.actors && e in g.Labels(s, x))
    ensures x in g.BackwardSeeds(entities) <==>
      (x in entities && x in g.actors) ||
      (exists e, t :: e in entities && e !in g.actors && e in g.Labels(x, t))
  {
    if entities != [] {
      var init := entities[..|entities| - 1];
      var e := entities[|entities| - 1];
      assert entities == init + [e];
      SeedsMembers(g, init, x);
      if x in g.ForwardSeeds(entities) && x !in g.ForwardSeeds(init) && e !in g.actors {
        var s :| e in g.Labels(s, x);
      }
      if x in g.BackwardSeeds(entities) && x !in g.BackwardSeeds(init) && e !in g.actors {
        var t :| e in g.Labels(x, t);
      }
    }
  }

  /** An entity that names no actor and labels no edge contributes no seeds. */
  lemma UnmatchedEntity(g: Graph, entities: seq<string>, e: string)
    requires e !in g.actors
    requires forall s, t :: e !in g.Labels(s, t)
    ensures g.ForwardSeeds(entities + [e]) == g.ForwardSeeds(entities)
    ensures g.BackwardSeeds(entities + [e]) == g.BackwardSeeds(entities)
  {
    assert (entities + [e])[..|entities|] == entities;
  }

  /** On a valid graph both seed sets are sets of actors. */
  lemma {:induction false} SeedsWithinActors(g: Graph, entities: seq<string>)
    requires g.Valid()
    ensures g.ForwardSeeds(entities) <= g.actors
    ensures g.BackwardSeeds(entities) <= g.actors
  {
    if entities != [] {
      SeedsWithinActors(g, entities[..|entities| - 1]);
      var e := entities[|entities| - 1];
      forall x | x in g.TargetsLabelled(e) ensures x in g.actors {
        var s :| e in g.Labels(s, x);
        assert x in g.Targets(s);
      }
      forall x | x in g.SourcesLabelled(e) ensures x in g.actors {
        var t :| e in g.Labels(x, t);
        assert t in g.Targets(x);
      }
    }
  }

  // ---------------------------------------------------------------------------------------
  // Reachability

  /** On a valid graph every neighbour of a node is an actor. */
  lemma NeighboursInActors(g: Graph, dir: Direction, x: string)
    requires g.Valid()
    ensures g.Neighbours(dir, x) <= g.actors
  {
    forall y | y in g.Neighbours(dir, x) ensures y in g.actors {
      if y in g.Sources(x) {
        assert x in g.Targets(y);
        assert g.Labels(y, x) != {} && y in g.actors;
      } else {
        assert y in g.Targets(x);
      }
    }
  }

  /** Every seed is reachable (by the walk of length one). */
  lemma ReachableSeed(g: Graph, dir: Direction, seeds: set<string>, x: string)
    requires x in seeds
    ensures g.Reachable(dir, seeds, x)
  {
    assert g.IsWalk(dir, [x]);
  }

  /** A neighbour of a reachable node is reachable. */
  lemma ReachableStep(g: Graph, dir: Direction, seeds: set<string>, x: string, y: string)
    requires g.Reachable(dir, seeds, x)
    requires y in g.Neighbours(dir, x)
    ensures g.Reachable(dir, seeds, y)
  {
    var p :| g.IsWalk(dir, p) && |p| > 0 && p[0] in seeds && p[|p| - 1] == x;
    var q := p + [y];
    assert g.IsWalk(dir, q) by {
      forall i | 0 <= i < |q| - 1 ensures q[i + 1] in g.Neighbours(dir, q[i]) {
        if i < |p| - 1 {
          assert q[i] == p[i] && q[i + 1] == p[i + 1];
        }
      }
    }
    assert q[0] in seeds && q[|q| - 1] == y;
  }

  /** On a valid graph a reachable node is a seed or an actor. */
  lemma ReachableInDomain(g: Graph, dir: Direction, seeds: set<string>, x: string)
    requires g.Valid()
    requires g.Reachable(dir, seeds, x)
    ensures x in g.actors + seeds
  {
    var p :| g.IsWalk(dir, p) && |p| > 0 && p[0] in seeds && p[|p| - 1] == x;
    if |p| > 1 {
      NeighboursInActors(g, dir, p[|p| - 2]);
    }
  }

  /** A walk that starts inside a closed set never leaves it. */
  lemma {:induction false} WalkStaysInClosed(g: Graph, dir: Direction, p: seq<string>, r: set<string>)
    requires g.IsWalk(dir, p) && |p| > 0 && p[0] in r
    requires g.Closed(dir, r)
    ensures p[|p| - 1] in r
  {
    if |p| > 1 {
      var init := p[..|p| - 1];
      assert g.IsWalk(dir, init) by {
        forall i | 0 <= i < |init| - 1 ensures init[i + 1] in g.Neighbours(dir, init[i]) {
          assert init[i] == p[i] && init[i + 1] == p[i + 1];
        }
      }
      WalkStaysInClosed(g, dir, init, r);
      assert p[|p| - 1] in g.Neighbours(dir, p[|p| - 2]);
    }
  }

  /** The reachable set is the least closed set containing the seeds. */
  lemma ReachLeast(g: Graph, dir: Direction, seeds: set<string>, r: set<string>)
    requires seeds <= r && g.Closed(dir, r)
    ensures g.Reach(dir, seeds) <= r
  {
    forall x | x in g.Reach(dir, seeds) ensures x in r {
      var p :| g.IsWalk(dir, p) && |p| > 0 && p[0] in seeds && p[|p| - 1] == x;
      WalkStaysInClosed(g, dir, p, r);
    }
  }

  /** The reachable set contains the seeds and is closed under the scan's relation. */
  lemma ReachClosed(g: Graph, dir: Direction, seeds: set<string>)
    requires g.Valid()
    ensures seeds <= g.Reach(dir, seeds)
    ensures g.Closed(dir, g.Reach(dir, seeds))
  {
    forall x | x in seeds ensures x in g.Reach(dir, seeds) {
      ReachableSeed(g, dir, seeds, x);
    }
    forall x, y | x in g.Reach(dir, seeds) && y in g.Neighbours(dir, x)
      ensures y in g.Reach(dir, seeds)
    {
      ReachableStep(g, dir, seeds, x, y);
      NeighboursInActors(g, dir, x);
    }
  }

  /** A walk along forward edges only, or along reverse edges only, ignores no direction rule. */
  lemma DirectedWalkIsUndirected(g: Graph, dir: Direction, p: seq<string>)
    requires g.IsWalk(dir, p)
    ensures g.IsWalk(Undirected, p)
  {
    forall i | 0 <= i < |p| - 1 ensures p[i + 1] in g.Neighbours(Undirected, p[i]) {
      assert p[i + 1] in g.Neighbours(dir, p[i]);
    }
  }

  /**
   * Tight mode never finds more than loose mode: the forward closure of the forward seeds
   * together with the backward closure of the backward seeds lies inside the undirected
   * closure of all seeds.
   */
  lemma TightWithinLoose(g: Graph, fwd: set<string>, bwd: set<string>)
    ensures g.Reach(Forward, fwd) + g.Reach(Backward, bwd) <= g.Reach(Undirected, fwd + bwd)
  {
    forall x | x in g.Reach(Forward, fwd) + g.Reach(Backward, bwd)
      ensures x in g.Reach(Undirected, fwd + bwd)
    {
      if x in g.Reach(Forward, fwd) {
        var p :| g.IsWalk(Forward, p) && |p| > 0 && p[0] in fwd && p[|p| - 1] == x;
        DirectedWalkIsUndirected(g, Forward, p);
      } else {
        var p :| g.IsWalk(Backward, p) && |p| > 0 && p[0] in bwd && p[|p| - 1] == x;
        DirectedWalkIsUndirected(g, Backward, p);
      }
    }
  }

  // ---------------------------------------------------------------------------------------
  // Worklist scans

  /** A scan starts with the seeds both visited and on the worklist. */
  lemma ScanStart(g: Graph, dir: Direction, start: set<string>, worklist: seq<string>)
    requires forall x :: x in worklist <==> x in start
    ensures g.ScanInvariant(dir, start, start, worklist)
  {
    forall v | v in start ensures g.Reachable(dir, start, v) {
      ReachableSeed(g, dir, start, v);
    }
  }

  /**
   * Popping `x` off the worklist, marking its unvisited neighbours visited and pushing them
   * keeps the scan invariant.
   */
  lemma ScanStep(g: Graph, dir: Direction, start: set<string>, visited: set<string>, worklist: seq<string>,
                 x: string, visited': set<string>, worklist': seq<string>)
    requires g.Valid()
    requires g.ScanInvariant(dir, start, visited, worklist + [x])
    requires visited' == visited + g.Neighbours(dir, x)
    requires forall y :: y in worklist' <==> y in worklist || (y in g.Neighbours(dir, x) && y !in visited)
    ensures g.ScanInvariant(dir, start, visited', worklist')
  {
    assert x in visited by {
      assert (worklist + [x])[|worklist|] == x;
    }
    NeighboursInActors(g, dir, x);
    forall y | y in g.Neighbours(dir, x) ensures g.Reachable(dir, start, y) {
      ReachableStep(g, dir, start, x, y);
    }
    forall v | v in visited' && v !in worklist' ensures g.Neighbours(dir, v) <= visited' {
      if v != x {
        assert v !in worklist + [x];
      }
    }
    forall i | 0 <= i < |worklist'| ensures worklist'[i] in visited' {
      var y := worklist'[i];
      if y in worklist {
        var k :| 0 <= k < |worklist| && worklist[k] == y;
        assert (worklist + [x])[k] == y;
      }
    }
  }

  /** Marking a set `c` of nodes visited moves exactly its unvisited part out of `u - visited`. */
  lemma UnvisitedShrinks(u: set<string>, visited: set<string>, c: set<string>)
    requires c <= u
    ensures |u - (visited + c)| + |c - visited| == |u - visited|
  {
    assert u - visited == (u - (visited + c)) + (c - visited);
    assert (u - (visited + c)) * (c - visited) == {};
  }

  /**
   * One round of a scan: popping `x` and pushing its unvisited neighbours keeps the invariant
   * and lowers the count of unvisited nodes plus pending worklist entries.
   */
  lemma ScanAdvance(g: Graph, dir: Direction, start: set<string>, visited: set<string>, worklist: seq<string>,
                    visited': set<string>, worklist': seq<string>)
    requires g.Valid() && worklist != []
    requires g.ScanInvariant(dir, start, visited, worklist)
    requires visited' == visited + g.Neighbours(dir, worklist[|worklist| - 1])
    requires forall y :: y in worklist' <==>
      y in worklist[..|worklist| - 1] || (y in g.Neighbours(dir, worklist[|worklist| - 1]) && y !in visited)
    requires |worklist'| == |worklist| - 1 + |g.Neighbours(dir, worklist[|worklist| - 1]) - visited|
    ensures g.ScanInvariant(dir, start, visited', worklist')
    ensures |g.actors + start - visited'| + |worklist'| < |g.actors + start - visited| + |worklist|
  {
    var x, rest := worklist[|worklist| - 1], worklist[..|worklist| - 1];
    PopLast(worklist);
    ScanStep(g, dir, start, visited, rest, x, visited', worklist');
    NeighboursInActors(g, dir, x);
    UnvisitedShrinks(g.actors + start, visited, g.Neighbours(dir, x));
  }

  /** A non-empty list is its prefix followed by its last element. */
  lemma PopLast(s: seq<string>)
    requires s != []
    ensures s == s[..|s| - 1] + [s[|s| - 1]]
  {
  }

  /** A scan whose worklist is empty has visited exactly the reachable set. */
  lemma ScanDone(g: Graph, dir: Direction, start: set<string>, visited: set<string>)
    requires g.Valid()
    requires g.ScanInvariant(dir, start, visited, [])
    ensures visited == g.Reach(dir, start)
  {
    ReachLeast(g, dir, start, visited);
  }

  // ---------------------------------------------------------------------------------------
  // Subgraph

  /** Nothing has been copied into an empty graph. */
  lemma CopyStart(g: Graph, keep: set<string>)
    ensures EmptyGraph().CopiedFrom(g, keep, {})
  {
  }

  /**
   * Handling source `s`: when it is kept, its kept targets are copied with their labels;
   * when it is not, the copy is left alone.
   */
  lemma CopyStep(g: Graph, keep: set<string>, done: set<string>, s: string, sub: Graph, sub': Graph)
    requires g.Valid()
    requires sub.CopiedFrom(g, keep, done) && s !in done && s in g.edges
    requires s in keep ==> sub'.RowCopied(sub, s, KeptRow(g.edges[s], keep))
    requires s !in keep ==> sub' == sub
    ensures sub'.CopiedFrom(g, keep, done + {s})
  {
    CopyLabelsStep(g, keep, done, s, sub, sub');
    CopyTargetsStep(g, keep, done, s, sub, sub');
    CopySourcesStep(g, keep, done, s, sub, sub');
  }

  lemma CopyLabelsStep(g: Graph, keep: set<string>, done: set<string>, s: string, sub: Graph, sub': Graph)
    requires sub.CopiedLabels(g, keep, done) && s !in done && s in g.edges
    requires s in keep ==> sub'.RowLabels(sub, s, KeptRow(g.edges[s], keep))
    requires s !in keep ==> sub' == sub
    ensures sub'.CopiedLabels(g, keep, done + {s})
  {
    forall a, b ensures sub'.Labels(a, b) == if a in done + {s} && a in keep && b in keep then g.Labels(a, b) else {} {
      if a == s && b in keep && b !in g.edges[s] {
        assert g.Labels(s, b) == {};
      }
    }
  }

  lemma CopyTargetsStep(g: Graph, keep: set<string>, done: set<string>, s: string, sub: Graph, sub': Graph)
    requires sub.CopiedTargets(g, keep, done) && s !in done && s in g.edges
    requires s in keep ==> sub'.RowTargets(sub, s, KeptRow(g.edges[s], keep))
    requires s !in keep ==> sub' == sub
    ensures sub'.CopiedTargets(g, keep, done + {s})
  {
    forall a ensures sub'.Targets(a) == if a in done + {s} && a in keep then g.Targets(a) * keep else {} {
      if a == s && s in keep {
        assert KeptRow(g.edges[s], keep).Keys == g.Targets(s) * keep;
      }
    }
  }

  lemma CopySourcesStep(g: Graph, keep: set<string>, done: set<string>, s: string, sub: Graph, sub': Graph)
    requires g.Valid()
    requires sub.CopiedSources(g, keep, done) && s !in done && s in g.edges
    requires s in keep ==> sub'.RowSources(sub, s, KeptRow(g.edges[s], keep))
    requires s !in keep ==> sub' == sub
    ensures sub'.CopiedSources(g, keep, done + {s})
  {
    var done' := done + {s};
    forall b ensures sub'.Sources(b) == if b in keep then g.Sources(b) * done' * keep else {} {
      if b in keep && s in keep {
        if b in g.Targets(s) {
          assert s in g.Sources(b);
          assert g.Sources(b) * done' * keep == g.Sources(b) * done * keep + {s};
        } else {
          assert s !in g.Sources(b);
          assert g.Sources(b) * done' * keep == g.Sources(b) * done * keep;
        }
      } else if b in keep {
        assert g.Sources(b) * done' * keep == g.Sources(b) * done * keep;
      }
    }
  }

  /** The entries of a successor map whose target is kept. */
  function KeptRow(out: map<string, set<string>>, keep: set<string>): map<string, set<string>> {
    map b | b in out && b in keep :: out[b]
  }

  /** Before the inner loop nothing of the row is copied. */
  lemma RowStart(g0: Graph, s: string)
    ensures g0.RowCopied(g0, s, map[])
  {
  }

  /** Writing `edges[s][t] = labels` and `reverse_edges[t].add(s)` extends the copied row. */
  lemma RowStep(g0: Graph, sub: Graph, s: string, row: map<string, set<string>>, t: string, labels: set<string>)
    requires sub.RowCopied(g0, s, row)
    ensures sub.WithLabelSet(s, t, labels).RowCopied(g0, s, row[t := labels])
  {
    RowLabelsStep(g0, sub, s, row, t, labels);
    RowTargetsStep(g0, sub, s, row, t, labels);
    RowSourcesStep(g0, sub, s, row, t, labels);
  }

  lemma RowLabelsStep(g0: Graph, sub: Graph, s: string, row: map<string, set<string>>, t: string, labels: set<string>)
    requires sub.RowLabels(g0, s, row)
    ensures sub.WithLabelSet(s, t, labels).RowLabels(g0, s, row[t := labels])
  {
    var sub' := sub.WithLabelSet(s, t, labels);
    forall a, b ensures sub'.Labels(a, b) == if a == s && b in row[t := labels] then row[t := labels][b] else g0.Labels(a, b) {
      if a != s || b != t {
        assert sub'.Labels(a, b) == sub.Labels(a, b);
      }
    }
  }

  lemma RowTargetsStep(g0: Graph, sub: Graph, s: string, row: map<string, set<string>>, t: string, labels: set<string>)
    requires sub.RowTargets(g0, s, row)
    ensures sub.WithLabelSet(s, t, labels).RowTargets(g0, s, row[t := labels])
  {
    var sub' := sub.WithLabelSet(s, t, labels);
    forall a ensures sub'.Targets(a) == if a == s then g0.Targets(a) + row[t := labels].Keys else g0.Targets(a) {
      if a == s {
        assert sub'.Targets(s) == sub.Targets(s) + {t};
        assert row[t := labels].Keys == row.Keys + {t};
      } else {
        assert sub'.Targets(a) == sub.Targets(a);
      }
    }
  }

  lemma RowSourcesStep(g0: Graph, sub: Graph, s: string, row: map<string, set<string>>, t: string, labels: set<string>)
    requires sub.RowSources(g0, s, row)
    ensures sub.WithLabelSet(s, t, labels).RowSources(g0, s, row[t := labels])
  {
    var sub' := sub.WithLabelSet(s, t, labels);
    forall b ensures sub'.Sources(b) == if b in row[t := labels] then g0.Sources(b) + {s} else g0.Sources(b) {
      if b == t {
        assert sub'.Sources(t) == sub.Sources(t) + {s};
      } else {
        assert sub'.Sources(b) == sub.Sources(b);
      }
    }
  }

  /**
   * Once every source of `g` is handled, the copy with `keep` as its node set is the
   * restriction of `g` to `keep`.
   */
  lemma CopyDone(g: Graph, keep: set<string>, sub: Graph)
    requires g.Valid()
    requires sub.CopiedFrom(g, keep, g.edges.Keys)
    ensures sub.(actors := keep).IsRestrictionOf(g, keep)
  {
    var sub' := sub.(actors := keep);
    forall a, b ensures sub'.Labels(a, b) == if a in keep && b in keep then g.Labels(a, b) else {} {
      if a !in g.edges {
        assert g.Labels(a, b) == {};
      }
    }
    forall a ensures sub'.Targets(a) == if a in keep then g.Targets(a) * keep else {} {
      if a !in g.edges {
        assert g.Targets(a) == {};
      }
    }
    forall b ensures sub'.Sources(b) == if b in keep then g.Sources(b) * keep else {} {
      forall a | a in g.Sources(b) ensures a in g.edges {
        assert b in g.Targets(a);
      }
      assert g.Sources(b) * g.edges.Keys == g.Sources(b);
    }
  }

  /** The restriction of a valid graph to any node set is itself a valid graph. */
  lemma RestrictionValid(g: Graph, sub: Graph, keep: set<string>)
    requires g.Valid()
    requires sub.IsRestrictionOf(g, keep)
    ensures sub.Valid()
  {
    forall a, b | b in sub.Targets(a)
      ensures sub.Labels(a, b) != {} && a in sub.actors && b in sub.actors
    {
      assert b in g.Targets(a);
    }
  }

  /**
   * The restriction holds exactly the triples of the original whose endpoints are both kept:
   * no retained edge has an endpoint outside `keep`, and no edge between kept nodes is lost.
   */
  lemma RestrictionTriples(g: Graph, sub: Graph, keep: set<string>)
    requires sub.IsRestrictionOf(g, keep)
    ensures sub.Triples() == set tr | tr in g.Triples() && tr.source in keep && tr.target in keep
  {
    var want := set tr | tr in g.Triples() && tr.source in keep && tr.target in keep;
    forall tr ensures tr in sub.Triples() <==> tr in want {
      assert sub.Labels(tr.source, tr.target) ==
        if tr.source in keep && tr.target in keep then g.Labels(tr.source, tr.target) else {};
    }
  }
}
