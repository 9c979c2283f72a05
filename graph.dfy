/**
 * The normative graph: records as nodes, `altera`/`revoga`/`regulamenta`/
 * `consolida` relationships as edges kept in a forward and a reverse
 * adjacency dictionary, and the queries run over them.
 */
module Graph {
  import opened Wrappers
  import opened Sequences
  import opened Norms
  import opened GraphLog
  import opened Grouping
  import opened GraphBuild
  import opened GraphQueries
  import opened GraphPaths

  /** The answer of `get_norm_lineage`. */
  datatype Lineage = Lineage(norm: Option<Norm>, affects: seq<(string, string)>, affectedBy: seq<(Option<string>, string)>)

  class NormativeGraph {
    /** The keys of `nodes` in insertion order. */
    var nodeIds: seq<string>
    var nodes: map<string, Norm>
    /** The keys of `edges` in insertion order. */
    var sources: seq<Option<string>>
    var edges: map<Option<string>, seq<(string, string)>>
    var reverseEdges: map<string, seq<(Option<string>, string)>>
    /** Every relationship added so far, in order. */
    ghost var log: seq<Relationship>

    /**
     * The node ids are listed once each and are exactly the keys of `nodes`;
     * both adjacency dictionaries are the views of the relationships added.
     */
    ghost predicate Valid()
      reads this
    {
      Distinct(nodeIds) && (forall id :: id in nodes <==> id in nodeIds) &&
      sources == SourceOrder(log) && edges == ForwardIndex(log) && reverseEdges == ReverseIndex(log)
    }

    constructor()
      ensures Valid()
      ensures nodeIds == [] && nodes == map[] && log == []
    {
      nodeIds, nodes := [], map[];
      sources, edges, reverseEdges := [], map[], map[];
      log := [];
    }

    /** Stores the record under its id when the id is truthy; a repeated id replaces the record. */
    method AddNorm(n: Norm)
      requires Valid()
      modifies this
      ensures Valid()
      ensures Truthy(n.idNorma) ==> nodes == old(nodes)[n.idNorma.value := n]
      ensures Truthy(n.idNorma) ==>
        nodeIds == if n.idNorma.value in old(nodes) then old(nodeIds) else old(nodeIds) + [n.idNorma.value]
      ensures !Truthy(n.idNorma) ==> nodes == old(nodes) && nodeIds == old(nodeIds)
      ensures log == old(log) && sources == old(sources)
      ensures edges == old(edges) && reverseEdges == old(reverseEdges)
    {
      if Truthy(n.idNorma) {
        var id := n.idNorma.value;
        if id !in nodes {
          nodeIds := nodeIds + [id];
        }
        nodes := nodes[id := n];
      }
    }

    /** Appends `(target, kind)` to the forward list of `source` and `(source, kind)` to the reverse list of `target`. */
    method AddRelationship(source: Option<string>, target: string, kind: string)
      requires Valid()
      modifies this
      ensures Valid()
      ensures log == old(log) + [Relationship(source, target, kind)]
      ensures edges == old(edges)[source := Outgoing(old(log), source) + [(target, kind)]]
      ensures reverseEdges == old(reverseEdges)[target := Incoming(old(log), target) + [(source, kind)]]
      ensures nodeIds == old(nodeIds) && nodes == old(nodes)
    {
      var r := Relationship(source, target, kind);
      ForwardIndexAppend(log, r);
      ReverseIndexAppend(log, r);
      AppendInit(log, r);
      var forward: seq<(string, string)> := [];
      if source in edges {
        forward := edges[source];
      } else {
        OutgoingOfUnknown(log, source);
        sources := sources + [source];
      }
      var backward: seq<(Option<string>, string)> := [];
      if target in reverseEdges {
        backward := reverseEdges[target];
      } else {
        IncomingOfUnknown(log, target);
      }
      edges := edges[source := forward + [(target, kind)]];
      reverseEdges := reverseEdges[target := backward + [(source, kind)]];
      log := log + [r];
    }

    /** The `(target, kind)` pairs of the relationships added from `id`, in order of addition. */
    function GetAffectedNorms(id: Option<string>): (r: seq<(string, string)>)
      reads this
      requires Valid()
      ensures r == Outgoing(log, id)
    {
      if id in edges then edges[id]
      else
        OutgoingOfUnknown(log, id);
        []
    }

    /** The `(source, kind)` pairs of the relationships added to `id`, in order of addition. */
    function GetAffectingNorms(id: string): (r: seq<(Option<string>, string)>)
      reads this
      requires Valid()
      ensures r == Incoming(log, id)
    {
      if id in reverseEdges then reverseEdges[id]
      else
        IncomingOfUnknown(log, id);
        []
    }

    /** The stored record of `id`, if any, with both of its adjacency lists. */
    function GetNormLineage(id: string): (r: Lineage)
      reads this
      requires Valid()
      ensures r.norm == (if id in nodeIds then Some(nodes[id]) else None)
      ensures r.affects == Outgoing(log, Some(id)) && r.affectedBy == Incoming(log, id)
    {
      Lineage(if id in nodes then Some(nodes[id]) else None, GetAffectedNorms(Some(id)), GetAffectingNorms(id))
    }

    /** The node ids with an incoming `revoga`, in node order, each once. */
    method FindRevokedNorms() returns (revoked: seq<string>)
      requires Valid()
      ensures revoked == RevokedAmong(nodeIds, log)
      ensures forall x :: x in revoked <==> x in nodeIds && IsRevoked(log, x)
      ensures Distinct(revoked)
    {
      revoked := [];
      var i := 0;
      while i < |nodeIds|
        invariant 0 <= i <= |nodeIds|
        invariant revoked == RevokedAmong(nodeIds[..i], log)
      {
        var id := nodeIds[i];
        var affecting := GetAffectingNorms(id);
        RevokedPrefix(nodeIds, log, i);
        var j := 0;
        while j < |affecting|
          invariant 0 <= j <= |affecting|
          invariant forall m :: 0 <= m < j ==> affecting[m].1 != Revoga
          invariant revoked == RevokedAmong(nodeIds[..i], log)
        {
          if affecting[j].1 == Revoga {
            revoked := revoked + [id];
            break;
          }
          j := j + 1;
        }
        i := i + 1;
      }
      assert nodeIds[..i] == nodeIds;
      StatusPartition(nodeIds, log);
    }

    /** The node ids without an incoming `revoga`, in node order: the complement of the revoked ones. */
    method FindActiveNorms() returns (active: seq<string>)
      requires Valid()
      ensures active == ActiveAmong(nodeIds, log)
      ensures forall x :: x in active <==> x in nodeIds && !IsRevoked(log, x)
      ensures Distinct(active)
    {
      var revokedList := FindRevokedNorms();
      var revoked := set x | x in revokedList;
      forall x | x in nodeIds ensures x in revoked <==> HasRevocation(Incoming(log, x)) {
        RevocationFromLog(log, x);
      }
      active := Without(nodeIds, revoked);
      ActiveByExclusion(nodeIds, log, revoked);
      StatusPartition(nodeIds, log);
    }

    /**
     * For every source with a `consolida` relationship, its `consolida` targets
     * in order of addition, duplicates kept; sources in the key order of `edges`.
     */
    method FindConsolidationChains() returns (chains: Groups)
      requires Valid()
      ensures chains == ChainsFrom(NoGroups, GroupedBy(SourceOrder(log), log))
      ensures chains.Valid()
      ensures forall s :: chains.Lookup(s) == Consolidated(Outgoing(log, s))
      ensures forall s :: s in chains.members <==> exists t :: Relationship(s, t, Consolida) in log
    {
      chains := NoGroups;
      var i := 0;
      while i < |sources|
        invariant 0 <= i <= |sources|
        invariant chains == ChainsFrom(NoGroups, GroupedBy(sources[..i], log))
      {
        var s := sources[i];
        var targets := edges[s];
        assert targets == Outgoing(log, s);
        assert GroupedBy(sources[..i], log) + Tag(s, targets[..0]) == GroupedBy(sources[..i], log);
        var j := 0;
        while j < |targets|
          invariant 0 <= j <= |targets|
          invariant chains == ChainsFrom(NoGroups, GroupedBy(sources[..i], log) + Tag(s, targets[..j]))
        {
          var e := targets[j];
          ChainsAfterPair(GroupedBy(sources[..i], log), s, targets, j);
          if e.1 == Consolida {
            chains := chains.Append(s, e.0);
          }
          j := j + 1;
        }
        assert targets[..j] == targets;
        GroupedByPrefix(sources, log, i);
        i := i + 1;
      }
      assert sources[..i] == sources;
      ConsolidationChainsCorrect(log);
    }

    /** The records with a truthy financial-effect date, stably sorted by that date. */
    method GetFinancialTimeline() returns (timeline: seq<Norm>)
      requires Valid()
      ensures timeline == SortBy(WithFinancialEffect(nodeIds, nodes), FinancialDate)
      ensures SortedBy(timeline, FinancialDate)
      ensures multiset(timeline) == multiset(WithFinancialEffect(nodeIds, nodes))
      ensures forall d :: WithKey(timeline, FinancialDate, d) == WithKey(WithFinancialEffect(nodeIds, nodes), FinancialDate, d)
    {
      var financial: seq<Norm> := [];
      var i := 0;
      while i < |nodeIds|
        invariant 0 <= i <= |nodeIds|
        invariant financial == WithFinancialEffect(nodeIds[..i], nodes)
      {
        var n := nodes[nodeIds[i]];
        assert Init(nodeIds[..i + 1]) == nodeIds[..i];
        if Truthy(n.efeitosFinanceiros) {
          financial := financial + [n];
        }
        i := i + 1;
      }
      assert nodeIds[..i] == nodeIds;
      timeline := SortBy(financial, FinancialDate);
      TimelineCorrect(nodeIds, nodes);
    }

    /** The node ids grouped by theme key, in node order; every id lands in exactly one cluster. */
    method GetThemeClusters() returns (clusters: Groups)
      requires Valid()
      ensures clusters == ThemeClusters(nodeIds, nodes)
      ensures clusters.Valid()
      ensures forall k :: clusters.Lookup(k) == IdsWithTheme(nodeIds, nodes, k)
      ensures forall k :: k in clusters.members <==> IdsWithTheme(nodeIds, nodes, k) != []
      ensures clusters.Size() == |nodeIds|
    {
      clusters := NoGroups;
      var i := 0;
      while i < |nodeIds|
        invariant 0 <= i <= |nodeIds|
        invariant clusters == ThemeClusters(nodeIds[..i], nodes)
      {
        var id := nodeIds[i];
        assert Init(nodeIds[..i + 1]) == nodeIds[..i];
        clusters := clusters.Append(ThemeKey(nodes[id]), id);
        i := i + 1;
      }
      assert nodeIds[..i] == nodeIds;
      ThemeClustersCorrect(nodeIds, nodes);
    }

    /** The `(source, target, kind)` entries of `edges.items()`, source by source. */
    method EdgeEntries() returns (edgeList: seq<Relationship>)
      requires Valid()
      ensures edgeList == GroupedBy(SourceOrder(log), log)
    {
      edgeList := [];
      var i := 0;
      while i < |sources|
        invariant 0 <= i <= |sources|
        invariant edgeList == GroupedBy(sources[..i], log)
      {
        var s := sources[i];
        var targets := edges[s];
        assert Tag(s, targets[..0]) == [];
        var j := 0;
        while j < |targets|
          invariant 0 <= j <= |targets|
          invariant edgeList == GroupedBy(sources[..i], log) + Tag(s, targets[..j])
        {
          assert Init(targets[..j + 1]) == targets[..j];
          edgeList := edgeList + [Relationship(s, targets[j].0, targets[j].1)];
          j := j + 1;
        }
        assert targets[..j] == Outgoing(log, s);
        assert Init(sources[..i + 1]) == sources[..i];
        i := i + 1;
      }
      assert sources[..i] == sources;
    }

    /**
     * One entry per node in node order, one entry per added relationship
     * grouped by source in the key order of `edges`, and the totals.
     */
    method ExportGraphData() returns (data: GraphExport)
      requires Valid()
      ensures |data.nodes| == |nodeIds|
      ensures forall i :: 0 <= i < |nodeIds| ==> data.nodes[i] == NodeEntryOf(nodeIds[i], nodes[nodeIds[i]])
      ensures data.edges == GroupedBy(SourceOrder(log), log)
      ensures multiset(data.edges) == multiset(log)
      ensures data.stats == GraphStats(|nodeIds|, |log|, ThemeClusters(nodeIds, nodes).keys)
    {
      var nodeList: seq<NodeEntry> := [];
      var i := 0;
      while i < |nodeIds|
        invariant 0 <= i <= |nodeIds|
        invariant |nodeList| == i
        invariant forall m :: 0 <= m < i ==> nodeList[m] == NodeEntryOf(nodeIds[m], nodes[nodeIds[m]])
      {
        nodeList := nodeList + [NodeEntryOf(nodeIds[i], nodes[nodeIds[i]])];
        i := i + 1;
      }
      var edgeList := EdgeEntries();
      ExportedEdgesArePermutation(log);
      var clusters := GetThemeClusters();
      data := GraphExport(nodeList, edgeList, GraphStats(|nodeList|, |edgeList|, clusters.keys));
    }

    /**
     * Breadth-first search along the forward lists. Empty when either endpoint
     * is not a node; otherwise a shortest path from `start` to `end` when there
     * is one, and empty only when there is none. Each step of the path is a
     * relationship that was added.
     */
    method FindShortestPath(start: string, end: string) returns (path: seq<string>)
      requires Valid()
      ensures start !in nodes || end !in nodes ==> path == []
      ensures path != [] ==> PathBetween(edges, path, start, end)
      ensures path != [] ==> forall q :: PathBetween(edges, q, start, end) ==> |path| <= |q|
      ensures start in nodes && end in nodes && path == [] ==> forall q :: !PathBetween(edges, q, start, end)
      ensures start in nodes && start == end ==> path == [start]
      ensures forall i :: 0 <= i < |path| - 1 ==> Step(log, path[i], path[i + 1])
    {
      if start !in nodes || end !in nodes {
        return [];
      }
      path := BreadthFirst(edges, start, end);
      if path != [] {
        StepsAreRelationships(log, path);
      }
    }
  }

  /**
   * The search itself, on the forward lists: a shortest path from `start` to
   * `end` when there is one, and empty only when there is none.
   */
  method BreadthFirst(edges: Adjacency, start: string, end: string) returns (path: seq<string>)
    ensures path != [] ==> PathBetween(edges, path, start, end)
    ensures path != [] ==> forall q :: PathBetween(edges, q, start, end) ==> |path| <= |q|
    ensures path == [] ==> forall q :: !PathBetween(edges, q, start, end)
    ensures start == end ==> path == [start]
  {
    var queue: seq<(string, seq<string>)> := [(start, [start])];
    var visited: set<string> := {start};
    ghost var dist: map<string, nat> := map[start := 1];
    ghost var expanded: set<string> := {};
    ghost var universe := Targets(edges) + {start};
    SearchStarts(edges, start, end);
    while queue != []
      invariant visited == dist.Keys && visited <= universe
      invariant Searching(edges, start, end, queue, dist, expanded)
      decreases universe - visited, |queue|
    {
      if queue[0].0 == end {
        ShortestAtHead(edges, start, end, queue, dist, expanded);
        return queue[0].1;
      }
      queue, visited, dist, expanded := ExpandHead(edges, start, end, queue, visited, dist, expanded, universe);
    }
    NoPathWhenExhausted(edges, start, end, dist, expanded);
    return [];
  }

  /** The search starts with the start id queued, reached at distance one, and nothing expanded. */
  lemma SearchStarts(edges: Adjacency, start: string, end: string)
    ensures Searching(edges, start, end, [(start, [start])], map[start := 1], {})
  {
    var queue := [(start, [start])];
    assert QueuedIds(queue) == {start} by {
      assert queue[0].0 == start;
    }
  }

  /**
   * One round of the search: the head of the queue is taken off and expanded.
   * Either a new id is reached or the queue gets shorter.
   */
  method ExpandHead(edges: Adjacency, ghost start: string, ghost end: string, queue0: seq<(string, seq<string>)>,
                    visited0: set<string>, ghost dist0: map<string, nat>, ghost expanded0: set<string>,
                    ghost universe: set<string>)
    returns (queue: seq<(string, seq<string>)>, visited: set<string>, ghost dist: map<string, nat>,
             ghost expanded: set<string>)
    requires visited0 == dist0.Keys && visited0 <= universe && Targets(edges) <= universe
    requires Searching(edges, start, end, queue0, dist0, expanded0)
    requires queue0 != [] && queue0[0].0 != end
    ensures visited == dist.Keys && visited0 <= visited <= universe
    ensures visited == visited0 ==> |queue| < |queue0|
    ensures Searching(edges, start, end, queue, dist, expanded)
  {
    var current, currentPath := queue0[0].0, queue0[0].1;
    StartExpansion(edges, start, end, queue0, dist0, expanded0);
    expanded := expanded0 + {current};
    queue, visited, dist := Expand(edges, start, end, current, currentPath, queue0[1..], visited0, dist0, expanded, universe);
    EndExpansion(edges, start, end, queue, dist, expanded, |currentPath|);
  }

  /**
   * The inner loop of the search: every listed target of `current` not yet
   * visited is marked visited and queued with the path extended by it.
   */
  method Expand(edges: Adjacency, ghost start: string, ghost end: string, current: string, currentPath: seq<string>,
                queue0: seq<(string, seq<string>)>, visited0: set<string>,
                ghost dist0: map<string, nat>, ghost expanded: set<string>, ghost universe: set<string>)
    returns (queue: seq<(string, seq<string>)>, visited: set<string>, ghost dist: map<string, nat>)
    requires visited0 == dist0.Keys && visited0 <= universe && Targets(edges) <= universe
    requires current in expanded && current in dist0 && dist0[current] == |currentPath|
    requires PathBetween(edges, currentPath, start, current)
    requires Layer(edges, start, end, queue0, dist0, expanded, |currentPath|)
    requires ClosedExcept(edges, expanded, dist0, current)
    ensures visited == dist.Keys && visited0 <= visited <= universe
    ensures visited == visited0 ==> queue == queue0
    ensures Layer(edges, start, end, queue, dist, expanded, |currentPath|)
    ensures Closed(edges, expanded, dist)
  {
    queue, visited, dist := queue0, visited0, dist0;
    var len := |currentPath|;
    var adjacent := if Some(current) in edges then edges[Some(current)] else [];
    var j := 0;
    while j < |adjacent|
      invariant 0 <= j <= |adjacent|
      invariant visited == dist.Keys && visited0 <= visited <= universe
      invariant visited == visited0 ==> queue == queue0
      invariant current in dist && dist[current] == len
      invariant Layer(edges, start, end, queue, dist, expanded, len)
      invariant ClosedExcept(edges, expanded, dist, current)
      invariant forall m :: 0 <= m < j ==> adjacent[m].0 in dist && dist[adjacent[m].0] <= len + 1
    {
      var target := adjacent[j].0;
      if target !in visited {
        assert target in Targets(edges);
        PathExtend(edges, currentPath, j);
        LayerPush(edges, start, end, queue, dist, expanded, len, (target, currentPath + [target]));
        ClosedExceptGrows(edges, expanded, dist, current, target, len + 1);
        visited := visited + {target};
        dist := dist[target := len + 1];
        queue := queue + [(target, currentPath + [target])];
      } else if target !in expanded {
        assert target in QueuedIds(queue);
        ghost var k :| 0 <= k < |queue| && queue[k].0 == target;
        assert Entry(edges, queue[k], start, dist);
      }
      j := j + 1;
    }
  }

  /**
   * `build_graph_from_norms`: every record is offered as a node first; then,
   * record by record and key by key (`altera`, `revoga`, `regulamenta`,
   * `consolida`), one relationship per listed target, from the record's id.
   */
  method BuildGraphFromNorms(norms: seq<Norm>) returns (g: NormativeGraph)
    ensures fresh(g) && g.Valid()
    ensures g.nodeIds == NodeOrder(norms) && g.nodes == NodeMap(norms)
    ensures g.log == RelationshipsOf(norms)
    ensures |g.log| == ListedTargets(norms)
  {
    g := new NormativeGraph();
    var i := 0;
    while i < |norms|
      invariant 0 <= i <= |norms|
      invariant fresh(g) && g.Valid()
      invariant g.nodeIds == NodeOrder(norms[..i]) && g.nodes == NodeMap(norms[..i]) && g.log == []
    {
      assert Init(norms[..i + 1]) == norms[..i] && Last(norms[..i + 1]) == norms[i];
      g.AddNorm(norms[i]);
      i := i + 1;
    }
    assert norms[..i] == norms;
    i := 0;
    while i < |norms|
      invariant 0 <= i <= |norms|
      invariant fresh(g) && g.Valid()
      invariant g.nodeIds == NodeOrder(norms) && g.nodes == NodeMap(norms)
      invariant g.log == RelationshipsOf(norms[..i])
    {
      AddRelationshipsOf(g, norms[i], RelationKinds);
      RelationshipsOfPrefix(norms, i);
      i := i + 1;
    }
    assert norms[..i] == norms;
    RelationshipsOfCount(norms);
  }

  /** The relationships of one record, key by key. */
  method AddRelationshipsOf(g: NormativeGraph, n: Norm, kinds: seq<string>)
    requires g.Valid()
    modifies g
    ensures g.Valid()
    ensures g.nodeIds == old(g.nodeIds) && g.nodes == old(g.nodes)
    ensures g.log == old(g.log) + RelsOfKinds(n, kinds)
  {
    var k := 0;
    while k < |kinds|
      invariant 0 <= k <= |kinds|
      invariant g.Valid()
      invariant g.nodeIds == old(g.nodeIds) && g.nodes == old(g.nodes)
      invariant g.log == old(g.log) + RelsOfKinds(n, kinds[..k])
    {
      var kind := kinds[k];
      AddTargets(g, n.idNorma, RelationTargets(n, kind), kind);
      RelsOfKindsPrefix(n, kinds, k);
      k := k + 1;
    }
    assert kinds[..k] == kinds;
  }

  /** One relationship per listed target, in list order. */
  method AddTargets(g: NormativeGraph, source: Option<string>, targets: seq<string>, kind: string)
    requires g.Valid()
    modifies g
    ensures g.Valid()
    ensures g.nodeIds == old(g.nodeIds) && g.nodes == old(g.nodes)
    ensures g.log == old(g.log) + Rels(source, targets, kind)
  {
    var t := 0;
    while t < |targets|
      invariant 0 <= t <= |targets|
      invariant g.Valid()
      invariant g.nodeIds == old(g.nodeIds) && g.nodes == old(g.nodes)
      invariant g.log == old(g.log) + Rels(source, targets[..t], kind)
    {
      assert Init(targets[..t + 1]) == targets[..t];
      g.AddRelationship(source, targets[t], kind);
      t := t + 1;
    }
    assert targets[..t] == targets;
  }

  /** A queue entry: a path from `start` to the entry's id, as long as the id's recorded distance. */
  ghost predicate Entry(edges: Adjacency, e: (string, seq<string>), start: string, dist: map<string, nat>)
  {
    IsPath(edges, e.1) && e.1[0] == start && e.1[|e.1| - 1] == e.0 && e.0 in dist && dist[e.0] == |e.1|
  }

  /** Every listed target of an expanded id is reached, at most one step further from the start. */
  ghost predicate Closed(edges: Adjacency, expanded: set<string>, dist: map<string, nat>)
  {
    expanded <= dist.Keys &&
    forall u, w :: u in expanded && Succ(edges, u, w) ==> w in dist && dist[w] <= dist[u] + 1
  }

  /** `Closed`, for every expanded id but `current`. */
  ghost predicate ClosedExcept(edges: Adjacency, expanded: set<string>, dist: map<string, nat>, current: string)
  {
    expanded <= dist.Keys &&
    forall u, w :: u in expanded && u != current && Succ(edges, u, w) ==> w in dist && dist[w] <= dist[u] + 1
  }

  /**
   * What holds between two expansions: the start is at distance 1, the end is
   * never expanded, every reached id not yet expanded waits in the queue, queue
   * entries are valid paths whose lengths never fall and span at most one step,
   * and expanded ids are no further than the head of the queue.
   */
  ghost predicate Searching(edges: Adjacency, start: string, end: string, queue: seq<(string, seq<string>)>,
                            dist: map<string, nat>, expanded: set<string>)
  {
    start in dist && dist[start] == 1 && expanded <= dist.Keys && end !in expanded &&
    (forall i :: 0 <= i < |queue| ==> Entry(edges, queue[i], start, dist)) &&
    (forall i, j :: 0 <= i <= j < |queue| ==> |queue[i].1| <= |queue[j].1| <= |queue[i].1| + 1) &&
    dist.Keys - expanded <= QueuedIds(queue) &&
    (queue != [] ==> forall u :: u in expanded ==> dist[u] <= |queue[0].1|) &&
    Closed(edges, expanded, dist)
  }

  /** What holds while the ids at distance `len` are expanded. */
  ghost predicate Layer(edges: Adjacency, start: string, end: string, queue: seq<(string, seq<string>)>,
                        dist: map<string, nat>, expanded: set<string>, len: nat)
  {
    start in dist && dist[start] == 1 && expanded <= dist.Keys && end !in expanded &&
    (forall i :: 0 <= i < |queue| ==> Entry(edges, queue[i], start, dist)) &&
    (forall i :: 0 <= i < |queue| ==> len <= |queue[i].1| <= len + 1) &&
    (forall i, j :: 0 <= i <= j < |queue| ==> |queue[i].1| <= |queue[j].1|) &&
    dist.Keys - expanded <= QueuedIds(queue) &&
    (forall u :: u in expanded ==> dist[u] <= len)
  }

  /** Queuing a newly reached id one step beyond the layer keeps the layer's facts. */
  lemma LayerPush(edges: Adjacency, start: string, end: string, queue: seq<(string, seq<string>)>,
                  dist: map<string, nat>, expanded: set<string>, len: nat, e: (string, seq<string>))
    requires Layer(edges, start, end, queue, dist, expanded, len)
    requires e.0 !in dist && |e.1| == len + 1
    requires IsPath(edges, e.1) && e.1[0] == start && e.1[|e.1| - 1] == e.0
    ensures Layer(edges, start, end, queue + [e], dist[e.0 := len + 1], expanded, len)
  {
    var q, d := queue + [e], dist[e.0 := len + 1];
    QueuedIdsAppend(queue, e);
    forall i | 0 <= i < |q| ensures Entry(edges, q[i], start, d) {
      if i < |queue| {
        assert q[i] == queue[i] && Entry(edges, queue[i], start, dist);
      }
    }
  }

  /** Reaching a new id changes no recorded distance, so the closure facts stay. */
  lemma ClosedExceptGrows(edges: Adjacency, expanded: set<string>, dist: map<string, nat>, current: string,
                          target: string, n: nat)
    requires ClosedExcept(edges, expanded, dist, current) && expanded <= dist.Keys && target !in dist
    ensures ClosedExcept(edges, expanded, dist[target := n], current)
  {
  }

  /** The head of the queue, when it is the end, carries a shortest path to it. */
  lemma ShortestAtHead(edges: Adjacency, start: string, end: string, queue: seq<(string, seq<string>)>,
                       dist: map<string, nat>, expanded: set<string>)
    requires Searching(edges, start, end, queue, dist, expanded)
    requires queue != [] && queue[0].0 == end
    ensures PathBetween(edges, queue[0].1, start, end)
    ensures forall q :: PathBetween(edges, q, start, end) ==> |queue[0].1| <= |q|
    ensures start == end ==> queue[0].1 == [start]
  {
    var len := |queue[0].1|;
    assert Entry(edges, queue[0], start, dist);
    forall v | v in dist && v !in expanded ensures dist[v] >= len {
      assert v in QueuedIds(queue);
      var i :| 0 <= i < |queue| && queue[i].0 == v;
      assert Entry(edges, queue[i], start, dist);
    }
    forall q | PathBetween(edges, q, start, end) ensures len <= |q| {
      if |q| <= len {
        Reached(edges, start, dist, expanded, len, q, |q| - 1);
      }
    }
    if start == end {
      assert PathBetween(edges, [start], start, end);
      assert queue[0].1 == [start];
    }
  }

  /** Popping the head and marking it expanded opens the layer of its distance. */
  lemma StartExpansion(edges: Adjacency, start: string, end: string, queue: seq<(string, seq<string>)>,
                       dist: map<string, nat>, expanded: set<string>)
    requires Searching(edges, start, end, queue, dist, expanded)
    requires queue != [] && queue[0].0 != end
    ensures queue[0].0 in dist && dist[queue[0].0] == |queue[0].1|
    ensures PathBetween(edges, queue[0].1, start, queue[0].0)
    ensures Layer(edges, start, end, queue[1..], dist, expanded + {queue[0].0}, |queue[0].1|)
    ensures ClosedExcept(edges, expanded + {queue[0].0}, dist, queue[0].0)
  {
    var current, rest := queue[0].0, queue[1..];
    assert Entry(edges, queue[0], start, dist);
    QueuedIdsPop(queue);
    forall v | v in dist.Keys - (expanded + {current}) ensures v in QueuedIds(rest) {
      assert v in QueuedIds(queue);
    }
    forall i | 0 <= i < |rest| ensures Entry(edges, rest[i], start, dist) {
      assert rest[i] == queue[i + 1];
    }
    forall i | 0 <= i < |rest| ensures |queue[0].1| <= |rest[i].1| <= |queue[0].1| + 1 {
      assert rest[i] == queue[i + 1];
    }
    forall i, j | 0 <= i <= j < |rest| ensures |rest[i].1| <= |rest[j].1| {
      assert rest[i] == queue[i + 1] && rest[j] == queue[j + 1];
    }
  }

  /** Once the layer is expanded, the search facts hold for the grown queue. */
  lemma EndExpansion(edges: Adjacency, start: string, end: string, queue: seq<(string, seq<string>)>,
                     dist: map<string, nat>, expanded: set<string>, len: nat)
    requires Layer(edges, start, end, queue, dist, expanded, len)
    requires Closed(edges, expanded, dist)
    ensures Searching(edges, start, end, queue, dist, expanded)
  {
  }

  /** An exhausted queue means every reached id was expanded, so the end is unreachable. */
  lemma NoPathWhenExhausted(edges: Adjacency, start: string, end: string, dist: map<string, nat>, expanded: set<string>)
    requires Searching(edges, start, end, [], dist, expanded)
    ensures forall q :: !PathBetween(edges, q, start, end)
    ensures start != end
  {
    assert QueuedIds([]) == {};
    forall v | v in dist ensures v in expanded {
      assert v !in dist.Keys - expanded;
    }
    forall q | IsPath(edges, q) && q[0] == start ensures q[|q| - 1] in expanded {
      Reached(edges, start, dist, expanded, |q|, q, |q| - 1);
    }
  }
}
