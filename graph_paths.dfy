/**
 * Paths along the forward adjacency dictionary of a normative graph, and the
 * facts behind the breadth-first search of `find_shortest_path`.
 */
module GraphPaths {
  import opened Wrappers
  import opened Sequences
  import opened GraphLog

  /** The forward adjacency dictionary: source id to `(target, kind)` pairs. */
  type Adjacency = map<Option<string>, seq<(string, string)>>

  /** `w` is listed among the targets of `u`. */
  ghost predicate Succ(edges: Adjacency, u: string, w: string)
  {
    Some(u) in edges && exists j :: 0 <= j < |edges[Some(u)]| && edges[Some(u)][j].0 == w
  }

  /** A non-empty walk whose every step follows a listed edge. */
  ghost predicate IsPath(edges: Adjacency, p: seq<string>)
  {
    |p| >= 1 && forall i :: 0 <= i < |p| - 1 ==> Succ(edges, p[i], p[i + 1])
  }

  /** A path from `a` to `b`. */
  ghost predicate PathBetween(edges: Adjacency, p: seq<string>, a: string, b: string)
  {
    IsPath(edges, p) && p[0] == a && p[|p| - 1] == b
  }

  /** Every id listed as a target. */
  ghost function Targets(edges: Adjacency): set<string>
  {
    set s, j | s in edges && 0 <= j < |edges[s]| :: edges[s][j].0
  }

  /** The ids waiting in a search queue. */
  ghost function QueuedIds(queue: seq<(string, seq<string>)>): set<string>
  {
    set i | 0 <= i < |queue| :: queue[i].0
  }

  lemma QueuedIdsAppend(queue: seq<(string, seq<string>)>, e: (string, seq<string>))
    ensures QueuedIds(queue + [e]) == QueuedIds(queue) + {e.0}
  {
    var q := queue + [e];
    forall x | x in QueuedIds(q) ensures x in QueuedIds(queue) + {e.0} {
      var i :| 0 <= i < |q| && q[i].0 == x;
      if i < |queue| {
        assert queue[i].0 == x;
      }
    }
    forall x | x in QueuedIds(queue) + {e.0} ensures x in QueuedIds(q) {
      if x == e.0 {
        assert q[|queue|].0 == x;
      } else {
        var i :| 0 <= i < |queue| && queue[i].0 == x;
        assert q[i].0 == x;
      }
    }
  }

  lemma QueuedIdsPop(queue: seq<(string, seq<string>)>)
    requires queue != []
    ensures QueuedIds(queue) == {queue[0].0} + QueuedIds(queue[1..])
  {
    var rest := queue[1..];
    forall x | x in QueuedIds(queue) ensures x in {queue[0].0} + QueuedIds(rest) {
      var i :| 0 <= i < |queue| && queue[i].0 == x;
      if i > 0 {
        assert rest[i - 1].0 == x;
      }
    }
    forall x | x in {queue[0].0} + QueuedIds(rest) ensures x in QueuedIds(queue) {
      if x == queue[0].0 {
        assert queue[0].0 == x;
      } else {
        var i :| 0 <= i < |rest| && rest[i].0 == x;
        assert queue[i + 1].0 == x;
      }
    }
  }

  /** A path extended by a listed edge out of its last id is a path. */
  lemma PathExtend(edges: Adjacency, p: seq<string>, j: nat)
    requires IsPath(edges, p) && Some(p[|p| - 1]) in edges
    requires j < |edges[Some(p[|p| - 1])]|
    ensures IsPath(edges, p + [edges[Some(p[|p| - 1])][j].0])
  {
    var q := p + [edges[Some(p[|p| - 1])][j].0];
    forall i | 0 <= i < |q| - 1 ensures Succ(edges, q[i], q[i + 1]) {
      if i < |p| - 1 {
        assert q[i] == p[i] && q[i + 1] == p[i + 1];
      } else {
        assert q[i] == p[|p| - 1];
      }
    }
  }

  /**
   * The breadth-first bound: when every id reached but not yet expanded lies at
   * least `b` steps from `start`, and every expanded id has its listed targets
   * reached one step further at most, then the first `b` ids of any path from
   * `start` are reached no later than their position along the path.
   */
  lemma {:induction false} Reached(edges: Adjacency, start: string, dist: map<string, nat>,
                                   expanded: set<string>, b: nat, p: seq<string>, i: nat)
    requires start in dist && dist[start] == 1
    requires expanded <= dist.Keys
    requires forall u, w :: u in expanded && Succ(edges, u, w) ==> w in dist && dist[w] <= dist[u] + 1
    requires forall v :: v in dist && v !in expanded ==> dist[v] >= b
    requires IsPath(edges, p) && p[0] == start
    requires i < |p| && i < b
    ensures p[i] in dist && dist[p[i]] <= i + 1
    decreases i
  {
    if i > 0 {
      Reached(edges, start, dist, expanded, b, p, i - 1);
      assert Succ(edges, p[i - 1], p[i]);
    }
  }

  /** The listed targets of `u` are exactly the targets of the relationships added from `u`. */
  lemma SuccFromLog(log: seq<Relationship>, u: string, w: string)
    ensures Succ(ForwardIndex(log), u, w) <==> exists k :: Relationship(Some(u), w, k) in log
  {
    var edges := ForwardIndex(log);
    SourceOrderMembers(log);
    if Succ(edges, u, w) {
      var j :| 0 <= j < |edges[Some(u)]| && edges[Some(u)][j].0 == w;
      var e := edges[Some(u)][j];
      OutgoingCounts(log, Some(u), w, e.1);
      assert e in multiset(Outgoing(log, Some(u)));
      assert Relationship(Some(u), w, e.1) in multiset(log);
    }
    if exists k :: Relationship(Some(u), w, k) in log {
      var k :| Relationship(Some(u), w, k) in log;
      OutgoingCounts(log, Some(u), w, k);
      assert Relationship(Some(u), w, k) in multiset(log);
      assert (w, k) in multiset(Outgoing(log, Some(u)));
      var out := Outgoing(log, Some(u));
      var j :| 0 <= j < |out| && out[j] == (w, k);
      assert edges[Some(u)][j].0 == w;
    }
  }

  /** Some relationship from `u` to `w` was added. */
  ghost predicate Step(log: seq<Relationship>, u: string, w: string)
  {
    exists r :: r in log && r.source == Some(u) && r.target == w
  }

  /** Each step of a path along the forward lists is a relationship that was added. */
  lemma StepsAreRelationships(log: seq<Relationship>, p: seq<string>)
    requires IsPath(ForwardIndex(log), p)
    ensures forall i :: 0 <= i < |p| - 1 ==> Step(log, p[i], p[i + 1])
  {
    forall i | 0 <= i < |p| - 1 ensures Step(log, p[i], p[i + 1]) {
      SuccFromLog(log, p[i], p[i + 1]);
      var k :| Relationship(Some(p[i]), p[i + 1], k) in log;
      assert Relationship(Some(p[i]), p[i + 1], k).source == Some(p[i]);
    }
  }
}
