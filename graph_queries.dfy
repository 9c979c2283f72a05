/**
 * The derived queries of the normative graph, stated as functions of its node
 * list and of its relationship log, with the properties they promise.
 */
module GraphQueries {
  import opened Wrappers
  import opened Sequences
  import opened Norms
  import opened GraphLog
  import opened Grouping

  // ---------------------------------------------------------------------------
  // Revoked and active norms

  /** Some entry of a reverse adjacency list has kind `revoga`. */
  predicate HasRevocation(incoming: seq<(Option<string>, string)>)
  {
    exists j :: 0 <= j < |incoming| && incoming[j].1 == Revoga
  }

  /** Some recorded relationship of kind `revoga` targets `id`. */
  ghost predicate IsRevoked(log: seq<Relationship>, id: string)
  {
    exists r :: r in log && r.target == id && r.kind == Revoga
  }

  /** The ids among `ids` with an incoming `revoga`, in order. */
  function RevokedAmong(ids: seq<string>, log: seq<Relationship>): seq<string>
  {
    if ids == [] then []
    else RevokedAmong(Init(ids), log) + (if HasRevocation(Incoming(log, Last(ids))) then [Last(ids)] else [])
  }

  /** The ids among `ids` without an incoming `revoga`, in order. */
  function ActiveAmong(ids: seq<string>, log: seq<Relationship>): seq<string>
  {
    if ids == [] then []
    else ActiveAmong(Init(ids), log) + (if HasRevocation(Incoming(log, Last(ids))) then [] else [Last(ids)])
  }

  /** `[x for x in ids if x not in excluded]` */
  function Without(ids: seq<string>, excluded: set<string>): seq<string>
  {
    if ids == [] then []
    else Without(Init(ids), excluded) + (if Last(ids) in excluded then [] else [Last(ids)])
  }

  /** The reverse list of `id` shows a revocation exactly when the log holds one targeting `id`. */
  lemma RevocationFromLog(log: seq<Relationship>, id: string)
    ensures HasRevocation(Incoming(log, id)) <==> IsRevoked(log, id)
  {
    var incoming := Incoming(log, id);
    if HasRevocation(incoming) {
      var j :| 0 <= j < |incoming| && incoming[j].1 == Revoga;
      var s := incoming[j].0;
      IncomingCounts(log, s, id, Revoga);
      assert incoming[j] in multiset(incoming);
      assert Relationship(s, id, Revoga) in multiset(log);
    }
    if IsRevoked(log, id) {
      var r :| r in log && r.target == id && r.kind == Revoga;
      IncomingCounts(log, r.source, id, Revoga);
      assert r == Relationship(r.source, id, Revoga);
      assert r in multiset(log);
      assert (r.source, Revoga) in multiset(incoming);
      var j :| 0 <= j < |incoming| && incoming[j] == (r.source, Revoga);
    }
  }

  /**
   * The status partition: the revoked ids are exactly the listed ids with an
   * incoming `revoga`, the active ids are the others, and together they account
   * for every listed id once. An id outside `ids` is never reported as revoked.
   */
  lemma StatusPartition(ids: seq<string>, log: seq<Relationship>)
    ensures forall x :: x in RevokedAmong(ids, log) <==> x in ids && IsRevoked(log, x)
    ensures forall x :: x in ActiveAmong(ids, log) <==> x in ids && !IsRevoked(log, x)
    ensures |RevokedAmong(ids, log)| + |ActiveAmong(ids, log)| == |ids|
    ensures Distinct(ids) ==> Distinct(RevokedAmong(ids, log)) && Distinct(ActiveAmong(ids, log))
  {
    StatusMembers(ids, log);
    forall x ensures x in RevokedAmong(ids, log) <==> x in ids && IsRevoked(log, x) {
      RevocationFromLog(log, x);
    }
    forall x ensures x in ActiveAmong(ids, log) <==> x in ids && !IsRevoked(log, x) {
      RevocationFromLog(log, x);
    }
    StatusSizes(ids, log);
    if Distinct(ids) {
      StatusDistinct(ids, log);
    }
  }

  /** Membership by the reverse list: revoked ids have a `revoga` entry, active ids none. */
  lemma {:induction false} StatusMembers(ids: seq<string>, log: seq<Relationship>)
    ensures forall x :: x in RevokedAmong(ids, log) <==> x in ids && HasRevocation(Incoming(log, x))
    ensures forall x :: x in ActiveAmong(ids, log) <==> x in ids && !HasRevocation(Incoming(log, x))
  {
    if ids != [] {
      StatusMembers(Init(ids), log);
      assert ids == Init(ids) + [Last(ids)];
    }
  }

  lemma {:induction false} StatusSizes(ids: seq<string>, log: seq<Relationship>)
    ensures |RevokedAmong(ids, log)| + |ActiveAmong(ids, log)| == |ids|
  {
    if ids != [] {
      StatusSizes(Init(ids), log);
    }
  }

  lemma {:induction false} StatusDistinct(ids: seq<string>, log: seq<Relationship>)
    requires Distinct(ids)
    ensures Distinct(RevokedAmong(ids, log)) && Distinct(ActiveAmong(ids, log))
  {
    if ids != [] {
      var init, x := Init(ids), Last(ids);
      DistinctInit(ids);
      StatusDistinct(init, log);
      StatusMembers(init, log);
      var r, a := RevokedAmong(init, log), ActiveAmong(init, log);
      assert x !in r && x !in a;
      assert forall k :: 0 <= k < |r| ==> r[k] != x by {
        forall k | 0 <= k < |r| ensures r[k] != x {
          assert r[k] in r;
        }
      }
      assert forall k :: 0 <= k < |a| ==> a[k] != x by {
        forall k | 0 <= k < |a| ensures a[k] != x {
          assert a[k] in a;
        }
      }
    }
  }

  /** The ids revoked among the first `i + 1`: those among the first `i`, then id `i` if it is revoked. */
  lemma RevokedPrefix(ids: seq<string>, log: seq<Relationship>, i: int)
    requires 0 <= i < |ids|
    ensures RevokedAmong(ids[..i + 1], log) ==
            RevokedAmong(ids[..i], log) + (if HasRevocation(Incoming(log, ids[i])) then [ids[i]] else [])
  {
    assert Init(ids[..i + 1]) == ids[..i] && Last(ids[..i + 1]) == ids[i];
  }

  /** Dropping the revoked ids from `ids` leaves the active ones. */
  lemma {:induction false} ActiveByExclusion(ids: seq<string>, log: seq<Relationship>, excluded: set<string>)
    requires forall x :: x in ids ==> (x in excluded <==> HasRevocation(Incoming(log, x)))
    ensures Without(ids, excluded) == ActiveAmong(ids, log)
  {
    if ids != [] {
      ActiveByExclusion(Init(ids), log, excluded);
      assert Last(ids) in ids;
    }
  }

  // ---------------------------------------------------------------------------
  // The edge list in dictionary order, and consolidation chains

  /** `(target, kind)` pairs of one source as `(source, target, kind)` entries. */
  function Tag(s: Option<string>, adjacent: seq<(string, string)>): seq<Relationship>
  {
    if adjacent == [] then []
    else Tag(s, Init(adjacent)) + [Relationship(s, Last(adjacent).0, Last(adjacent).1)]
  }

  /** The forward lists of `keys`, one after the other: how `edges.items()` is walked. */
  function GroupedBy(keys: seq<Option<string>>, log: seq<Relationship>): seq<Relationship>
  {
    if keys == [] then []
    else GroupedBy(Init(keys), log) + Tag(Last(keys), Outgoing(log, Last(keys)))
  }

  lemma {:induction false} TagGrows(s: Option<string>, adjacent: seq<(string, string)>, e: (string, string))
    ensures Tag(s, adjacent + [e]) == Tag(s, adjacent) + [Relationship(s, e.0, e.1)]
  {
    assert Init(adjacent + [e]) == adjacent;
  }

  lemma {:induction false} GroupedByIgnores(keys: seq<Option<string>>, log: seq<Relationship>, r: Relationship)
    requires r.source !in keys
    ensures GroupedBy(keys, log + [r]) == GroupedBy(keys, log)
  {
    if keys != [] {
      var init, k := Init(keys), Last(keys);
      assert keys == init + [k];
      GroupedByIgnores(init, log, r);
      OutgoingAfterAppend(log, r, k);
      assert Outgoing(log + [r], k) == Outgoing(log, k);
    }
  }

  /** A relationship from the last listed source lands at the end of the walk. */
  lemma GroupedByGrowsAtLast(keys: seq<Option<string>>, log: seq<Relationship>, r: Relationship)
    requires keys != [] && Last(keys) == r.source && r.source !in Init(keys)
    ensures GroupedBy(keys, log + [r]) == GroupedBy(keys, log) + [r]
  {
    var init, k := Init(keys), Last(keys);
    GroupedByIgnores(init, log, r);
    OutgoingAfterAppend(log, r, k);
    TagGrows(k, Outgoing(log, k), (r.target, r.kind));
  }

  /** A relationship from another source leaves the last source's part of the walk alone. */
  lemma GroupedBySkipsLast(keys: seq<Option<string>>, log: seq<Relationship>, r: Relationship)
    requires keys != [] && Last(keys) != r.source
    ensures GroupedBy(keys, log + [r]) == GroupedBy(Init(keys), log + [r]) + Tag(Last(keys), Outgoing(log, Last(keys)))
  {
    var k, after := Last(keys), log + [r];
    assert GroupedBy(keys, after) == GroupedBy(Init(keys), after) + Tag(k, Outgoing(after, k));
    OutgoingAfterAppend(log, r, k);
    var same := Outgoing(log, k);
    assert same + [] == same;
    assert Tag(k, Outgoing(after, k)) == Tag(k, same);
  }

  lemma {:induction false} GroupedByGrows(keys: seq<Option<string>>, log: seq<Relationship>, r: Relationship)
    requires Distinct(keys) && r.source in keys
    ensures multiset(GroupedBy(keys, log + [r])) == multiset(GroupedBy(keys, log)) + multiset{r}
  {
    var init, k := Init(keys), Last(keys);
    DistinctInit(keys);
    if k == r.source {
      GroupedByGrowsAtLast(keys, log, r);
    } else {
      assert r.source in init by {
        assert keys == init + [k];
      }
      GroupedByGrows(init, log, r);
      GroupedBySkipsLast(keys, log, r);
    }
  }

  /**
   * The exported edge list is a permutation of the relationships added: each
   * `add_relationship` call yields exactly one entry.
   */
  lemma {:induction false} ExportedEdgesArePermutation(log: seq<Relationship>)
    ensures multiset(GroupedBy(SourceOrder(log), log)) == multiset(log)
    ensures |GroupedBy(SourceOrder(log), log)| == |log|
  {
    if log != [] {
      var init, r := Init(log), Last(log);
      ExportedEdgesArePermutation(init);
      LogSplit(log);
      AppendInit(init, r);
      SourceOrderMembers(init);
      if r.source in SourceOrder(init) {
        GroupedByGrows(SourceOrder(init), init, r);
      } else {
        var order := SourceOrder(init);
        assert Init(order + [r.source]) == order && Last(order + [r.source]) == r.source;
        GroupedByIgnores(order, init, r);
        OutgoingOfUnknown(init, r.source);
        OutgoingAfterAppend(init, r, r.source);
        TagGrows(r.source, [], (r.target, r.kind));
      }
      assert |GroupedBy(SourceOrder(log), log)| == |multiset(GroupedBy(SourceOrder(log), log))|;
    }
  }

  /** The targets of the `consolida` entries of a forward list, in order, duplicates kept. */
  function Consolidated(adjacent: seq<(string, string)>): seq<string>
  {
    if adjacent == [] then []
    else Consolidated(Init(adjacent)) + (if Last(adjacent).1 == Consolida then [Last(adjacent).0] else [])
  }

  /** One step of the `find_consolidation_chains` loop. */
  function ChainStep(g: Groups, r: Relationship): Groups
  {
    if r.kind == Consolida then g.Append(r.source, r.target) else g
  }

  /** The `find_consolidation_chains` loop, run from `g` over `rels`. */
  function ChainsFrom(g: Groups, rels: seq<Relationship>): Groups
  {
    if rels == [] then g else ChainStep(ChainsFrom(g, Init(rels)), Last(rels))
  }

  /** The chains dictionary in closed form: one key per listed source with a `consolida` edge. */
  function ClosedChains(keys: seq<Option<string>>, log: seq<Relationship>): Groups
  {
    if keys == [] then NoGroups
    else
      var g := ClosedChains(Init(keys), log);
      var c := Consolidated(Outgoing(log, Last(keys)));
      if c == [] then g else Groups(g.keys + [Last(keys)], g.members[Last(keys) := c])
  }

  lemma {:induction false} ChainsFromConcat(g: Groups, a: seq<Relationship>, b: seq<Relationship>)
    ensures ChainsFrom(g, a + b) == ChainsFrom(ChainsFrom(g, a), b)
  {
    if b != [] {
      ChainsFromConcat(g, a, Init(b));
      assert Init(a + b) == a + Init(b) && Last(a + b) == Last(b);
    } else {
      assert a + b == a;
    }
  }

  lemma {:induction false} ChainsFromTag(g: Groups, s: Option<string>, adjacent: seq<(string, string)>)
    requires s !in g.members
    ensures ChainsFrom(g, Tag(s, adjacent)) ==
      if Consolidated(adjacent) == [] then g else Groups(g.keys + [s], g.members[s := Consolidated(adjacent)])
  {
    if adjacent != [] {
      var init, e := Init(adjacent), Last(adjacent);
      ChainsFromTag(g, s, init);
      TagGrows(s, init, e);
      assert adjacent == init + [e];
      var rel := Relationship(s, e.0, e.1);
      assert Init(Tag(s, init) + [rel]) == Tag(s, init) && Last(Tag(s, init) + [rel]) == rel;
      var before := ChainsFrom(g, Tag(s, init));
      assert ChainsFrom(g, Tag(s, adjacent)) == ChainStep(before, rel);
      assert Consolidated(adjacent) == Consolidated(init) + (if e.1 == Consolida then [e.0] else []);
      if e.1 == Consolida {
        if Consolidated(init) == [] {
          assert before == g && g.Lookup(s) == [];
          var after := before.Append(s, e.0);
          assert after.keys == g.keys + [s];
          assert after.members == g.members[s := [] + [e.0]];
          assert [] + [e.0] == [e.0];
          assert Consolidated(adjacent) == [e.0];
          assert ChainStep(before, rel) == after;
          assert after == Groups(g.keys + [s], g.members[s := Consolidated(adjacent)]);
        } else {
          assert s in before.members && before.Lookup(s) == Consolidated(init);
          var after := before.Append(s, e.0);
          assert after.keys == g.keys + [s];
          assert after.members == g.members[s := Consolidated(init)][s := Consolidated(init) + [e.0]];
          assert after.members == g.members[s := Consolidated(adjacent)];
          assert ChainStep(before, rel) == after;
        }
      } else {
        assert ChainStep(before, rel) == before;
        assert Consolidated(adjacent) == Consolidated(init);
      }
    }
  }

  lemma {:induction false} ClosedChainsKeys(keys: seq<Option<string>>, log: seq<Relationship>)
    ensures forall k :: k in ClosedChains(keys, log).members ==> k in keys
    ensures forall k :: k in ClosedChains(keys, log).members <==> k in ClosedChains(keys, log).keys
  {
    if keys != [] {
      ClosedChainsKeys(Init(keys), log);
      assert keys == Init(keys) + [Last(keys)];
    }
  }

  /** Walking the forward lists in key order builds the closed-form chains. */
  lemma {:induction false} ChainsOfGrouped(keys: seq<Option<string>>, log: seq<Relationship>)
    requires Distinct(keys)
    ensures ChainsFrom(NoGroups, GroupedBy(keys, log)) == ClosedChains(keys, log)
  {
    if keys != [] {
      var init, k := Init(keys), Last(keys);
      assert keys == init + [k];
      DistinctInit(keys);
      ChainsOfGrouped(init, log);
      ClosedChainsKeys(init, log);
      ChainsFromConcat(NoGroups, GroupedBy(init, log), Tag(k, Outgoing(log, k)));
      ChainsFromTag(ClosedChains(init, log), k, Outgoing(log, k));
    }
  }

  lemma {:induction false} ClosedChainsCorrect(keys: seq<Option<string>>, log: seq<Relationship>)
    requires Distinct(keys)
    ensures ClosedChains(keys, log).Valid()
    ensures forall s :: ClosedChains(keys, log).Lookup(s) == if s in keys then Consolidated(Outgoing(log, s)) else []
    ensures forall s :: s in ClosedChains(keys, log).members <==> s in keys && Consolidated(Outgoing(log, s)) != []
  {
    if keys != [] {
      var init, k := Init(keys), Last(keys);
      assert keys == init + [k];
      DistinctInit(keys);
      ClosedChainsCorrect(init, log);
      ClosedChainsKeys(init, log);
    }
  }

  /** Each occurrence of `(t, 'consolida')` in a forward list gives one entry `t`. */
  lemma {:induction false} ConsolidatedCounts(adjacent: seq<(string, string)>, t: string)
    ensures multiset(Consolidated(adjacent))[t] == multiset(adjacent)[(t, Consolida)]
  {
    if adjacent != [] {
      ConsolidatedCounts(Init(adjacent), t);
      assert adjacent == Init(adjacent) + [Last(adjacent)];
    }
  }

  /** A source has a non-empty chain exactly when some `consolida` relationship leaves it. */
  lemma ChainNonEmpty(log: seq<Relationship>, s: Option<string>)
    ensures Consolidated(Outgoing(log, s)) != [] <==> exists t :: Relationship(s, t, Consolida) in log
  {
    var c := Consolidated(Outgoing(log, s));
    if c != [] {
      ConsolidatedCounts(Outgoing(log, s), c[0]);
      OutgoingCounts(log, s, c[0], Consolida);
      assert c[0] in multiset(c);
      assert Relationship(s, c[0], Consolida) in multiset(log);
    }
    if exists t :: Relationship(s, t, Consolida) in log {
      var t :| Relationship(s, t, Consolida) in log;
      ConsolidatedCounts(Outgoing(log, s), t);
      OutgoingCounts(log, s, t, Consolida);
      assert Relationship(s, t, Consolida) in multiset(log);
      assert t in multiset(c);
    }
  }

  /** Duplicates are kept: `t` is listed under `s` once per `consolida` relationship from `s` to `t`. */
  lemma ChainCounts(log: seq<Relationship>, s: Option<string>, t: string)
    ensures multiset(Consolidated(Outgoing(log, s)))[t] == Occurrences(log, Relationship(s, t, Consolida))
  {
    ConsolidatedCounts(Outgoing(log, s), t);
    OutgoingCounts(log, s, t, Consolida);
  }

  /**
   * `find_consolidation_chains`: a source is a key exactly when it has a
   * `consolida` relationship, and it maps to its consolidated targets in
   * insertion order (see ChainCounts for their multiplicity).
   */
  lemma ConsolidationChainsCorrect(log: seq<Relationship>)
    ensures ChainsFrom(NoGroups, GroupedBy(SourceOrder(log), log)).Valid()
    ensures forall s :: ChainsFrom(NoGroups, GroupedBy(SourceOrder(log), log)).Lookup(s) == Consolidated(Outgoing(log, s))
    ensures forall s :: s in ChainsFrom(NoGroups, GroupedBy(SourceOrder(log), log)).members <==>
                          exists t :: Relationship(s, t, Consolida) in log
  {
    var keys := SourceOrder(log);
    SourceOrderMembers(log);
    ChainsOfGrouped(keys, log);
    ClosedChainsCorrect(keys, log);
    var g := ClosedChains(keys, log);
    assert ChainsFrom(NoGroups, GroupedBy(keys, log)) == g;
    forall s ensures g.Lookup(s) == Consolidated(Outgoing(log, s)) {
      if s !in keys {
        OutgoingOfUnknown(log, s);
      }
    }
    forall s ensures s in g.members <==> exists t :: Relationship(s, t, Consolida) in log {
      ChainNonEmpty(log, s);
      if s !in keys {
        OutgoingOfUnknown(log, s);
      }
    }
  }

  /** One more `(target, kind)` pair of source `s` is one more step of the chains loop. */
  lemma ChainsAfterPair(prefix: seq<Relationship>, s: Option<string>, adjacent: seq<(string, string)>, j: int)
    requires 0 <= j < |adjacent|
    ensures ChainsFrom(NoGroups, prefix + Tag(s, adjacent[..j + 1])) ==
            ChainStep(ChainsFrom(NoGroups, prefix + Tag(s, adjacent[..j])), Relationship(s, adjacent[j].0, adjacent[j].1))
  {
    var e := adjacent[j];
    var before := prefix + Tag(s, adjacent[..j]);
    assert adjacent[..j + 1] == adjacent[..j] + [e];
    TagGrows(s, adjacent[..j], e);
    assert prefix + Tag(s, adjacent[..j + 1]) == before + [Relationship(s, e.0, e.1)];
    assert Init(before + [Relationship(s, e.0, e.1)]) == before;
  }

  /** The walk over the first `i + 1` keys: the walk over the first `i`, then the forward list of key `i`. */
  lemma GroupedByPrefix(keys: seq<Option<string>>, log: seq<Relationship>, i: int)
    requires 0 <= i < |keys|
    ensures GroupedBy(keys[..i + 1], log) == GroupedBy(keys[..i], log) + Tag(keys[i], Outgoing(log, keys[i]))
  {
    assert Init(keys[..i + 1]) == keys[..i] && Last(keys[..i + 1]) == keys[i];
  }

  // ---------------------------------------------------------------------------
  // Theme clusters

  /** `norm.get('tema_principal', 'uncategorized')`: the default applies only to an absent key. */
  function ThemeKey(n: Norm): Option<string>
  {
    match n.temaPrincipal
    case Absent => Some("uncategorized")
    case Null => None
    case Text(s) => Some(s)
  }

  /** The `get_theme_clusters` loop over the node ids `ids`. */
  function ThemeClusters(ids: seq<string>, nodes: map<string, Norm>): Groups
    requires forall id :: id in ids ==> id in nodes
  {
    if ids == [] then NoGroups
    else ThemeClusters(Init(ids), nodes).Append(ThemeKey(nodes[Last(ids)]), Last(ids))
  }

  /** The ids among `ids` whose theme key is `k`, in order. */
  function IdsWithTheme(ids: seq<string>, nodes: map<string, Norm>, k: Option<string>): seq<string>
    requires forall id :: id in ids ==> id in nodes
  {
    if ids == [] then []
    else IdsWithTheme(Init(ids), nodes, k) + (if ThemeKey(nodes[Last(ids)]) == k then [Last(ids)] else [])
  }

  lemma {:induction false} IdsWithThemeMembers(ids: seq<string>, nodes: map<string, Norm>, k: Option<string>)
    requires forall id :: id in ids ==> id in nodes
    ensures forall x :: x in IdsWithTheme(ids, nodes, k) <==> x in ids && ThemeKey(nodes[x]) == k
  {
    if ids != [] {
      IdsWithThemeMembers(Init(ids), nodes, k);
      assert ids == Init(ids) + [Last(ids)];
    }
  }

  /**
   * Theme clusters: each cluster lists, in node order, exactly the ids with
   * that theme key; a key is present exactly when some id has it; so every id
   * is in exactly one cluster and the cluster sizes add up to the node count.
   */
  lemma ThemeClustersCorrect(ids: seq<string>, nodes: map<string, Norm>)
    requires forall id :: id in ids ==> id in nodes
    ensures ThemeClusters(ids, nodes).Valid()
    ensures forall k :: ThemeClusters(ids, nodes).Lookup(k) == IdsWithTheme(ids, nodes, k)
    ensures forall k :: k in ThemeClusters(ids, nodes).members <==> IdsWithTheme(ids, nodes, k) != []
    ensures ThemeClusters(ids, nodes).Size() == |ids|
  {
    ThemeClustersLookup(ids, nodes);
    ThemeClustersKeys(ids, nodes);
    ThemeClustersSize(ids, nodes);
  }

  lemma {:induction false} ThemeClustersLookup(ids: seq<string>, nodes: map<string, Norm>)
    requires forall id :: id in ids ==> id in nodes
    ensures ThemeClusters(ids, nodes).Valid()
    ensures forall k :: ThemeClusters(ids, nodes).Lookup(k) == IdsWithTheme(ids, nodes, k)
  {
    if ids != [] {
      var init, x := Init(ids), Last(ids);
      ThemeClustersLookup(init, nodes);
      AppendGrows(ThemeClusters(init, nodes), ThemeKey(nodes[x]), x);
    }
  }

  lemma {:induction false} ThemeClustersKeys(ids: seq<string>, nodes: map<string, Norm>)
    requires forall id :: id in ids ==> id in nodes
    ensures forall k :: k in ThemeClusters(ids, nodes).members <==> IdsWithTheme(ids, nodes, k) != []
  {
    if ids != [] {
      var init, x := Init(ids), Last(ids);
      ThemeClustersKeys(init, nodes);
      var key := ThemeKey(nodes[x]);
      forall k ensures IdsWithTheme(ids, nodes, k) == IdsWithTheme(init, nodes, k) + (if key == k then [x] else []) {
      }
    }
  }

  lemma {:induction false} ThemeClustersSize(ids: seq<string>, nodes: map<string, Norm>)
    requires forall id :: id in ids ==> id in nodes
    ensures ThemeClusters(ids, nodes).Size() == |ids|
  {
    if ids != [] {
      var init, x := Init(ids), Last(ids);
      ThemeClustersSize(init, nodes);
      ThemeClustersLookup(init, nodes);
      AppendGrows(ThemeClusters(init, nodes), ThemeKey(nodes[x]), x);
    }
  }

  // ---------------------------------------------------------------------------
  // Financial timeline

  /** The sort key `n.get('efeitos_financeiros_partir_de', '')`. */
  function FinancialDate(n: Norm): string
  {
    n.efeitosFinanceiros.GetOr("")
  }

  /** The records of `ids` whose financial-effect date is truthy, in node order. */
  function WithFinancialEffect(ids: seq<string>, nodes: map<string, Norm>): seq<Norm>
    requires forall id :: id in ids ==> id in nodes
  {
    if ids == [] then []
    else
      var n := nodes[Last(ids)];
      WithFinancialEffect(Init(ids), nodes) + (if Truthy(n.efeitosFinanceiros) then [n] else [])
  }

  lemma {:induction false} WithFinancialEffectMembers(ids: seq<string>, nodes: map<string, Norm>)
    requires forall id :: id in ids ==> id in nodes
    ensures forall n :: n in WithFinancialEffect(ids, nodes) <==>
      Truthy(n.efeitosFinanceiros) && exists id :: id in ids && nodes[id] == n
  {
    if ids != [] {
      WithFinancialEffectMembers(Init(ids), nodes);
      assert ids == Init(ids) + [Last(ids)];
    }
  }

  /**
   * `get_financial_timeline`: exactly the records with a truthy date, as a
   * permutation of them in node order, sorted by the date string, records with
   * equal dates keeping their node order.
   */
  lemma TimelineCorrect(ids: seq<string>, nodes: map<string, Norm>)
    requires forall id :: id in ids ==> id in nodes
    ensures SortedBy(SortBy(WithFinancialEffect(ids, nodes), FinancialDate), FinancialDate)
    ensures multiset(SortBy(WithFinancialEffect(ids, nodes), FinancialDate)) == multiset(WithFinancialEffect(ids, nodes))
    ensures forall d :: WithKey(SortBy(WithFinancialEffect(ids, nodes), FinancialDate), FinancialDate, d) ==
                        WithKey(WithFinancialEffect(ids, nodes), FinancialDate, d)
    ensures forall n :: n in SortBy(WithFinancialEffect(ids, nodes), FinancialDate) <==>
                        Truthy(n.efeitosFinanceiros) && exists id :: id in ids && nodes[id] == n
  {
    var effective := WithFinancialEffect(ids, nodes);
    SortByCorrect(effective, FinancialDate);
    WithFinancialEffectMembers(ids, nodes);
    forall n ensures n in SortBy(effective, FinancialDate) <==> n in effective {
      assert n in SortBy(effective, FinancialDate) <==> n in multiset(SortBy(effective, FinancialDate));
      assert n in effective <==> n in multiset(effective);
    }
  }

  // ---------------------------------------------------------------------------
  // Export

  datatype NodeEntry = NodeEntry(id: string, nodeLabel: string, tipo: Option<string>, theme: Option<string>,
                                 status: Option<string>, year: Option<int>)
  datatype GraphStats = GraphStats(totalNodes: nat, totalEdges: nat, themes: seq<Option<string>>)
  datatype GraphExport = GraphExport(nodes: seq<NodeEntry>, edges: seq<Relationship>, stats: GraphStats)

  function DigitsOf(n: nat): string
  {
    if n < 10 then ["0123456789"[n]] else DigitsOf(n / 10) + ["0123456789"[n % 10]]
  }

  /** `str(year)` */
  function YearText(y: int): string
  {
    if y < 0 then "-" + DigitsOf(-y) else DigitsOf(y)
  }

  /** The label `"{tipo} {numero}/{ano}"`, an absent field printing as empty. */
  function Label(n: Norm): string
  {
    n.tipo.GetOr("") + " " + n.numero.GetOr("") + "/" + (if n.ano.Some? then YearText(n.ano.value) else "")
  }

  function NodeEntryOf(id: string, n: Norm): NodeEntry
  {
    NodeEntry(id, Label(n), n.tipo, ThemeValue(n), n.statusVigencia, n.ano)
  }
}
