/**
 * The portal's catalogue of documents (`normasData`): entries by key, in the
 * order the object lists them, with the counters, the topic list and the
 * topic filter the pages are built from.
 */
module Catalogue {
  import opened Wrappers
  import opened Sequences

  /**
   * An entry: its `type` and `topics` (both may be missing) and the other
   * properties, which the functions here pass through.
   */
  datatype Entry = Entry(kind: Option<string>, topics: Option<seq<string>>, properties: map<string, string>)

  /** The catalogue: `Object.entries(normasData)`, key and entry, in object order. */
  type Data = seq<(string, Entry)>

  /** An entry with its key added as `id`: `{ id, ...norma }`. */
  datatype Listed = Listed(id: string, entry: Entry)

  /** The counters of `getStats`. */
  datatype Stats = Stats(portarias: nat, resolucoes: nat, leis: nat, notas: nat, manuais: nat, total: nat)

  /** The types counted as `manuais`. */
  const ManualKinds: set<string> := {"manual", "caderno", "guia", "cartilha", "instrumento"}

  /** Every type with a counter of its own. */
  const CountedKinds: set<string> := {"portaria", "resolucao", "lei", "nota"} + ManualKinds

  // ---------------------------------------------------------------------------
  // getStats

  /** The entry's `type` is one of `kinds`. */
  predicate KindIn(e: Entry, kinds: set<string>)
  {
    e.kind.Some? && e.kind.value in kinds
  }

  /** The number of entries whose type is one of `kinds`. */
  function CountKinds(data: Data, kinds: set<string>): nat
  {
    if data == [] then 0
    else CountKinds(Init(data), kinds) + (if KindIn(Last(data).1, kinds) then 1 else 0)
  }

  /** `getStats`: one pass, each entry raising `total` and at most one other counter. */
  method GetStats(data: Data) returns (stats: Stats)
    ensures stats.total == |data|
    ensures stats.portarias == CountKinds(data, {"portaria"})
    ensures stats.resolucoes == CountKinds(data, {"resolucao"})
    ensures stats.leis == CountKinds(data, {"lei"})
    ensures stats.notas == CountKinds(data, {"nota"})
    ensures stats.manuais == CountKinds(data, ManualKinds)
  {
    var portarias, resolucoes, leis, notas, manuais, total := 0, 0, 0, 0, 0, 0;
    for i := 0 to |data|
      invariant total == i
      invariant portarias == CountKinds(data[..i], {"portaria"})
      invariant resolucoes == CountKinds(data[..i], {"resolucao"})
      invariant leis == CountKinds(data[..i], {"lei"})
      invariant notas == CountKinds(data[..i], {"nota"})
      invariant manuais == CountKinds(data[..i], ManualKinds)
    {
      assert Init(data[..i + 1]) == data[..i] && Last(data[..i + 1]) == data[i];
      var kind := data[i].1.kind;
      total := total + 1;
      if kind == Some("portaria") {
        portarias := portarias + 1;
      } else if kind == Some("resolucao") {
        resolucoes := resolucoes + 1;
      } else if kind == Some("lei") {
        leis := leis + 1;
      } else if kind == Some("nota") {
        notas := notas + 1;
      } else if kind.Some? && kind.value in ManualKinds {
        manuais := manuais + 1;
      }
    }
    assert data[..|data|] == data;
    stats := Stats(portarias, resolucoes, leis, notas, manuais, total);
  }

  /** Counting over two disjoint sets of types adds up. */
  lemma {:induction false} CountKindsUnion(data: Data, a: set<string>, b: set<string>)
    requires a !! b
    ensures CountKinds(data, a + b) == CountKinds(data, a) + CountKinds(data, b)
  {
    if data != [] {
      CountKindsUnion(Init(data), a, b);
    }
  }

  /** The number of entries whose type has no counter (or that have no type). */
  function CountUncounted(data: Data): nat
  {
    if data == [] then 0
    else CountUncounted(Init(data)) + (if KindIn(Last(data).1, CountedKinds) then 0 else 1)
  }

  lemma {:induction false} CountedPlusUncounted(data: Data)
    ensures CountKinds(data, CountedKinds) + CountUncounted(data) == |data|
  {
    if data != [] {
      CountedPlusUncounted(Init(data));
    }
  }

  /**
   * The five category counters sum to the entries of a counted type; every
   * other entry (a `faq`, a `modelo`, one without a type) is in `total` only.
   */
  lemma CategoriesPartitionTotal(data: Data, stats: Stats)
    requires stats.total == |data|
    requires stats.portarias == CountKinds(data, {"portaria"})
    requires stats.resolucoes == CountKinds(data, {"resolucao"})
    requires stats.leis == CountKinds(data, {"lei"})
    requires stats.notas == CountKinds(data, {"nota"})
    requires stats.manuais == CountKinds(data, ManualKinds)
    ensures stats.portarias + stats.resolucoes + stats.leis + stats.notas + stats.manuais ==
            CountKinds(data, CountedKinds)
    ensures stats.total - (stats.portarias + stats.resolucoes + stats.leis + stats.notas + stats.manuais) ==
            CountUncounted(data)
    ensures stats.portarias + stats.resolucoes + stats.leis + stats.notas + stats.manuais <= stats.total
  {
    CountKindsUnion(data, {"portaria"}, {"resolucao"});
    CountKindsUnion(data, {"portaria", "resolucao"}, {"lei"});
    CountKindsUnion(data, {"portaria", "resolucao", "lei"}, {"nota"});
    CountKindsUnion(data, {"portaria", "resolucao", "lei", "nota"}, ManualKinds);
    assert {"portaria"} + {"resolucao"} == {"portaria", "resolucao"};
    assert {"portaria", "resolucao"} + {"lei"} == {"portaria", "resolucao", "lei"};
    assert {"portaria", "resolucao", "lei"} + {"nota"} == {"portaria", "resolucao", "lei", "nota"};
    CountedPlusUncounted(data);
  }

  // ---------------------------------------------------------------------------
  // getTopics

  /** `norma.topics && norma.topics.includes(topic)`: an empty list is present but holds nothing. */
  predicate HasTopic(e: Entry, topic: string)
  {
    e.topics.Some? && topic in e.topics.value
  }

  /** Some entry lists `topic`. */
  ghost predicate Mentioned(data: Data, topic: string)
  {
    exists i :: 0 <= i < |data| && HasTopic(data[i].1, topic)
  }

  /** The sort key of `Array.prototype.sort` on strings: the string itself. */
  function Itself(s: string): string
  {
    s
  }

  /**
   * `getTopics`: the topics gathered into a `Set` (insertion order, no
   * repeats), then sorted.
   */
  method GetTopics(data: Data) returns (topics: seq<string>)
    ensures SortedBy(topics, Itself)
    ensures Distinct(topics)
    ensures forall t :: t in topics <==> Mentioned(data, t)
  {
    var topicsSet: seq<string> := [];
    for i := 0 to |data|
      invariant Distinct(topicsSet)
      invariant forall t :: t in topicsSet <==> Mentioned(data[..i], t)
    {
      var entry := data[i].1;
      if entry.topics.Some? {
        var ts := entry.topics.value;
        for k := 0 to |ts|
          invariant Distinct(topicsSet)
          invariant forall t :: t in topicsSet <==> Mentioned(data[..i], t) || t in ts[..k]
        {
          assert ts[..k + 1] == ts[..k] + [ts[k]];
          if ts[k] !in topicsSet {
            topicsSet := topicsSet + [ts[k]];
          }
        }
        assert ts[..|ts|] == ts;
      }
      MentionedStep(data, i);
    }
    assert data[..|data|] == data;
    topics := SortBy(topicsSet, Itself);
    SortByCorrect(topicsSet, Itself);
    PermutationKeepsDistinct(topicsSet, topics);
    forall t ensures t in topics <==> t in topicsSet {
      assert t in topics <==> t in multiset(topics);
      assert t in topicsSet <==> t in multiset(topicsSet);
    }
  }

  /** The topics listed in the first `i + 1` entries: those of the first `i` and those of entry `i`. */
  lemma MentionedStep(data: Data, i: int)
    requires 0 <= i < |data|
    ensures forall t :: Mentioned(data[..i + 1], t) <==> Mentioned(data[..i], t) || HasTopic(data[i].1, t)
  {
    forall t ensures Mentioned(data[..i + 1], t) <==> Mentioned(data[..i], t) || HasTopic(data[i].1, t) {
      if Mentioned(data[..i + 1], t) {
        var j :| 0 <= j < i + 1 && HasTopic(data[..i + 1][j].1, t);
        if j < i {
          assert data[..i][j] == data[..i + 1][j];
        }
      }
      if Mentioned(data[..i], t) {
        var j :| 0 <= j < i && HasTopic(data[..i][j].1, t);
        assert data[..i + 1][j] == data[..i][j];
      }
      if HasTopic(data[i].1, t) {
        assert data[..i + 1][i] == data[i];
      }
    }
  }

  // ---------------------------------------------------------------------------
  // getNormasByTopic

  /** `getNormasByTopic`: the entries listing `topic`, in object order, each with its key as `id`. */
  function NormasByTopic(data: Data, topic: string): seq<Listed>
  {
    if data == [] then []
    else
      NormasByTopic(Init(data), topic) +
      (if HasTopic(Last(data).1, topic) then [Listed(Last(data).0, Last(data).1)] else [])
  }

  /** The positions of the entries that list `topic`, in increasing order. */
  ghost function MatchingIndices(data: Data, topic: string): (idx: seq<int>)
    ensures forall k :: 0 <= k < |idx| ==> 0 <= idx[k] < |data| && HasTopic(data[idx[k]].1, topic)
    ensures forall k, l :: 0 <= k < l < |idx| ==> idx[k] < idx[l]
  {
    if data == [] then []
    else
      var idx := MatchingIndices(Init(data), topic);
      var i := |data| - 1;
      assert forall k :: 0 <= k < |idx| ==> data[idx[k]] == Init(data)[idx[k]];
      if HasTopic(data[i].1, topic) then idx + [i] else idx
  }

  /** Every matching position is listed. */
  lemma {:induction false} MatchingIndicesComplete(data: Data, topic: string)
    ensures forall i :: 0 <= i < |data| && HasTopic(data[i].1, topic) ==> i in MatchingIndices(data, topic)
  {
    if data != [] {
      var init := Init(data);
      MatchingIndicesComplete(init, topic);
      forall i | 0 <= i < |init| && HasTopic(data[i].1, topic) ensures i in MatchingIndices(data, topic) {
        assert init[i] == data[i];
      }
    }
  }

  /**
   * The result reads the catalogue at exactly the matching positions, in
   * order, and carries each entry unchanged under its own key.
   */
  lemma {:induction false} NormasByTopicSelects(data: Data, topic: string)
    ensures |NormasByTopic(data, topic)| == |MatchingIndices(data, topic)|
    ensures forall k :: 0 <= k < |NormasByTopic(data, topic)| ==>
      var i := MatchingIndices(data, topic)[k];
      NormasByTopic(data, topic)[k] == Listed(data[i].0, data[i].1)
  {
    if data != [] {
      var init := Init(data);
      NormasByTopicSelects(init, topic);
      var idx := MatchingIndices(init, topic);
      forall k | 0 <= k < |idx| ensures data[idx[k]] == init[idx[k]] {
      }
    }
  }

  /** An entry is returned exactly when it lists `topic`. */
  lemma NormasByTopicMembers(data: Data, topic: string)
    ensures forall x :: x in NormasByTopic(data, topic) <==>
      exists i :: 0 <= i < |data| && HasTopic(data[i].1, topic) && x == Listed(data[i].0, data[i].1)
  {
    NormasByTopicSelects(data, topic);
    MatchingIndicesComplete(data, topic);
    var r, idx := NormasByTopic(data, topic), MatchingIndices(data, topic);
    forall x ensures x in r <==>
      exists i :: 0 <= i < |data| && HasTopic(data[i].1, topic) && x == Listed(data[i].0, data[i].1)
    {
      if x in r {
        var k :| 0 <= k < |r| && r[k] == x;
        assert HasTopic(data[idx[k]].1, topic);
      }
      if exists i :: 0 <= i < |data| && HasTopic(data[i].1, topic) && x == Listed(data[i].0, data[i].1) {
        var i :| 0 <= i < |data| && HasTopic(data[i].1, topic) && x == Listed(data[i].0, data[i].1);
        var k :| 0 <= k < |idx| && idx[k] == i;
        assert r[k] == x;
      }
    }
  }

  /** Every topic offered by `getTopics` leads to at least one entry. */
  lemma TopicsHaveNormas(data: Data, topic: string)
    requires Mentioned(data, topic)
    ensures NormasByTopic(data, topic) != []
  {
    NormasByTopicMembers(data, topic);
    var i :| 0 <= i < |data| && HasTopic(data[i].1, topic);
    assert Listed(data[i].0, data[i].1) in NormasByTopic(data, topic);
  }
}
