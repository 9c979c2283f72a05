# Normas APS: a verified model of the normative graph, the quality checker and the catalogue queries

This project models, in Dafny, the computational core of the collection of
Brazilian primary-care (APS) norms:

- the **normative graph** (`NormativeGraph` and `build_graph_from_norms`).
  Each record becomes a node. The `altera`, `revoga`, `regulamenta` and
  `consolida` lists become edges, held in a forward and a reverse adjacency
  dictionary. On top of these sit the queries: revoked and active norms,
  consolidation chains, the financial timeline, theme clusters, the exported
  projection and the breadth-first shortest path;
- the **quality checker** (`QualityChecker`). It runs five checks over the
  record list and fills a report with per-check results, warnings and errors:
  - year coverage from 2010 to 2025;
  - required sources;
  - required themes;
  - dangling relationship targets;
  - the six key norms.

  It then scores the share of checks passed;
- the **duplicate filter** of the BVSMS scraper (`_deduplicate_results`);
- the **catalogue queries** of the front-end data module: `getStats`,
  `getTopics` and `getNormasByTopic`. They run over an arbitrary ordered map
  of entries.

Layout:

- `norms.dfy`: the record datatype. It covers Python's get-with-default and
  its truthiness.
- `graph_log.dfy`: the functions that specify the adjacency dictionaries.
- `graph_build.dfy`: the nodes and relationships built from a record list.
- `graph_queries.dfy`: the queries as functions, with their properties.
- `graph_paths.dfy`: paths in the forward adjacency.
- `grouping.dfy`: insertion-ordered dictionaries of lists.
- `graph.dfy`: the `NormativeGraph` class, the search and the graph builder.
- `quality_spec.dfy`: what each check computes and promises.
- `quality.dfy`: the `QualityChecker` class and its loops.
- `dedup.dfy`: the duplicate filter.
- `catalogue.dfy`: the catalogue queries.
- `counting.dfy`, `sequences.dfy`, `wrappers.dfy`: shared helpers.

Python dictionaries keep insertion order, and that order shows in the
outputs. So each dictionary the source fills step by step is modelled as a
sequence of keys plus a map. This covers the graph's nodes and edges, the
report's `checks`, and the `year_counts`, `sources` and `themes` counts,
whose keys are listed in the order they are first met. The graph also keeps a ghost log of every
relationship added. Its invariant ties both adjacency dictionaries to that
log, so the mirroring between them is a lemma about the log.

## Model

| member | source | states |
|---|---|---|
| Graph.NormativeGraph.constructor | src/utils/graph_analysis.py:23-27 | The graph starts with no nodes and no edges, and with its invariant established. |
| Graph.NormativeGraph.AddNorm | src/utils/graph_analysis.py:29-38 | A record with a missing or empty id is ignored. Otherwise it is stored under its id and replaces any earlier record. The id is appended to the node order only when it is new. The adjacency dictionaries are unchanged. |
| Graph.NormativeGraph.AddRelationship | src/utils/graph_analysis.py:40-50 | `(target, kind)` is appended to the source's forward list and `(source, kind)` to the target's reverse list. Neither id has to exist. Nodes are unchanged and the invariant tying both dictionaries to the relationship log is kept. |
| Graph.NormativeGraph.GetAffectedNorms | src/utils/graph_analysis.py:52-62 | The answer is the `(target, kind)` pairs of every relationship added from that source, in order. An unknown id gives the empty list. |
| Graph.NormativeGraph.GetAffectingNorms | src/utils/graph_analysis.py:64-74 | The answer is the `(source, kind)` pairs of every relationship added towards that target, in order. |
| Graph.NormativeGraph.GetNormLineage | src/utils/graph_analysis.py:76-90 | The lineage holds the record when the id is a node and `None` otherwise, plus the outgoing and incoming pairs of that id. |
| GraphLog.Mirrored | src/utils/graph_analysis.py:49-50 | `(t, k)` occurs in the forward list of `s` exactly as often as `(s, k)` occurs in the reverse list of `t`. |
| GraphLog.OutgoingCounts | src/utils/graph_analysis.py:49 | Each forward pair occurs once per matching relationship added. |
| GraphLog.IncomingCounts | src/utils/graph_analysis.py:50 | Each reverse pair occurs once per matching relationship added. |
| GraphLog.SourceOrderMembers | src/utils/graph_analysis.py:49 | The keys of the forward dictionary are distinct. They are exactly the sources of relationships added. |
| Graph.NormativeGraph.FindRevokedNorms | src/utils/graph_analysis.py:92-108 | The result lists, in node order and once each, exactly the node ids with an incoming `revoga` edge. A dangling target is never reported. |
| Graph.NormativeGraph.FindActiveNorms | src/utils/graph_analysis.py:110-122 | The result lists, in node order and once each, exactly the node ids without an incoming `revoga` edge. |
| GraphQueries.StatusPartition | src/utils/graph_analysis.py:99-122 | Revoked and active ids split the node ids. Membership is decided by revocation, the two lengths add up to the node count, and both lists are duplicate-free. |
| GraphQueries.RevocationFromLog | src/utils/graph_analysis.py:103-106 | An id has an incoming `revoga` pair exactly when some relationship added revokes it. |
| GraphQueries.ActiveByExclusion | src/utils/graph_analysis.py:118-122 | Leaving out the revoked ids gives the same list as keeping the ids without a revocation. |
| Graph.NormativeGraph.FindConsolidationChains | src/utils/graph_analysis.py:124-138 | Each source with a `consolida` edge maps to its consolidated targets in insertion order, duplicates kept. No other source appears. |
| GraphQueries.ConsolidationChainsCorrect | src/utils/graph_analysis.py:131-138 | Grouping the edge walk by `consolida` gives a well-formed dictionary. Its entry for each source is that source's consolidated targets. Its keys are exactly the sources of some `consolida` relationship. |
| GraphQueries.ChainCounts | src/utils/graph_analysis.py:134-137 | A target occurs in a source's chain once per `consolida` relationship from that source to it. |
| GraphQueries.ChainNonEmpty | src/utils/graph_analysis.py:134-137 | A chain is non-empty exactly when a `consolida` relationship from that source was added. |
| Graph.NormativeGraph.GetFinancialTimeline | src/utils/graph_analysis.py:140-158 | The timeline is sorted by the financial-effect date and is a permutation of the nodes that have that date. The sort is stable: the nodes sharing a date keep node order. |
| GraphQueries.TimelineCorrect | src/utils/graph_analysis.py:149-158 | The sorted list is ordered and a permutation. It keeps the order among equal dates and holds exactly the nodes with a truthy date. |
| GraphQueries.WithFinancialEffectMembers | src/utils/graph_analysis.py:149-153 | A node is selected exactly when its financial-effect date is present and non-empty. |
| Graph.NormativeGraph.GetThemeClusters | src/utils/graph_analysis.py:160-173 | Each cluster lists, in node order, the nodes whose theme key matches. A key is present exactly when its cluster is non-empty. The cluster sizes add up to the node count. |
| GraphQueries.ThemeClustersCorrect | src/utils/graph_analysis.py:167-173 | The clusters form a well-formed dictionary. Each lookup is the filter of the node ids by theme key. The sizes add up to the number of ids. |
| GraphQueries.IdsWithThemeMembers | src/utils/graph_analysis.py:169-172 | An id is in a cluster exactly when it is a node whose theme key is that cluster's key. |
| Graph.NormativeGraph.EdgeEntries | src/utils/graph_analysis.py:195-202 | The edge entries walk the forward dictionary in key order. Each source's pairs come in insertion order. |
| Graph.NormativeGraph.ExportGraphData | src/utils/graph_analysis.py:175-213 | There is one node entry per node, in node order. The edge entries are a permutation of the relationships added. The stats give the node count, the edge count and the theme keys. |
| GraphQueries.ExportedEdgesArePermutation | src/utils/graph_analysis.py:195-202 | Walking the forward dictionary yields every relationship added exactly once. |
| Graph.NormativeGraph.FindShortestPath | src/utils/graph_analysis.py:215-244 | A missing endpoint gives `[]`, and `start == end` gives `[start]`. A non-empty answer is a forward path from start to end that is no longer than any other such path, and each of its steps is a relationship that was added. `[]` between two nodes means no path exists. |
| GraphPaths.StepsAreRelationships | src/utils/graph_analysis.py:239-243 | Each step of a forward path follows a relationship that was added from the step's first node to its second. |
| Graph.BreadthFirst | src/utils/graph_analysis.py:227-244 | The breadth-first search returns a shortest forward path between the endpoints, or `[]` exactly when there is none. |
| Graph.BuildGraphFromNorms | src/utils/graph_analysis.py:247-274 | Every record is added as a node before any edge. Edges are then added record by record and kind by kind, one per list element. The edge count is the summed list lengths. |
| Graph.AddRelationshipsOf | src/utils/graph_analysis.py:264-272 | The relationships of one record are added in the fixed kind order, one per listed target. |
| Graph.AddTargets | src/utils/graph_analysis.py:269-272 | One relationship is added per listed target, in list order. |
| GraphBuild.NodesOfNorms | src/utils/graph_analysis.py:260-261 | The node order is duplicate-free and has the same ids as the node map. Those ids are exactly the non-empty ids of the records. Each id holds the last record carrying it. |
| GraphBuild.RelationshipsOfMembers | src/utils/graph_analysis.py:264-272 | A relationship is added exactly when some record with that source id lists the target under that kind. |
| GraphBuild.RelationshipsOfCount | src/utils/graph_analysis.py:264-272 | The number of relationships added is the summed length of the relationship lists. |
| Quality.QualityChecker.constructor | src/utils/quality_checker.py:27-40 | The report starts with the record count and empty checks, warnings and errors. |
| Quality.QualityChecker.Record | src/utils/quality_checker.py:82-87 | The store into `checks` that each check makes (also at lines 113-117, 150-154, 191-195 and 227-231). The result is stored under its key, a new key is appended to the key order, and nothing else changes. |
| Quality.QualityChecker.CheckTemporalCoverage | src/utils/quality_checker.py:63-94 | Records the temporal result. A failure adds exactly one warning and no error. The return value is the pass flag. |
| Quality.TemporalCoverage | src/utils/quality_checker.py:70-87 | The loop computes the temporal result of the records. |
| QualitySpec.TemporalCheckCorrect | src/utils/quality_checker.py:70-94 | The covered years are sorted and are exactly the truthy years. Each year's count is the number of records with that year. The missing years are exactly the years from 2010 to 2025 that no record has, in ascending order. The check passes exactly when every such year is present. The `year_counts` keys are listed once each, in the order the years are first met. |
| Quality.QualityChecker.CheckSourceCoverage | src/utils/quality_checker.py:96-124 | Records the source result. A failure adds exactly one warning and no error. |
| Quality.SourceCoverage | src/utils/quality_checker.py:103-117 | The loop computes the source result of the records. |
| QualitySpec.SourceCheckCorrect | src/utils/quality_checker.py:103-124 | Each source met is counted by the number of records carrying it, with a missing `fonte` counted as `unknown`. The `sources` keys are listed once each, in the order they are first met. The missing sources are the required ones never met. The check passes exactly when all three are present. |
| Quality.QualityChecker.CheckThemeCoverage | src/utils/quality_checker.py:126-161 | Records the theme result. A failure adds exactly one warning and no error. |
| Quality.ThemeCoverage | src/utils/quality_checker.py:133-154 | The loop computes the theme result of the records. |
| QualitySpec.ThemeCheckCorrect | src/utils/quality_checker.py:133-161 | Only truthy themes are counted, each by its number of records. The `themes` keys are listed once each, in the order they are first met. The missing themes are the required ones never met. The check passes exactly when all four are present. |
| Quality.QualityChecker.CheckGraphConsistency | src/utils/quality_checker.py:163-202 | Records the consistency result. A failure adds exactly one error and no warning. |
| Quality.DanglingTargetsOf | src/utils/quality_checker.py:176-186 | For one record, the dangling targets come key by key and in list order. |
| QualitySpec.ConsistencyCheckCorrect | src/utils/quality_checker.py:174-202 | An inconsistency is reported exactly for a record's `altera`/`revoga`/`regulamenta` target that is no record's id. The checked count is the number of records. |
| QualitySpec.ConsistencyCheckInOrder | src/utils/quality_checker.py:177-189 | The inconsistencies are the relationships the graph builder adds, filtered in order: those other than `consolida` whose target is no record's id. So there is one entry per dangling list element, in record, then key, then list order. |
| QualitySpec.DanglingIsUnresolved | src/utils/quality_checker.py:177-189 | The per-record walk of the check equals the in-order filter of all the relationships the records list. |
| Counting.KeyOrderCorrect | src/utils/quality_checker.py:71-77 | A counts dictionary lists every key it met once, in the order of first appearance. |
| QualitySpec.DanglingIsRelationship | src/utils/quality_checker.py:174-186 | Every reported inconsistency is a relationship the graph builder adds. It is never a `consolida` one, and its target is unknown. |
| QualitySpec.RelationshipIsDangling | src/utils/quality_checker.py:174-186 | Every non-`consolida` relationship the graph builder adds whose target is unknown is reported. |
| QualitySpec.ConsistentIffTargetsKnown | src/utils/quality_checker.py:174-202 | The check passes exactly when every non-`consolida` relationship of the collection points at a known id. |
| Quality.QualityChecker.CheckKeyNormsPresence | src/utils/quality_checker.py:204-238 | Records the key-norm result. A failure adds exactly one error and no warning. |
| QualitySpec.KeyNormsCheckCorrect | src/utils/quality_checker.py:211-238 | The missing descriptions are exactly those of the key ids no record carries, and there are at most six. The check passes exactly when every key id is some record's id. |
| Quality.QualityChecker.CalculateQualityScore | src/utils/quality_checker.py:240-254 | The score is the percentage of recorded checks that passed. It lies between 0 and 100. It is 0 exactly when no recorded check passed, which includes an empty report. It is 100 exactly when there are checks and all of them passed. |
| QualitySpec.Percent | src/utils/quality_checker.py:249-254 | The percentage lies between 0 and 100. It is 0 exactly when no check passed, and 100 exactly when there are checks and all passed. |
| QualitySpec.CountPassedBounds | src/utils/quality_checker.py:247-248 | The number of passed checks is at most the number of checks. It equals that number exactly when every check passed, and it is 0 exactly when none passed. |
| Quality.QualityChecker.RunAllChecks | src/utils/quality_checker.py:42-61 | The five checks are recorded, each under its key with its result. On a fresh report the keys come in check order. Warnings come from the three coverage checks and errors from the other two, one per failure. The score is stored. |
| Quality.FiveRecorded | src/utils/quality_checker.py:51-55 | Recording the five results stores each under its own key. Into an empty report the keys arrive in check order. |
| QualitySpec.FailuresAreReported | src/utils/quality_checker.py:51-55 | After the five checks, the passed checks plus the messages added make five: one message per failing check. |
| BvsmsScraper.DeduplicateResults | src/scrapers/bvsms_scraper.py:144-163 | The one-pass filter with a seen set computes the filter's specification. |
| BvsmsScraper.Dedup | src/scrapers/bvsms_scraper.py:154-163 | Every kept record has a non-empty url, and no two kept records share one. |
| BvsmsScraper.DedupSelectsFirstOccurrences | src/scrapers/bvsms_scraper.py:157-161 | The output is the input read at the first occurrences of each non-empty url, in increasing position. So it is an order-preserving subsequence. |
| BvsmsScraper.FirstIndicesComplete | src/scrapers/bvsms_scraper.py:158-161 | Every first occurrence of a non-empty url is selected. |
| BvsmsScraper.SeenUrlsOfDedup | src/scrapers/bvsms_scraper.py:158-160 | The urls seen are exactly the non-empty urls of the input. |
| BvsmsScraper.EveryUrlRepresented | src/scrapers/bvsms_scraper.py:158-161 | Each record with a non-empty url has a kept record with that url. |
| BvsmsScraper.DedupKeepsDistinct | src/scrapers/bvsms_scraper.py:154-163 | A list whose urls are non-empty and pairwise different passes unchanged. |
| BvsmsScraper.DedupIdempotent | src/scrapers/bvsms_scraper.py:154-163 | Filtering twice gives the same result as filtering once. |
| Catalogue.GetStats | data.js:355-375 | The total is the number of entries. Each category counter is the number of entries whose type is in that category, and the manual kinds count together. |
| Catalogue.CategoriesPartitionTotal | data.js:365-372 | The counters add up to the entries of a counted type, and the rest of the total is the entries of any other type. So the counters never exceed the total. |
| Catalogue.CountKindsUnion | data.js:367-371 | Counting over two disjoint type sets is the sum of the two counts. |
| Catalogue.CountedPlusUncounted | data.js:365-371 | Entries of a counted type plus the other entries make up all entries. |
| Catalogue.GetTopics | data.js:378-386 | The topics come back sorted and without duplicates. They are exactly the topics some entry lists. |
| Catalogue.MentionedStep | data.js:380-384 | One more entry adds exactly its own topics to the set. |
| Catalogue.NormasByTopicSelects | data.js:389-393 | The result is the entries listing the topic, in map order, each carrying its key as id. |
| Catalogue.NormasByTopicMembers | data.js:389-393 | An item is in the result exactly when it is a keyed entry whose topics include the topic. |
| Catalogue.MatchingIndicesComplete | data.js:391 | Every entry listing the topic is selected. |
| Catalogue.TopicsHaveNormas | data.js:381-391 | Every topic that `getTopics` returns yields a non-empty result from `getNormasByTopic`. |

## Left out

- Network access, HTML parsing, file and database output, logging, the Flask portal, the DOM code and every `main()` are not part of this model. Only the computations over records are modelled.
- Records are Python dictionaries of arbitrary type. The model keeps the keys the core reads. It keeps the relationship values that are lists: a non-list value is left out, since every reader skips it. Mixed-type comparisons, such as a `datetime` date against a string, are not modelled.
- GraphQueries.Label: the `label` text of a node entry is modelled with a decimal rendering of the year. A present `None` `tipo`, `numero` or `ano` is rendered as empty, not as Python's `None`.
- QualitySpec.Percent: the float score `(passed / total) * 100` is modelled as an exact real number. Floating-point rounding is not modelled.
- Warning and error texts are kept as data (the missing years, sources, themes or descriptions, and the inconsistency count). The formatted message strings are not modelled.
- QualitySpec.SourceCheckCorrect: `missing_sources` is stored as a list built from a set. The model keeps it as a set, so the order of that list is not modelled.
- QualitySpec.ThemeCheckCorrect: `missing_themes` is stored as a list built from a set. The model keeps it as a set, so the order of that list is not modelled.
- Catalogue.GetTopics: the order is the lexicographic order of code points. JavaScript's default sort compares UTF-16 code units, and the two differ only outside the Basic Multilingual Plane.
- Catalogue.NormasByTopicSelects: the map is an ordered list of keyed entries. JavaScript lists integer-like keys first, whatever their insertion order. An entry's own `id` property would override the key in the spread. Neither case is modelled.
- Graph.NormativeGraph.FindShortestPath: the search is proved to return some shortest path. It does not state which one when several have the same length, beyond what the fixed exploration order yields.
