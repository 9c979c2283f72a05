/**
 * The five completeness and consistency checks of a normative collection,
 * stated as functions of the list of records, with what each one promises.
 */
module QualitySpec {
  import opened Wrappers
  import opened Sequences
  import opened Norms
  import opened Counting
  import opened GraphLog
  import opened GraphBuild

  const FirstYear: int := 2010
  const LastYear: int := 2025
  const RequiredSources: set<string> := {"planalto", "bvsms", "consolidacao"}
  const RequiredThemes: set<string> := {"organizacao_aps", "financiamento", "sistemas_informacao", "forca_trabalho"}
  /** The relationship keys whose targets the consistency check looks up; `consolida` is not among them. */
  const CheckedKinds: seq<string> := [Altera, Revoga, Regulamenta]
  /** The structural norms every collection must hold: id and description. */
  const KeyNorms: seq<(string, string)> := [
    ("LC_141_2012", "Lei Complementar 141/2012"),
    ("DECRETO_7508_2011", "Decreto 7.508/2011"),
    ("PORTARIA_CONSOLIDACAO_6_2017", "Portaria de Consolidação 6/2017"),
    ("PORTARIA_CONSOLIDACAO_SAPS_1_2021", "Portaria de Consolidação SAPS 1/2021"),
    ("PORTARIA_2979_2019", "Portaria 2.979/2019 - Previne Brasil"),
    ("PORTARIA_3493_2024", "Portaria 3.493/2024 - Novo cofinanciamento")
  ]

  /**
   * The five keys of the report's `checks` dictionary: `temporal_coverage`,
   * `source_coverage`, `theme_coverage`, `graph_consistency` and
   * `key_norms_presence`.
   */
  datatype CheckName = TemporalName | SourceName | ThemeName | ConsistencyName | KeyNormsName

  /** The report keys, in the order `run_all_checks` fills them. */
  const CheckNames: seq<CheckName> := [TemporalName, SourceName, ThemeName, ConsistencyName, KeyNormsName]

  // ---------------------------------------------------------------------------
  // The keys each coverage check counts

  /** The keys `f` picks out of the records, in record order; `None` skips a record. */
  function Collect<K>(norms: seq<Norm>, f: Norm -> Option<K>): seq<K>
  {
    if norms == [] then []
    else
      var k := f(Last(norms));
      Collect(Init(norms), f) + (if k.Some? then [k.value] else [])
  }

  /** One more record adds its key, if `f` picks one. */
  lemma CollectAppend<K>(norms: seq<Norm>, n: Norm, f: Norm -> Option<K>)
    ensures Collect(norms + [n], f) == Collect(norms, f) + (if f(n).Some? then [f(n).value] else [])
  {
    assert Init(norms + [n]) == norms && Last(norms + [n]) == n;
  }

  /** The years met, as a set. */
  function YearSet(years: seq<int>): set<int>
  {
    set y | y in years
  }

  lemma YearSetAppend(years: seq<int>, y: int)
    ensures YearSet(years + [y]) == YearSet(years) + {y}
  {
  }

  /** The number of records for which `f` picks `x`. */
  function CountPicked<K(==)>(norms: seq<Norm>, f: Norm -> Option<K>, x: K): nat
  {
    if norms == [] then 0
    else CountPicked(Init(norms), f, x) + (if f(Last(norms)) == Some(x) then 1 else 0)
  }

  lemma {:induction false} CollectMembers<K>(norms: seq<Norm>, f: Norm -> Option<K>)
    ensures forall x :: x in Collect(norms, f) <==> exists i :: 0 <= i < |norms| && f(norms[i]) == Some(x)
  {
    if norms != [] {
      CollectMembers(Init(norms), f);
      forall x ensures x in Collect(norms, f) <==> exists i :: 0 <= i < |norms| && f(norms[i]) == Some(x) {
        if x in Collect(Init(norms), f) {
          var i :| 0 <= i < |Init(norms)| && f(Init(norms)[i]) == Some(x);
          assert norms[i] == Init(norms)[i];
        }
        if exists i :: 0 <= i < |norms| && f(norms[i]) == Some(x) {
          var i :| 0 <= i < |norms| && f(norms[i]) == Some(x);
          if i < |norms| - 1 {
            assert Init(norms)[i] == norms[i];
          }
        }
      }
    }
  }

  lemma {:induction false} CollectCounts<K>(norms: seq<Norm>, f: Norm -> Option<K>, x: K)
    ensures multiset(Collect(norms, f))[x] == CountPicked(norms, f, x)
  {
    if norms != [] {
      CollectCounts(Init(norms), f, x);
    }
  }

  /** `norm.get('ano')`, kept when truthy. */
  function YearOf(n: Norm): Option<int>
  {
    if TruthyYear(n.ano) then Some(n.ano.value) else None
  }

  /** `norm.get('fonte', 'unknown')`: the default applies only to an absent key. */
  function SourceOf(n: Norm): Option<Option<string>>
  {
    match n.fonte
    case Absent => Some(Some("unknown"))
    case Null => Some(None)
    case Text(s) => Some(Some(s))
  }

  /** `norm.get('tema_principal')`, kept when truthy. */
  function ThemeOf(n: Norm): Option<string>
  {
    match n.temaPrincipal
    case Text(s) => if s != "" then Some(s) else None
    case _ => None
  }

  /** `{norm.get('id_norma') for norm in norms}`, `None` included. */
  function NormIds(norms: seq<Norm>): set<Option<string>>
  {
    set n | n in norms :: n.idNorma
  }

  /** `sorted(expected - present)` for the range `lo .. hi - 1`. */
  function YearsOutside(lo: int, hi: int, present: set<int>): (r: seq<int>)
    ensures StrictlyIncreasing(r)
    ensures forall y :: y in r <==> lo <= y < hi && y !in present
    decreases hi - lo
  {
    if lo >= hi then []
    else
      var rest := YearsOutside(lo + 1, hi, present);
      assert forall j :: 0 <= j < |rest| ==> lo < rest[j] by {
        forall j | 0 <= j < |rest| ensures lo < rest[j] {
          assert rest[j] in rest;
        }
      }
      if lo in present then rest else [lo] + rest
  }

  // ---------------------------------------------------------------------------
  // Dangling references

  datatype Inconsistency = Inconsistency(source: Option<string>, kind: string, target: string)

  /** The listed targets that are no record's id, one entry each, in list order. */
  function DanglingIn(source: Option<string>, targets: seq<string>, kind: string, ids: set<Option<string>>): seq<Inconsistency>
  {
    if targets == [] then []
    else
      DanglingIn(source, Init(targets), kind, ids) +
      (if Some(Last(targets)) !in ids then [Inconsistency(source, kind, Last(targets))] else [])
  }

  /** The dangling targets of one record, key by key. */
  function DanglingOfKinds(n: Norm, kinds: seq<string>, ids: set<Option<string>>): seq<Inconsistency>
  {
    if kinds == [] then []
    else DanglingOfKinds(n, Init(kinds), ids) + DanglingIn(n.idNorma, RelationTargets(n, Last(kinds)), Last(kinds), ids)
  }

  /** The dangling targets of every record, in record order. */
  function Dangling(norms: seq<Norm>, ids: set<Option<string>>): seq<Inconsistency>
  {
    if norms == [] then []
    else Dangling(Init(norms), ids) + DanglingOfKinds(Last(norms), CheckedKinds, ids)
  }

  /** The descriptions of the key norms whose id is missing, in the fixed order. */
  function AbsentKeyNorms(keys: seq<(string, string)>, ids: set<Option<string>>): seq<string>
  {
    if keys == [] then []
    else AbsentKeyNorms(Init(keys), ids) + (if Some(Last(keys).0) !in ids then [Last(keys).1] else [])
  }

  // ---------------------------------------------------------------------------
  // Check results and messages

  /**
   * The entry each check stores in the report. A counts dictionary is its map
   * plus its keys in insertion order (`yearKeys`, `sourceKeys`, `themeKeys`).
   */
  datatype CheckResult =
    | Temporal(passed: bool, yearsCovered: seq<int>, missingYears: seq<int>, yearCounts: map<int, nat>, yearKeys: seq<int>)
    | Sources(passed: bool, sources: map<Option<string>, nat>, sourceKeys: seq<Option<string>>, missingSources: set<string>)
    | Themes(passed: bool, themes: map<string, nat>, themeKeys: seq<string>, missingThemes: set<string>)
    | Consistency(passed: bool, inconsistencies: seq<Inconsistency>, totalChecked: nat)
    | KeyNormsPresence(passed: bool, missing: seq<string>, totalKeyNorms: nat)

  /** A report warning or error, kept as the data its text is made from. */
  datatype Message =
    | MissingYears(years: seq<int>)
    | MissingSources(sources: set<string>)
    | InsufficientThemes(themes: set<string>)
    | GraphInconsistencies(count: nat)
    | MissingKeyNorms(descriptions: seq<string>)

  function TemporalCheck(norms: seq<Norm>): CheckResult
  {
    var years := Collect(norms, YearOf);
    var missing := YearsOutside(FirstYear, LastYear + 1, YearSet(years));
    Temporal(missing == [], SortedSetOf(years), missing, Tally(years), KeyOrder(years))
  }

  function SourceCheck(norms: seq<Norm>): CheckResult
  {
    var keys := Collect(norms, SourceOf);
    var counts := Tally(keys);
    var missing := set s | s in RequiredSources && Some(s) !in counts;
    Sources(missing == {}, counts, KeyOrder(keys), missing)
  }

  function ThemeCheck(norms: seq<Norm>): CheckResult
  {
    var keys := Collect(norms, ThemeOf);
    var counts := Tally(keys);
    var missing := set t | t in RequiredThemes && t !in counts;
    Themes(missing == {}, counts, KeyOrder(keys), missing)
  }

  function ConsistencyCheck(norms: seq<Norm>): CheckResult
  {
    var found := Dangling(norms, NormIds(norms));
    Consistency(found == [], found, |norms|)
  }

  function KeyNormsCheck(norms: seq<Norm>): CheckResult
  {
    var missing := AbsentKeyNorms(KeyNorms, NormIds(norms));
    KeyNormsPresence(missing == [], missing, |KeyNorms|)
  }

  /** The result recorded under each report key. */
  function ExpectedCheck(norms: seq<Norm>, name: CheckName): CheckResult
  {
    match name
    case TemporalName => TemporalCheck(norms)
    case SourceName => SourceCheck(norms)
    case ThemeName => ThemeCheck(norms)
    case ConsistencyName => ConsistencyCheck(norms)
    case KeyNormsName => KeyNormsCheck(norms)
  }

  /** The message a check adds to the report: none when it passes, one when it fails. */
  function Complaint(c: CheckResult): seq<Message>
  {
    if c.passed then []
    else
      match c
      case Temporal(_, _, missing, _, _) => [MissingYears(missing)]
      case Sources(_, _, _, missing) => [MissingSources(missing)]
      case Themes(_, _, _, missing) => [InsufficientThemes(missing)]
      case Consistency(_, found, _) => [GraphInconsistencies(|found|)]
      case KeyNormsPresence(_, missing, _) => [MissingKeyNorms(missing)]
  }

  // ---------------------------------------------------------------------------
  // The quality score

  /** Checks passed out of checks recorded. */
  datatype Score = Score(passed: nat, total: nat)

  /** How many of the listed report keys hold a passing check. */
  function CountPassed(order: seq<CheckName>, checks: map<CheckName, CheckResult>): nat
  {
    if order == [] then 0
    else CountPassed(Init(order), checks) + (if Last(order) in checks && checks[Last(order)].passed then 1 else 0)
  }

  lemma {:induction false} CountPassedBounds(order: seq<CheckName>, checks: map<CheckName, CheckResult>)
    ensures CountPassed(order, checks) <= |order|
    ensures CountPassed(order, checks) == |order| <==> forall i :: 0 <= i < |order| ==> order[i] in checks && checks[order[i]].passed
    ensures CountPassed(order, checks) == 0 <==> forall i :: 0 <= i < |order| ==> !(order[i] in checks && checks[order[i]].passed)
  {
    if order != [] {
      CountPassedBounds(Init(order), checks);
      if CountPassed(order, checks) == |order| {
        forall i | 0 <= i < |order| ensures order[i] in checks && checks[order[i]].passed {
          if i < |order| - 1 {
            assert order[i] == Init(order)[i];
          }
        }
      }
      if forall i :: 0 <= i < |order| ==> order[i] in checks && checks[order[i]].passed {
        forall i | 0 <= i < |Init(order)| ensures Init(order)[i] in checks && checks[Init(order)[i]].passed {
          assert Init(order)[i] == order[i];
        }
        assert Last(order) == order[|order| - 1];
      }
    }
  }

  /** `(passed / total) * 100`, and `0` when nothing was checked. */
  function Percent(s: Score): (r: real)
    requires s.passed <= s.total
    ensures 0.0 <= r <= 100.0
    ensures r == 0.0 <==> s.passed == 0
    ensures r == 100.0 <==> 0 < s.total && s.passed == s.total
  {
    if s.total == 0 then 0.0 else (s.passed as real / s.total as real) * 100.0
  }

  // ---------------------------------------------------------------------------
  // What each check promises

  /** Some record has the truthy year `y`. */
  ghost predicate HasYear(norms: seq<Norm>, y: int)
  {
    exists i :: 0 <= i < |norms| && YearOf(norms[i]) == Some(y)
  }

  /**
   * Temporal coverage: the covered years are the truthy years of the records,
   * ascending and once each, each counted once per record, the counts listed in
   * the order the years are first met; the missing years
   * are exactly the years 2010 to 2025 that no record has, ascending; the check
   * passes exactly when none is missing.
   */
  lemma TemporalCheckCorrect(norms: seq<Norm>)
    ensures StrictlyIncreasing(TemporalCheck(norms).yearsCovered)
    ensures forall y :: y in TemporalCheck(norms).yearsCovered <==> HasYear(norms, y)
    ensures forall y :: y in TemporalCheck(norms).yearCounts <==> HasYear(norms, y)
    ensures forall y :: y in TemporalCheck(norms).yearCounts ==> TemporalCheck(norms).yearCounts[y] == CountPicked(norms, YearOf, y)
    ensures forall y :: y in TemporalCheck(norms).yearKeys <==> y in TemporalCheck(norms).yearCounts
    ensures FirstAppearanceOrder(TemporalCheck(norms).yearKeys, Collect(norms, YearOf))
    ensures StrictlyIncreasing(TemporalCheck(norms).missingYears)
    ensures forall y :: y in TemporalCheck(norms).missingYears <==> FirstYear <= y <= LastYear && !HasYear(norms, y)
    ensures TemporalCheck(norms).passed <==> forall y :: FirstYear <= y <= LastYear ==> HasYear(norms, y)
  {
    var years := Collect(norms, YearOf);
    CollectMembers(norms, YearOf);
    TallyCounts(years);
    KeyOrderCorrect(years);
    forall y | y in Tally(years) ensures Tally(years)[y] == CountPicked(norms, YearOf, y) {
      CollectCounts(norms, YearOf, y);
    }
    forall y ensures y in years <==> HasYear(norms, y) {
      if HasYear(norms, y) {
        var i :| 0 <= i < |norms| && YearOf(norms[i]) == Some(y);
        assert y in years;
      }
    }
    var missing := TemporalCheck(norms).missingYears;
    if !TemporalCheck(norms).passed {
      assert missing[0] in missing;
    }
  }

  /** Some record's source key is `s`. */
  ghost predicate HasSource(norms: seq<Norm>, s: Option<string>)
  {
    exists i :: 0 <= i < |norms| && SourceOf(norms[i]) == Some(s)
  }

  /**
   * Source coverage: one count per source key met (an absent `fonte` counting
   * as `unknown`), each the number of records with it, listed in the order the
   * keys are first met; the missing sources are
   * the required ones no record names; it passes exactly when none is missing.
   */
  lemma SourceCheckCorrect(norms: seq<Norm>)
    ensures forall s :: s in SourceCheck(norms).sources <==> HasSource(norms, s)
    ensures forall s :: s in SourceCheck(norms).sources ==> SourceCheck(norms).sources[s] == CountPicked(norms, SourceOf, s)
    ensures forall s :: s in SourceCheck(norms).sourceKeys <==> s in SourceCheck(norms).sources
    ensures FirstAppearanceOrder(SourceCheck(norms).sourceKeys, Collect(norms, SourceOf))
    ensures forall s :: s in SourceCheck(norms).missingSources <==> s in RequiredSources && !HasSource(norms, Some(s))
    ensures SourceCheck(norms).passed <==> forall s :: s in RequiredSources ==> HasSource(norms, Some(s))
  {
    var keys := Collect(norms, SourceOf);
    CollectMembers(norms, SourceOf);
    TallyCounts(keys);
    KeyOrderCorrect(keys);
    forall s | s in Tally(keys) ensures Tally(keys)[s] == CountPicked(norms, SourceOf, s) {
      CollectCounts(norms, SourceOf, s);
    }
    forall s ensures s in Tally(keys) <==> HasSource(norms, s) {
      if HasSource(norms, s) {
        var i :| 0 <= i < |norms| && SourceOf(norms[i]) == Some(s);
        assert s in keys;
      }
    }
    if !SourceCheck(norms).passed {
      var s :| s in SourceCheck(norms).missingSources;
    }
  }

  /** Some record has the truthy theme `t`. */
  ghost predicate HasTheme(norms: seq<Norm>, t: string)
  {
    exists i :: 0 <= i < |norms| && ThemeOf(norms[i]) == Some(t)
  }

  /**
   * Theme coverage: one count per truthy theme met, each the number of records
   * with it, listed in the order the themes are first met; the missing themes are the four required ones no record has; it
   * passes exactly when none is missing.
   */
  lemma ThemeCheckCorrect(norms: seq<Norm>)
    ensures forall t :: t in ThemeCheck(norms).themes <==> HasTheme(norms, t)
    ensures forall t :: t in ThemeCheck(norms).themes ==> ThemeCheck(norms).themes[t] == CountPicked(norms, ThemeOf, t)
    ensures forall t :: t in ThemeCheck(norms).themeKeys <==> t in ThemeCheck(norms).themes
    ensures FirstAppearanceOrder(ThemeCheck(norms).themeKeys, Collect(norms, ThemeOf))
    ensures forall t :: t in ThemeCheck(norms).missingThemes <==> t in RequiredThemes && !HasTheme(norms, t)
    ensures ThemeCheck(norms).passed <==> forall t :: t in RequiredThemes ==> HasTheme(norms, t)
  {
    var keys := Collect(norms, ThemeOf);
    CollectMembers(norms, ThemeOf);
    TallyCounts(keys);
    KeyOrderCorrect(keys);
    forall t | t in Tally(keys) ensures Tally(keys)[t] == CountPicked(norms, ThemeOf, t) {
      CollectCounts(norms, ThemeOf, t);
    }
    forall t ensures t in Tally(keys) <==> HasTheme(norms, t) {
      if HasTheme(norms, t) {
        var i :| 0 <= i < |norms| && ThemeOf(norms[i]) == Some(t);
        assert t in keys;
      }
    }
    if !ThemeCheck(norms).passed {
      var t :| t in ThemeCheck(norms).missingThemes;
    }
  }

  lemma {:induction false} DanglingInMembers(source: Option<string>, targets: seq<string>, kind: string, ids: set<Option<string>>)
    ensures forall x :: x in DanglingIn(source, targets, kind, ids) <==>
      x.source == source && x.kind == kind && x.target in targets && Some(x.target) !in ids
  {
    if targets != [] {
      DanglingInMembers(source, Init(targets), kind, ids);
      assert targets == Init(targets) + [Last(targets)];
    }
  }

  lemma {:induction false} DanglingOfKindsMembers(n: Norm, kinds: seq<string>, ids: set<Option<string>>)
    ensures forall x :: x in DanglingOfKinds(n, kinds, ids) <==>
      x.source == n.idNorma && x.kind in kinds && x.target in RelationTargets(n, x.kind) && Some(x.target) !in ids
  {
    if kinds != [] {
      DanglingOfKindsMembers(n, Init(kinds), ids);
      DanglingInMembers(n.idNorma, RelationTargets(n, Last(kinds)), Last(kinds), ids);
      assert kinds == Init(kinds) + [Last(kinds)];
    }
  }

  /** Record `n` lists `x.target` under the key `x.kind`, and `x.source` is its id. */
  predicate ListsTarget(n: Norm, x: Inconsistency)
  {
    x.source == n.idNorma && x.target in RelationTargets(n, x.kind)
  }

  lemma {:induction false} DanglingMembers(norms: seq<Norm>, ids: set<Option<string>>)
    ensures forall x :: x in Dangling(norms, ids) <==>
      x.kind in CheckedKinds && Some(x.target) !in ids &&
      exists i :: 0 <= i < |norms| && ListsTarget(norms[i], x)
  {
    if norms != [] {
      var init, n := Init(norms), Last(norms);
      DanglingMembers(init, ids);
      DanglingOfKindsMembers(n, CheckedKinds, ids);
      var earlier, last := Dangling(init, ids), DanglingOfKinds(n, CheckedKinds, ids);
      assert Dangling(norms, ids) == earlier + last;
      forall x ensures x in Dangling(norms, ids) <==> x in earlier || x in last {
      }
      forall x {
        ListedByLastOrEarlier(norms, x);
      }
    }
  }

  /** Some record lists `x`'s target exactly when an earlier record or the last one does. */
  lemma ListedByLastOrEarlier(norms: seq<Norm>, x: Inconsistency)
    requires norms != []
    ensures (exists i :: 0 <= i < |norms| && ListsTarget(norms[i], x)) <==>
      (exists i :: 0 <= i < |Init(norms)| && ListsTarget(Init(norms)[i], x)) || ListsTarget(Last(norms), x)
  {
    var init, n := Init(norms), Last(norms);
    if exists i :: 0 <= i < |init| && ListsTarget(init[i], x) {
      var i :| 0 <= i < |init| && ListsTarget(init[i], x);
      assert norms[i] == init[i];
    }
    if exists i :: 0 <= i < |norms| && ListsTarget(norms[i], x) {
      var i :| 0 <= i < |norms| && ListsTarget(norms[i], x);
      if i < |init| {
        assert init[i] == norms[i];
      }
    }
    if ListsTarget(n, x) {
      assert norms[|init|] == n;
    }
  }

  /**
   * Graph consistency: one entry per listed `altera`, `revoga` or `regulamenta`
   * target that is no record's id.
   */
  lemma ConsistencyCheckCorrect(norms: seq<Norm>)
    ensures forall x :: x in ConsistencyCheck(norms).inconsistencies <==>
      x.kind in CheckedKinds && Some(x.target) !in NormIds(norms) &&
      exists i :: 0 <= i < |norms| && x.source == norms[i].idNorma && x.target in RelationTargets(norms[i], x.kind)
    ensures ConsistencyCheck(norms).totalChecked == |norms|
  {
    DanglingMembers(norms, NormIds(norms));
  }

  /** A dangling entry is an added relationship, other than `consolida`, whose target is no record's id. */
  lemma DanglingIsRelationship(norms: seq<Norm>, x: Inconsistency)
    requires x in Dangling(norms, NormIds(norms))
    ensures Relationship(x.source, x.target, x.kind) in RelationshipsOf(norms)
    ensures x.kind != Consolida && Some(x.target) !in NormIds(norms)
  {
    DanglingMembers(norms, NormIds(norms));
    var i :| 0 <= i < |norms| && ListsTarget(norms[i], x);
    RelationshipsOfMembers(norms);
    assert Produces(norms[i], Relationship(x.source, x.target, x.kind));
  }

  /** An added relationship, other than `consolida`, whose target is no record's id is reported. */
  lemma RelationshipIsDangling(norms: seq<Norm>, r: Relationship)
    requires r in RelationshipsOf(norms) && r.kind != Consolida && Some(r.target) !in NormIds(norms)
    ensures Inconsistency(r.source, r.kind, r.target) in Dangling(norms, NormIds(norms))
  {
    RelationshipsOfMembers(norms);
    var i :| 0 <= i < |norms| && Produces(norms[i], r);
    assert r.kind in CheckedKinds;
    DanglingMembers(norms, NormIds(norms));
    assert ListsTarget(norms[i], Inconsistency(r.source, r.kind, r.target));
  }

  /**
   * So the consistency check passes exactly when every relationship the graph
   * would get, other than `consolida`, points at a record.
   */
  lemma ConsistentIffTargetsKnown(norms: seq<Norm>)
    ensures ConsistencyCheck(norms).passed <==>
      forall r :: r in RelationshipsOf(norms) && r.kind != Consolida ==> Some(r.target) in NormIds(norms)
  {
    var found := Dangling(norms, NormIds(norms));
    if found != [] {
      DanglingIsRelationship(norms, found[0]);
    }
    forall r | r in RelationshipsOf(norms) && r.kind != Consolida && Some(r.target) !in NormIds(norms) ensures found != [] {
      RelationshipIsDangling(norms, r);
    }
  }

  /**
   * The relationships other than `consolida` whose target is not in `ids`,
   * one inconsistency each, in the order of `rels`.
   */
  function Unresolved(rels: seq<Relationship>, ids: set<Option<string>>): seq<Inconsistency>
  {
    if rels == [] then []
    else
      var r := Last(rels);
      Unresolved(Init(rels), ids) +
      (if r.kind != Consolida && Some(r.target) !in ids then [Inconsistency(r.source, r.kind, r.target)] else [])
  }

  lemma {:induction false} UnresolvedConcat(a: seq<Relationship>, b: seq<Relationship>, ids: set<Option<string>>)
    ensures Unresolved(a + b, ids) == Unresolved(a, ids) + Unresolved(b, ids)
  {
    if b == [] {
      assert a + b == a;
    } else {
      UnresolvedConcat(a, Init(b), ids);
      assert Init(a + b) == a + Init(b) && Last(a + b) == Last(b);
    }
  }

  /** For one key, the unresolved relationships are the dangling targets; `consolida` gives none. */
  lemma {:induction false} UnresolvedOfRels(source: Option<string>, targets: seq<string>, kind: string, ids: set<Option<string>>)
    ensures Unresolved(Rels(source, targets, kind), ids) == if kind == Consolida then [] else DanglingIn(source, targets, kind, ids)
  {
    if targets != [] {
      UnresolvedOfRels(source, Init(targets), kind, ids);
      var rels := Rels(source, targets, kind);
      assert Init(rels) == Rels(source, Init(targets), kind);
      assert Last(rels) == Relationship(source, Last(targets), kind);
    }
  }

  lemma {:induction false} UnresolvedOfKinds(n: Norm, kinds: seq<string>, ids: set<Option<string>>)
    requires Consolida !in kinds
    ensures Unresolved(RelsOfKinds(n, kinds), ids) == DanglingOfKinds(n, kinds, ids)
  {
    if kinds != [] {
      assert kinds == Init(kinds) + [Last(kinds)];
      UnresolvedOfKinds(n, Init(kinds), ids);
      UnresolvedConcat(RelsOfKinds(n, Init(kinds)), Rels(n.idNorma, RelationTargets(n, Last(kinds)), Last(kinds)), ids);
      UnresolvedOfRels(n.idNorma, RelationTargets(n, Last(kinds)), Last(kinds), ids);
    }
  }

  /** One record's dangling targets are its unresolved relationships. */
  lemma UnresolvedOfRecord(n: Norm, ids: set<Option<string>>)
    ensures Unresolved(RelsOfKinds(n, RelationKinds), ids) == DanglingOfKinds(n, CheckedKinds, ids)
  {
    assert Init(RelationKinds) == CheckedKinds && Last(RelationKinds) == Consolida;
    UnresolvedConcat(RelsOfKinds(n, CheckedKinds), Rels(n.idNorma, RelationTargets(n, Consolida), Consolida), ids);
    UnresolvedOfRels(n.idNorma, RelationTargets(n, Consolida), Consolida, ids);
    UnresolvedOfKinds(n, CheckedKinds, ids);
  }

  lemma {:induction false} DanglingIsUnresolved(norms: seq<Norm>, ids: set<Option<string>>)
    ensures Dangling(norms, ids) == Unresolved(RelationshipsOf(norms), ids)
  {
    if norms != [] {
      DanglingIsUnresolved(Init(norms), ids);
      UnresolvedConcat(RelationshipsOf(Init(norms)), RelsOfKinds(Last(norms), RelationKinds), ids);
      UnresolvedOfRecord(Last(norms), ids);
    }
  }

  /**
   * The inconsistencies, counted and ordered: one per relationship the graph
   * builder adds, other than `consolida`, whose target is no record's id, in
   * record, then key, then list order.
   */
  lemma ConsistencyCheckInOrder(norms: seq<Norm>)
    ensures ConsistencyCheck(norms).inconsistencies == Unresolved(RelationshipsOf(norms), NormIds(norms))
  {
    DanglingIsUnresolved(norms, NormIds(norms));
  }

  lemma {:induction false} AbsentKeyNormsMembers(keys: seq<(string, string)>, ids: set<Option<string>>)
    ensures |AbsentKeyNorms(keys, ids)| <= |keys|
    ensures forall d :: d in AbsentKeyNorms(keys, ids) <==>
      exists j :: 0 <= j < |keys| && keys[j].1 == d && Some(keys[j].0) !in ids
    ensures AbsentKeyNorms(keys, ids) == [] <==> forall j :: 0 <= j < |keys| ==> Some(keys[j].0) in ids
  {
    if keys != [] {
      AbsentKeyNormsMembers(Init(keys), ids);
      assert keys == Init(keys) + [Last(keys)];
      forall d ensures d in AbsentKeyNorms(keys, ids) <==> exists j :: 0 <= j < |keys| && keys[j].1 == d && Some(keys[j].0) !in ids {
        if exists j :: 0 <= j < |keys| && keys[j].1 == d && Some(keys[j].0) !in ids {
          var j :| 0 <= j < |keys| && keys[j].1 == d && Some(keys[j].0) !in ids;
          if j < |keys| - 1 {
            assert Init(keys)[j] == keys[j];
          }
        }
      }
      if AbsentKeyNorms(keys, ids) == [] {
        forall j | 0 <= j < |keys| ensures Some(keys[j].0) in ids {
          if j < |keys| - 1 {
            assert Init(keys)[j] == keys[j];
          }
        }
      }
    }
  }

  /**
   * Key norms: the missing list holds the description of each of the six key
   * norms whose id no record has, in the fixed order, and the check passes
   * exactly when all six ids are present.
   */
  lemma KeyNormsCheckCorrect(norms: seq<Norm>)
    ensures |KeyNormsCheck(norms).missing| <= KeyNormsCheck(norms).totalKeyNorms == 6
    ensures forall d :: d in KeyNormsCheck(norms).missing <==>
      exists j :: 0 <= j < |KeyNorms| && KeyNorms[j].1 == d && Some(KeyNorms[j].0) !in NormIds(norms)
    ensures KeyNormsCheck(norms).passed <==>
      forall j :: 0 <= j < |KeyNorms| ==> exists i :: 0 <= i < |norms| && norms[i].idNorma == Some(KeyNorms[j].0)
  {
    AbsentKeyNormsMembers(KeyNorms, NormIds(norms));
    forall j | 0 <= j < |KeyNorms|
      ensures Some(KeyNorms[j].0) in NormIds(norms) <==> exists i :: 0 <= i < |norms| && norms[i].idNorma == Some(KeyNorms[j].0)
    {
      if Some(KeyNorms[j].0) in NormIds(norms) {
        var n :| n in norms && n.idNorma == Some(KeyNorms[j].0);
        var i :| 0 <= i < |norms| && norms[i] == n;
      }
    }
  }

  /** Counting over the five report keys, one key at a time. */
  lemma CountPassedOfFive(checks: map<CheckName, CheckResult>)
    requires forall k :: k in CheckNames ==> k in checks
    ensures CountPassed(CheckNames, checks) ==
      (if checks[TemporalName].passed then 1 else 0) + (if checks[SourceName].passed then 1 else 0) +
      (if checks[ThemeName].passed then 1 else 0) + (if checks[ConsistencyName].passed then 1 else 0) +
      (if checks[KeyNormsName].passed then 1 else 0)
  {
    var n5 := CheckNames;
    var n4 := [TemporalName, SourceName, ThemeName, ConsistencyName];
    var n3 := [TemporalName, SourceName, ThemeName];
    var n2 := [TemporalName, SourceName];
    var n1 := [TemporalName];
    assert Init(n5) == n4 && Last(n5) == KeyNormsName;
    assert Init(n4) == n3 && Last(n4) == ConsistencyName;
    assert Init(n3) == n2 && Last(n3) == ThemeName;
    assert Init(n2) == n1 && Last(n2) == SourceName;
    assert Init(n1) == [] && Last(n1) == TemporalName;
    assert CountPassed(n1, checks) == (if checks[TemporalName].passed then 1 else 0);
    assert CountPassed(n2, checks) == CountPassed(n1, checks) + (if checks[SourceName].passed then 1 else 0);
    assert CountPassed(n3, checks) == CountPassed(n2, checks) + (if checks[ThemeName].passed then 1 else 0);
    assert CountPassed(n4, checks) == CountPassed(n3, checks) + (if checks[ConsistencyName].passed then 1 else 0);
  }

  /**
   * A full run reports every failing check once and no passing one: the
   * checks passed plus the messages added make five.
   */
  lemma FailuresAreReported(norms: seq<Norm>, checks: map<CheckName, CheckResult>)
    requires forall k :: k in CheckNames ==> k in checks && checks[k] == ExpectedCheck(norms, k)
    ensures CountPassed(CheckNames, checks) +
            |Complaint(TemporalCheck(norms)) + Complaint(SourceCheck(norms)) + Complaint(ThemeCheck(norms))| +
            |Complaint(ConsistencyCheck(norms)) + Complaint(KeyNormsCheck(norms))| == |CheckNames|
  {
    CountPassedOfFive(checks);
    assert checks[TemporalName] == ExpectedCheck(norms, TemporalName) == TemporalCheck(norms);
    assert checks[SourceName] == ExpectedCheck(norms, SourceName) == SourceCheck(norms);
    assert checks[ThemeName] == ExpectedCheck(norms, ThemeName) == ThemeCheck(norms);
    assert checks[ConsistencyName] == ExpectedCheck(norms, ConsistencyName) == ConsistencyCheck(norms);
    assert checks[KeyNormsName] == ExpectedCheck(norms, KeyNormsName) == KeyNormsCheck(norms);
    ComplaintLength(TemporalCheck(norms));
    ComplaintLength(SourceCheck(norms));
    ComplaintLength(ThemeCheck(norms));
    ComplaintLength(ConsistencyCheck(norms));
    ComplaintLength(KeyNormsCheck(norms));
  }

  lemma ComplaintLength(c: CheckResult)
    ensures |Complaint(c)| == if c.passed then 0 else 1
  {
  }
}
