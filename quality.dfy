/**
 * The quality checker: it runs the five checks over a list of records and
 * accumulates their results, warnings and errors in its report.
 */
module Quality {
  import opened Wrappers
  import opened Sequences
  import opened Norms
  import opened Counting
  import opened QualitySpec

  class QualityChecker {
    const norms: seq<Norm>
    // The report: `total_norms`, `checks` (keys in insertion order), `warnings`,
    // `errors` and, once `run_all_checks` has run, `quality_score`.
    var totalNorms: nat
    var checkOrder: seq<CheckName>
    var checks: map<CheckName, CheckResult>
    var warnings: seq<Message>
    var errors: seq<Message>
    var qualityScore: Option<real>

    /** Every recorded check is listed once in the key order. */
    ghost predicate Valid()
      reads this
    {
      totalNorms == |norms| && Distinct(checkOrder) && forall k :: k in checks <==> k in checkOrder
    }

    constructor(norms: seq<Norm>)
      ensures Valid()
      ensures this.norms == norms && totalNorms == |norms|
      ensures checkOrder == [] && checks == map[] && warnings == [] && errors == [] && qualityScore == None
    {
      this.norms := norms;
      totalNorms := |norms|;
      checkOrder, checks := [], map[];
      warnings, errors := [], [];
      qualityScore := None;
    }

    /** The report after recording `result` under `name`. */
    twostate predicate Recorded(name: CheckName, result: CheckResult)
      reads this
    {
      checks == old(checks)[name := result] &&
      checkOrder == (if name in old(checks) then old(checkOrder) else old(checkOrder) + [name]) &&
      totalNorms == old(totalNorms) && qualityScore == old(qualityScore)
    }

    /** Stores a check's result in the report under its name, keeping first-insertion key order. */
    method Record(name: CheckName, result: CheckResult)
      requires Valid()
      modifies this
      ensures Valid() && Recorded(name, result)
      ensures warnings == old(warnings) && errors == old(errors)
    {
      if name !in checks {
        checkOrder := checkOrder + [name];
      }
      checks := checks[name := result];
    }

    /** Years with data, counted per year; missing years of 2010 to 2025 produce one warning. */
    method CheckTemporalCoverage() returns (ok: bool)
      requires Valid()
      modifies this
      ensures Valid()
      ensures ok == TemporalCheck(norms).passed
      ensures Recorded(TemporalName, TemporalCheck(norms))
      ensures warnings == old(warnings) + Complaint(TemporalCheck(norms)) && errors == old(errors)
    {
      var result := TemporalCoverage(norms);
      Record(TemporalName, result);
      if !result.passed {
        warnings := warnings + [MissingYears(result.missingYears)];
      }
      ok := result.passed;
    }

    /** Records counted per source (`unknown` when absent); missing required sources produce one warning. */
    method CheckSourceCoverage() returns (ok: bool)
      requires Valid()
      modifies this
      ensures Valid()
      ensures ok == SourceCheck(norms).passed
      ensures Recorded(SourceName, SourceCheck(norms))
      ensures warnings == old(warnings) + Complaint(SourceCheck(norms)) && errors == old(errors)
    {
      var result := SourceCoverage(norms);
      Record(SourceName, result);
      if !result.passed {
        warnings := warnings + [MissingSources(result.missingSources)];
      }
      ok := result.passed;
    }

    /** Records counted per truthy theme; missing required themes produce one warning. */
    method CheckThemeCoverage() returns (ok: bool)
      requires Valid()
      modifies this
      ensures Valid()
      ensures ok == ThemeCheck(norms).passed
      ensures Recorded(ThemeName, ThemeCheck(norms))
      ensures warnings == old(warnings) + Complaint(ThemeCheck(norms)) && errors == old(errors)
    {
      var result := ThemeCoverage(norms);
      Record(ThemeName, result);
      if !result.passed {
        warnings := warnings + [InsufficientThemes(result.missingThemes)];
      }
      ok := result.passed;
    }

    /** One inconsistency per dangling `altera`/`revoga`/`regulamenta` target; any produce one error. */
    method CheckGraphConsistency() returns (ok: bool)
      requires Valid()
      modifies this
      ensures Valid()
      ensures ok == ConsistencyCheck(norms).passed
      ensures Recorded(ConsistencyName, ConsistencyCheck(norms))
      ensures warnings == old(warnings) && errors == old(errors) + Complaint(ConsistencyCheck(norms))
    {
      var ids := set n | n in norms :: n.idNorma;
      var inconsistencies: seq<Inconsistency> := [];
      for i := 0 to |norms|
        modifies {}
        invariant inconsistencies == Dangling(norms[..i], ids)
      {
        assert Init(norms[..i + 1]) == norms[..i];
        var found := DanglingTargetsOf(norms[i], ids);
        inconsistencies := inconsistencies + found;
      }
      assert norms[..|norms|] == norms;
      Record(ConsistencyName, Consistency(inconsistencies == [], inconsistencies, |norms|));
      if inconsistencies != [] {
        errors := errors + [GraphInconsistencies(|inconsistencies|)];
      }
      ok := inconsistencies == [];
    }

    /** The missing key norms' descriptions, in the fixed order; any produce one error. */
    method CheckKeyNormsPresence() returns (ok: bool)
      requires Valid()
      modifies this
      ensures Valid()
      ensures ok == KeyNormsCheck(norms).passed
      ensures Recorded(KeyNormsName, KeyNormsCheck(norms))
      ensures warnings == old(warnings) && errors == old(errors) + Complaint(KeyNormsCheck(norms))
    {
      var ids := set n | n in norms :: n.idNorma;
      var missing: seq<string> := [];
      for j := 0 to |KeyNorms|
        modifies {}
        invariant missing == AbsentKeyNorms(KeyNorms[..j], ids)
      {
        assert Init(KeyNorms[..j + 1]) == KeyNorms[..j];
        var (id, description) := KeyNorms[j];
        if Some(id) !in ids {
          missing := missing + [description];
        }
      }
      assert KeyNorms[..|KeyNorms|] == KeyNorms;
      Record(KeyNormsName, KeyNormsPresence(missing == [], missing, |KeyNorms|));
      if missing != [] {
        errors := errors + [MissingKeyNorms(missing)];
      }
      ok := missing == [];
    }

    /**
     * The percentage of recorded checks that passed, counted over the report in
     * key order; 0 for an empty report.
     */
    function CalculateQualityScore(): (r: real)
      reads this
      requires Valid()
      ensures 0.0 <= r <= 100.0
      ensures r == 0.0 <==> forall k :: k in checks ==> !checks[k].passed
      ensures r == 100.0 <==> checks != map[] && forall k :: k in checks ==> checks[k].passed
    {
      CountPassedBounds(checkOrder, checks);
      assert checks != map[] <==> |checkOrder| > 0 by {
        if checkOrder != [] {
          assert checkOrder[0] in checks;
        }
      }
      Percent(Score(CountPassed(checkOrder, checks), |checkOrder|))
    }

    /**
     * Runs the five checks in order and records the score. Afterwards all five
     * results are in the report; warnings and errors grow by one message per
     * failing check.
     */
    method RunAllChecks()
      requires Valid()
      modifies this
      ensures Valid()
      ensures checks == old(checks)[TemporalName := TemporalCheck(norms)][SourceName := SourceCheck(norms)]
                                   [ThemeName := ThemeCheck(norms)][ConsistencyName := ConsistencyCheck(norms)]
                                   [KeyNormsName := KeyNormsCheck(norms)]
      ensures forall k :: k in checks && checks[k] == ExpectedCheck(norms, k)
      ensures old(checkOrder) == [] ==> checkOrder == CheckNames
      ensures warnings == old(warnings) + Complaint(TemporalCheck(norms)) + Complaint(SourceCheck(norms)) + Complaint(ThemeCheck(norms))
      ensures errors == old(errors) + Complaint(ConsistencyCheck(norms)) + Complaint(KeyNormsCheck(norms))
      ensures qualityScore == Some(CalculateQualityScore())
      ensures totalNorms == old(totalNorms)
    {
      ghost var checks0, order0 := checks, checkOrder;
      var _ := CheckTemporalCoverage();
      ghost var checks1, order1 := checks, checkOrder;
      var _ := CheckSourceCoverage();
      ghost var checks2, order2 := checks, checkOrder;
      var _ := CheckThemeCoverage();
      ghost var checks3, order3 := checks, checkOrder;
      var _ := CheckGraphConsistency();
      ghost var checks4, order4 := checks, checkOrder;
      var _ := CheckKeyNormsPresence();
      FiveRecorded(checks0, checks1, checks2, checks3, checks4, checks, order0, order1, order2, order3, order4, checkOrder,
                   TemporalCheck(norms), SourceCheck(norms), ThemeCheck(norms), ConsistencyCheck(norms), KeyNormsCheck(norms));
      forall k ensures k in checks && checks[k] == ExpectedCheck(norms, k) {
        match k
        case TemporalName =>
        case SourceName =>
        case ThemeName =>
        case ConsistencyName =>
        case KeyNormsName =>
      }
      RecordScore();
    }

    /** Stores the quality score in the report and changes nothing else. */
    method RecordScore()
      requires Valid()
      modifies this
      ensures Valid() && qualityScore == Some(CalculateQualityScore())
      ensures checkOrder == old(checkOrder) && checks == old(checks)
      ensures warnings == old(warnings) && errors == old(errors) && totalNorms == old(totalNorms)
    {
      qualityScore := Some(CalculateQualityScore());
    }
  }

  /**
   * Recording the five results in order: each is stored under its key, and
   * into an empty report the keys are listed in the order of the checks.
   */
  lemma FiveRecorded(checks0: map<CheckName, CheckResult>, checks1: map<CheckName, CheckResult>,
                     checks2: map<CheckName, CheckResult>, checks3: map<CheckName, CheckResult>,
                     checks4: map<CheckName, CheckResult>, checks5: map<CheckName, CheckResult>,
                     order0: seq<CheckName>, order1: seq<CheckName>, order2: seq<CheckName>,
                     order3: seq<CheckName>, order4: seq<CheckName>, order5: seq<CheckName>,
                     r1: CheckResult, r2: CheckResult, r3: CheckResult, r4: CheckResult, r5: CheckResult)
    requires checks1 == checks0[TemporalName := r1]
    requires order1 == (if TemporalName in checks0 then order0 else order0 + [TemporalName])
    requires checks2 == checks1[SourceName := r2]
    requires order2 == (if SourceName in checks1 then order1 else order1 + [SourceName])
    requires checks3 == checks2[ThemeName := r3]
    requires order3 == (if ThemeName in checks2 then order2 else order2 + [ThemeName])
    requires checks4 == checks3[ConsistencyName := r4]
    requires order4 == (if ConsistencyName in checks3 then order3 else order3 + [ConsistencyName])
    requires checks5 == checks4[KeyNormsName := r5]
    requires order5 == (if KeyNormsName in checks4 then order4 else order4 + [KeyNormsName])
    ensures checks5[TemporalName] == r1 && checks5[SourceName] == r2 && checks5[ThemeName] == r3
    ensures checks5[ConsistencyName] == r4 && checks5[KeyNormsName] == r5
    ensures forall k :: k in checks5
    ensures checks0 == map[] ==> order0 == [] ==> order5 == CheckNames
  {
    forall k ensures k in checks5 {
      match k
      case TemporalName =>
      case SourceName =>
      case ThemeName =>
      case ConsistencyName =>
      case KeyNormsName =>
    }
  }

  /** The per-year counts and the missing years of `check_temporal_coverage`. */
  method TemporalCoverage(norms: seq<Norm>) returns (result: CheckResult)
    ensures result == TemporalCheck(norms)
  {
    // `years_with_data`, with the list of the years as they were met
    var yearsWithData: set<int> := {};
    var yearsMet: seq<int> := [];
    var yearCounts: map<int, nat> := map[];
    var yearKeys: seq<int> := [];
    for i := 0 to |norms|
      invariant yearsMet == Collect(norms[..i], YearOf)
      invariant yearsWithData == YearSet(yearsMet)
      invariant yearCounts == Tally(yearsMet) && yearKeys == KeyOrder(yearsMet)
    {
      assert norms[..i + 1] == norms[..i] + [norms[i]];
      CollectAppend(norms[..i], norms[i], YearOf);
      var year := norms[i].ano;
      if TruthyYear(year) {
        TallyAppend(yearsMet, year.value);
        KeyOrderAppend(yearsMet, year.value);
        YearSetAppend(yearsMet, year.value);
        yearsWithData := yearsWithData + {year.value};
        if year.value !in yearCounts {
          yearKeys := yearKeys + [year.value];
        }
        yearsMet := yearsMet + [year.value];
        yearCounts := yearCounts[year.value := (if year.value in yearCounts then yearCounts[year.value] else 0) + 1];
      }
    }
    assert norms[..|norms|] == norms;
    var missing := YearsOutside(FirstYear, LastYear + 1, yearsWithData);
    result := Temporal(missing == [], SortedSetOf(yearsMet), missing, yearCounts, yearKeys);
  }

  /** The per-source counts and the missing sources of `check_source_coverage`. */
  method SourceCoverage(norms: seq<Norm>) returns (result: CheckResult)
    ensures result == SourceCheck(norms)
  {
    var sources: map<Option<string>, nat> := map[];
    var sourceKeys: seq<Option<string>> := [];
    ghost var met: seq<Option<string>> := [];
    for i := 0 to |norms|
      invariant met == Collect(norms[..i], SourceOf)
      invariant sources == Tally(met)
      invariant sourceKeys == KeyOrder(met)
    {
      assert norms[..i + 1] == norms[..i] + [norms[i]];
      CollectAppend(norms[..i], norms[i], SourceOf);
      var source := SourceOf(norms[i]).value;
      TallyAppend(met, source);
      KeyOrderAppend(met, source);
      var isNew := source !in sources;
      assert isNew <==> source !in met;
      met := met + [source];
      if isNew {
        sourceKeys := sourceKeys + [source];
      }
      sources := sources[source := (if source in sources then sources[source] else 0) + 1];
    }
    assert norms[..|norms|] == norms;
    var missing := set s | s in RequiredSources && Some(s) !in sources;
    result := Sources(missing == {}, sources, sourceKeys, missing);
  }

  /** The per-theme counts and the missing themes of `check_theme_coverage`. */
  method ThemeCoverage(norms: seq<Norm>) returns (result: CheckResult)
    ensures result == ThemeCheck(norms)
  {
    var themes: map<string, nat> := map[];
    var themeKeys: seq<string> := [];
    ghost var met: seq<string> := [];
    for i := 0 to |norms|
      invariant met == Collect(norms[..i], ThemeOf)
      invariant themes == Tally(met) && themeKeys == KeyOrder(met)
    {
      assert norms[..i + 1] == norms[..i] + [norms[i]];
      CollectAppend(norms[..i], norms[i], ThemeOf);
      var theme := ThemeOf(norms[i]);
      if theme.Some? {
        TallyAppend(met, theme.value);
        KeyOrderAppend(met, theme.value);
        met := met + [theme.value];
        if theme.value !in themes {
          themeKeys := themeKeys + [theme.value];
        }
        themes := themes[theme.value := (if theme.value in themes then themes[theme.value] else 0) + 1];
      }
    }
    assert norms[..|norms|] == norms;
    var missing := set t | t in RequiredThemes && t !in themes;
    result := Themes(missing == {}, themes, themeKeys, missing);
  }

  /** The dangling targets of one record, key by key and in list order. */
  method DanglingTargetsOf(n: Norm, ids: set<Option<string>>) returns (found: seq<Inconsistency>)
    ensures found == DanglingOfKinds(n, CheckedKinds, ids)
  {
    found := [];
    for k := 0 to |CheckedKinds|
      invariant found == DanglingOfKinds(n, CheckedKinds[..k], ids)
    {
      var kind := CheckedKinds[k];
      var related := RelationTargets(n, kind);
      assert Init(CheckedKinds[..k + 1]) == CheckedKinds[..k];
      for t := 0 to |related|
        invariant found == DanglingOfKinds(n, CheckedKinds[..k], ids) + DanglingIn(n.idNorma, related[..t], kind, ids)
      {
        assert Init(related[..t + 1]) == related[..t];
        if Some(related[t]) !in ids {
          found := found + [Inconsistency(n.idNorma, kind, related[t])];
        }
      }
      assert related[..|related|] == related;
    }
    assert CheckedKinds[..|CheckedKinds|] == CheckedKinds;
  }
}
