/** The decision logic of `main`: load both tables (a missing file ends the run),
    filter them by the same countries and years, rescale their rates, merge them
    (an empty merge ends the run), then run the standard analysis at the override
    or median thresholds and, when `--num` is truthy, the automatic top-N analysis.
    Each analysis names its plot, its export directory and its report after a
    suffix. Reading files, the run directory, logging and plotting are not modelled;
    the loaded tables and the median function are parameters. */
module Pipeline {
  import opened Wrappers
  import opened Strings
  import opened Collections
  import opened Tables
  import opened Processing
  import opened Export
  import opened Report

  // ---------------------------------------------------------------------------
  // output names

  /** `<run_dir>/daly_vs_prev_<suffix>.png`. */
  function PlotFileName(runDir: string, suffix: string): string {
    JoinPath(runDir, "daly_vs_prev_" + suffix + ".png")
  }

  /** `<run_dir>/high_high_exports_<suffix>`. */
  function ExportDirName(runDir: string, suffix: string): string {
    JoinPath(runDir, "high_high_exports_" + suffix)
  }

  /** `REPORT_<SUFFIX>.md`, the suffix upper-cased. */
  function ReportFileName(suffix: string): string {
    "REPORT_" + Upper(suffix) + ".md"
  }

  lemma UpperKeeps(s: string, c: char)
    requires c != '_' ==> c == '.'
    ensures c in Upper(s) <==> c in s
  {
    var u := Upper(s);
    if c in u {
      var i :| 0 <= i < |u| && u[i] == c;
      assert s[i] in s;
    }
    if c in s {
      var i :| 0 <= i < |s| && s[i] == c;
      assert u[i] in u;
    }
  }

  /** A report named after a suffix without `_` or `.` has the suffix, capitalised,
      as its filter type: `median` gives `Median` and `manual` gives `Manual`. */
  lemma ReportFilterType(suffix: string)
    requires '_' !in suffix && '.' !in suffix
    ensures FilterType(ReportFileName(suffix)) == Ok(Capitalize(suffix))
  {
    CapitalizeUpper(suffix);
    UpperKeeps(suffix, '_');
    UpperKeeps(suffix, '.');
    assert ReportFileName(suffix) == "REPORT" + "_" + Upper(suffix) + ".md";
    FilterTypeOf("REPORT", Upper(suffix), ".md");
  }

  /** The top-N analysis's report `REPORT_TOP_<n>.md` has filter type `Top`: the
      number falls after the second `_`. */
  lemma TopFilterType(n: int)
    ensures FilterType(ReportFileName("Top_" + IntToStr(n))) == Ok("Top")
  {
    var digits := Upper(IntToStr(n));
    TopReportName(n);
    FilterTypeOf("REPORT", "TOP", "_" + digits + ".md");
    CapitalizeTop();
  }

  lemma TopReportName(n: int)
    ensures ReportFileName("Top_" + IntToStr(n)) == "REPORT" + "_" + "TOP" + ("_" + Upper(IntToStr(n)) + ".md")
  {
    var d := Upper(IntToStr(n));
    UpperConcat("Top_", IntToStr(n));
    UpperTop();
    assert "REPORT_" == "REPORT" + "_" && "TOP_" == "TOP" + "_";
    Regroup("REPORT", "_", "TOP", d, ".md");
  }

  lemma Regroup(a: string, b: string, c: string, d: string, e: string)
    ensures (a + b) + ((c + b) + d) + e == a + b + c + (b + d + e)
  {
  }

  lemma UpperTop()
    ensures Upper("Top_") == "TOP_"
  {
    var u := Upper("Top_");
    assert u[0] == 'T' && u[1] == 'O' && u[2] == 'P' && u[3] == '_';
  }

  lemma CapitalizeTop()
    ensures Capitalize("TOP") == "Top"
  {
    var r := Capitalize("TOP");
    assert r[0] == 'T' && r[1] == 'o' && r[2] == 'p';
  }

  // ---------------------------------------------------------------------------
  // choosing the analyses

  /** The parameters of one `run_analysis` call. */
  datatype Analysis = Analysis(
    intersectX: real,
    intersectY: real,
    suffix: string,
    topN: Option<int>,
    topConditions: Option<seq<string>>)

  /** The standard analysis: each axis at its override when one is given,
      otherwise at that axis's median; named `manual` only when both are given. */
  function StandardAnalysis(prevOverride: Option<real>, dalyOverride: Option<real>,
                            medianX: real, medianY: real): (a: Analysis)
    ensures prevOverride.Some? ==> a.intersectX == prevOverride.value
    ensures prevOverride.None? ==> a.intersectX == medianX
    ensures dalyOverride.Some? ==> a.intersectY == dalyOverride.value
    ensures dalyOverride.None? ==> a.intersectY == medianY
    ensures a.suffix == "manual" <==> prevOverride.Some? && dalyOverride.Some?
    ensures a.suffix == "manual" || a.suffix == "median"
    ensures a.topN.None? && a.topConditions.None?
  {
    var x := if prevOverride.Some? then prevOverride.value else medianX;
    var y := if dalyOverride.Some? then dalyOverride.value else medianY;
    var suffix := if prevOverride.Some? && dalyOverride.Some? then "manual" else "median";
    Analysis(x, y, suffix, None, None)
  }

  /** The analyses `main` runs, in order, and the exception it ends with, if any. */
  datatype Plan = Plan(analyses: seq<Analysis>, error: Option<Error>)

  /** With rows and a positive `n`, some condition is selected, so both thresholds exist. */
  lemma AutoThresholdsDefined(m: Merged, n: int)
    requires HasValues(m.rows) && m.rows != [] && n > 0
    ensures var a := CalculateAutoIntersects(m, Some(n)).value;
      a.top != [] && a.intersectPrev.Some? && a.intersectDaly.Some?
  {
    AutoTopSpec(m, n);
    assert m.rows[0] in m.rows;
    ConditionsHave(m.rows, m.rows[0].daly.condition);
    IntersectsThresholds(Conditions(m.rows), DalyMax(m.rows), PrevMax(m.rows), n);
  }

  /** The analyses for the merged table `m`: none when it is empty; otherwise the
      standard analysis, then, when `num` is truthy, the top-N analysis, which
      raises `ValueError` for a negative `num` before it runs. */
  function PlanAnalyses(m: Merged, prevOverride: Option<real>, dalyOverride: Option<real>,
                        num: Option<int>, medianX: real, medianY: real): (p: Plan)
    requires HasValues(m.rows)
    ensures m.rows == [] ==> p == Plan([], None)
    ensures m.rows != [] ==>
      1 <= |p.analyses| <= 2 && p.analyses[0] == StandardAnalysis(prevOverride, dalyOverride, medianX, medianY) &&
      (|p.analyses| == 2 <==> num.Some? && num.value > 0)
    ensures p.error.Some? <==> m.rows != [] && num.Some? && num.value < 0
    ensures p.error.Some? ==> p.error.value == ValueError("N must be positive")
    ensures |p.analyses| == 2 ==>
      var a := p.analyses[1];
      var auto := CalculateAutoIntersects(m, num).value;
      a.suffix == "Top_" + IntToStr(num.value) && a.topN == num && a.topConditions == Some(auto.top) &&
      Some(a.intersectX) == auto.intersectPrev && Some(a.intersectY) == auto.intersectDaly
  {
    if m.rows == [] then Plan([], None)
    else
      var standard := StandardAnalysis(prevOverride, dalyOverride, medianX, medianY);
      if !Truthy(num) then Plan([standard], None)
      else
        var auto := CalculateAutoIntersects(m, num);
        if auto.Err? then Plan([standard], Some(auto.error))
        else
          AutoThresholdsDefined(m, num.value);
          var a := auto.value;
          Plan([standard, Analysis(a.intersectPrev.value, a.intersectDaly.value, "Top_" + IntToStr(num.value), num, Some(a.top))], None)
  }

  /** In the top-N analysis every selected condition has rows, so the report's top
      table counts none of them 0. */
  lemma AutoTopTable(m: Merged, n: int)
    requires HasValues(m.rows) && n > 0
    ensures forall e :: e in TopTable(m.rows, CalculateAutoIntersects(m, Some(n)).value.top) ==> e.count >= 1
  {
    var top := CalculateAutoIntersects(m, Some(n)).value.top;
    AutoTopSpec(m, n);
    var t := TopTable(m.rows, top);
    var cs := ConditionList(m.rows);
    forall e | e in t ensures e.count >= 1 {
      var i :| 0 <= i < |t| && t[i] == e;
      assert top[i] in top;
      var k :| 0 <= k < |m.rows| && m.rows[k].daly.condition == top[i];
      assert cs[k] == top[i];
      assert top[i] in multiset(cs);
    }
  }

  // ---------------------------------------------------------------------------
  // running the pipeline

  /** What one `run_analysis` call produces: its names, the files exported and the report. */
  datatype AnalysisRun = AnalysisRun(analysis: Analysis, plotFile: string, exportDir: string,
                                     exported: seq<string>, report: Report)

  /** `r` is what `run_analysis` produces for `a` on the merged table `m`. */
  predicate RanAnalysis(m: Merged, runDir: string, a: Analysis, r: AnalysisRun) {
    r.analysis == a &&
    r.plotFile == PlotFileName(runDir, a.suffix) &&
    r.exportDir == ExportDirName(runDir, a.suffix) &&
    r.exported == Files(Exports(m.rows, a.intersectX, a.intersectY, r.exportDir, a.topConditions)) &&
    HasValues(m.rows) &&
    GenerateReport(m, runDir, a.intersectX, a.intersectY, a.topN, a.topConditions, ReportFileName(a.suffix)) == Ok(r.report)
  }

  /** `run_analysis`: plot (not modelled), export the high/high rows, write the report. */
  method RunAnalysis(m: Merged, runDir: string, a: Analysis) returns (r: AnalysisRun)
    requires HasValues(m.rows)
    ensures RanAnalysis(m, runDir, a, r)
  {
    var plotFile := PlotFileName(runDir, a.suffix);
    var exportDir := ExportDirName(runDir, a.suffix);
    var files, written := ExportHighHigh(m, a.intersectX, a.intersectY, exportDir, a.topConditions);
    var reportFilename := ReportFileName(a.suffix);
    assert reportFilename[6] == '_';
    var report := GenerateReport(m, runDir, a.intersectX, a.intersectY, a.topN, a.topConditions, reportFilename);
    r := AnalysisRun(a, plotFile, exportDir, files, report.value);
  }

  /** `dalyRates` and `prevRates` are the loaded tables filtered by `countries` and
      `years` and then rescaled. */
  predicate Prepared(daly: Table, prev: Table, countries: Option<seq<string>>, years: Option<seq<int>>,
                     dalyRates: Table, prevRates: Table) {
    FilterDf(daly, countries, years).Ok? && FilterDf(prev, countries, years).Ok? &&
    Rescaled(FilterDf(daly, countries, years).value, RateColumns, dalyRates) &&
    Rescaled(FilterDf(prev, countries, years).value, RateColumns, prevRates)
  }

  /** Lines 56-63 of `main`: the same filter on both tables, then the rate columns rescaled. */
  method PrepareTables(daly: Table, prev: Table, countries: Option<seq<string>>, years: Option<seq<int>>)
    returns (r: Result<(Table, Table)>)
    requires WellFormed(daly) && WellFormed(prev)
    ensures FilterDf(daly, countries, years).Err? ==> r == Err(FilterDf(daly, countries, years).error)
    ensures FilterDf(daly, countries, years).Ok? && FilterDf(prev, countries, years).Err? ==>
      r == Err(FilterDf(prev, countries, years).error)
    ensures r.Ok? <==> FilterDf(daly, countries, years).Ok? && FilterDf(prev, countries, years).Ok?
    ensures r.Ok? ==>
      Prepared(daly, prev, countries, years, r.value.0, r.value.1) &&
      r.value.0.columns == daly.columns && r.value.1.columns == prev.columns &&
      WellFormed(r.value.0) && WellFormed(r.value.1)
  {
    var filteredDaly := FilterDf(daly, countries, years);
    if filteredDaly.Err? {
      return Err(filteredDaly.error);
    }
    var filteredPrev := FilterDf(prev, countries, years);
    if filteredPrev.Err? {
      return Err(filteredPrev.error);
    }
    RateColumnsNotKeys();
    var dalyRates := NormalizeRates(filteredDaly.value, RateColumns);
    var prevRates := NormalizeRates(filteredPrev.value, RateColumns);
    FilterDfWellFormed(daly, countries, years);
    FilterDfWellFormed(prev, countries, years);
    RescaledWellFormed(filteredDaly.value, RateColumns, dalyRates);
    RescaledWellFormed(filteredPrev.value, RateColumns, prevRates);
    r := Ok((dalyRates, prevRates));
  }

  /** How a run of `main` ends. */
  datatype Outcome =
    | MissingInput                            // an input file was not found
    | Failed(error: Error)                    // an exception from filtering or merging
    | NoMergedRows(daly: Table, prev: Table)  // the merge has no rows
    | Completed(daly: Table, prev: Table, merged: Merged, runs: seq<AnalysisRun>, raised: Option<Error>)

  /** The one or two `runs` are what `run_analysis` produces for the analyses at the same place. */
  predicate RanAll(m: Merged, runDir: string, analyses: seq<Analysis>, runs: seq<AnalysisRun>) {
    |runs| == |analyses| && 1 <= |runs| <= 2 &&
    RanAnalysis(m, runDir, analyses[0], runs[0]) &&
    (|runs| == 2 ==> RanAnalysis(m, runDir, analyses[1], runs[1]))
  }

  /** Lines 106-119 of `main`: the standard analysis, then the top-N one when there is one. */
  method RunPlan(m: Merged, runDir: string, analyses: seq<Analysis>) returns (runs: seq<AnalysisRun>)
    requires HasValues(m.rows) && 1 <= |analyses| <= 2
    ensures RanAll(m, runDir, analyses, runs)
  {
    var standard := RunAnalysis(m, runDir, analyses[0]);
    if |analyses| == 1 {
      runs := [standard];
    } else {
      var auto := RunAnalysis(m, runDir, analyses[1]);
      runs := [standard, auto];
    }
  }

  /** Lines 91-119 of `main`: the medians, the plan, and the analyses it lists. */
  method AnalyseMerged(m: Merged, runDir: string, prevOverride: Option<real>, dalyOverride: Option<real>,
                       num: Option<int>, median: seq<real> -> real) returns (runs: seq<AnalysisRun>, raised: Option<Error>)
    requires HasValues(m.rows) && m.rows != []
    ensures var plan := PlanAnalyses(m, prevOverride, dalyOverride, num,
                                     median(PrevValues(m.rows)), median(DalyValues(m.rows)));
      raised == plan.error && RanAll(m, runDir, plan.analyses, runs)
  {
    var medianX := median(PrevValues(m.rows));
    var medianY := median(DalyValues(m.rows));
    var plan := PlanAnalyses(m, prevOverride, dalyOverride, num, medianX, medianY);
    runs := RunPlan(m, runDir, plan.analyses);
    raised := plan.error;
  }

  /** The analyses of a completed run are those `PlanAnalyses` chooses, at the
      medians of the merged values. */
  predicate RanPlan(out: Outcome, runDir: string, prevOverride: Option<real>, dalyOverride: Option<real>,
                    num: Option<int>, median: seq<real> -> real)
    requires out.Completed?
  {
    HasValues(out.merged.rows) &&
    var plan := PlanAnalyses(out.merged, prevOverride, dalyOverride, num,
                             median(PrevValues(out.merged.rows)), median(DalyValues(out.merged.rows)));
    out.raised == plan.error && RanAll(out.merged, runDir, plan.analyses, out.runs)
  }

  /** `main` after argument parsing: `daly` and `prev` are the loaded tables, `None`
      for a file that was not found, and `median` stands for `np.nanmedian`. */
  method RunPipeline(runDir: string, daly: Option<Table>, prev: Option<Table>,
                     countries: Option<seq<string>>, years: Option<seq<int>>,
                     prevOverride: Option<real>, dalyOverride: Option<real>, num: Option<int>,
                     median: seq<real> -> real) returns (out: Outcome)
    requires daly.Some? ==> WellFormed(daly.value) && "Value" in daly.value.columns
    requires prev.Some? ==> WellFormed(prev.value) && "Value" in prev.value.columns
    ensures out.MissingInput? <==> daly.None? || prev.None?
    ensures daly.Some? && prev.Some? ==>
      var fd := FilterDf(daly.value, countries, years);
      var fp := FilterDf(prev.value, countries, years);
      (fd.Err? ==> out == Failed(fd.error)) &&
      (fd.Ok? && fp.Err? ==> out == Failed(fp.error)) &&
      (fd.Ok? && fp.Ok? ==>
        out.Failed? == (exists k :: k in KeyColumns && (k !in daly.value.columns || k !in prev.value.columns)) &&
        (out.Failed? ==> out == Failed(MergeDalyPrev(fd.value, fp.value).error)))
    ensures out.NoMergedRows? ==>
      Prepared(daly.value, prev.value, countries, years, out.daly, out.prev) &&
      MergeDalyPrev(out.daly, out.prev).Ok? && MergeDalyPrev(out.daly, out.prev).value.rows == []
    ensures out.Completed? ==>
      Prepared(daly.value, prev.value, countries, years, out.daly, out.prev) &&
      MergeDalyPrev(out.daly, out.prev) == Ok(out.merged) && out.merged.rows != [] &&
      RanPlan(out, runDir, prevOverride, dalyOverride, num, median)
  {
    if daly.None? || prev.None? {
      return MissingInput;
    }
    var ready := PrepareTables(daly.value, prev.value, countries, years);
    if ready.Err? {
      return Failed(ready.error);
    }
    var (dalyRates, prevRates) := ready.value;
    var merged := MergeDalyPrev(dalyRates, prevRates);
    if merged.Err? {
      return Failed(merged.error);
    }
    if merged.value.rows == [] {
      return NoMergedRows(dalyRates, prevRates);
    }
    MergeHasValues(dalyRates, prevRates);
    var m := merged.value;
    var runs, raised := AnalyseMerged(m, runDir, prevOverride, dalyOverride, num, median);
    out := Completed(dalyRates, prevRates, m, runs, raised);
  }
}
