/** The computed parts of `generate_report`: the filter type read off the report's
    file name, the condition tables the report lists, the locations and year text of
    its header, and the name of the PDF rendered from it. The Markdown text itself,
    the timestamp and the `pandoc` run are not modelled. */
module Report {
  import opened Wrappers
  import opened Strings
  import opened Collections
  import opened Tables
  import opened Ranking
  import opened YearsArgs
  import opened Export

  // ---------------------------------------------------------------------------
  // the filter type

  /** `report_filename.split("_")[1].split(".")[0].capitalize()`: the capitalised
      text between the first `_` and the next `_` or `.`; a name without `_` has
      no second piece and raises `IndexError`. */
  function FilterType(reportFilename: string): (r: Result<string>)
    ensures r.Err? <==> '_' !in reportFilename
    ensures r.Err? ==> r.error == IndexError
  {
    var parts := Split(reportFilename, '_');
    SplitPieces(reportFilename, '_');
    if |parts| < 2 then Err(IndexError) else Ok(Capitalize(Split(parts[1], '.')[0]))
  }

  /** The filter type of `<pre>_<word><rest>` is `word` capitalised, when `word`
      holds neither `_` nor `.` and `rest` is empty or starts with one of them. */
  lemma FilterTypeOf(pre: string, word: string, rest: string)
    requires '_' !in pre && '_' !in word && '.' !in word
    requires rest == [] || rest[0] == '_' || rest[0] == '.'
    ensures FilterType(pre + "_" + word + rest) == Ok(Capitalize(word))
  {
    var s := pre + "_" + word + rest;
    assert s == pre + ['_'] + (word + rest);
    SplitAtSep(pre, word + rest, '_');
    var second := Split(word + rest, '_')[0];
    assert Split(s, '_')[1] == second;
    if rest == [] {
      assert word + rest == word;
      SplitSepFree(word, '_');
      SplitSepFree(word, '.');
    } else if rest[0] == '_' {
      assert word + rest == word + ['_'] + rest[1..];
      SplitAtSep(word, rest[1..], '_');
      SplitSepFree(word, '.');
    } else {
      SplitPrefix(word, rest, '_');
      assert rest == ['.'] + rest[1..];
      SplitPrefix(['.'], rest[1..], '_');
      var z := Split(rest[1..], '_')[0];
      assert second == word + ['.'] + z;
      SplitAtSep(word, z, '.');
    }
  }

  /** The default name `REPORT.md` has no `_`: its filter type raises `IndexError`. */
  lemma DefaultReportName()
    ensures FilterType("REPORT.md") == Err(IndexError)
  {
    assert '_' !in "REPORT.md";
  }

  // ---------------------------------------------------------------------------
  // the condition tables

  /** One line of a report table: a condition and a number of rows. */
  datatype Entry = Entry(condition: string, count: nat)

  /** `groupby("Condition").size()` at `c`, or 0 where `c` has no rows. */
  function RowCount(rows: seq<Joined>, c: string): nat {
    Occurrences(ConditionList(rows), c)
  }

  /** The count is the number of rows of condition `c`; it is 0 exactly when `c`
      has none. */
  lemma RowCountSpec(rows: seq<Joined>, c: string)
    ensures RowCount(rows, c) == multiset(ConditionList(rows))[c]
    ensures RowCount(rows, c) == 0 <==> forall j :: j in rows ==> j.daly.condition != c
  {
    var cs := ConditionList(rows);
    assert RowCount(rows, c) == 0 <==> c !in cs;
    assert c in cs <==> exists i :: 0 <= i < |rows| && rows[i].daly.condition == c;
  }

  /** The conditions a table lists, in its order. */
  function Names(t: seq<Entry>): (cs: seq<string>)
    ensures |cs| == |t| && forall i :: 0 <= i < |t| ==> cs[i] == t[i].condition
  {
    seq(|t|, i requires 0 <= i < |t| => t[i].condition)
  }

  /** The table of the top-N mode: each of `top`, in the given order, with its row
      count in the unfiltered merged table. */
  function TopTable(rows: seq<Joined>, top: seq<string>): (t: seq<Entry>)
    ensures |t| == |top|
  {
    seq(|top|, i requires 0 <= i < |top| => Entry(top[i], RowCount(rows, top[i])))
  }

  /** The number of high/high rows of each condition that has one, as a score. */
  function HitScores(high: seq<Joined>): (sc: map<string, real>)
    ensures Scored(Conditions(high), sc)
  {
    map c | c in Conditions(high) :: RowCount(high, c) as real
  }

  /** The entries of the conditions `order`, in that order, with their counts. */
  function Entries(rows: seq<Joined>, order: seq<string>): seq<Entry> {
    seq(|order|, i requires 0 <= i < |order| => Entry(order[i], RowCount(rows, order[i])))
  }

  /** `sort_values(ascending=False)` of the per-condition row counts. */
  function RankedConditions(rows: seq<Joined>): seq<string> {
    SortByScore(Conditions(rows), HitScores(rows))
  }

  /** `groupby("Condition").size().sort_values(ascending=False)`: the conditions of
      `rows`, by decreasing number of rows. */
  function Tally(rows: seq<Joined>): seq<Entry> {
    Entries(rows, RankedConditions(rows))
  }

  /** The hit table: the tally of the rows in the high/high quadrant. */
  function HitTable(rows: seq<Joined>, x: real, y: real): (t: seq<Entry>)
    ensures |t| == |Conditions(HighHighRows(rows, x, y))|
  {
    Tally(HighHighRows(rows, x, y))
  }

  /** The top-N table lists exactly the given conditions, in the given order, each
      with the number of merged rows it has: 0 exactly for a condition without rows. */
  lemma TopTableSpec(rows: seq<Joined>, top: seq<string>)
    ensures var t := TopTable(rows, top);
      |t| == |top| &&
      forall i :: 0 <= i < |t| ==>
        t[i].condition == top[i] && t[i].count == multiset(ConditionList(rows))[top[i]] &&
        (t[i].count == 0 <==> forall j :: j in rows ==> j.daly.condition != top[i])
  {
    forall i | 0 <= i < |top| {
      RowCountSpec(rows, top[i]);
    }
  }

  /** The tally lists each condition of `rows` once, and no other. */
  lemma TallyNames(rows: seq<Joined>)
    ensures var t := Tally(rows);
      NoDup(Names(t)) && forall c :: c in Names(t) <==> exists j :: j in rows && j.daly.condition == c
  {
    RankedMembers(rows);
    EntriesSpec(rows, RankedConditions(rows));
    forall c ensures c in Conditions(rows) <==> exists j :: j in rows && j.daly.condition == c {
      ConditionsHave(rows, c);
    }
  }

  /** The tally's counts do not increase. */
  lemma TallyOrder(rows: seq<Joined>)
    ensures var t := Tally(rows);
      forall i, k :: 0 <= i < k < |t| ==> t[i].count >= t[k].count
  {
    RankedOrder(rows);
    RankedMembers(rows);
    EntriesSpec(rows, RankedConditions(rows));
  }

  /** The tally counts each of its conditions' rows, at least one. */
  lemma TallyCounts(rows: seq<Joined>)
    ensures var t := Tally(rows);
      forall i :: 0 <= i < |t| ==> t[i].count >= 1 && t[i].count == multiset(ConditionList(rows))[t[i].condition]
  {
    RankedMembers(rows);
    EntriesSpec(rows, RankedConditions(rows));
  }

  /** The ranking lists each condition once. */
  lemma RankedMembers(rows: seq<Joined>)
    ensures var order := RankedConditions(rows);
      NoDup(order) && forall c :: c in order <==> c in Conditions(rows)
  {
    var conds := Conditions(rows);
    var order := RankedConditions(rows);
    MultisetNoDup(conds, order);
    assert forall c :: c in order <==> c in conds by {
      assert forall c :: c in order <==> c in multiset(order);
    }
  }

  /** The ranking goes by non-increasing row count. */
  lemma RankedOrder(rows: seq<Joined>)
    ensures var order := RankedConditions(rows);
      forall i, k :: 0 <= i < k < |order| ==> RowCount(rows, order[i]) >= RowCount(rows, order[k])
  {
    var conds := Conditions(rows);
    var sc := HitScores(rows);
    var order := RankedConditions(rows);
    RankedMembers(rows);
    forall i, k | 0 <= i < k < |order| ensures RowCount(rows, order[i]) >= RowCount(rows, order[k]) {
      assert order[i] in conds && order[k] in conds;
      assert sc[order[i]] >= sc[order[k]];
    }
  }

  /** Entries of conditions that have rows: the conditions themselves, each counted
      at least once. */
  lemma EntriesSpec(rows: seq<Joined>, order: seq<string>)
    requires forall c :: c in order ==> c in Conditions(rows)
    ensures var t := Entries(rows, order);
      Names(t) == order &&
      (forall i :: 0 <= i < |t| ==> t[i].count == RowCount(rows, order[i])) &&
      forall i :: 0 <= i < |t| ==> t[i].count >= 1 && t[i].count == multiset(ConditionList(rows))[t[i].condition]
  {
    var t := Entries(rows, order);
    forall i | 0 <= i < |t| ensures t[i].count >= 1 && t[i].count == multiset(ConditionList(rows))[t[i].condition] {
      RowCountSpec(rows, order[i]);
      assert order[i] in order;
      var m :| 0 <= m < |rows| && rows[m].daly.condition == order[i];
      assert rows[m] in rows;
    }
  }

  /** The hit table lists each condition with a high/high row once, and no other. */
  lemma HitTableNames(rows: seq<Joined>, x: real, y: real)
    ensures var t := HitTable(rows, x, y);
      NoDup(Names(t)) && forall c :: c in Names(t) <==> exists j :: j in rows && j.daly.condition == c && HighHigh(j, x, y)
  {
    var high := HighHighRows(rows, x, y);
    TallyNames(high);
  }

  /** The hit table goes by non-increasing number of high/high rows. */
  lemma HitTableOrder(rows: seq<Joined>, x: real, y: real)
    ensures var t := HitTable(rows, x, y);
      forall i, k :: 0 <= i < k < |t| ==> t[i].count >= t[k].count
  {
    TallyOrder(HighHighRows(rows, x, y));
  }

  /** Each count of the hit table is the condition's number of high/high rows, at least one. */
  lemma HitTableCounts(rows: seq<Joined>, x: real, y: real)
    ensures var t := HitTable(rows, x, y);
      forall i :: 0 <= i < |t| ==>
        t[i].count >= 1 && t[i].count == multiset(ConditionList(HighHighRows(rows, x, y)))[t[i].condition]
  {
    TallyCounts(HighHighRows(rows, x, y));
  }

  // ---------------------------------------------------------------------------
  // the header and the PDF name

  function LocationList(rows: seq<Joined>): (ls: seq<string>)
    ensures |ls| == |rows| && forall i :: 0 <= i < |rows| ==> ls[i] == rows[i].daly.location
  {
    seq(|rows|, i requires 0 <= i < |rows| => rows[i].daly.location)
  }

  function YearList(rows: seq<Joined>): (ys: seq<int>)
    ensures |ys| == |rows| && forall i :: 0 <= i < |rows| ==> ys[i] == rows[i].daly.year
  {
    seq(|rows|, i requires 0 <= i < |rows| => rows[i].daly.year)
  }

  /** `merged["Location"].unique()`: each location once, in order of first appearance. */
  function Locations(rows: seq<Joined>): (ls: seq<string>)
    ensures NoDup(ls) && forall l :: l in ls <==> exists j :: j in rows && j.daly.location == l
  {
    var ll := LocationList(rows);
    var u := Unique(ll);
    forall l ensures l in u <==> exists j :: j in rows && j.daly.location == l {
      assert l in u <==> l in Elements(u);
      if l in ll {
        var i :| 0 <= i < |ll| && ll[i] == l;
        assert rows[i] in rows;
      }
      if exists j :: j in rows && j.daly.location == l {
        var j :| j in rows && j.daly.location == l;
        var i :| 0 <= i < |rows| && rows[i] == j;
        assert ll[i] == l;
      }
    }
    u
  }

  /** `format_years_list(sorted(merged["Year"].unique()))`. */
  function YearRange(rows: seq<Joined>): string {
    FormatYears(SortedDistinct(YearList(rows)))
  }

  /** `year_range.replace(" ", "").replace(",", ".")`. */
  function YearSlug(yearRange: string): string {
    ReplaceChar(RemoveChar(yearRange, ' '), ',', '.')
  }

  /** `<out_dir>/<filter type>_<locations joined by _>_<year slug>_report.pdf`. */
  function PdfName(outDir: string, filterType: string, locations: seq<string>, yearRange: string): string {
    JoinPath(outDir, filterType + "_" + Join(locations, "_") + "_" + YearSlug(yearRange) + "_report.pdf")
  }

  /** Sorting first does not change the year text: it is that of the merged years. */
  lemma YearRangeOfYears(rows: seq<Joined>)
    ensures YearRange(rows) == FormatYears(YearList(rows))
  {
    FormatYearsOfSameSet(SortedDistinct(YearList(rows)), YearList(rows));
  }

  /** The year part of the PDF name has the year text's characters except that
      spaces are dropped and commas become dots. */
  lemma YearSlugChars(yearRange: string)
    ensures ' ' !in YearSlug(yearRange) && ',' !in YearSlug(yearRange)
    ensures forall c :: c in YearSlug(yearRange) ==> c == '.' || (c in yearRange && c != ',')
  {
    var removed := RemoveChar(yearRange, ' ');
    var slug := YearSlug(yearRange);
    forall c | c in slug ensures c != ' ' && c != ',' && (c == '.' || (c in yearRange && c != ',')) {
      var i :| 0 <= i < |slug| && slug[i] == c;
      assert removed[i] in removed;
    }
  }

  /** Runs of years joined by `, ` come out joined by `.`. */
  lemma {:induction false} YearSlugJoin(texts: seq<string>)
    requires forall i :: 0 <= i < |texts| ==> ' ' !in texts[i] && ',' !in texts[i]
    ensures YearSlug(Join(texts, ", ")) == Join(texts, ".")
  {
    if |texts| == 1 {
      RemoveAbsent(texts[0], ' ');
      ReplaceAbsent(texts[0], ',', '.');
    } else if |texts| > 1 {
      YearSlugJoin(texts[1..]);
      YearSlugGlue(texts[0], Join(texts[1..], ", "));
    }
  }

  lemma YearSlugGlue(head: string, rest: string)
    requires ' ' !in head && ',' !in head
    ensures YearSlug(head + ", " + rest) == head + "." + YearSlug(rest)
  {
    var glue := [',', ' '];
    assert head + ", " + rest == head + (glue + rest);
    RemoveCharConcat(head, glue + rest, ' ');
    RemoveCharConcat(glue, rest, ' ');
    RemoveAbsent(head, ' ');
    assert RemoveChar(glue, ' ') == [','] by {
      assert glue[1..] == [' '] && [' '][1..] == [];
    }
    var removed := RemoveChar(rest, ' ');
    assert RemoveChar(head + ", " + rest, ' ') == head + [','] + removed;
    ReplaceAround(head, removed, ',', '.');
  }

  /** The year text `2018-2020, 2022` becomes `2018-2020.2022` in the PDF name. */
  lemma YearSlugExample()
    ensures YearSlug("2018-2020, 2022") == "2018-2020.2022"
  {
    var texts := ["2018-2020", "2022"];
    assert Join(texts, ", ") == "2018-2020, 2022";
    assert Join(texts, ".") == "2018-2020.2022";
    YearSlugJoin(texts);
  }

  // ---------------------------------------------------------------------------
  // the report

  /** What the report states, apart from its wording. A table that is not shown is
      `None`; an empty hit table is the "No diseases found" line. */
  datatype Report = Report(
    path: string,
    filterType: string,
    totalConditions: nat,
    locations: seq<string>,
    yearRange: string,
    topTable: Option<seq<Entry>>,
    hitTable: Option<seq<Entry>>,
    pdf: string)

  /** Python's truth value of the optional `top_n`. */
  predicate Truthy(n: Option<int>) {
    n.Some? && n.value != 0
  }

  /** `generate_report`, without the Markdown text: the filter type must be
      readable from the file name, the top-N table is shown when `top_n` and
      `top_conditions` are both truthy, and the hit table when `top_n` is not. */
  function GenerateReport(m: Merged, outDir: string, x: real, y: real, topN: Option<int>,
                          topConditions: Option<seq<string>>, reportFilename: string): (r: Result<Report>)
    requires HasValues(m.rows)
    ensures r.Err? <==> '_' !in reportFilename
    ensures r.Err? ==> r.error == IndexError
    ensures r.Ok? ==>
      (r.value.topTable.Some? <==> Truthy(topN) && topConditions.Some? && topConditions.value != []) &&
      (r.value.hitTable.Some? <==> !Truthy(topN)) &&
      (r.value.topTable.Some? ==> r.value.topTable.value == TopTable(m.rows, topConditions.value)) &&
      (r.value.hitTable.Some? ==> r.value.hitTable.value == HitTable(m.rows, x, y)) &&
      r.value.path == JoinPath(outDir, reportFilename) &&
      r.value.pdf == PdfName(outDir, r.value.filterType, r.value.locations, r.value.yearRange)
  {
    var ft := FilterType(reportFilename);
    if ft.Err? then Err(ft.error)
    else
      var locations := Locations(m.rows);
      var years := YearRange(m.rows);
      var top :=
        if Truthy(topN) && topConditions.Some? && topConditions.value != []
        then Some(TopTable(m.rows, topConditions.value)) else None;
      var hits := if !Truthy(topN) then Some(HitTable(m.rows, x, y)) else None;
      Ok(Report(JoinPath(outDir, reportFilename), ft.value, |Conditions(m.rows)|, locations, years,
                top, hits, PdfName(outDir, ft.value, locations, years)))
  }

  /** The header's figures: the number of distinct conditions, the distinct
      locations in order of appearance, and the year text of the merged years. */
  lemma ReportHeader(m: Merged, outDir: string, x: real, y: real, topN: Option<int>,
                     topConditions: Option<seq<string>>, reportFilename: string)
    requires HasValues(m.rows) && '_' in reportFilename
    ensures var r := GenerateReport(m, outDir, x, y, topN, topConditions, reportFilename).value;
      r.filterType == FilterType(reportFilename).value &&
      r.totalConditions == |Conditions(m.rows)| &&
      NoDup(r.locations) && Elements(r.locations) == Elements(LocationList(m.rows)) &&
      InOrderOfAppearance(r.locations, LocationList(m.rows)) &&
      r.yearRange == FormatYears(YearList(m.rows))
  {
    var r := GenerateReport(m, outDir, x, y, topN, topConditions, reportFilename).value;
    assert r.locations == Locations(m.rows) && r.yearRange == YearRange(m.rows);
    LocationsOrder(m.rows);
    YearRangeOfYears(m.rows);
  }

  /** The distinct locations are those of the merged rows, in order of first appearance. */
  lemma LocationsOrder(rows: seq<Joined>)
    ensures var ls := Locations(rows); var ll := LocationList(rows);
      NoDup(ls) && Elements(ls) == Elements(ll) &&
      InOrderOfAppearance(ls, ll)
  {
    assert Locations(rows) == Unique(LocationList(rows));
    UniqueOrder(LocationList(rows));
  }

  /** The tables the report shows: in the top-N mode each supplied condition in
      order with its number of merged rows; otherwise each condition with a
      high/high row once, by non-increasing number of such rows. */
  lemma ReportTables(m: Merged, outDir: string, x: real, y: real, topN: Option<int>,
                     topConditions: Option<seq<string>>, reportFilename: string)
    requires HasValues(m.rows) && '_' in reportFilename
    ensures var r := GenerateReport(m, outDir, x, y, topN, topConditions, reportFilename).value;
      (r.topTable.Some? ==>
        |r.topTable.value| == |topConditions.value| &&
        forall i :: 0 <= i < |r.topTable.value| ==>
          r.topTable.value[i].condition == topConditions.value[i] &&
          r.topTable.value[i].count == multiset(ConditionList(m.rows))[topConditions.value[i]]) &&
      (r.hitTable.Some? ==>
        NoDup(Names(r.hitTable.value)) &&
        (forall c :: c in Names(r.hitTable.value) <==> exists j :: j in m.rows && j.daly.condition == c && HighHigh(j, x, y)) &&
        forall i, k :: 0 <= i < k < |r.hitTable.value| ==> r.hitTable.value[i].count >= r.hitTable.value[k].count)
  {
    var r := GenerateReport(m, outDir, x, y, topN, topConditions, reportFilename).value;
    if r.topTable.Some? {
      TopTableSpec(m.rows, topConditions.value);
    }
    if r.hitTable.Some? {
      HitTableNames(m.rows, x, y);
      HitTableOrder(m.rows, x, y);
    }
  }
}
