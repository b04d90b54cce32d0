/** The table transforms of the pipeline: rescaling the rate columns, filtering
    rows by location and year, the inner join of the DALY and prevalence tables,
    the automatic quadrant thresholds for the top N diseases, and the top-N
    filter of the two input tables. */
module Processing {
  import opened Wrappers
  import opened Collections
  import opened Tables
  import opened Ranking

  // ---------------------------------------------------------------------------
  // normalize_rates

  /** Rates are given per 100 000 people. */
  const RateDivisor: real := 100000.0

  function Pow(b: real, n: nat): (p: real)
    ensures b > 0.0 ==> p > 0.0
  {
    if n == 0 then 1.0 else Pow(b, n - 1) * b
  }

  /** What a value of column `c` ends up divided by once every name of `cols`
      has been processed: once per mention of `c`, provided the table has `c`. */
  function Divisor(columns: seq<string>, cols: seq<string>, c: string): (d: real)
    ensures d > 0.0
  {
    if c in columns then Pow(RateDivisor, Occurrences(cols, c)) else 1.0
  }

  /** Named columns are mentioned once each, so a present one is divided by
      100 000 exactly once and every other column keeps its values. */
  lemma DivisorOfDistinct(columns: seq<string>, cols: seq<string>, c: string)
    requires NoDup(cols)
    ensures Divisor(columns, cols, c) == if c in columns && c in cols then RateDivisor else 1.0
  {
    if c in cols {
      NoDupCount(cols, c);
      assert c in multiset(cols);
    }
  }

  /** `df[col] / 100000.0` on one row. */
  function ScaleRow(r: Record, col: string): Record {
    if col in r.values then r.(values := r.values[col := r.values[col] / RateDivisor]) else r
  }

  /** `df[col] = df[col] / 100000.0` on every row. */
  function ScaleColumn(t: Table, col: string): (s: Table)
    ensures s.columns == t.columns && |s.rows| == |t.rows|
    ensures forall i :: 0 <= i < |t.rows| ==> s.rows[i] == ScaleRow(t.rows[i], col)
  {
    Table(t.columns, seq(|t.rows|, i requires 0 <= i < |t.rows| => ScaleRow(t.rows[i], col)))
  }

  lemma DivideTwice(v: real, a: real, b: real)
    requires a > 0.0 && b > 0.0
    ensures v / a / b == v / (a * b)
  {
    var q := v / a;
    assert q * a == v;
    var r := q / b;
    assert r * b == q;
    assert r * (a * b) == (r * b) * a;
  }

  /** Step `k` of the loop: one more mention of `cols[k]`. */
  lemma DivisorStep(columns: seq<string>, cols: seq<string>, k: nat, c: string)
    requires k < |cols|
    ensures Divisor(columns, cols[..k + 1], c) ==
      if c in columns && c == cols[k] then Divisor(columns, cols[..k], c) * RateDivisor
      else Divisor(columns, cols[..k], c)
  {
    assert cols[..k + 1] == cols[..k] + [cols[k]];
  }

  /** `normalize_rates`: a copy of the table in which every value of a named column
      that the table has is divided by 100 000, once per mention of its name; names
      the table lacks are skipped, and keys and all other values stay as they were.
      The pipeline names only Value, Lower and Upper, never a key column. */
  method NormalizeRates(t: Table, cols: seq<string>) returns (out: Table)
    requires forall c :: c in cols ==> c !in KeyColumns
    ensures Rescaled(t, cols, out)
  {
    out := t;
    for k := 0 to |cols|
      invariant out.columns == t.columns && |out.rows| == |t.rows|
      invariant forall i :: 0 <= i < |t.rows| ==>
        KeyOf(out.rows[i]) == KeyOf(t.rows[i]) && out.rows[i].values.Keys == t.rows[i].values.Keys
      invariant forall i, c :: 0 <= i < |t.rows| && c in t.rows[i].values ==>
        out.rows[i].values[c] == t.rows[i].values[c] / Divisor(t.columns, cols[..k], c)
    {
      var col := cols[k];
      if col in out.columns {
        out := ScaleColumn(out, col);
      }
      forall i, c | 0 <= i < |t.rows| && c in t.rows[i].values
        ensures out.rows[i].values[c] == t.rows[i].values[c] / Divisor(t.columns, cols[..k + 1], c)
      {
        DivisorStep(t.columns, cols, k, c);
        if c in t.columns && c == col {
          DivideTwice(t.rows[i].values[c], Divisor(t.columns, cols[..k], c), RateDivisor);
        }
      }
    }
    assert cols[..|cols|] == cols;
  }

  /** `out` is `t` with each value of column `c` divided by `Divisor(t.columns, cols, c)`:
      same header, same rows in the same order with the same keys and columns. */
  predicate Rescaled(t: Table, cols: seq<string>, out: Table) {
    out.columns == t.columns && |out.rows| == |t.rows| &&
    (forall i :: 0 <= i < |t.rows| ==>
      KeyOf(out.rows[i]) == KeyOf(t.rows[i]) && out.rows[i].values.Keys == t.rows[i].values.Keys) &&
    forall i, c :: 0 <= i < |t.rows| && c in t.rows[i].values ==>
      out.rows[i].values[c] == t.rows[i].values[c] / Divisor(t.columns, cols, c)
  }

  /** Rescaling keeps a table well formed. */
  lemma RescaledWellFormed(t: Table, cols: seq<string>, out: Table)
    requires Rescaled(t, cols, out) && WellFormed(t)
    ensures WellFormed(out)
  {
  }

  /** The columns the pipeline names: none is a key column. */
  const RateColumns: seq<string> := ["Value", "Lower", "Upper"]

  /** With the pipeline's columns, `Value`, `Lower` and `Upper` are divided by
      100 000 where the table has them and every other column is left alone. */
  lemma RateColumnsDivisor(columns: seq<string>, c: string)
    ensures Divisor(columns, RateColumns, c) == if c in columns && c in RateColumns then RateDivisor else 1.0
  {
    assert NoDup(RateColumns) by {
      assert RateColumns[0][0] != RateColumns[1][0] && RateColumns[0][0] != RateColumns[2][0];
      assert RateColumns[1][0] != RateColumns[2][0];
    }
    DivisorOfDistinct(columns, RateColumns, c);
  }

  /** None of the pipeline's rate columns is a key column. */
  lemma RateColumnsNotKeys()
    ensures forall c :: c in RateColumns ==> c !in KeyColumns
  {
    assert forall k :: k in KeyColumns ==> k[0] != 'V' && k[0] != 'U' && (k[0] == 'L' ==> k[2] == 'c');
    assert forall c :: c in RateColumns ==> c[0] == 'V' || c[0] == 'U' || c[2] == 'w';
  }

  // ---------------------------------------------------------------------------
  // filter_df

  /** A Python list argument that is truthy: given and not empty. */
  predicate Active<T>(o: Option<seq<T>>) {
    o.Some? && o.value != []
  }

  /** The row test of `filter_df`: an inactive list does not filter. */
  predicate Keep(r: Record, countries: Option<seq<string>>, years: Option<seq<int>>) {
    (!Active(countries) || r.location in countries.value) &&
    (!Active(years) || r.year in years.value)
  }

  /** `filter_df`: first by `Location`, then by `Year`, each only when its list is
      truthy; selecting on a column the table lacks raises `KeyError`. The result keeps
      exactly the rows that pass both tests, in their original order. */
  function FilterDf(t: Table, countries: Option<seq<string>>, years: Option<seq<int>>): (r: Result<Table>)
    ensures r.Err? <==>
      (Active(countries) && "Location" !in t.columns) || (Active(years) && "Year" !in t.columns)
    ensures r.Err? ==>
      r.error == if Active(countries) && "Location" !in t.columns then KeyError("Location") else KeyError("Year")
    ensures r.Ok? ==>
      r.value.columns == t.columns && r.value.rows == Filter(t.rows, (x: Record) => Keep(x, countries, years))
  {
    var byCountry := (x: Record) => !Active(countries) || x.location in countries.value;
    var byYear := (x: Record) => !Active(years) || x.year in years.value;
    if Active(countries) && "Location" !in t.columns then Err(KeyError("Location"))
    else
      var rows := if Active(countries) then Filter(t.rows, byCountry) else t.rows;
      if Active(years) && "Year" !in t.columns then Err(KeyError("Year"))
      else
        var rows' := if Active(years) then Filter(rows, byYear) else rows;
        FilterInOrder(t.rows, countries, years);
        Ok(Table(t.columns, rows'))
  }

  /** The two optional filters, applied one after the other, equal the combined test. */
  lemma FilterInOrder(rows: seq<Record>, countries: Option<seq<string>>, years: Option<seq<int>>)
    ensures var byCountry := (x: Record) => !Active(countries) || x.location in countries.value;
      var byYear := (x: Record) => !Active(years) || x.year in years.value;
      var first := if Active(countries) then Filter(rows, byCountry) else rows;
      (if Active(years) then Filter(first, byYear) else first) ==
        Filter(rows, (x: Record) => Keep(x, countries, years))
  {
    var byCountry := (x: Record) => !Active(countries) || x.location in countries.value;
    var byYear := (x: Record) => !Active(years) || x.year in years.value;
    var keep := (x: Record) => Keep(x, countries, years);
    if Active(countries) {
      FilterTwice(rows, byCountry, byYear, keep);
      if !Active(years) {
        FilterAll(Filter(rows, byCountry), byYear);
      }
    } else {
      FilterSame(rows, byYear, keep);
      if !Active(years) {
        FilterAll(rows, byYear);
      }
    }
  }

  /** With neither list truthy the table comes back whole. */
  lemma FilterDfInactive(t: Table, countries: Option<seq<string>>, years: Option<seq<int>>)
    requires !Active(countries) && !Active(years)
    ensures FilterDf(t, countries, years) == Ok(t)
  {
    FilterAll(t.rows, (x: Record) => Keep(x, countries, years));
  }

  /** A row survives `filter_df` exactly when it passes both tests, and no row is
      created or repeated. */
  lemma FilterDfRows(t: Table, countries: Option<seq<string>>, years: Option<seq<int>>)
    requires FilterDf(t, countries, years).Ok?
    ensures var out := FilterDf(t, countries, years).value.rows;
      (forall x :: x in out <==> x in t.rows && Keep(x, countries, years)) &&
      (forall x :: multiset(out)[x] <= multiset(t.rows)[x])
  {
  }

  /** Filtering keeps a table well formed. */
  lemma FilterDfWellFormed(t: Table, countries: Option<seq<string>>, years: Option<seq<int>>)
    requires WellFormed(t) && FilterDf(t, countries, years).Ok?
    ensures WellFormed(FilterDf(t, countries, years).value)
  {
    var out := FilterDf(t, countries, years).value;
    forall i | 0 <= i < |out.rows| ensures out.rows[i].values.Keys == ValueColumns(out.columns) {
      assert out.rows[i] in out.rows;
      var k :| 0 <= k < |t.rows| && t.rows[k] == out.rows[i];
    }
  }

  // ---------------------------------------------------------------------------
  // merge_daly_prev

  /** The position in `keys` of the first column missing from `a` or from `b`,
      or `|keys|` when both headers have them all. */
  function FirstMissing(a: seq<string>, b: seq<string>, keys: seq<string>): (i: nat)
    ensures i <= |keys|
    ensures forall j :: 0 <= j < i ==> keys[j] in a && keys[j] in b
    ensures i < |keys| ==> keys[i] !in a || keys[i] !in b
  {
    if keys == [] then 0
    else if keys[0] !in a || keys[0] !in b then 0
    else 1 + FirstMissing(a, b, keys[1..])
  }

  /** A header with every non-key column that also occurs in `other` suffixed. */
  function Suffixed(cols: seq<string>, other: seq<string>, suffix: string): seq<string> {
    seq(|cols|, i requires 0 <= i < |cols| =>
      if cols[i] !in KeyColumns && cols[i] in other then cols[i] + suffix else cols[i])
  }

  /** The header of the merge: the DALY header with shared value columns suffixed
      `_daly`, followed by the prevalence header without its key columns, shared
      value columns suffixed `_prev`. */
  function MergedColumns(a: seq<string>, b: seq<string>): seq<string> {
    Suffixed(a, b, "_daly") + Suffixed(Filter(b, (c: string) => c !in KeyColumns), a, "_prev")
  }

  /** `Value` is not a key column. */
  lemma ValueNotKey()
    ensures "Value" !in KeyColumns
  {
    assert forall k :: k in KeyColumns ==> k[0] != 'V';
  }

  lemma SuffixedHas(cols: seq<string>, other: seq<string>, c: string, suffix: string)
    requires c in cols && c in other && c !in KeyColumns
    ensures c + suffix in Suffixed(cols, other, suffix)
  {
    var i :| 0 <= i < |cols| && cols[i] == c;
    var r := Suffixed(cols, other, suffix);
    assert r[i] == c + suffix;
  }

  /** Both tables have a `Value` column, so the merged header has `Value_daly`
      and `Value_prev`. */
  lemma MergedValueColumns(a: seq<string>, b: seq<string>)
    requires "Value" in a && "Value" in b
    ensures "Value_daly" in MergedColumns(a, b) && "Value_prev" in MergedColumns(a, b)
  {
    ValueNotKey();
    var left := Suffixed(a, b, "_daly");
    var rb := Filter(b, (c: string) => c !in KeyColumns);
    var right := Suffixed(rb, a, "_prev");
    SuffixedHas(a, b, "Value", "_daly");
    assert "Value" + "_daly" == "Value_daly";
    assert "Value_daly" in left;
    assert "Value" in rb;
    SuffixedHas(rb, a, "Value", "_prev");
    assert "Value" + "_prev" == "Value_prev";
    assert "Value_prev" in right;
    assert MergedColumns(a, b) == left + right;
  }

  /** The prevalence rows that join the DALY row `l`, in prevalence order. */
  function Matches(l: Record, b: seq<Record>): seq<Joined> {
    if b == [] then []
    else
      var r := b[|b| - 1];
      Matches(l, b[..|b| - 1]) + if KeyOf(r) == KeyOf(l) then [Joined(l, r)] else []
  }

  /** The rows of the inner join: for each DALY row in order, its matches. */
  function JoinRows(a: seq<Record>, b: seq<Record>): seq<Joined> {
    if a == [] then [] else JoinRows(a[..|a| - 1], b) + Matches(a[|a| - 1], b)
  }

  /** `merge_daly_prev`: `KeyError` naming the first of Condition, Sex, Age,
      Location, Year that either header lacks; otherwise the inner join on those
      five columns. */
  function MergeDalyPrev(daly: Table, prev: Table): (r: Result<Merged>)
    ensures r.Err? <==> exists k :: k in KeyColumns && (k !in daly.columns || k !in prev.columns)
    ensures r.Err? ==>
      exists i :: 0 <= i < |KeyColumns| && r.error == KeyError(KeyColumns[i]) &&
        (KeyColumns[i] !in daly.columns || KeyColumns[i] !in prev.columns) &&
        (forall j :: 0 <= j < i ==> KeyColumns[j] in daly.columns && KeyColumns[j] in prev.columns)
    ensures r.Ok? ==>
      r.value.columns == MergedColumns(daly.columns, prev.columns) && r.value.rows == JoinRows(daly.rows, prev.rows)
  {
    var i := FirstMissing(daly.columns, prev.columns, KeyColumns);
    if i < |KeyColumns| then Err(KeyError(KeyColumns[i]))
    else Ok(Merged(MergedColumns(daly.columns, prev.columns), JoinRows(daly.rows, prev.rows)))
  }

  lemma {:induction false} MatchesMembers(l: Record, b: seq<Record>)
    ensures forall j :: j in Matches(l, b) <==> j.daly == l && j.prev in b && KeyOf(j.prev) == KeyOf(l)
  {
    if b != [] {
      MatchesMembers(l, b[..|b| - 1]);
      assert b == b[..|b| - 1] + [b[|b| - 1]];
    }
  }

  /** The merged rows are exactly the pairs of a DALY row and a prevalence row
      with equal keys. */
  lemma {:induction false} JoinMembers(a: seq<Record>, b: seq<Record>)
    ensures forall j :: j in JoinRows(a, b) <==> j.daly in a && j.prev in b && KeyOf(j.daly) == KeyOf(j.prev)
  {
    if a != [] {
      JoinMembers(a[..|a| - 1], b);
      MatchesMembers(a[|a| - 1], b);
      assert a == a[..|a| - 1] + [a[|a| - 1]];
    }
  }

  lemma {:induction false} MatchesCount(l: Record, b: seq<Record>, j: Joined)
    ensures multiset(Matches(l, b))[j] ==
      if j.daly == l && KeyOf(j.prev) == KeyOf(l) then multiset(b)[j.prev] else 0
  {
    if b != [] {
      MatchesCount(l, b[..|b| - 1], j);
      assert b == b[..|b| - 1] + [b[|b| - 1]];
    }
  }

  /** A pair of rows with equal keys occurs in the merge once for each copy of
      the DALY row times each copy of the prevalence row; a pair with different
      keys does not occur. */
  lemma {:induction false} JoinCount(a: seq<Record>, b: seq<Record>, j: Joined)
    ensures multiset(JoinRows(a, b))[j] ==
      if KeyOf(j.daly) == KeyOf(j.prev) then multiset(a)[j.daly] * multiset(b)[j.prev] else 0
  {
    if a != [] {
      var a' := a[..|a| - 1];
      var l := a[|a| - 1];
      JoinCount(a', b, j);
      MatchesCount(l, b, j);
      JoinLastCount(a, b, j);
      LastCount(a, j.daly);
      var ma', mb := multiset(a')[j.daly], multiset(b)[j.prev];
      if KeyOf(j.daly) == KeyOf(j.prev) && j.daly == l {
        MulSucc(ma', mb);
      }
    }
  }

  lemma JoinLastCount(a: seq<Record>, b: seq<Record>, j: Joined)
    requires a != []
    ensures multiset(JoinRows(a, b))[j] ==
      multiset(JoinRows(a[..|a| - 1], b))[j] + multiset(Matches(a[|a| - 1], b))[j]
  {
    assert JoinRows(a, b) == JoinRows(a[..|a| - 1], b) + Matches(a[|a| - 1], b);
  }

  lemma LastCount(a: seq<Record>, x: Record)
    requires a != []
    ensures multiset(a)[x] == multiset(a[..|a| - 1])[x] + if x == a[|a| - 1] then 1 else 0
  {
    assert a == a[..|a| - 1] + [a[|a| - 1]];
  }

  lemma MulSucc(x: nat, y: nat)
    ensures (x + 1) * y == x * y + y
  {
  }

  /** A key that only one of the tables has contributes no merged row. */
  lemma OneSidedKey(a: seq<Record>, b: seq<Record>, k: Key)
    requires (forall r :: r in a ==> KeyOf(r) != k) || (forall r :: r in b ==> KeyOf(r) != k)
    ensures forall j :: j in JoinRows(a, b) ==> KeyOf(j.daly) != k && KeyOf(j.prev) != k
  {
    JoinMembers(a, b);
  }

  /** The number of rows of `rows` with key `k`. */
  function KeyCount(rows: seq<Record>, k: Key): nat {
    if rows == [] then 0
    else KeyCount(rows[..|rows| - 1], k) + if KeyOf(rows[|rows| - 1]) == k then 1 else 0
  }

  /** The sum over the keys `ks` of (DALY rows with the key) times (prevalence rows with the key). */
  function KeySum(ks: seq<Key>, a: seq<Record>, b: seq<Record>): nat {
    if ks == [] then 0
    else KeySum(ks[..|ks| - 1], a, b) + KeyCount(a, ks[|ks| - 1]) * KeyCount(b, ks[|ks| - 1])
  }

  lemma {:induction false} MatchesSize(l: Record, b: seq<Record>)
    ensures |Matches(l, b)| == KeyCount(b, KeyOf(l))
  {
    if b != [] {
      MatchesSize(l, b[..|b| - 1]);
    }
  }

  lemma KeyCountSnoc(a: seq<Record>, l: Record, k: Key)
    ensures KeyCount(a + [l], k) == KeyCount(a, k) + if KeyOf(l) == k then 1 else 0
  {
    assert (a + [l])[..|a|] == a;
  }

  /** A key outside `ks` does not affect the sum over `ks`. */
  lemma {:induction false} KeySumOutside(ks: seq<Key>, a: seq<Record>, l: Record, b: seq<Record>)
    requires KeyOf(l) !in ks
    ensures KeySum(ks, a + [l], b) == KeySum(ks, a, b)
  {
    if ks != [] {
      KeySumOutside(ks[..|ks| - 1], a, l, b);
      KeyCountSnoc(a, l, ks[|ks| - 1]);
    }
  }

  /** One more DALY row adds the prevalence rows with its key once. */
  lemma {:induction false} KeySumSnoc(ks: seq<Key>, a: seq<Record>, l: Record, b: seq<Record>)
    requires NoDup(ks) && KeyOf(l) in ks
    ensures KeySum(ks, a + [l], b) == KeySum(ks, a, b) + KeyCount(b, KeyOf(l))
  {
    var init := ks[..|ks| - 1];
    var k := ks[|ks| - 1];
    KeyCountSnoc(a, l, k);
    assert forall i :: 0 <= i < |init| ==> init[i] == ks[i];
    if k == KeyOf(l) {
      assert KeyOf(l) !in init;
      KeySumOutside(init, a, l, b);
      MulSucc(KeyCount(a, k), KeyCount(b, k));
    } else {
      assert KeyOf(l) in init by {
        var i :| 0 <= i < |ks| && ks[i] == KeyOf(l);
        assert init[i] == KeyOf(l);
      }
      KeySumSnoc(init, a, l, b);
    }
  }

  /** The size of the merge is the sum, over the keys, of the product of the
      numbers of DALY and prevalence rows with that key (`ks` lists each key of the
      DALY table once; keys of one table only add nothing). */
  lemma {:induction false} JoinSize(a: seq<Record>, b: seq<Record>, ks: seq<Key>)
    requires NoDup(ks) && forall r :: r in a ==> KeyOf(r) in ks
    ensures |JoinRows(a, b)| == KeySum(ks, a, b)
  {
    if a == [] {
      KeySumEmpty(ks, b);
    } else {
      var a' := a[..|a| - 1];
      var l := a[|a| - 1];
      assert a == a' + [l];
      JoinSize(a', b, ks);
      MatchesSize(l, b);
      KeySumSnoc(ks, a', l, b);
    }
  }

  lemma {:induction false} KeySumEmpty(ks: seq<Key>, b: seq<Record>)
    ensures KeySum(ks, [], b) == 0
  {
    if ks != [] {
      KeySumEmpty(ks[..|ks| - 1], b);
    }
  }

  /** Merging well-formed tables that both have a `Value` column gives a table
      whose rows have a value on both sides. */
  lemma MergeHasValues(daly: Table, prev: Table)
    requires WellFormed(daly) && WellFormed(prev)
    requires "Value" in daly.columns && "Value" in prev.columns
    requires MergeDalyPrev(daly, prev).Ok?
    ensures HasValues(MergeDalyPrev(daly, prev).value.rows)
    ensures "Value_daly" in MergeDalyPrev(daly, prev).value.columns
    ensures "Value_prev" in MergeDalyPrev(daly, prev).value.columns
  {
    var rows := JoinRows(daly.rows, prev.rows);
    JoinMembers(daly.rows, prev.rows);
    ValueNotKey();
    MergedValueColumns(daly.columns, prev.columns);
    forall i | 0 <= i < |rows| ensures "Value" in rows[i].daly.values && "Value" in rows[i].prev.values {
      assert rows[i] in rows;
      var p :| 0 <= p < |daly.rows| && daly.rows[p] == rows[i].daly;
      var q :| 0 <= q < |prev.rows| && prev.rows[q] == rows[i].prev;
    }
  }

  // ---------------------------------------------------------------------------
  // calculate_auto_intersects

  /** The result of `calculate_auto_intersects`: the two thresholds and the selected
      conditions. A threshold is `None` where pandas gives NaN, the minimum of an
      empty selection. */
  datatype AutoIntersects = AutoIntersects(intersectPrev: Option<real>, intersectDaly: Option<real>, top: seq<string>)

  /** The buffer that puts the thresholds just below the selected maxima. */
  const Buffer: real := 0.99

  /** `merged.groupby("Condition")["Value_daly"].max()`. */
  function DalyMax(rows: seq<Joined>): (m: map<string, real>)
    requires HasValues(rows)
    ensures forall c :: c in m <==> c in Conditions(rows)
  {
    GroupMax(ConditionList(rows), DalyValues(rows), Conditions(rows))
  }

  /** `merged.groupby("Condition")["Value_prev"].max()`. */
  function PrevMax(rows: seq<Joined>): (m: map<string, real>)
    requires HasValues(rows)
    ensures forall c :: c in m <==> c in Conditions(rows)
  {
    GroupMax(ConditionList(rows), PrevValues(rows), Conditions(rows))
  }

  /** The combined score of every condition of the merged table. */
  function AutoScores(rows: seq<Joined>): map<string, real>
    requires HasValues(rows)
  {
    Scores(Conditions(rows), DalyMax(rows), PrevMax(rows))
  }

  /** The selection and thresholds of `calculate_auto_intersects` over the conditions
      `conds` with per-condition maxima `dmax` and `pmax`. */
  function Intersects(conds: seq<string>, dmax: map<string, real>, pmax: map<string, real>, n: nat): AutoIntersects
    requires NoDup(conds) && forall c :: c in conds ==> c in dmax && c in pmax
  {
    var top := TopConditions(conds, dmax, pmax, n);
    TopByScoreSpec(conds, Scores(conds, dmax, pmax), n);
    if top == [] then AutoIntersects(None, None, [])
    else AutoIntersects(Some(Buffer * MinOf(Project(top, pmax))), Some(Buffer * MinOf(Project(top, dmax))), top)
  }

  /** `calculate_auto_intersects`: `ValueError` unless `n` is a positive number;
      otherwise the `n` best-scoring conditions and, per axis, 0.99 times the
      smallest of their maxima. */
  function CalculateAutoIntersects(m: Merged, n: Option<int>): (r: Result<AutoIntersects>)
    requires HasValues(m.rows)
    ensures r.Err? <==> n.None? || n.value <= 0
    ensures r.Err? ==> r.error == ValueError("N must be positive")
  {
    if n.None? || n.value <= 0 then Err(ValueError("N must be positive"))
    else Ok(Intersects(Conditions(m.rows), DalyMax(m.rows), PrevMax(m.rows), n.value))
  }

  /** The selection: `min(n, |conds|)` distinct conditions of `conds`, none scoring
      below a condition left out. */
  lemma IntersectsTop(conds: seq<string>, dmax: map<string, real>, pmax: map<string, real>, n: nat)
    requires NoDup(conds) && forall c :: c in conds ==> c in dmax && c in pmax
    ensures var top := Intersects(conds, dmax, pmax, n).top;
      var sc := Scores(conds, dmax, pmax);
      |top| == Min(n, |conds|) && NoDup(top) && (forall c :: c in top ==> c in conds) &&
      (forall c, d :: c in top && d in conds && d !in top ==> sc[c] >= sc[d])
  {
    TopByScoreSpec(conds, Scores(conds, dmax, pmax), n);
  }

  /** Each threshold is 0.99 times the smallest maximum among the selected
      conditions on its axis, and is absent exactly when nothing was selected. */
  lemma IntersectsThresholds(conds: seq<string>, dmax: map<string, real>, pmax: map<string, real>, n: nat)
    requires NoDup(conds) && forall c :: c in conds ==> c in dmax && c in pmax
    ensures var a := Intersects(conds, dmax, pmax, n);
      (a.intersectDaly.None? <==> a.top == []) && (a.intersectPrev.None? <==> a.top == []) &&
      (forall c :: c in a.top ==> c in dmax && c in pmax) &&
      (a.intersectDaly.Some? ==>
        (forall c :: c in a.top ==> a.intersectDaly.value <= Buffer * dmax[c]) &&
        (exists c :: c in a.top && a.intersectDaly.value == Buffer * dmax[c])) &&
      (a.intersectPrev.Some? ==>
        (forall c :: c in a.top ==> a.intersectPrev.value <= Buffer * pmax[c]) &&
        (exists c :: c in a.top && a.intersectPrev.value == Buffer * pmax[c]))
  {
    var a := Intersects(conds, dmax, pmax, n);
    TopByScoreSpec(conds, Scores(conds, dmax, pmax), n);
    if a.top != [] {
      BufferedMin(a.top, dmax);
      BufferedMin(a.top, pmax);
    }
  }

  /** 0.99 times the smallest maximum of the selected conditions, stated per condition. */
  lemma BufferedMin(top: seq<string>, mx: map<string, real>)
    requires top != [] && forall c :: c in top ==> c in mx
    ensures forall c :: c in top ==> Buffer * MinOf(Project(top, mx)) <= Buffer * mx[c]
    ensures exists c :: c in top && Buffer * MinOf(Project(top, mx)) == Buffer * mx[c]
  {
    ProjectMin(top, mx);
  }

  /** `min` of a condition series, stated per condition. */
  lemma ProjectMin(top: seq<string>, mx: map<string, real>)
    requires top != [] && forall c :: c in top ==> c in mx
    ensures forall c :: c in top ==> MinOf(Project(top, mx)) <= mx[c]
    ensures exists c :: c in top && MinOf(Project(top, mx)) == mx[c]
  {
    var vs := Project(top, mx);
    forall c | c in top ensures MinOf(vs) <= mx[c] {
      var i :| 0 <= i < |top| && top[i] == c;
      assert vs[i] == mx[c];
    }
    var k :| 0 <= k < |vs| && vs[k] == MinOf(vs);
    assert top[k] in top && vs[k] == mx[top[k]];
  }

  /** A selected condition is a condition of the merged table, and the selection
      is the top of the ranking by `AutoScores`. */
  lemma AutoTopSpec(m: Merged, n: int)
    requires HasValues(m.rows) && n > 0
    ensures var top := CalculateAutoIntersects(m, Some(n)).value.top;
      var sc := AutoScores(m.rows);
      |top| == Min(n, |Conditions(m.rows)|) && NoDup(top) &&
      (forall c :: c in top ==> exists i :: 0 <= i < |m.rows| && m.rows[i].daly.condition == c) &&
      (forall c, d :: c in top && d in Conditions(m.rows) && d !in top ==> sc[c] >= sc[d])
  {
    IntersectsTop(Conditions(m.rows), DalyMax(m.rows), PrevMax(m.rows), n);
  }

  /** A selected condition with a positive maximum has a row strictly above the
      threshold on that axis: its maximum point. */
  lemma AutoMaxPointAbove(m: Merged, n: int, c: string)
    requires HasValues(m.rows) && n > 0
    requires c in CalculateAutoIntersects(m, Some(n)).value.top
    ensures var a := CalculateAutoIntersects(m, Some(n)).value;
      a.intersectDaly.Some? && a.intersectPrev.Some? &&
      (DalyMax(m.rows)[c] > 0.0 ==>
        exists i :: 0 <= i < |m.rows| && m.rows[i].daly.condition == c && ValueDaly(m.rows[i]) > a.intersectDaly.value) &&
      (PrevMax(m.rows)[c] > 0.0 ==>
        exists i :: 0 <= i < |m.rows| && m.rows[i].daly.condition == c && ValuePrev(m.rows[i]) > a.intersectPrev.value)
  {
    var conds, dmax, pmax := Conditions(m.rows), DalyMax(m.rows), PrevMax(m.rows);
    IntersectsThresholds(conds, dmax, pmax, n);
    var cl := ConditionList(m.rows);
    var i :| 0 <= i < |cl| && cl[i] == c && DalyValues(m.rows)[i] == dmax[c];
    var k :| 0 <= k < |cl| && cl[k] == c && PrevValues(m.rows)[k] == pmax[c];
    assert ValueDaly(m.rows[i]) == dmax[c];
    assert ValuePrev(m.rows[k]) == pmax[c];
  }

  /** Two merged rows of one condition `A`: one at DALY 1 and prevalence 0, the
      other at DALY 0 and prevalence 1. */
  function SplitPeakRows(): seq<Joined> {
    [Joined(Record("A", "Both", "All", "X", 2020, map["Value" := 1.0]), Record("A", "Both", "All", "X", 2020, map["Value" := 0.0])),
     Joined(Record("A", "Both", "All", "X", 2021, map["Value" := 0.0]), Record("A", "Both", "All", "X", 2021, map["Value" := 1.0]))]
  }

  lemma SplitPeakMaxima()
    ensures HasValues(SplitPeakRows()) && Conditions(SplitPeakRows()) == ["A"]
    ensures DalyMax(SplitPeakRows())["A"] == 1.0 && PrevMax(SplitPeakRows())["A"] == 1.0
  {
    var rows := SplitPeakRows();
    var conds := Conditions(rows);
    assert ConditionList(rows) == ["A", "A"];
    assert forall c :: c in conds <==> c == "A";
    SingleElement(conds, "A");
    assert DalyValues(rows) == [1.0, 0.0] && PrevValues(rows) == [0.0, 1.0];
  }

  lemma SplitPeakNoHighHigh()
    ensures HighHighRows(SplitPeakRows(), 0.99, 0.99) == []
  {
    var rows := SplitPeakRows();
    assert !HighHigh(rows[0], 0.99, 0.99) && !HighHigh(rows[1], 0.99, 0.99);
    assert forall j :: j in rows ==> !HighHigh(j, 0.99, 0.99);
    var h := HighHighRows(rows, 0.99, 0.99);
    assert multiset(h) == multiset{};
  }

  /** The thresholds promise a point above each threshold, not a point above both:
      condition `A` of `SplitPeakRows` peaks at 1 on each axis, but in different
      rows, so with `n = 1` it is selected, both thresholds are 0.99, and none of its
      rows lies in the high/high quadrant. */
  lemma SelectedWithoutHighHighRow()
    ensures HasValues(SplitPeakRows())
    ensures CalculateAutoIntersects(Merged([], SplitPeakRows()), Some(1)) ==
      Ok(AutoIntersects(Some(0.99), Some(0.99), ["A"]))
    ensures HighHighRows(SplitPeakRows(), 0.99, 0.99) == []
  {
    var rows := SplitPeakRows();
    SplitPeakMaxima();
    var conds, dmax, pmax := Conditions(rows), DalyMax(rows), PrevMax(rows);
    IntersectsTop(conds, dmax, pmax, 1);
    IntersectsThresholds(conds, dmax, pmax, 1);
    var a := Intersects(conds, dmax, pmax, 1);
    SingleElement(a.top, "A");
    assert a.intersectDaly == Some(0.99) && a.intersectPrev == Some(0.99);
    SplitPeakNoHighHigh();
  }

  lemma SingleElement(s: seq<string>, x: string)
    requires NoDup(s) && forall y :: y in s <==> y == x
    ensures s == [x]
  {
    assert x in s;
    TwoEqual(s, x);
    assert s[0] == x;
  }

  lemma TwoEqual(s: seq<string>, x: string)
    ensures |s| > 1 && (forall y :: y in s ==> y == x) ==> s[0] == s[1]
  {
    if |s| > 1 {
      assert s[0] in s && s[1] in s;
    }
  }

  // ---------------------------------------------------------------------------
  // filter_top_n_diseases

  function RecordConditionList(rows: seq<Record>): (cs: seq<string>)
    ensures |cs| == |rows| && forall i :: 0 <= i < |rows| ==> cs[i] == rows[i].condition
  {
    seq(|rows|, i requires 0 <= i < |rows| => rows[i].condition)
  }

  /** The distinct conditions of an input table, in ascending order. */
  function RecordConditions(rows: seq<Record>): (cs: seq<string>)
    ensures NoDup(cs)
    ensures forall c :: c in cs <==> exists i :: 0 <= i < |rows| && rows[i].condition == c
  {
    var all := RecordConditionList(rows);
    var cs := SortedStrings(all);
    assert forall c :: c in cs <==> c in Elements(all);
    cs
  }

  /** Every row has a `Value`. */
  predicate RowsHaveValue(rows: seq<Record>) {
    forall i :: 0 <= i < |rows| ==> "Value" in rows[i].values
  }

  /** A well-formed table with a `Value` column has a value in every row. */
  lemma WellFormedHasValue(t: Table)
    requires WellFormed(t) && "Value" in t.columns
    ensures RowsHaveValue(t.rows)
  {
    ValueNotKey();
    assert "Value" in ValueColumns(t.columns);
  }

  function RecordValues(rows: seq<Record>): (vs: seq<real>)
    requires RowsHaveValue(rows)
    ensures |vs| == |rows| && forall i :: 0 <= i < |rows| ==> vs[i] == rows[i].values["Value"]
  {
    seq(|rows|, i requires 0 <= i < |rows| && "Value" in rows[i].values => rows[i].values["Value"])
  }

  /** `df.groupby("Condition")["Value"].max()`. */
  function ValueMax(rows: seq<Record>): (m: map<string, real>)
    requires RowsHaveValue(rows)
    ensures forall c :: c in m <==> c in RecordConditions(rows)
  {
    GroupMax(RecordConditionList(rows), RecordValues(rows), RecordConditions(rows))
  }

  lemma CountNoDup(s: seq<string>)
    requires forall x :: multiset(s)[x] <= 1
    ensures NoDup(s)
  {
    forall i, j | 0 <= i < j < |s| ensures s[i] != s[j] {
      EqualPairCount(s, i, j);
    }
  }

  /** `daly_max.index.intersection(prev_max.index)`: the conditions of both tables. */
  function CommonConditions(daly: seq<Record>, prev: seq<Record>): (cs: seq<string>)
    ensures NoDup(cs)
    ensures forall c :: c in cs <==> c in RecordConditions(daly) && c in RecordConditions(prev)
  {
    var dc, pc := RecordConditions(daly), RecordConditions(prev);
    var cs := Filter(dc, (c: string) => c in pc);
    forall x ensures multiset(cs)[x] <= 1 {
      NoDupCount(dc, x);
    }
    CountNoDup(cs);
    cs
  }

  /** The `n` best-scoring conditions among those of both tables. */
  function TopNDiseases(daly: seq<Record>, prev: seq<Record>, n: nat): (top: seq<string>)
    requires RowsHaveValue(daly) && RowsHaveValue(prev)
    ensures |top| <= n
  {
    TopConditions(CommonConditions(daly, prev), ValueMax(daly), ValueMax(prev), n)
  }

  /** `filter_top_n_diseases`: both tables unchanged unless `n` is a positive number;
      otherwise `KeyError` for the first of `Condition` and `Value` missing from the
      DALY table, then from the prevalence table; otherwise each table restricted to
      the rows of the top `n` diseases. */
  function FilterTopNDiseases(daly: Table, prev: Table, n: Option<int>): (r: Result<(Table, Table)>)
    requires WellFormed(daly) && WellFormed(prev)
    ensures (n.None? || n.value <= 0) ==> r == Ok((daly, prev))
    ensures r.Err? <==>
      n.Some? && n.value > 0 &&
      !("Condition" in daly.columns && "Value" in daly.columns && "Condition" in prev.columns && "Value" in prev.columns)
    ensures r.Err? ==>
      r.error == KeyError(
        if "Condition" !in daly.columns then "Condition"
        else if "Value" !in daly.columns then "Value"
        else if "Condition" !in prev.columns then "Condition"
        else "Value")
  {
    if n.None? || n.value <= 0 then Ok((daly, prev))
    else if "Condition" !in daly.columns then Err(KeyError("Condition"))
    else if "Value" !in daly.columns then Err(KeyError("Value"))
    else if "Condition" !in prev.columns then Err(KeyError("Condition"))
    else if "Value" !in prev.columns then Err(KeyError("Value"))
    else
      WellFormedHasValue(daly);
      WellFormedHasValue(prev);
      var top := TopNDiseases(daly.rows, prev.rows, n.value);
      Ok((Table(daly.columns, Filter(daly.rows, (x: Record) => x.condition in top)),
          Table(prev.columns, Filter(prev.rows, (x: Record) => x.condition in top))))
  }

  /** The filtered tables keep their headers, and each keeps every row whose
      condition is among `TopNDiseases`, as often as it had it, and no other row. */
  lemma FilterTopNRows(daly: Table, prev: Table, n: int)
    requires WellFormed(daly) && WellFormed(prev) && n > 0
    requires FilterTopNDiseases(daly, prev, Some(n)).Ok?
    ensures RowsHaveValue(daly.rows) && RowsHaveValue(prev.rows)
    ensures var (d, p) := FilterTopNDiseases(daly, prev, Some(n)).value;
      var top := TopNDiseases(daly.rows, prev.rows, n);
      d.columns == daly.columns && p.columns == prev.columns &&
      (forall r :: multiset(d.rows)[r] == if r.condition in top then multiset(daly.rows)[r] else 0) &&
      (forall r :: multiset(p.rows)[r] == if r.condition in top then multiset(prev.rows)[r] else 0)
  {
    FilterTopNTables(daly, prev, n);
    var top := TopNDiseases(daly.rows, prev.rows, n);
    KeepConditions(daly.rows, top);
    KeepConditions(prev.rows, top);
  }

  lemma KeepConditions(rows: seq<Record>, top: seq<string>)
    ensures forall r :: multiset(Filter(rows, (x: Record) => x.condition in top))[r] == if r.condition in top then multiset(rows)[r] else 0
  {
  }

  lemma FilterTopNTables(daly: Table, prev: Table, n: int)
    requires WellFormed(daly) && WellFormed(prev) && n > 0
    requires FilterTopNDiseases(daly, prev, Some(n)).Ok?
    ensures RowsHaveValue(daly.rows) && RowsHaveValue(prev.rows)
    ensures var (d, p) := FilterTopNDiseases(daly, prev, Some(n)).value;
      var top := TopNDiseases(daly.rows, prev.rows, n);
      d == Table(daly.columns, Filter(daly.rows, (x: Record) => x.condition in top)) &&
      p == Table(prev.columns, Filter(prev.rows, (x: Record) => x.condition in top))
  {
    WellFormedHasValue(daly);
    WellFormedHasValue(prev);
  }

  /** The ranking only considers conditions of both tables: it selects
      `min(n, #common conditions)` distinct ones, each with rows in both tables, and
      no common condition left out scores above a selected one. */
  lemma TopNDiseasesSpec(daly: seq<Record>, prev: seq<Record>, n: nat)
    requires RowsHaveValue(daly) && RowsHaveValue(prev)
    ensures var top := TopNDiseases(daly, prev, n);
      var common := CommonConditions(daly, prev);
      var sc := Scores(common, ValueMax(daly), ValueMax(prev));
      |top| == Min(n, |common|) && NoDup(top) &&
      (forall c :: c in top ==>
        (exists i :: 0 <= i < |daly| && daly[i].condition == c) &&
        (exists i :: 0 <= i < |prev| && prev[i].condition == c)) &&
      (forall c, d :: c in top && d in common && d !in top ==> sc[c] >= sc[d])
  {
    var common := CommonConditions(daly, prev);
    TopByScoreSpec(common, Scores(common, ValueMax(daly), ValueMax(prev)), n);
  }
}
