/** The tables the pipeline works on: the DALY and prevalence tables read from
    the input files, and the table their merge produces. A row of an input table
    carries the five key columns (Condition, Sex, Age, Location, Year) as fields
    and its numeric columns (Value, Lower, Upper, ...) in a map from column name
    to value. A row of the merged table is the pair of rows that were joined. */
module Tables {
  import opened Collections

  /** The merge key, in the order the merge checks it. */
  const KeyColumns: seq<string> := ["Condition", "Sex", "Age", "Location", "Year"]

  datatype Record = Record(
    condition: string,
    sex: string,
    age: string,
    location: string,
    year: int,
    values: map<string, real>)

  datatype Key = Key(condition: string, sex: string, age: string, location: string, year: int)

  function KeyOf(r: Record): Key {
    Key(r.condition, r.sex, r.age, r.location, r.year)
  }

  /** A table: its header (needed for the missing-column errors) and its rows. */
  datatype Table = Table(columns: seq<string>, rows: seq<Record>)

  /** The non-key columns of a header. */
  function ValueColumns(columns: seq<string>): set<string> {
    set c | c in columns && c !in KeyColumns
  }

  /** Every row has a value for exactly the non-key columns of the header. */
  predicate WellFormed(t: Table) {
    forall i :: 0 <= i < |t.rows| ==> t.rows[i].values.Keys == ValueColumns(t.columns)
  }

  // ---------------------------------------------------------------------------
  // the merged table

  /** A row of the merged table: a DALY row and a prevalence row with the same key. */
  datatype Joined = Joined(daly: Record, prev: Record)

  datatype Merged = Merged(columns: seq<string>, rows: seq<Joined>)

  function ConditionOf(j: Joined): string {
    j.daly.condition
  }

  /** Both sides of every row carry a `Value`, so the merged table has
      `Value_daly` and `Value_prev`. */
  predicate HasValues(rows: seq<Joined>) {
    forall i :: 0 <= i < |rows| ==> "Value" in rows[i].daly.values && "Value" in rows[i].prev.values
  }

  /** `Value_daly` of a merged row. */
  function ValueDaly(j: Joined): real
    requires "Value" in j.daly.values
  {
    j.daly.values["Value"]
  }

  /** `Value_prev` of a merged row. */
  function ValuePrev(j: Joined): real
    requires "Value" in j.prev.values
  {
    j.prev.values["Value"]
  }

  /** The quadrant test: prevalence above `x` and DALY above `y`, both strictly. */
  predicate HighHigh(j: Joined, x: real, y: real) {
    "Value" in j.prev.values && "Value" in j.daly.values && ValuePrev(j) > x && ValueDaly(j) > y
  }

  function ConditionList(rows: seq<Joined>): (cs: seq<string>)
    ensures |cs| == |rows| && forall i :: 0 <= i < |rows| ==> cs[i] == rows[i].daly.condition
  {
    seq(|rows|, i requires 0 <= i < |rows| => rows[i].daly.condition)
  }

  /** The groups of `groupby("Condition")`, in the order pandas visits them: the
      distinct conditions in ascending order. */
  function Conditions(rows: seq<Joined>): (cs: seq<string>)
    ensures StrSorted(cs) && NoDup(cs)
    ensures forall c :: c in cs <==> exists i :: 0 <= i < |rows| && rows[i].daly.condition == c
  {
    var all := ConditionList(rows);
    var cs := SortedStrings(all);
    assert forall c :: c in cs <==> c in Elements(all);
    cs
  }

  /** The groups are the conditions of the rows. */
  lemma ConditionsHave(rows: seq<Joined>, c: string)
    ensures c in Conditions(rows) <==> exists j :: j in rows && j.daly.condition == c
  {
    if c in Conditions(rows) {
      var i :| 0 <= i < |rows| && rows[i].daly.condition == c;
      assert rows[i] in rows;
    }
    if exists j :: j in rows && j.daly.condition == c {
      var j :| j in rows && j.daly.condition == c;
      var i :| 0 <= i < |rows| && rows[i] == j;
    }
  }

  /** The rows of one condition, in table order. */
  function Group(rows: seq<Joined>, c: string): (g: seq<Joined>)
    ensures forall j :: j in g <==> j in rows && j.daly.condition == c
  {
    Filter(rows, (j: Joined) => j.daly.condition == c)
  }

  /** The rows in the high/high quadrant, in table order. */
  function HighHighRows(rows: seq<Joined>, x: real, y: real): (h: seq<Joined>)
    ensures forall j :: j in h <==> j in rows && HighHigh(j, x, y)
  {
    Filter(rows, (j: Joined) => HighHigh(j, x, y))
  }

  function DalyValues(rows: seq<Joined>): (vs: seq<real>)
    requires forall i :: 0 <= i < |rows| ==> "Value" in rows[i].daly.values
    ensures |vs| == |rows| && forall i :: 0 <= i < |rows| ==> vs[i] == ValueDaly(rows[i])
  {
    seq(|rows|, i requires 0 <= i < |rows| && "Value" in rows[i].daly.values => ValueDaly(rows[i]))
  }

  function PrevValues(rows: seq<Joined>): (vs: seq<real>)
    requires forall i :: 0 <= i < |rows| ==> "Value" in rows[i].prev.values
    ensures |vs| == |rows| && forall i :: 0 <= i < |rows| ==> vs[i] == ValuePrev(rows[i])
  {
    seq(|rows|, i requires 0 <= i < |rows| && "Value" in rows[i].prev.values => ValuePrev(rows[i]))
  }

  /** Rows drawn from rows that carry values carry them too. */
  lemma HasValuesOfSubset(all: seq<Joined>, rows: seq<Joined>)
    requires HasValues(all) && forall j :: j in rows ==> j in all
    ensures HasValues(rows)
  {
    forall i | 0 <= i < |rows| ensures "Value" in rows[i].daly.values && "Value" in rows[i].prev.values {
      assert rows[i] in rows;
      var k :| 0 <= k < |all| && all[k] == rows[i];
    }
  }
}
