/** The in-memory table the job works on (a pandas DataFrame) and the records
    it hands to the document store (`to_dict(orient="records")`). */
module Frames {
  import opened Wrappers
  import opened Numbers

  /** A cell. `Missing` is pandas' NaN; numbers are exact decimals. */
  datatype Value = Missing | Num(n: Decimal) | Str(s: string) | Bool(b: bool)

  /** The representative pandas and the document store compare cells by: numbers
      with the same value (`1.0` and `1`) share one representative. */
  function KeyOf(v: Value): (k: Value)
    ensures v.Num? <==> k.Num?
    ensures !v.Num? ==> k == v
  {
    match v
    case Num(d) => Num(Normalize(d))
    case _ => v
  }

  /** Two numeric cells compare equal exactly when they denote the same number. */
  lemma KeyOfNumbers(a: Decimal, b: Decimal)
    ensures KeyOf(Num(a)) == KeyOf(Num(b)) <==> SameValue(a, b)
  {
    SameValueIffNormal(a, b);
  }

  /** Column names with rows of cells, one cell per column. */
  datatype Table = Table(columns: seq<string>, rows: seq<seq<Value>>)

  /** What every DataFrame satisfies here: column names are distinct (the CSV
      reader renames repeated headers) and every row has one cell per column. */
  predicate WellFormed(t: Table) {
    && (forall i, j :: 0 <= i < j < |t.columns| ==> t.columns[i] != t.columns[j])
    && (forall r :: 0 <= r < |t.rows| ==> |t.rows[r]| == |t.columns|)
  }

  type Frame = t: Table | WellFormed(t) witness Table([], [])

  /** pandas' `DataFrame.empty`: true when either axis has length zero. */
  predicate IsEmpty(t: Table) {
    |t.columns| == 0 || |t.rows| == 0
  }

  /** Position of a column, if the table has it. */
  function ColumnIndex(columns: seq<string>, name: string): (r: Option<nat>)
    ensures r.Some? <==> name in columns
    ensures r.Some? ==> r.value < |columns| && columns[r.value] == name
    decreases |columns|
  {
    if |columns| == 0 then None
    else if columns[0] == name then Some(0)
    else match ColumnIndex(columns[1..], name)
      case None => None
      case Some(i) => Some(i + 1)
  }

  /** The columns the transform reads. */
  const CustomerId := "customerID"
  const SeniorCitizen := "SeniorCitizen"
  const TotalCharges := "TotalCharges"

  /** One key/value pair of a record. */
  datatype Field = Field(name: string, value: Value)

  /** A document: fields in column order. */
  type Record = seq<Field>

  /** The value stored under `name`, if the record has that field. */
  function Get(rec: Record, name: string): (r: Option<Value>)
    ensures r.Some? <==> exists k :: 0 <= k < |rec| && rec[k].name == name
    decreases |rec|
  {
    if |rec| == 0 then None
    else if rec[0].name == name then Some(rec[0].value)
    else
      assert forall k :: 1 <= k < |rec| ==> rec[k] == rec[1..][k - 1];
      Get(rec[1..], name)
  }

  /** The names of a record's fields, in order. */
  function Names(rec: Record): (names: seq<string>)
    ensures |names| == |rec| && forall k :: 0 <= k < |rec| ==> names[k] == rec[k].name
  {
    seq(|rec|, k requires 0 <= k < |rec| => rec[k].name)
  }

  /** A field is found under its own name when no earlier field has that name. */
  lemma {:induction false} GetFirst(rec: Record, k: nat)
    requires k < |rec|
    requires forall j :: 0 <= j < k ==> rec[j].name != rec[k].name
    ensures Get(rec, rec[k].name) == Some(rec[k].value)
    decreases k
  {
    if k > 0 {
      assert rec[1..][k - 1] == rec[k];
      GetFirst(rec[1..], k - 1);
    }
  }

  /** One row as a record: the i-th cell under the i-th column name. */
  function ToRecord(columns: seq<string>, row: seq<Value>): (rec: Record)
    requires |row| == |columns|
    ensures Names(rec) == columns
  {
    seq(|columns|, k requires 0 <= k < |columns| => Field(columns[k], row[k]))
  }

  /** Looking a column up in a row's record gives that row's cell. */
  lemma GetToRecord(columns: seq<string>, row: seq<Value>, k: nat)
    requires |row| == |columns| && k < |columns|
    requires forall i, j :: 0 <= i < j < |columns| ==> columns[i] != columns[j]
    ensures Get(ToRecord(columns, row), columns[k]) == Some(row[k])
  {
    GetFirst(ToRecord(columns, row), k);
  }

  /** `to_dict(orient="records")`: one record per row, in row order, and every
      column of every row can be looked up by name. */
  function ToRecords(f: Frame): (recs: seq<Record>)
    ensures |recs| == |f.rows|
    ensures forall i :: 0 <= i < |recs| ==> Names(recs[i]) == f.columns
    ensures forall i, k :: 0 <= i < |recs| && 0 <= k < |f.columns| ==>
      Get(recs[i], f.columns[k]) == Some(f.rows[i][k])
  {
    var recs := seq(|f.rows|, i requires 0 <= i < |f.rows| => ToRecord(f.columns, f.rows[i]));
    forall i, k | 0 <= i < |recs| && 0 <= k < |f.columns|
      ensures Get(recs[i], f.columns[k]) == Some(f.rows[i][k])
    {
      GetToRecord(f.columns, f.rows[i], k);
    }
    recs
  }

  /** The de-duplication key of a row: its `customerID` cell, compared by value. */
  function RowKey(id: nat): seq<Value> -> Value {
    row => if id < |row| then KeyOf(row[id]) else Missing
  }

  /** The key a stored document is compared by under the unique index on
      `customerID`. A document without the field gets the key of a missing cell,
      the same as a NaN `customerID`; the server would tell null from NaN. */
  function DocKey(rec: Record): Value {
    match Get(rec, CustomerId)
    case Some(v) => KeyOf(v)
    case None => Missing
  }
}
