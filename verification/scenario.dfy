/** The worked example of the transform: three rows for customers A, A and B. */
module Scenario {
  import opened Wrappers
  import opened Numbers
  import opened Frames
  import opened Transformation
  import Text
  import Dedup
  import Loading

  const ExampleColumns: seq<string> := [CustomerId, SeniorCitizen, TotalCharges]

  const ExampleRows: seq<seq<Value>> := [
    [Str("A"), Num(Decimal(1, 0)), Str("10.5")],
    [Str("A"), Num(Decimal(0, 0)), Str("")],
    [Str("B"), Num(Decimal(1, 0)), Str("bad")]
  ]

  /** De-duplication on `customerID` keeps the first "A" row and the "B" row. */
  lemma ExampleDedup()
    ensures Dedup.KeepFirst(ExampleRows, RowKey(0)) == [ExampleRows[0], ExampleRows[2]]
  {
    var key := RowKey(0);
    assert key(ExampleRows[0]) == Str("A");
    assert key(ExampleRows[1]) == Str("A");
    assert key(ExampleRows[2]) == Str("B");
    assert ExampleRows[1..][1..] == [ExampleRows[2]];
  }

  /** "10.5" reads as the number 10.5. */
  lemma ExampleCoerceNumber()
    ensures CoerceNumeric(Str("10.5")) == Num(Decimal(105, 1))
  {
    ExampleStripNumber();
    ExampleParseNumber();
    CoerceReadable(Str("10.5"), Decimal(105, 1));
  }

  lemma ExampleStripNumber()
    ensures Text.Strip("10.5") == "10.5"
  {
    var s := "10.5";
    assert s[0] == '1' && s[|s| - 1] == '5';
    Text.StripUnchanged(s);
  }

  lemma ExampleParseNumber()
    ensures ParseDecimal("10.5") == Some(Decimal(105, 1))
  {
    var digits := "105";
    assert AllDigits(digits);
    assert DigitsValue(digits) == 105 by {
      assert digits[..2] == "10" && "10"[..1] == "1" && "1"[..0] == "";
      assert DigitsValue("1") == 1;
      assert DigitsValue("10") == 10;
    }
    ParseSplitDigits(digits, 2);
    assert digits[..2] + "." + digits[2..] == "10.5";
    assert "10.5"[0] == '1';
  }

  /** "bad" has no numeric reading. */
  lemma ExampleCoerceText()
    ensures CoerceNumeric(Str("bad")) == Missing
  {
    ExampleStripText();
    ExampleParseText();
  }

  lemma ExampleStripText()
    ensures Text.Strip("bad") == "bad"
  {
    var s := "bad";
    assert s[0] == 'b' && s[|s| - 1] == 'd';
    Text.StripUnchanged(s);
  }

  lemma ExampleParseText()
    ensures ParseDecimal("bad") == None
  {
    var s := "bad";
    assert s[0] == 'b';
  }

  /** The duplicate "A" row is dropped, 1 becomes "Yes", "10.5" becomes the number
      10.5 and "bad" becomes missing. */
  lemma ExampleBatch(f: Frame)
    requires f.columns == ExampleColumns && f.rows == ExampleRows
    ensures Transform(f) == Success(ExampleRecords)
  {
    ExampleCleaned(f);
    assert Transform(f).Success?;
    TransformIsCleaned(f);
    assert Cleaned(f) == Table(ExampleColumns, ExampleCleanRows);
    ExampleRecordsOf();
  }

  /** The example has the three columns, in order, and de-duplication keeps its
      first and third rows. */
  lemma ExampleKept(f: Frame) returns (kept: seq<seq<Value>>)
    requires f.columns == ExampleColumns && f.rows == ExampleRows
    ensures HasSchema(f) && !IsEmpty(f)
    ensures Col(f, CustomerId) == 0 && Col(f, SeniorCitizen) == 1 && Col(f, TotalCharges) == 2
    ensures kept == DropDuplicates(f, Col(f, CustomerId)).rows == [ExampleRows[0], ExampleRows[2]]
  {
    assert f.columns[0] == CustomerId && f.columns[1] == SeniorCitizen && f.columns[2] == TotalCharges;
    assert Col(f, CustomerId) == 0 && Col(f, SeniorCitizen) == 1 && Col(f, TotalCharges) == 2;
    ExampleDedup();
    kept := DropDuplicates(f, 0).rows;
  }

  const ExampleRecords: seq<Record> := [
    [Field(CustomerId, Str("A")), Field(SeniorCitizen, Str("Yes")), Field(TotalCharges, Num(Decimal(105, 1)))],
    [Field(CustomerId, Str("B")), Field(SeniorCitizen, Str("Yes")), Field(TotalCharges, Missing)]
  ]

  /** The example's rows once cleaned. */
  const ExampleCleanRows: seq<seq<Value>> := [
    [Str("A"), Str("Yes"), Num(Decimal(105, 1))],
    [Str("B"), Str("Yes"), Missing]
  ]

  /** The example's kept rows once `SeniorCitizen` is relabelled. */
  const ExampleLabelledRows: seq<seq<Value>> := [
    [Str("A"), Str("Yes"), Str("10.5")],
    [Str("B"), Str("Yes"), Str("bad")]
  ]

  /** The cleaned table: the kept rows, relabelled, then coerced. */
  lemma ExampleCleaned(f: Frame)
    requires f.columns == ExampleColumns && f.rows == ExampleRows
    ensures HasSchema(f) && !IsEmpty(f)
    ensures Cleaned(f).rows == ExampleCleanRows
  {
    var kept := ExampleKept(f);
    var deduped := DropDuplicates(f, Col(f, CustomerId));
    ExampleLabelled(deduped);
    var labelled := MapColumn(deduped, 1, SeniorLabel);
    ExampleCoerced(labelled);
  }

  /** Relabelling maps both kept rows' 1 to "Yes". */
  lemma ExampleLabelled(t: Frame)
    requires t.columns == ExampleColumns && t.rows == [ExampleRows[0], ExampleRows[2]]
    ensures MapColumn(t, 1, SeniorLabel).rows == ExampleLabelledRows
  {
    CellSenior();
    assert ExampleLabelledRows[0] == t.rows[0][1 := SeniorLabel(t.rows[0][1])];
    assert ExampleLabelledRows[1] == t.rows[1][1 := SeniorLabel(t.rows[1][1])];
    MapColumnIs(t, 1, SeniorLabel, ExampleLabelledRows);
  }

  /** Coercion reads "10.5" as 10.5 and turns "bad" into missing. */
  lemma ExampleCoerced(t: Frame)
    requires t.columns == ExampleColumns && t.rows == ExampleLabelledRows
    ensures MapColumn(t, 2, CoerceNumeric).rows == ExampleCleanRows
  {
    ChargesRewritten(t, CoerceNumeric, Str("10.5"), Str("bad"));
    ExampleCoerceNumber();
    ExampleCoerceText();
  }

  /** Rewriting the charges column of a two-row table, whatever its cells hold. */
  lemma ChargesRewritten(t: Frame, fn: Value -> Value, x: Value, y: Value)
    requires t.columns == ExampleColumns
    requires t.rows == [[Str("A"), Str("Yes"), x], [Str("B"), Str("Yes"), y]]
    ensures MapColumn(t, 2, fn).rows == [[Str("A"), Str("Yes"), fn(x)], [Str("B"), Str("Yes"), fn(y)]]
  {
    MapColumnIs(t, 2, fn, [[Str("A"), Str("Yes"), fn(x)], [Str("B"), Str("Yes"), fn(y)]]);
  }

  /** A column rewrite yields the rows that have just that cell rewritten. */
  lemma MapColumnIs(t: Frame, k: nat, fn: Value -> Value, expected: seq<seq<Value>>)
    requires k < |t.columns| && |expected| == |t.rows|
    requires forall i :: 0 <= i < |t.rows| ==> expected[i] == t.rows[i][k := fn(t.rows[i][k])]
    ensures MapColumn(t, k, fn).rows == expected
  {
  }

  /** `to_dict` of the cleaned example. */
  lemma ExampleRecordsOf()
    ensures WellFormed(Table(ExampleColumns, ExampleCleanRows))
    ensures ToRecords(Table(ExampleColumns, ExampleCleanRows)) == ExampleRecords
  {
    var t: Frame := Table(ExampleColumns, ExampleCleanRows);
    var recs := ToRecords(t);
    assert recs[0] == ToRecord(ExampleColumns, ExampleCleanRows[0]) == ExampleRecords[0];
    assert recs[1] == ToRecord(ExampleColumns, ExampleCleanRows[1]) == ExampleRecords[1];
  }

  /** The number 1 is relabelled "Yes". */
  lemma CellSenior()
    ensures SeniorLabel(Num(Decimal(1, 0))) == Str("Yes")
  {
    assert SameValue(Decimal(1, 0), Decimal(1, 0));
  }

  /** Loading the example's two records into an empty collection inserts both and
      leaves them under the unique index. */
  lemma ExampleLoad()
    ensures var run := Loading.Load(ExampleRecords, Loading.Collection([], false), true);
      && run.result == Success(2)
      && run.store == Loading.Collection(ExampleRecords, true)
  {
    var empty := Loading.Collection([], false);
    assert DocKey(ExampleRecords[0]) == Str("A");
    assert DocKey(ExampleRecords[1]) == Str("B");
    assert Dedup.DistinctKeys(ExampleRecords, DocKey);
    Loading.LoadOutcome(ExampleRecords, empty, true);
    Loading.LoadStoresFirstPerCustomer(ExampleRecords, empty);
    Dedup.KeepFirstDropsNothingIff(ExampleRecords, DocKey);
  }
}
