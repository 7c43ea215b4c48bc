/** `transform_data`: keep-first de-duplication on `customerID`, the dictionary
    remap of `SeniorCitizen`, the strip-and-coerce of `TotalCharges`, and the
    conversion to records. */
module Transformation {
  import opened Wrappers
  import opened Errors
  import opened Numbers
  import opened Frames
  import Text
  import Dedup
  import Seqs

  /** The dictionary `{1: "Yes", 0: "No"}` passed to `Series.map`, keyed by the
      canonical number. */
  const SeniorLabels: map<Decimal, string> := map[Decimal(1, 0) := "Yes", Decimal(0, 0) := "No"]

  /** `Series.map({1: "Yes", 0: "No"})` on one cell: a number equal to 1 or 0 is
      looked up; every other cell, booleans and strings included, has no entry and
      becomes missing. */
  function SeniorLabel(v: Value): (r: Value)
    ensures r == Str("Yes") <==> v.Num? && SameValue(v.n, Decimal(1, 0))
    ensures r == Str("No") <==> v.Num? && SameValue(v.n, Decimal(0, 0))
    ensures r.Missing? <==> !(v.Num? && (SameValue(v.n, Decimal(1, 0)) || SameValue(v.n, Decimal(0, 0))))
  {
    match KeyOf(v)
    case Num(k) =>
      SameValueIffNormal(v.n, Decimal(1, 0));
      SameValueIffNormal(v.n, Decimal(0, 0));
      if k in SeniorLabels then Str(SeniorLabels[k]) else Missing
    case _ => Missing
  }

  /** `astype(str)` of a cell: NaN prints as "nan", booleans as "True"/"False". */
  function Render(v: Value): string {
    match v
    case Missing => "nan"
    case Num(d) => FormatDecimal(d)
    case Str(s) => s
    case Bool(b) => if b then "True" else "False"
  }

  /** `astype(str).str.strip().replace("", nan)` then `pd.to_numeric(errors="coerce")`
      on one cell: never fails, and never leaves a string behind. */
  function CoerceNumeric(v: Value): (r: Value)
    ensures r.Missing? || r.Num?
  {
    var trimmed := Text.Strip(Render(v));
    if trimmed == "" then Missing
    else match ParseDecimal(trimmed)
      case None => Missing
      case Some(d) => Num(d)
  }

  /** A cell that is blank or whitespace becomes missing. */
  lemma CoerceBlank(s: string)
    requires Text.AllSpace(s)
    ensures CoerceNumeric(Str(s)) == Missing
  {
  }

  /** Text with no numeric reading after trimming becomes missing. */
  lemma CoerceUnparseable(s: string)
    requires ParseDecimal(Text.Strip(s)).None?
    ensures CoerceNumeric(Str(s)) == Missing
  {
  }

  /** Surrounding whitespace does not affect the coerced value. */
  lemma CoerceIgnoresSurroundingSpace(pre: string, s: string, post: string)
    requires Text.AllSpace(pre) && Text.AllSpace(post)
    ensures CoerceNumeric(Str(pre + s + post)) == CoerceNumeric(Str(s))
  {
    Text.StripSurrounded(pre, s, post);
  }

  /** A number is kept as it is. */
  lemma CoerceKeepsNumbers(d: Decimal)
    ensures CoerceNumeric(Num(d)) == Num(d)
  {
    var s := FormatDecimal(d);
    assert Render(Num(d)) == s;
    Text.StripUnchanged(s);
    ParseFormat(d);
    CoerceReadable(Num(d), d);
  }

  /** A cell whose stripped text reads as `d` coerces to `d`. */
  lemma CoerceReadable(v: Value, d: Decimal)
    requires ParseDecimal(Text.Strip(Render(v))) == Some(d)
    ensures CoerceNumeric(v) == Num(d)
  {
  }

  /** A missing cell prints as "nan", which has no numeric reading, so it stays missing. */
  lemma CoerceKeepsMissing()
    ensures CoerceNumeric(Missing) == Missing
  {
    NanIsItsOwnStrip();
    NanHasNoReading();
  }

  lemma NanIsItsOwnStrip()
    ensures Text.Strip("nan") == "nan"
  {
    var s := "nan";
    assert s[0] == 'n' && s[|s| - 1] == 'n';
    Text.StripUnchanged(s);
  }

  lemma NanHasNoReading()
    ensures ParseDecimal("nan") == None
  {
    var s := "nan";
    assert s[0] == 'n';
  }

  /** Coercing an already coerced column changes nothing. */
  lemma CoerceIdempotent(v: Value)
    ensures CoerceNumeric(CoerceNumeric(v)) == CoerceNumeric(v)
  {
    match CoerceNumeric(v)
    case Missing => CoerceKeepsMissing();
    case Num(d) => CoerceKeepsNumbers(d);
  }

  /** `astype(str)` keeps what the coercion needs: text stays as it is, a number
      prints as text that reads back as that number, and NaN and the booleans print
      as text with no numeric reading. */
  lemma RenderReadsBack(v: Value)
    ensures v.Str? ==> Render(v) == v.s
    ensures v.Num? ==> ParseDecimal(Render(v)) == Some(v.n)
    ensures v.Missing? ==> ParseDecimal(Text.Strip(Render(v))) == None
    ensures v.Bool? ==> ParseDecimal(Render(v)) == None
  {
    match v
    case Num(d) => ParseFormat(d);
    case Missing => MissingHasNoReading();
    case Bool(b) => BoolHasNoReading(b);
    case Str(_) =>
  }

  lemma MissingHasNoReading()
    ensures ParseDecimal(Text.Strip(Render(Missing))) == None
  {
    NanIsItsOwnStrip();
    NanHasNoReading();
  }

  lemma BoolHasNoReading(b: bool)
    ensures ParseDecimal(Render(Bool(b))) == None
  {
    var s := if b then "True" else "False";
    assert s[0] == (if b then 'T' else 'F');
  }

  /** What cleaning does to the cell of the named column: `SeniorCitizen` is
      remapped, `TotalCharges` coerced, every other column left alone. */
  function CleanCell(column: string, v: Value): Value {
    if column == SeniorCitizen then SeniorLabel(v)
    else if column == TotalCharges then CoerceNumeric(v)
    else v
  }

  /** Cleaning leaves "Yes", "No" or missing in `SeniorCitizen`, a number or missing
      in `TotalCharges`, and every other column's cell as it was. */
  lemma CleanCellRange(column: string, v: Value)
    ensures column == SeniorCitizen ==> CleanCell(column, v) in {Str("Yes"), Str("No"), Missing}
    ensures column == TotalCharges ==> CleanCell(column, v).Missing? || CleanCell(column, v).Num?
    ensures column != SeniorCitizen && column != TotalCharges ==> CleanCell(column, v) == v
  {
    SeniorLabelRange(v);
    assert TotalCharges != SeniorCitizen by {
      assert |TotalCharges| != |SeniorCitizen|;
    }
  }

  /** The position of a column the table has. */
  function Col(f: Frame, name: string): (k: nat)
    requires name in f.columns
    ensures k < |f.columns| && f.columns[k] == name
  {
    ColumnIndex(f.columns, name).value
  }

  /** The table has the three columns the transform reads. */
  predicate HasSchema(f: Frame) {
    CustomerId in f.columns && SeniorCitizen in f.columns && TotalCharges in f.columns
  }

  /** The customer key of a row of `f`. */
  function CustomerKey(f: Frame): seq<Value> -> Value
    requires CustomerId in f.columns
  {
    RowKey(Col(f, CustomerId))
  }

  /** `drop_duplicates(subset=["customerID"], keep="first")`: the rows with
      pairwise different customer keys, covering every key of the input, each the
      first row with its key, in input order. */
  function DropDuplicates(f: Frame, id: nat): (g: Frame)
    requires id < |f.columns|
    ensures g.columns == f.columns
    ensures Dedup.DistinctKeys(g.rows, RowKey(id))
    ensures Dedup.Keys(g.rows, RowKey(id)) == Dedup.Keys(f.rows, RowKey(id))
    ensures |g.rows| == |Dedup.Keys(f.rows, RowKey(id))|
    ensures Seqs.IsSubsequence(g.rows, f.rows)
    ensures forall j :: 0 <= j < |g.rows| ==> RowKey(id)(g.rows[j]) in Dedup.Keys(f.rows, RowKey(id))
    ensures forall j :: 0 <= j < |g.rows| ==>
      g.rows[j] == f.rows[Dedup.FirstIndex(f.rows, RowKey(id), RowKey(id)(g.rows[j]))]
    ensures forall j1, j2 :: 0 <= j1 < j2 < |g.rows| ==>
      Dedup.FirstIndex(f.rows, RowKey(id), RowKey(id)(g.rows[j1]))
        < Dedup.FirstIndex(f.rows, RowKey(id), RowKey(id)(g.rows[j2]))
  {
    var rows := Dedup.KeepFirst(f.rows, RowKey(id));
    Dedup.KeepFirstSpec(f.rows, RowKey(id));
    Table(f.columns, rows)
  }

  /** `df[column] = df[column].map(fn)`: the column at `k` is replaced cell by cell
      and every other cell keeps its value. */
  function MapColumn(f: Frame, k: nat, fn: Value -> Value): (g: Frame)
    requires k < |f.columns|
    ensures g.columns == f.columns && |g.rows| == |f.rows|
    ensures forall i, j :: 0 <= i < |g.rows| && 0 <= j < |g.columns| ==>
      g.rows[i][j] == if j == k then fn(f.rows[i][j]) else f.rows[i][j]
  {
    Table(f.columns, seq(|f.rows|, i requires 0 <= i < |f.rows| => f.rows[i][k := fn(f.rows[i][k])]))
  }

  /** `transform_data`. An empty table is refused before anything else; a missing
      column fails at the first step that reads it. */
  function Transform(f: Frame): (r: Result<seq<Record>, EtlError>)
    ensures r.Success? <==> !IsEmpty(f) && HasSchema(f)
    ensures IsEmpty(f) ==> r == Failure(EmptyFrame)
    ensures !IsEmpty(f) && CustomerId !in f.columns ==> r == Failure(MissingColumn(CustomerId))
    ensures !IsEmpty(f) && CustomerId in f.columns && SeniorCitizen !in f.columns
      ==> r == Failure(MissingColumn(SeniorCitizen))
    ensures !IsEmpty(f) && CustomerId in f.columns && SeniorCitizen in f.columns && TotalCharges !in f.columns
      ==> r == Failure(MissingColumn(TotalCharges))
  {
    if IsEmpty(f) then Failure(EmptyFrame)
    else match ColumnIndex(f.columns, CustomerId)
      case None => Failure(MissingColumn(CustomerId))
      case Some(id) =>
        var deduped := DropDuplicates(f, id);
        match ColumnIndex(deduped.columns, SeniorCitizen)
        case None => Failure(MissingColumn(SeniorCitizen))
        case Some(sc) =>
          var labelled := MapColumn(deduped, sc, SeniorLabel);
          match ColumnIndex(labelled.columns, TotalCharges)
          case None => Failure(MissingColumn(TotalCharges))
          case Some(tc) => Success(ToRecords(MapColumn(labelled, tc, CoerceNumeric)))
  }

  /** The table after de-duplication and the two column rewrites. */
  function Cleaned(f: Frame): (g: Frame)
    requires HasSchema(f)
    ensures g.columns == f.columns
  {
    var deduped := DropDuplicates(f, Col(f, CustomerId));
    var labelled := MapColumn(deduped, Col(f, SeniorCitizen), SeniorLabel);
    MapColumn(labelled, Col(f, TotalCharges), CoerceNumeric)
  }

  /** A successful transform is `to_dict` of the cleaned table. */
  lemma TransformIsCleaned(f: Frame)
    requires !IsEmpty(f) && HasSchema(f)
    ensures HasSchema(f) && Transform(f).value == ToRecords(Cleaned(f))
  {
    var id := Col(f, CustomerId);
    var deduped := DropDuplicates(f, id);
    assert ColumnIndex(f.columns, CustomerId) == Some(id);
    assert ColumnIndex(deduped.columns, SeniorCitizen) == Some(Col(f, SeniorCitizen));
    var labelled := MapColumn(deduped, Col(f, SeniorCitizen), SeniorLabel);
    assert ColumnIndex(labelled.columns, TotalCharges) == Some(Col(f, TotalCharges));
  }

  /** Each cell of the cleaned table is the kept row's cell after cleaning. */
  lemma CleanedCells(f: Frame)
    requires HasSchema(f)
    ensures var kept := DropDuplicates(f, Col(f, CustomerId)).rows;
      && |Cleaned(f).rows| == |kept|
      && forall j, k :: 0 <= j < |kept| && 0 <= k < |f.columns| ==>
           Cleaned(f).rows[j][k] == CleanCell(f.columns[k], kept[j][k])
  {
    var id, sc, tc := Col(f, CustomerId), Col(f, SeniorCitizen), Col(f, TotalCharges);
    var deduped := DropDuplicates(f, id);
    var labelled := MapColumn(deduped, sc, SeniorLabel);
    var cleaned := MapColumn(labelled, tc, CoerceNumeric);
    assert Cleaned(f) == cleaned;
    forall j, k | 0 <= j < |deduped.rows| && 0 <= k < |f.columns|
      ensures cleaned.rows[j][k] == CleanCell(f.columns[k], deduped.rows[j][k])
    {
      assert f.columns[k] == SeniorCitizen <==> k == sc;
      assert f.columns[k] == TotalCharges <==> k == tc;
    }
  }

  /** The records of the cleaned table, stated without the transform's error paths. */
  lemma CleanedRecords(f: Frame)
    requires HasSchema(f)
    ensures var recs := ToRecords(Cleaned(f));
      var kept := DropDuplicates(f, Col(f, CustomerId)).rows;
      && |recs| == |kept|
      && (forall j :: 0 <= j < |recs| ==> Names(recs[j]) == f.columns)
      && (forall j :: 0 <= j < |recs| ==> DocKey(recs[j]) == CustomerKey(f)(kept[j]))
      && (forall j, k :: 0 <= j < |recs| && 0 <= k < |f.columns| ==>
            Get(recs[j], f.columns[k]) == Some(CleanCell(f.columns[k], kept[j][k])))
  {
    var id := Col(f, CustomerId);
    var kept := DropDuplicates(f, id).rows;
    var cleaned := Cleaned(f);
    var recs := ToRecords(cleaned);
    CleanedCells(f);
    forall j | 0 <= j < |recs|
      ensures DocKey(recs[j]) == CustomerKey(f)(kept[j])
    {
      assert Get(recs[j], f.columns[id]) == Some(cleaned.rows[j][id]);
      assert cleaned.rows[j][id] == CleanCell(CustomerId, kept[j][id]);
    }
  }

  /** The records are the de-duplicated rows, cleaned column by column. */
  lemma TransformedRows(f: Frame)
    requires !IsEmpty(f) && HasSchema(f)
    ensures var recs := Transform(f).value;
      var kept := DropDuplicates(f, Col(f, CustomerId)).rows;
      && |recs| == |kept|
      && (forall j :: 0 <= j < |recs| ==> Names(recs[j]) == f.columns)
      && (forall j :: 0 <= j < |recs| ==> DocKey(recs[j]) == CustomerKey(f)(kept[j]))
      && (forall j, k :: 0 <= j < |recs| && 0 <= k < |f.columns| ==>
            Get(recs[j], f.columns[k]) == Some(CleanCell(f.columns[k], kept[j][k])))
  {
    TransformIsCleaned(f);
    CleanedRecords(f);
  }

  /** One record per customer: the batch's `customerID` keys are pairwise
      different, they are exactly the keys of the input, so there are as many
      records as distinct customers, and at least one. */
  lemma TransformOneRecordPerCustomer(f: Frame)
    requires !IsEmpty(f) && HasSchema(f)
    ensures var recs := Transform(f).value;
      && Dedup.DistinctKeys(recs, DocKey)
      && Dedup.Keys(recs, DocKey) == Dedup.Keys(f.rows, CustomerKey(f))
      && |recs| == |Dedup.Keys(f.rows, CustomerKey(f))|
      && |recs| >= 1
  {
    var recs := Transform(f).value;
    var kept := DropDuplicates(f, Col(f, CustomerId)).rows;
    TransformedRows(f);
    KeysThroughRows(recs, kept, CustomerKey(f));
    Dedup.KeysMember(f.rows, CustomerKey(f), 0);
  }

  /** Records whose keys are their rows' keys have the rows' key set, and distinct
      keys when the rows do. */
  lemma KeysThroughRows(recs: seq<Record>, kept: seq<seq<Value>>, key: seq<Value> -> Value)
    requires |recs| == |kept|
    requires forall j :: 0 <= j < |recs| ==> DocKey(recs[j]) == key(kept[j])
    ensures Dedup.Keys(recs, DocKey) == Dedup.Keys(kept, key)
    ensures Dedup.DistinctKeys(kept, key) ==> Dedup.DistinctKeys(recs, DocKey)
  {
    Dedup.KeysPointwise(recs, DocKey, kept, key);
  }

  /** Each record is the first input row of its customer, with `SeniorCitizen`
      remapped, `TotalCharges` coerced and every other column unchanged. */
  lemma TransformKeepsFirstRow(f: Frame)
    requires !IsEmpty(f) && HasSchema(f)
    ensures var recs := Transform(f).value;
      forall j :: 0 <= j < |recs| ==>
        && DocKey(recs[j]) in Dedup.Keys(f.rows, CustomerKey(f))
        && Names(recs[j]) == f.columns
        && forall k :: 0 <= k < |f.columns| ==>
             Get(recs[j], f.columns[k])
               == Some(CleanCell(f.columns[k], f.rows[Dedup.FirstIndex(f.rows, CustomerKey(f), DocKey(recs[j]))][k]))
  {
    var recs := Transform(f).value;
    var kept := DropDuplicates(f, Col(f, CustomerId)).rows;
    TransformedRows(f);
    forall j | 0 <= j < |recs|
      ensures DocKey(recs[j]) in Dedup.Keys(f.rows, CustomerKey(f))
      ensures kept[j] == f.rows[Dedup.FirstIndex(f.rows, CustomerKey(f), DocKey(recs[j]))]
    {
      assert DocKey(recs[j]) == CustomerKey(f)(kept[j]);
    }
  }

  /** Records come in the order in which their customers first appear in the input. */
  lemma TransformPreservesOrder(f: Frame)
    requires !IsEmpty(f) && HasSchema(f)
    ensures var recs := Transform(f).value;
      && (forall j :: 0 <= j < |recs| ==> DocKey(recs[j]) in Dedup.Keys(f.rows, CustomerKey(f)))
      && (forall j1, j2 :: 0 <= j1 < j2 < |recs| ==>
            Dedup.FirstIndex(f.rows, CustomerKey(f), DocKey(recs[j1]))
              < Dedup.FirstIndex(f.rows, CustomerKey(f), DocKey(recs[j2])))
  {
    TransformedRows(f);
  }

  /** After the transform `SeniorCitizen` holds "Yes", "No" or nothing, and
      `TotalCharges` a number or nothing. */
  lemma TransformCleansColumns(f: Frame)
    requires !IsEmpty(f) && HasSchema(f)
    ensures var recs := Transform(f).value;
      forall j :: 0 <= j < |recs| ==>
        && Get(recs[j], SeniorCitizen).Some?
        && Get(recs[j], SeniorCitizen).value in {Str("Yes"), Str("No"), Missing}
        && Get(recs[j], TotalCharges).Some?
        && (Get(recs[j], TotalCharges).value.Missing? || Get(recs[j], TotalCharges).value.Num?)
  {
    var recs := Transform(f).value;
    var kept := DropDuplicates(f, Col(f, CustomerId)).rows;
    TransformedRows(f);
    var sc, tc := Col(f, SeniorCitizen), Col(f, TotalCharges);
    forall j | 0 <= j < |recs|
      ensures Get(recs[j], SeniorCitizen).Some?
      ensures Get(recs[j], SeniorCitizen).value in {Str("Yes"), Str("No"), Missing}
      ensures Get(recs[j], TotalCharges).Some?
      ensures Get(recs[j], TotalCharges).value.Missing? || Get(recs[j], TotalCharges).value.Num?
    {
      assert Get(recs[j], f.columns[sc]) == Some(CleanCell(f.columns[sc], kept[j][sc]));
      assert Get(recs[j], f.columns[tc]) == Some(CleanCell(f.columns[tc], kept[j][tc]));
      CleanFieldsRange(recs[j], kept[j][sc], kept[j][tc]);
    }
  }

  /** A record whose two cleaned fields come from cleaning holds "Yes", "No" or
      missing under `SeniorCitizen` and a number or missing under `TotalCharges`. */
  lemma CleanFieldsRange(rec: Record, senior: Value, charges: Value)
    requires Get(rec, SeniorCitizen) == Some(CleanCell(SeniorCitizen, senior))
    requires Get(rec, TotalCharges) == Some(CleanCell(TotalCharges, charges))
    ensures Get(rec, SeniorCitizen).value in {Str("Yes"), Str("No"), Missing}
    ensures Get(rec, TotalCharges).value.Missing? || Get(rec, TotalCharges).value.Num?
  {
    CleanCellRange(SeniorCitizen, senior);
    CleanCellRange(TotalCharges, charges);
  }

  /** The relabelling leaves "Yes", "No" or missing. */
  lemma SeniorLabelRange(v: Value)
    ensures SeniorLabel(v) in {Str("Yes"), Str("No"), Missing}
  {
  }
}
