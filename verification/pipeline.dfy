/** `run_etl`: extract, transform and load in turn, the first failure ending the
    run. */
module Pipeline {
  import opened Wrappers
  import opened Errors
  import opened Frames
  import opened Settings
  import opened Extraction
  import opened Transformation
  import opened Loading
  import Dedup

  /** The outcome of `run_etl`: the count the load returned or the failure that ended
      the run, the commands sent to the document store, and the collection left. */
  datatype EtlRun = EtlRun(result: Result<nat, EtlError>, ops: seq<StoreOp>, store: Collection)

  /** `run_etl`. A failing extraction or transform ends the run before the store
      is contacted. */
  function RunEtl(cfg: Config, csvFilesOf: string -> seq<string>, readCsv: string -> Frame,
                  reachable: bool, store: Collection): (run: EtlRun)
    ensures Extract(cfg, csvFilesOf, readCsv).Failure? ==>
      run == EtlRun(Failure(Extract(cfg, csvFilesOf, readCsv).error), [], store)
    ensures (Extract(cfg, csvFilesOf, readCsv).Success?
      && Transform(Extract(cfg, csvFilesOf, readCsv).value).Failure?) ==>
      run == EtlRun(Failure(Transform(Extract(cfg, csvFilesOf, readCsv).value).error), [], store)
    ensures run.result.Success? ==>
      Extract(cfg, csvFilesOf, readCsv).Success? && Transform(Extract(cfg, csvFilesOf, readCsv).value).Success?
  {
    match Extract(cfg, csvFilesOf, readCsv)
    case Failure(e) => EtlRun(Failure(e), [], store)
    case Success(df) =>
      match Transform(df)
      case Failure(e) => EtlRun(Failure(e), [], store)
      case Success(records) =>
        var loaded := Load(records, store, reachable);
        EtlRun(loaded.result, loaded.ops, loaded.store)
  }

  /** A run succeeds exactly when the snapshot holds one non-empty CSV with the three
      columns and the store is reachable: the transform's output never repeats a
      customer, so the unique index never refuses a record here. */
  lemma RunEtlSucceedsIff(cfg: Config, csvFilesOf: string -> seq<string>, readCsv: string -> Frame,
                          reachable: bool, store: Collection)
    ensures var files := csvFilesOf(cfg.dataSource);
      RunEtl(cfg, csvFilesOf, readCsv, reachable, store).result.Success? <==>
        |files| == 1 && !IsEmpty(readCsv(files[0])) && HasSchema(readCsv(files[0])) && reachable
  {
    var ex := Extract(cfg, csvFilesOf, readCsv);
    if ex.Success? && Transform(ex.value).Success? {
      var recs := Transform(ex.value).value;
      TransformOneRecordPerCustomer(ex.value);
      LoadOutcome(recs, store, reachable);
    }
  }

  /** When the snapshot holds one usable CSV and the server is reachable, the run
      leaves exactly the transform's records, in order, under the unique index; the
      reported count is the number of distinct customers in the CSV. */
  lemma RunEtlStoresTransformOutput(cfg: Config, csvFilesOf: string -> seq<string>, readCsv: string -> Frame,
                                    reachable: bool, store: Collection)
    requires |csvFilesOf(cfg.dataSource)| == 1 && reachable
    requires !IsEmpty(readCsv(csvFilesOf(cfg.dataSource)[0])) && HasSchema(readCsv(csvFilesOf(cfg.dataSource)[0]))
    ensures Extract(cfg, csvFilesOf, readCsv).Success?
    ensures var df := Extract(cfg, csvFilesOf, readCsv).value;
      var run := RunEtl(cfg, csvFilesOf, readCsv, reachable, store);
      && run.result.Success?
      && run.store == Collection(Transform(df).value, true)
      && run.result.value == |Dedup.Keys(df.rows, CustomerKey(df))|
      && run.ops == [DeleteAll, CreateUniqueIndex, InsertUnordered(Transform(df).value), Close]
  {
    var df := Extract(cfg, csvFilesOf, readCsv).value;
    var recs := Transform(df).value;
    TransformOneRecordPerCustomer(df);
    LoadOutcome(recs, store, reachable);
    LoadStoresFirstPerCustomer(recs, store);
    Dedup.KeepFirstDropsNothingIff(recs, DocKey);
  }

  /** Inside a run two guards never fire: extraction already refused an empty table,
      so the transform's empty-table error cannot end a run, and a transformed batch
      is never empty, so the load's skip branch is never taken. */
  lemma RunEtlUnreachableGuards(cfg: Config, csvFilesOf: string -> seq<string>, readCsv: string -> Frame,
                                reachable: bool, store: Collection)
    ensures var run := RunEtl(cfg, csvFilesOf, readCsv, reachable, store);
      run.result.Failure? ==> run.result.error != EmptyFrame
    ensures var ex := Extract(cfg, csvFilesOf, readCsv);
      ex.Success? && Transform(ex.value).Success? ==> |Transform(ex.value).value| > 0
  {
    var ex := Extract(cfg, csvFilesOf, readCsv);
    if ex.Success? && Transform(ex.value).Success? {
      TransformOneRecordPerCustomer(ex.value);
    }
  }
}
