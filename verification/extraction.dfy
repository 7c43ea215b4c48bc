/** `extract_data`: fetch the dataset snapshot, insist on exactly one CSV file in
    it, parse that file, and refuse an empty result. */
module Extraction {
  import opened Wrappers
  import opened Errors
  import opened Frames
  import opened Settings

  /** `csvFilesOf(source)` is the list of `*.csv` paths in the snapshot directory
      the dataset host returns for `source`; `readCsv(path)` is the parsed file.
      Both are collaborators outside the model. */
  function Extract(cfg: Config, csvFilesOf: string -> seq<string>, readCsv: string -> Frame)
    : (r: Result<Frame, EtlError>)
    ensures var files := csvFilesOf(cfg.dataSource);
      r.Success? <==> |files| == 1 && !IsEmpty(readCsv(files[0]))
    ensures var files := csvFilesOf(cfg.dataSource);
      |files| != 1 ==> r == Failure(NotExactlyOneCsv(|files|))
    ensures var files := csvFilesOf(cfg.dataSource);
      |files| == 1 && IsEmpty(readCsv(files[0])) ==> r == Failure(EmptyDataset)
    ensures var files := csvFilesOf(cfg.dataSource);
      r.Success? ==> r.value == readCsv(files[0]) && |r.value.rows| > 0 && |r.value.columns| > 0
  {
    var files := csvFilesOf(cfg.dataSource);
    if |files| != 1 then Failure(NotExactlyOneCsv(|files|))
    else
      var table := readCsv(files[0]);
      if IsEmpty(table) then Failure(EmptyDataset) else Success(table)
  }
}
