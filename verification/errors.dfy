/** The failures each stage of the job can raise. The job wraps every one of them
    in the same project exception, adding a source location and a log line; only
    the underlying cause is modelled here. */
module Errors {
  import Text

  datatype EtlError =
    /** The configuration check: these required settings are unset or empty, in check order. */
    | MissingEnvironment(names: seq<string>)
    /** The snapshot directory does not hold exactly one `*.csv` file. */
    | NotExactlyOneCsv(found: nat)
    /** The parsed dataset has no rows or no columns. */
    | EmptyDataset
    /** The transform was given an empty table. */
    | EmptyFrame
    /** The transform indexed a column the table does not have (pandas `KeyError`). */
    | MissingColumn(column: string)
    /** The document store could not be reached within the server-selection timeout. */
    | ConnectionFailed
    /** The unordered bulk insert was refused for this many records (pymongo `BulkWriteError`). */
    | WriteRejected(rejected: nat)

  /** The errors whose message text the job writes itself (its `ValueError`s). */
  predicate RaisedByJob(e: EtlError) {
    e.MissingEnvironment? || e.NotExactlyOneCsv? || e.EmptyDataset? || e.EmptyFrame?
  }

  const MissingEnvironmentPrefix := "Missing required environment variables: "
  const NotOneCsvMessage := "Expected exactly one CSV file" + " in dataset directory"
  const EmptyDatasetMessage := "Extracted dataset is empty"
  const EmptyFrameMessage := "Cannot transform an empty DataFrame"

  /** The message of a `ValueError` the job raises. */
  function Message(e: EtlError): string
    requires RaisedByJob(e)
  {
    match e
    case MissingEnvironment(names) => MissingEnvironmentPrefix + Text.Join(names, ", ")
    case NotExactlyOneCsv(_) => NotOneCsvMessage
    case EmptyDataset => EmptyDatasetMessage
    case EmptyFrame => EmptyFrameMessage
  }

  /** The message tells which check failed: two of the job's errors with the same
      message come from the same check. */
  lemma MessageNamesCause(e1: EtlError, e2: EtlError)
    requires RaisedByJob(e1) && RaisedByJob(e2) && Message(e1) == Message(e2)
    ensures e1.MissingEnvironment? <==> e2.MissingEnvironment?
    ensures e1.NotExactlyOneCsv? <==> e2.NotExactlyOneCsv?
    ensures e1.EmptyDataset? <==> e2.EmptyDataset?
    ensures e1.EmptyFrame? <==> e2.EmptyFrame?
  {
    MessageShape(e1);
    MessageShape(e2);
  }

  /** Only the configuration message starts with `M`; the three fixed messages
      differ in length. */
  lemma MessageShape(e: EtlError)
    requires RaisedByJob(e)
    ensures |Message(e)| > 0
    ensures e.MissingEnvironment? <==> Message(e)[0] == 'M'
    ensures e.NotExactlyOneCsv? ==> |Message(e)| == 50
    ensures e.EmptyDataset? ==> |Message(e)| == 26
    ensures e.EmptyFrame? ==> |Message(e)| == 35
  {
    match e
    case MissingEnvironment(names) =>
      assert Message(e)[0] == MissingEnvironmentPrefix[0];
    case NotExactlyOneCsv(_) =>
      assert Message(e)[0] == "Expected exactly one CSV file"[0];
    case EmptyDataset =>
    case EmptyFrame =>
  }
}
