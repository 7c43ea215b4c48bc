# Customer churn ETL — a Dafny model

This project models the batch job `CustomerChurnETL` of the telecom customer-churn
project (`src/churn_ml/etl/customer_churn_etl.py`). The job reads four settings from
the environment and refuses to start if any is unset. It then takes the dataset
snapshot, insists on exactly one CSV file in it and refuses an empty table. It
cleans the table: one row per `customerID` (the first), `SeniorCitizen` relabelled
1 → "Yes" / 0 → "No", and `TotalCharges` trimmed and coerced to a number or
missing. Finally it replaces the contents of a MongoDB collection with the
resulting records, under a unique index on `customerID`.

The model is functional. A DataFrame is a `Frame`: column names plus rows of cells,
with distinct names and one cell per column. A cell is a `Value`: missing (NaN), an
exact decimal number, a string or a boolean. The document store is a `Collection`
value, and the load returns the list of commands it sent. Collaborators that do I/O
are parameters:

- the snapshot's CSV listing (`csvFilesOf`);
- the CSV reader (`readCsv`);
- the reachability of the server (`reachable`);
- the certificate-bundle path (`caFile`).

Modules, in dependency order:

- `Wrappers`: `Option` and `Result`.
- `Seqs`: subsequence order.
- `Text`: Python whitespace, `str.strip`, `", ".join` and its inverse split.
- `Numbers`: exact decimals, their normal form, and the text of a number and its parse.
- `Dedup`: generic keep-first de-duplication by a key.
- `Errors`: the job's failure causes and messages.
- `Frames`: cells, tables, records.
- `Settings`: `_validate_env`.
- `Extraction`: `extract_data`.
- `Transformation`: `transform_data`.
- `Loading`: `load_data`.
- `Pipeline`: `run_etl`.
- `Scenario`: a worked three-row example, end to end.

Behaviour of the code that is easy to miss:

- **SeniorCitizen.** `SeniorCitizen` is relabelled with a dictionary `Series.map`
  (`customer_churn_etl.py:111`). Values other than 1 and 0 become missing; they are
  not passed through.
- **Closing the client.** `client.close()` (`:166`) runs only after a successful
  insert. Every failure leaves the client open.
- **Refused records.** A refused document makes the unordered `insert_many` (`:163`)
  raise `BulkWriteError` after inserting the rest, so the count (`:164`, `:172`) is
  never returned. One refused record makes the whole load fail.
- **Empty tables.** `DataFrame.empty` (`:86`, `:104`) is also true for a table with no
  columns, so a table with no rows or no columns is refused, both at extraction and
  at the transform.
- **Missing columns.** The transform also fails when `customerID`, `SeniorCitizen` or
  `TotalCharges` is missing (pandas `KeyError`). It fails at the first of them that it
  reads.

## Model

| member | source | states |
|---|---|---|
| Settings.MissingNames | src/churn_ml/etl/customer_churn_etl.py:58-65 | a name is reported exactly when it is one of the four required settings and is absent or empty; the reported names keep the fixed check order (a subsequence of MONGODB_URL, DATA_SOURCE, MONGODB_DATABASE, MONGODB_COLLECTION) |
| Settings.Validate | src/churn_ml/etl/customer_churn_etl.py:54-69 | construction fails iff some required setting is absent or empty; the error lists exactly the unset names in check order; on success each configuration field is the non-empty environment value |
| Settings.MessageListsAllMissing | src/churn_ml/etl/customer_churn_etl.py:66-69 | the error message is the fixed prefix followed by the names joined with ", ", and splitting it back at ", " recovers every unset name, not only the first |
| Text.Join | src/churn_ml/etl/customer_churn_etl.py:68 | `", ".join` puts one separator between neighbouring names: the text is as long as the names plus the separators, begins with the first name and ends with the last |
| Text.SplitJoin | src/churn_ml/etl/customer_churn_etl.py:68 | splitting a ", "-joined list of comma-free names recovers the list |
| Errors.MessageNamesCause | src/churn_ml/etl/customer_churn_etl.py:66-68 | two of the job's `ValueError`s (unset settings `:67-68`, not one CSV `:82`, empty dataset `:87`, empty table `:105`) with the same message come from the same check |
| Errors.MessageShape | src/churn_ml/etl/customer_churn_etl.py:82 | only the unset-settings message begins with "M"; the three fixed messages of `:82`, `:87` and `:105` are 50, 26 and 35 characters long, so no two are equal |
| Extraction.Extract | src/churn_ml/etl/customer_churn_etl.py:79-87 | extraction succeeds iff the snapshot lists exactly one CSV and its table is not empty; otherwise the error is "not exactly one CSV" carrying the file count, or "empty dataset"; on success the table is the parsed file, with rows and columns |
| Text.Strip | src/churn_ml/etl/customer_churn_etl.py:117 | the stripped text is empty iff the input is all whitespace (Python's `isspace` set); otherwise it starts and ends with a non-space |
| Text.StripIdempotent | src/churn_ml/etl/customer_churn_etl.py:117 | stripping twice is stripping once |
| Text.StripSurrounded | src/churn_ml/etl/customer_churn_etl.py:117 | whitespace added on either side does not change the stripped text |
| Numbers.ParseDecimal | src/churn_ml/etl/customer_churn_etl.py:121-123 | a text has a numeric reading only if it is non-empty, starts with a sign, digit or point and continues with digits and points |
| Numbers.Normalize | src/churn_ml/etl/customer_churn_etl.py:108 | every decimal has a canonical form (no trailing fractional zero) denoting the same number |
| Numbers.SameValueIffNormal | src/churn_ml/etl/customer_churn_etl.py:108 | two decimals denote the same number iff their canonical forms are identical, so comparing by value is comparing canonical forms |
| Numbers.ParseFormat | src/churn_ml/etl/customer_churn_etl.py:116-123 | the numeric parse reads the printed text of any number back to that number: `astype(str)` then `to_numeric` keeps numbers |
| Frames.KeyOfNumbers | src/churn_ml/etl/customer_churn_etl.py:108 | two numeric cells are the same key for de-duplication iff they denote the same number (1 and 1.0 collide) |
| Frames.ToRecords | src/churn_ml/etl/customer_churn_etl.py:125 | `to_dict(orient="records")` gives one record per row, each with the table's column names in order, and looking a column up in record i gives row i's cell |
| Dedup.KeepFirst | src/churn_ml/etl/customer_churn_etl.py:108 | de-duplication never adds an element: the result is no longer than the input and every element comes from it (the full keep-first property is Dedup.KeepFirstSpec) |
| Dedup.KeepFirstSpec | src/churn_ml/etl/customer_churn_etl.py:108 | keep-first de-duplication yields pairwise distinct keys, exactly the input's keys, as many elements as distinct keys, an order-preserving subsequence of the input, each element the first input element with its key, in first-occurrence order |
| Dedup.KeepFirstIdempotent | src/churn_ml/etl/customer_churn_etl.py:108 | de-duplicating an already de-duplicated sequence changes nothing |
| Dedup.KeepFirstDropsNothingIff | src/churn_ml/etl/customer_churn_etl.py:108 | de-duplication drops nothing iff the keys are already pairwise distinct |
| Dedup.KeepFirstScan | src/churn_ml/etl/customer_churn_etl.py:108 | the one-pass scan with a set of seen keys computes the keep-first result |
| Transformation.DropDuplicates | src/churn_ml/etl/customer_churn_etl.py:108 | `drop_duplicates(subset=["customerID"], keep="first")` keeps the columns, one row per distinct customer key, each the first row with its key, in input order |
| Transformation.SeniorLabel | src/churn_ml/etl/customer_churn_etl.py:111 | a cell becomes "Yes" iff it is a number equal to 1, "No" iff it is a number equal to 0, and missing in every other case, booleans and strings included |
| Transformation.RenderReadsBack | src/churn_ml/etl/customer_churn_etl.py:116-123 | `astype(str)` keeps what `to_numeric` needs: a string cell is its own text, a number prints as text that parses back to it, and NaN ("nan") and booleans ("True", "False") print as text with no numeric reading |
| Transformation.CoerceReadable | src/churn_ml/etl/customer_churn_etl.py:116-123 | a cell whose stripped text has a numeric reading becomes that number |
| Transformation.MapColumn | src/churn_ml/etl/customer_churn_etl.py:111 | assigning a mapped column changes that column cell by cell and leaves every other cell and the row count unchanged |
| Transformation.CoerceNumeric | src/churn_ml/etl/customer_churn_etl.py:114-123 | coercion never fails: the result is a number or missing |
| Transformation.CoerceBlank | src/churn_ml/etl/customer_churn_etl.py:117-118 | a blank or whitespace-only cell becomes missing |
| Transformation.CoerceUnparseable | src/churn_ml/etl/customer_churn_etl.py:121-123 | text with no numeric reading after stripping becomes missing (`errors="coerce"`) |
| Transformation.CoerceIgnoresSurroundingSpace | src/churn_ml/etl/customer_churn_etl.py:116-117 | whitespace around the text does not change the coerced value |
| Transformation.CoerceKeepsNumbers | src/churn_ml/etl/customer_churn_etl.py:114-123 | a number survives coercion unchanged |
| Transformation.CoerceKeepsMissing | src/churn_ml/etl/customer_churn_etl.py:114-123 | a missing cell prints as "nan" and stays missing |
| Transformation.CoerceIdempotent | src/churn_ml/etl/customer_churn_etl.py:114-123 | coercing an already coerced cell changes nothing |
| Transformation.CleanCellRange | src/churn_ml/etl/customer_churn_etl.py:111-123 | cleaning maps a `SeniorCitizen` cell to "Yes", "No" or missing and a `TotalCharges` cell to a number or missing, and leaves the cell of every other column as it was |
| Transformation.Transform | src/churn_ml/etl/customer_churn_etl.py:104-125 | the transform succeeds iff the table is non-empty and has the three columns; an empty table is refused before anything else; otherwise the first missing column in reading order (customerID, SeniorCitizen, TotalCharges) is the error |
| Transformation.TransformedRows | src/churn_ml/etl/customer_churn_etl.py:108-125 | the records are the de-duplicated rows in order: each record has the table's columns, its customer key is its row's key, and each field is that row's cell after cleaning |
| Transformation.TransformOneRecordPerCustomer | src/churn_ml/etl/customer_churn_etl.py:108-125 | the records' `customerID`s are pairwise different and are exactly the input's customer keys, so there are as many records as distinct customers, and at least one |
| Transformation.TransformKeepsFirstRow | src/churn_ml/etl/customer_churn_etl.py:108-125 | each record is the first input row of its customer, with `SeniorCitizen` relabelled, `TotalCharges` coerced and every other column unchanged |
| Transformation.TransformPreservesOrder | src/churn_ml/etl/customer_churn_etl.py:108-125 | records appear in the order in which their customers first occur in the input |
| Transformation.TransformCleansColumns | src/churn_ml/etl/customer_churn_etl.py:111-123 | after the transform `SeniorCitizen` holds "Yes", "No" or missing, and `TotalCharges` a number or missing |
| Loading.InsertEach | src/churn_ml/etl/customer_churn_etl.py:163 | every document of an unordered insert is either stored or refused |
| Loading.Apply | src/churn_ml/etl/customer_churn_etl.py:158-163 | `delete_many({})` empties the collection and keeps its index; building the unique index fails iff two documents share a `customerID`; an insert only appends, with stored plus refused equal to the batch size |
| Loading.Load | src/churn_ml/etl/customer_churn_etl.py:142-166 | an empty batch returns 0 with no command sent and the collection untouched; an unreachable server fails before any change; otherwise delete, index and insert are sent in that order, and close follows iff the load succeeds |
| Loading.LoadReplays | src/churn_ml/etl/customer_churn_etl.py:158-166 | replaying the commands the load sent, from the collection it started with, gives the collection it left |
| Loading.InsertEachKeepsFirst | src/churn_ml/etl/customer_churn_etl.py:161-163 | under the unique index the unordered insert stores, in batch order, the first document of each `customerID` not already present, and refuses the rest |
| Loading.InsertEachWithoutIndex | src/churn_ml/etl/customer_churn_etl.py:163 | without the unique index every document is stored and none refused |
| Loading.LoadStoresFirstPerCustomer | src/churn_ml/etl/customer_churn_etl.py:157-163 | after a load that reached the server the collection holds exactly the first record of each customer, under the unique index, whatever it held before |
| Loading.LoadOutcome | src/churn_ml/etl/customer_churn_etl.py:161-172 | the load succeeds iff the batch is empty or the server is reached and no two records share a `customerID`; success reports the batch size; a refused write reports one refusal per record whose customer came earlier |
| Loading.LoadClosesOnlyOnSuccess | src/churn_ml/etl/customer_churn_etl.py:163-166 | the client is closed iff a non-empty batch was loaded successfully |
| Loading.LoadRepeatable | src/churn_ml/etl/customer_churn_etl.py:157-163 | loading the same batch again leaves the collection as the first load left it |
| Pipeline.RunEtl | src/churn_ml/etl/customer_churn_etl.py:185-187 | an extraction or transform failure ends the run with that error before any command reaches the store; a successful run passed both stages |
| Pipeline.RunEtlSucceedsIff | src/churn_ml/etl/customer_churn_etl.py:185-187 | a run succeeds iff the snapshot has one CSV whose table is non-empty and has the three columns, and the server is reachable: the transform's output never makes the unique index refuse a record |
| Pipeline.RunEtlStoresTransformOutput | src/churn_ml/etl/customer_churn_etl.py:185-187 | with one non-empty CSV holding the three columns and a reachable server, the run succeeds and leaves exactly the transform's records in order under the unique index; the reported count is the number of distinct customers, and the commands were delete, index, insert, close |
| Pipeline.RunEtlUnreachableGuards | src/churn_ml/etl/customer_churn_etl.py:185-187 | within a run the transform's empty-table error never fires and the batch handed to the load is never empty |
| Scenario.ExampleBatch | src/churn_ml/etl/customer_churn_etl.py:104-125 | rows (A, 1, "10.5"), (A, 0, ""), (B, 1, "bad") transform to the records (A, "Yes", 10.5) and (B, "Yes", missing) |
| Scenario.ExampleLoad | src/churn_ml/etl/customer_churn_etl.py:142-172 | loading those two records into an empty collection returns 2 and leaves both stored under the unique index |

## Left out

- Download and listing: `kagglehub.dataset_download` and the `*.csv` glob are network and filesystem I/O. Only the resulting list of file paths is modelled, as the parameter `csvFilesOf`.
- `pd.read_csv`: the parser and its type inference are a foreign library. The parsed table is the parameter `readCsv`. Only its DataFrame shape is assumed: distinct column names and one cell per column.
- Extraction.Extract: `csvFilesOf` and `readCsv` are total, so the failures they can raise are not modelled: a failed download (`customer_churn_etl.py:78`), and `EmptyDataError` or `ParserError` from `read_csv` (`:84`). In the code these end extraction with the same wrapped exception (`:92-94`).
- Numbers.ParseDecimal: reads only an optional sign followed by decimal digits with at most one point. `pd.to_numeric` also reads exponents, "inf", "nan" text and similar spellings; here they become missing.
- Floating point: numbers are exact decimals. The rounding of `float64` is not modelled.
- Frames.KeyOf: keeps booleans apart from numbers. In an object column pandas hashes `True` like `1`, so `drop_duplicates` would treat them as the same customer.
- Transformation.SeniorLabel: treats a boolean cell as having no entry in the {1, 0} map. This is a modelling choice for a cell type the CSV column does not normally hold.
- Text.IsSpace: covers the characters Python's `str.isspace` accepts. No other Unicode processing is modelled.
- Loading.InsertEach: the server handles the unordered batch in input order. MongoDB may reorder an unordered batch, so when a batch repeats a key, which copy survives is not guaranteed. Inside `run_etl` the batch never repeats a key (Pipeline.RunEtlSucceedsIff), so no result of the job depends on this.
- Connection: the pymongo client, TLS with the `certifi` bundle and the 5000 ms server-selection timeout are an external network client. Reachability is one boolean, checked at the first command. A server lost between commands is not modelled.
- Write errors: details of `BulkWriteError` are reduced to the number of refused documents. Loading.InsertEach refuses a document only for a duplicate `customerID`; other write errors, such as an oversized document or a type conflict, are not modelled.
- Loading.Apply: the index build fails only when two stored documents share a key. If the collection already had a non-unique index named `customerID_1`, `create_index` (`customer_churn_etl.py:161`) would raise `OperationFailure` after `delete_many` had emptied the collection; existing indexes other than the unique one are not modelled.
- Frames.DocKey: a document without a `customerID` field gets the same key as one whose `customerID` is NaN. The server indexes the first as null and the second as NaN, so two such documents would not collide there. Records from the transform always carry `customerID`, so `run_etl` is unaffected.
- Record mutation: the `_id` field pymongo adds to each inserted record is not modelled.
- Record order: key order inside a stored document is not modelled. Fields are compared by name.
- Exception wrapping: `CustomerChurnException`, the logging around every stage, `load_dotenv` and the `run_etl.py` entry point are diagnostics and wiring. Each stage's failure is modelled by its underlying cause (`EtlError`). Only the messages of the job's own `ValueError`s are modelled (`Errors.Message`).
- `os.getenv`: modelled as a map from names to strings. An absent name stands for `None`.
- `test_mongodb.py`: not part of this model.
