/** `load_data`: the records replace the contents of the target collection, under a
    unique index on `customerID`, by one unordered bulk insert. The document store
    is modelled as a value; the commands the job sends it are logged in order. */
module Loading {
  import opened Wrappers
  import opened Frames
  import opened Errors
  import Dedup

  /** The target collection: its documents in insertion order, and whether the
      unique index on `customerID` exists. */
  datatype Collection = Collection(docs: seq<Record>, uniqueIndex: bool)

  /** A command the job sends to the document store. */
  datatype StoreOp =
    | DeleteAll
    | CreateUniqueIndex
    | InsertUnordered(batch: seq<Record>)
    | Close

  /** What one command did: the collection after it, how many documents it added,
      and how many write errors the server reported. */
  datatype Effect = Effect(after: Collection, inserted: nat, errors: nat)

  /** The outcome of `load_data`: what it returned or raised, the commands it sent,
      and the collection it left behind. */
  datatype LoadRun = LoadRun(result: Result<nat, EtlError>, ops: seq<StoreOp>, store: Collection)

  /** The identity the unique index compares: the document's `customerID`. */
  function IndexKeys(docs: seq<Record>): set<Value> {
    Dedup.Keys(docs, DocKey)
  }

  /** The server's unordered insert, one document at a time: under a unique index a
      document whose key is already present is refused and the rest still go in;
      without one every document is stored. Returns the documents added and the
      number refused. */
  function InsertEach(docs: seq<Record>, unique: bool, batch: seq<Record>): (r: (seq<Record>, nat))
    ensures |r.0| + r.1 == |batch|
    decreases |batch|
  {
    if |batch| == 0 then ([], 0)
    else if unique && DocKey(batch[0]) in IndexKeys(docs) then
      var rest := InsertEach(docs, unique, batch[1..]);
      (rest.0, rest.1 + 1)
    else
      var rest := InsertEach(docs + [batch[0]], unique, batch[1..]);
      ([batch[0]] + rest.0, rest.1)
  }

  /** One command against the collection. `delete_many({})` keeps the indexes;
      building a unique index fails with one error while two documents share a key. */
  function Apply(c: Collection, op: StoreOp): (e: Effect)
    ensures op.DeleteAll? ==> e.after.docs == [] && e.after.uniqueIndex == c.uniqueIndex && e.errors == 0
    ensures op.CreateUniqueIndex? ==>
      (e.errors == 0 <==> Dedup.DistinctKeys(c.docs, DocKey))
      && e.after.docs == c.docs
      && e.after.uniqueIndex == (c.uniqueIndex || e.errors == 0)
    ensures op.Close? ==> e.after == c && e.errors == 0
    ensures op.InsertUnordered? ==>
      && e.after.uniqueIndex == c.uniqueIndex
      && |e.after.docs| == |c.docs| + e.inserted
      && e.after.docs[..|c.docs|] == c.docs
      && e.inserted + e.errors == |op.batch|
  {
    match op
    case DeleteAll => Effect(c.(docs := []), 0, 0)
    case CreateUniqueIndex =>
      if Dedup.DistinctKeys(c.docs, DocKey) then Effect(c.(uniqueIndex := true), 0, 0)
      else Effect(c, 0, 1)
    case InsertUnordered(batch) =>
      var (added, refused) := InsertEach(c.docs, c.uniqueIndex, batch);
      Effect(c.(docs := c.docs + added), |added|, refused)
    case Close => Effect(c, 0, 0)
  }

  /** The collection after a sequence of commands. */
  function Replay(c: Collection, ops: seq<StoreOp>): Collection
    decreases |ops|
  {
    if |ops| == 0 then c else Replay(Apply(c, ops[0]).after, ops[1..])
  }

  /** `load_data(records)`. An empty batch returns 0 without touching the store. An
      unreachable server fails the first command, `delete_many`, after the
      five-second server-selection timeout, before anything changed. Otherwise the
      collection is emptied, indexed and bulk-inserted; any refused document makes
      the insert raise, so the count is returned, and the client closed, only when
      every record went in. */
  function Load(batch: seq<Record>, store: Collection, reachable: bool): (run: LoadRun)
    ensures |batch| == 0 ==> run == LoadRun(Success(0), [], store)
    ensures |batch| > 0 && !reachable ==> run == LoadRun(Failure(ConnectionFailed), [], store)
    ensures |batch| > 0 && reachable ==>
      && |run.ops| >= 3 && run.ops[..3] == [DeleteAll, CreateUniqueIndex, InsertUnordered(batch)]
      && (run.result.Success? <==> run.ops == [DeleteAll, CreateUniqueIndex, InsertUnordered(batch), Close])
      && (run.result.Failure? ==> run.ops == [DeleteAll, CreateUniqueIndex, InsertUnordered(batch)])
    ensures run.result.Success? || run.result.error.ConnectionFailed? || run.result.error.WriteRejected?
  {
    if |batch| == 0 then LoadRun(Success(0), [], store)
    else if !reachable then LoadRun(Failure(ConnectionFailed), [], store)
    else
      var cleared := Apply(store, DeleteAll);
      var indexed := Apply(cleared.after, CreateUniqueIndex);
      // The collection was just emptied, so no two documents share a key and the
      // unique index builds; an existing index of another kind is not modelled.
      assert indexed.errors == 0;
      var written := Apply(indexed.after, InsertUnordered(batch));
      var sent := [DeleteAll, CreateUniqueIndex, InsertUnordered(batch)];
      if written.errors > 0 then
        LoadRun(Failure(WriteRejected(written.errors)), sent, written.after)
      else
        LoadRun(Success(written.inserted), sent + [Close], written.after)
  }

  /** The commands the load logs, replayed from the collection it started with,
      produce the collection it leaves: the log is a faithful account of the writes. */
  lemma LoadReplays(batch: seq<Record>, store: Collection, reachable: bool)
    ensures var run := Load(batch, store, reachable); Replay(store, run.ops) == run.store
  {
    var run := Load(batch, store, reachable);
    if |batch| > 0 && reachable {
      var cleared := Apply(store, DeleteAll).after;
      var indexed := Apply(cleared, CreateUniqueIndex).after;
      var written := Apply(indexed, InsertUnordered(batch)).after;
      var ops := run.ops;
      assert ops[0] == DeleteAll && ops[1] == CreateUniqueIndex && ops[2] == InsertUnordered(batch);
      assert ops[1..][1..][1..] == ops[3..];
      assert Replay(store, ops) == Replay(cleared, ops[1..]);
      assert Replay(cleared, ops[1..]) == Replay(indexed, ops[1..][1..]);
      assert Replay(indexed, ops[1..][1..]) == Replay(written, ops[3..]);
      assert Replay(written, ops[3..]) == written by {
        if |ops| > 3 {
          assert ops[3..] == [Close];
          assert Replay(written, ops[3..]) == Replay(written, []);
        }
      }
    }
  }

  /** Under the unique index the unordered insert keeps, of each key not yet in the
      collection, the first document carrying it, and refuses every other one. */
  lemma {:induction false} InsertEachKeepsFirst(docs: seq<Record>, batch: seq<Record>)
    ensures InsertEach(docs, true, batch).0 == Dedup.KeepFirstFrom(batch, DocKey, IndexKeys(docs))
    decreases |batch|
  {
    if |batch| > 0 {
      var k := DocKey(batch[0]);
      if k in IndexKeys(docs) {
        InsertEachKeepsFirst(docs, batch[1..]);
      } else {
        InsertEachKeepsFirst(docs + [batch[0]], batch[1..]);
        Dedup.KeysConcat(docs, [batch[0]], DocKey);
        assert Dedup.Keys([batch[0]], DocKey) == {k} by {
          assert [batch[0]][1..] == [];
        }
      }
    }
  }

  /** Without a unique index every document is stored and none refused. */
  lemma {:induction false} InsertEachWithoutIndex(docs: seq<Record>, batch: seq<Record>)
    ensures InsertEach(docs, false, batch) == (batch, 0)
    decreases |batch|
  {
    if |batch| > 0 {
      InsertEachWithoutIndex(docs + [batch[0]], batch[1..]);
      assert batch == [batch[0]] + batch[1..];
    }
  }

  /** After a load that reached the server the collection holds exactly the first
      record of each customer, in batch order, under the unique index, whatever it
      held before: the delete-then-insert replaces rather than accumulates. */
  lemma LoadStoresFirstPerCustomer(batch: seq<Record>, store: Collection)
    requires |batch| > 0
    ensures Load(batch, store, true).store == Collection(Dedup.KeepFirst(batch, DocKey), true)
  {
    InsertEachKeepsFirst([], batch);
  }

  /** The load succeeds exactly when the batch is empty or the server is reached and
      no two records share a `customerID`. Success reports every record inserted;
      failure on write reports one refusal per record whose customer came earlier. */
  lemma LoadOutcome(batch: seq<Record>, store: Collection, reachable: bool)
    ensures var run := Load(batch, store, reachable);
      && (run.result.Success? <==> |batch| == 0 || (reachable && Dedup.DistinctKeys(batch, DocKey)))
      && (run.result.Success? ==> run.result.value == |batch|)
      && (run.result.Failure? && run.result.error.WriteRejected? ==>
            run.result.error.rejected == |batch| - |IndexKeys(batch)| > 0)
  {
    if |batch| > 0 && reachable {
      InsertEachKeepsFirst([], batch);
      Dedup.KeepFirstDropsNothingIff(batch, DocKey);
      Dedup.KeepFirstSpec(batch, DocKey);
    }
  }

  /** The client is closed exactly when a non-empty batch was loaded successfully;
      every failure after connecting leaves it open. */
  lemma LoadClosesOnlyOnSuccess(batch: seq<Record>, store: Collection, reachable: bool)
    ensures var run := Load(batch, store, reachable);
      Close in run.ops <==> |batch| > 0 && run.result.Success?
  {
    var run := Load(batch, store, reachable);
    if |batch| > 0 && reachable && run.result.Failure? {
      assert forall i :: 0 <= i < |run.ops| ==> run.ops[i] != Close;
    }
  }

  /** Loading the same batch again leaves the collection as the first load did. */
  lemma LoadRepeatable(batch: seq<Record>, store: Collection, reachable: bool)
    ensures var once := Load(batch, store, reachable).store;
      Load(batch, once, reachable).store == once
  {
    if |batch| > 0 && reachable {
      LoadStoresFirstPerCustomer(batch, store);
      LoadStoresFirstPerCustomer(batch, Load(batch, store, reachable).store);
    }
  }
}
