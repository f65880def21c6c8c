/**
 * The one-off upgrade of the PrimitiveEvent table to the newer layout: set up
 * a `<schema>_upgrade` shadow table and a backup copy, stream the live rows in
 * SequenceNumber order, re-encode each envelope, insert the rows into the
 * shadow table in batches of 1000 (skipping rows already there), and finally
 * swap the tables when both exist.
 */
module Upgrade {
  import opened Base
  import opened Tables
  import opened Ordering
  import opened PrimitiveEvents

  // ---------------------------------------------------------------------------
  // Envelopes and rows

  datatype EnvelopeHeader = EnvelopeHeader(key: string, value: string)

  /** The envelope layout being read. */
  datatype EnvelopeV20 = EnvelopeV20(
    assemblyQualifiedName: string,
    compressionAlgorithm: string,
    encryptionAlgorithm: string,
    event: Bytes,
    eventDate: Timestamp,
    eventId: Guid,
    eventType: string,
    headers: seq<EnvelopeHeader>,
    version: Int32)

  /** The envelope layout being written: EventDate is now RecordedAt. */
  datatype EventEnvelope = EventEnvelope(
    assemblyQualifiedName: string,
    compressionAlgorithm: string,
    encryptionAlgorithm: string,
    event: Bytes,
    recordedAt: Timestamp,
    eventId: Guid,
    eventType: string,
    headers: seq<EnvelopeHeader>,
    version: Int32)

  /** A row of the shadow table: DateRegistered is now RecordedAt. */
  datatype UpgradedRow = UpgradedRow(
    id: Guid,
    correlationId: Option<Guid>,
    eventId: Guid,
    eventTypeId: Guid,
    version: Int32,
    sequenceNumber: Option<Int64>,
    recordedAt: Timestamp,
    envelope: Bytes)

  function UpgradeEnvelope(e: EnvelopeV20): EventEnvelope {
    EventEnvelope(e.assemblyQualifiedName, e.compressionAlgorithm, e.encryptionAlgorithm, e.event,
                  e.eventDate, e.eventId, e.eventType, e.headers, e.version)
  }

  function DowngradeEnvelope(e: EventEnvelope): EnvelopeV20 {
    EnvelopeV20(e.assemblyQualifiedName, e.compressionAlgorithm, e.encryptionAlgorithm, e.event,
                e.recordedAt, e.eventId, e.eventType, e.headers, e.version)
  }

  /** The new envelope loses nothing: it carries every field of the old one, EventDate as RecordedAt. */
  lemma UpgradeEnvelopeLossless(e: EnvelopeV20)
    ensures DowngradeEnvelope(UpgradeEnvelope(e)) == e
    ensures UpgradeEnvelope(e).recordedAt == e.eventDate
  {
  }

  /** The shadow row written for a live row and its decoded envelope; `encode` is the JSON serializer. */
  function UpgradedRowOf(row: EventRow, envelope: EnvelopeV20, encode: EventEnvelope -> Bytes): UpgradedRow {
    UpgradedRow(row.id, row.correlationId, row.eventId, row.eventTypeId, row.version, row.sequenceNumber,
                row.dateRegistered, encode(UpgradeEnvelope(envelope)))
  }

  /** The inserted row keeps the live row's columns, with DateRegistered as RecordedAt and the envelope re-encoded. */
  lemma UpgradedRowCopies(row: EventRow, envelope: EnvelopeV20, encode: EventEnvelope -> Bytes)
    ensures var u := UpgradedRowOf(row, envelope, encode);
      && (u.id, u.version, u.correlationId, u.eventId, u.eventTypeId, u.sequenceNumber)
         == (row.id, row.version, row.correlationId, row.eventId, row.eventTypeId, row.sequenceNumber)
      && u.recordedAt == row.dateRegistered
      && u.envelope == encode(UpgradeEnvelope(envelope))
  {
  }

  // ---------------------------------------------------------------------------
  // Reading the live table

  function SourceKey(row: EventRow): Option<int> {
    match row.sequenceNumber
    case None => None
    case Some(n) => Some(n as int)
  }

  /** `WHERE SequenceNumber >= @From`: a NULL SequenceNumber never qualifies. */
  predicate FromSequence(from: Int64, row: EventRow) {
    row.sequenceNumber.Some? && row.sequenceNumber.value >= from
  }

  /** The reader: live rows from `from` on, `ORDER BY SequenceNumber ASC`. */
  function ReadFrom(live: seq<EventRow>, from: Int64): seq<EventRow> {
    SortBy(SourceKey, Filter((row: EventRow) => FromSequence(from, row), live))
  }

  /** Exactly the rows from `from` on are read, each as often as it is stored, in ascending order. */
  lemma ReadFromCorrect(live: seq<EventRow>, from: Int64)
    ensures multiset(ReadFrom(live, from)) == multiset(Filter((row: EventRow) => FromSequence(from, row), live))
    ensures forall row :: row in ReadFrom(live, from) <==> row in live && FromSequence(from, row)
    ensures SortedBy(SourceKey, ReadFrom(live, from))
  {
    var f := Filter((row: EventRow) => FromSequence(from, row), live);
    SortByCorrect(SourceKey, f);
    forall row ensures row in ReadFrom(live, from) <==> row in f {
      InMultiset(row, ReadFrom(live, from), f);
    }
  }

  // ---------------------------------------------------------------------------
  // Writing the shadow table

  predicate HasUpgradedKey(shadow: seq<UpgradedRow>, id: Guid, version: Int32) {
    exists i :: 0 <= i < |shadow| && shadow[i].id == id && shadow[i].version == version
  }

  ghost predicate UpgradedKeysUnique(shadow: seq<UpgradedRow>) {
    forall i, j :: 0 <= i < j < |shadow| ==> (shadow[i].id, shadow[i].version) != (shadow[j].id, shadow[j].version)
  }

  /** UpgradeEvent: `SELECT COUNT(1) ... WHERE Id = @Id AND Version = @Version`, then insert only if none. */
  function UpgradeEvent(shadow: seq<UpgradedRow>, row: EventRow, envelope: EnvelopeV20, encode: EventEnvelope -> Bytes): (r: seq<UpgradedRow>)
    ensures HasUpgradedKey(shadow, row.id, row.version) ==> r == shadow
    ensures !HasUpgradedKey(shadow, row.id, row.version) ==> r == shadow + [UpgradedRowOf(row, envelope, encode)]
    ensures HasUpgradedKey(r, row.id, row.version)
    ensures UpgradedKeysUnique(shadow) ==> UpgradedKeysUnique(r)
  {
    if HasUpgradedKey(shadow, row.id, row.version) then shadow
    else
      var r := shadow + [UpgradedRowOf(row, envelope, encode)];
      assert r[|shadow|].id == row.id && r[|shadow|].version == row.version;
      r
  }

  /** ProcessBatch: UpgradeEvent for each pair in order. */
  function ProcessBatch(shadow: seq<UpgradedRow>, batch: seq<(EventRow, EnvelopeV20)>, encode: EventEnvelope -> Bytes): seq<UpgradedRow>
    decreases |batch|
  {
    if batch == [] then shadow
    else ProcessBatch(UpgradeEvent(shadow, batch[0].0, batch[0].1, encode), batch[1..], encode)
  }

  /** Splitting the rows into batches does not change the outcome. */
  lemma {:induction false} ProcessBatchConcat(shadow: seq<UpgradedRow>, a: seq<(EventRow, EnvelopeV20)>, b: seq<(EventRow, EnvelopeV20)>, encode: EventEnvelope -> Bytes)
    ensures ProcessBatch(ProcessBatch(shadow, a, encode), b, encode) == ProcessBatch(shadow, a + b, encode)
    decreases |a|
  {
    if a != [] {
      assert (a + b)[0] == a[0] && (a + b)[1..] == a[1..] + b;
      ProcessBatchConcat(UpgradeEvent(shadow, a[0].0, a[0].1, encode), a[1..], b, encode);
    } else {
      assert a + b == b;
    }
  }

  /** Processing only appends, keeps the key unique, and leaves every processed key present. */
  lemma {:induction false} ProcessBatchSpec(shadow: seq<UpgradedRow>, batch: seq<(EventRow, EnvelopeV20)>, encode: EventEnvelope -> Bytes)
    ensures shadow <= ProcessBatch(shadow, batch, encode)
    ensures |ProcessBatch(shadow, batch, encode)| <= |shadow| + |batch|
    ensures UpgradedKeysUnique(shadow) ==> UpgradedKeysUnique(ProcessBatch(shadow, batch, encode))
    ensures forall k :: 0 <= k < |batch| ==>
      HasUpgradedKey(ProcessBatch(shadow, batch, encode), batch[k].0.id, batch[k].0.version)
    decreases |batch|
  {
    if batch != [] {
      var s' := UpgradeEvent(shadow, batch[0].0, batch[0].1, encode);
      ProcessBatchSpec(s', batch[1..], encode);
      var r := ProcessBatch(shadow, batch, encode);
      forall k | 0 <= k < |batch| ensures HasUpgradedKey(r, batch[k].0.id, batch[k].0.version) {
        if k == 0 {
          var i :| 0 <= i < |s'| && s'[i].id == batch[0].0.id && s'[i].version == batch[0].0.version;
          assert r[i] == s'[i];
        } else {
          assert batch[k] == batch[1..][k - 1];
        }
      }
    }
  }

  /** Rows whose key is already present are skipped, so the batch changes nothing. */
  lemma {:induction false} ProcessBatchPresent(shadow: seq<UpgradedRow>, batch: seq<(EventRow, EnvelopeV20)>, encode: EventEnvelope -> Bytes)
    requires forall k :: 0 <= k < |batch| ==> HasUpgradedKey(shadow, batch[k].0.id, batch[k].0.version)
    ensures ProcessBatch(shadow, batch, encode) == shadow
    decreases |batch|
  {
    if batch != [] {
      assert forall k :: 0 <= k < |batch| - 1 ==> batch[1..][k] == batch[k + 1];
      ProcessBatchPresent(shadow, batch[1..], encode);
    }
  }

  /** Re-running the upgrade over the same rows adds nothing. */
  lemma ProcessBatchIdempotent(shadow: seq<UpgradedRow>, batch: seq<(EventRow, EnvelopeV20)>, encode: EventEnvelope -> Bytes)
    ensures ProcessBatch(ProcessBatch(shadow, batch, encode), batch, encode) == ProcessBatch(shadow, batch, encode)
  {
    ProcessBatchSpec(shadow, batch, encode);
    ProcessBatchPresent(ProcessBatch(shadow, batch, encode), batch, encode);
  }

  /** The (row, envelope) pairs of rows that all decode. */
  function Pairs(rows: seq<EventRow>, decode: Bytes -> Option<EnvelopeV20>): (r: seq<(EventRow, EnvelopeV20)>)
    requires forall k :: 0 <= k < |rows| ==> decode(rows[k].envelope).Some?
    ensures |r| == |rows|
    ensures forall k :: 0 <= k < |rows| ==> r[k] == (rows[k], decode(rows[k].envelope).value)
  {
    if rows == [] then []
    else
      assert forall k :: 0 <= k < |rows| - 1 ==> rows[1..][k] == rows[k + 1];
      [(rows[0], decode(rows[0].envelope).value)] + Pairs(rows[1..], decode)
  }

  /** The first `n` rows of the reader all decode. */
  predicate AllDecode(rows: seq<EventRow>, n: nat, decode: Bytes -> Option<EnvelopeV20>)
    requires n <= |rows|
  {
    forall k :: 0 <= k < n ==> decode(rows[k].envelope).Some?
  }

  /** Row `n` is the first whose envelope does not decode. */
  predicate FailsAt(rows: seq<EventRow>, n: nat, decode: Bytes -> Option<EnvelopeV20>) {
    n < |rows| && decode(rows[n].envelope).None? && AllDecode(rows, n, decode)
  }

  /** `p` is `n` rounded down to a whole number of batches. */
  predicate WholeBatchesBefore(p: nat, n: nat) {
    p % BatchSize == 0 && p <= n < p + BatchSize
  }

  /**
   * The read stopped at row `n`, the first that does not decode, after the
   * `p` rows of the whole batches before it; those `p` rows all decode.
   */
  predicate FailedAfterBatches(rows: seq<EventRow>, n: nat, p: nat, decode: Bytes -> Option<EnvelopeV20>) {
    FailsAt(rows, n, decode) && WholeBatchesBefore(p, n) && AllDecode(rows, p, decode)
  }

  // ---------------------------------------------------------------------------
  // Preparing the database

  /** What the upgrade sees of the database; `None` is a table (or schema) that does not exist. */
  datatype UpgradeTables = UpgradeTables(
    upgradeSchema: bool,
    shadow: Option<seq<UpgradedRow>>,
    live: Option<seq<EventRow>>,
    backup: Option<seq<EventRow>>)

  /** The two maxima differ: compared with `<>`, which is not true when either is NULL. */
  predicate MaximaDiffer(live: seq<EventRow>, backup: seq<EventRow>) {
    var m := MaxSequence(live);
    var mb := MaxSequence(backup);
    m.Some? && mb.Some? && m.value != mb.value
  }

  /** Schema and shadow table are created when absent; statements run one by one, so an error keeps earlier ones. */
  function PrepareShadow(t: UpgradeTables): UpgradeTables {
    t.(upgradeSchema := true, shadow := if t.shadow.None? then Some([]) else t.shadow)
  }

  /**
   * InitialDatabaseConfigurationAsync as written: the refresh truncates the
   * backup and then runs `SELECT * INTO` against the backup table, which
   * still exists.
   */
  function InitialConfigurationAsWritten(t: UpgradeTables): (UpgradeTables, Outcome) {
    var p := PrepareShadow(t);
    if p.live.None? then (p, Failed(InvalidObjectName))
    else if p.backup.None? then (p.(backup := p.live), Done)
    else if MaximaDiffer(p.live.value, p.backup.value) then (p.(backup := Some([])), Failed(ObjectAlreadyExists))
    else (p, Done)
  }

  /** The same script with the refresh reloading the truncated backup, as evidently intended. */
  function InitialConfiguration(t: UpgradeTables): (r: (UpgradeTables, Outcome))
    ensures r.1 == Done <==> t.live.Some?
    ensures r.1 != Done ==> r.1 == Failed(InvalidObjectName)
    ensures r.0.upgradeSchema && r.0.shadow.Some? && r.0.live == t.live
    ensures t.shadow.Some? ==> r.0.shadow == t.shadow
    ensures r.1 == Done && (t.backup.None? || MaximaDiffer(t.live.value, t.backup.value)) ==> r.0.backup == t.live
    ensures r.1 == Done && t.backup.Some? && !MaximaDiffer(t.live.value, t.backup.value) ==> r.0.backup == t.backup
  {
    var p := PrepareShadow(t);
    if p.live.None? then (p, Failed(InvalidObjectName))
    else if p.backup.None? || MaximaDiffer(p.live.value, p.backup.value) then (p.(backup := p.live), Done)
    else (p, Done)
  }

  /** Running the corrected script a second time changes nothing. */
  lemma InitialConfigurationIdempotent(t: UpgradeTables)
    requires InitialConfiguration(t).1 == Done
    ensures InitialConfiguration(InitialConfiguration(t).0) == InitialConfiguration(t)
  {
  }

  /** As written, a stale backup is emptied and the upgrade stops; afterwards it is never refreshed again. */
  lemma StaleBackupLost(t: UpgradeTables)
    requires t.live.Some? && t.backup.Some? && MaximaDiffer(t.live.value, t.backup.value)
    ensures InitialConfigurationAsWritten(t) == (PrepareShadow(t).(backup := Some([])), Failed(ObjectAlreadyExists))
    ensures var after := InitialConfigurationAsWritten(t).0;
      InitialConfigurationAsWritten(after) == (after, Done) && after.backup == Some([])
    ensures InitialConfiguration(t).1 == Done && InitialConfiguration(t).0.backup == t.live
  {
    var after := InitialConfigurationAsWritten(t).0;
    assert MaxSequence([]) == None;
  }

  /** Concretely: live holds SequenceNumber 2, the backup only 1. */
  lemma StaleBackupExample()
    ensures var row1 := EventRow(1, 1, None, [], 1, 1, 0, Some(1));
      var row2 := EventRow(1, 2, None, [], 2, 1, 0, Some(2));
      var t := UpgradeTables(false, None, Some([row1, row2]), Some([row1]));
      && InitialConfigurationAsWritten(t) == (UpgradeTables(true, Some([]), Some([row1, row2]), Some([])), Failed(ObjectAlreadyExists))
      && InitialConfiguration(t) == (UpgradeTables(true, Some([]), Some([row1, row2]), Some([row1, row2])), Done)
  {
    var row1 := EventRow(1, 1, None, [], 1, 1, 0, Some(1));
    var row2 := EventRow(1, 2, None, [], 2, 1, 0, Some(2));
    assert MaxSequence([row1]) == Some(1);
    assert MaxSequence([row1, row2]) == Some(2);
  }

  /** The cutover block runs only when both the shadow table and the live table exist. */
  predicate CutoverGuard(t: UpgradeTables) {
    t.shadow.Some? && t.live.Some?
  }

  /** After a successful preparation the cutover guard holds. */
  lemma PreparedEnablesCutover(t: UpgradeTables)
    requires InitialConfiguration(t).1 == Done
    ensures CutoverGuard(InitialConfiguration(t).0)
  {
  }

  /**
   * SqlClient's rule for running a command: on a connection with a pending
   * local transaction, a command whose Transaction is not that transaction is
   * refused on the client, and none of its text reaches the server.
   */
  function RunCommand(pendingTransaction: bool, enlisted: bool): (r: Outcome)
    ensures r == Done <==> !pendingTransaction || enlisted
    ensures r != Done ==> r == Failed(TransactionNotSet)
  {
    if pendingTransaction && !enlisted then Failed(TransactionNotSet) else Done
  }

  // ---------------------------------------------------------------------------
  // The service

  const BatchSize: nat := 1000

  /** The constructor's guards: connection string and schema must not be empty. */
  datatype Settings = Settings(schema: string, schemaUpgrade: string, fromSequenceNumber: Int64)

  function Configure(connectionString: string, schema: string, fromSequenceNumber: Int64): (r: Result<Settings>)
    ensures r.Err? <==> connectionString == "" || schema == ""
    ensures r.Err? ==> r.error == ArgumentEmpty
    ensures r.Ok? ==> r.value.schemaUpgrade == schema + "_upgrade" && r.value.schema == schema
  {
    if connectionString == "" || schema == "" then Err(ArgumentEmpty)
    else Ok(Settings(schema, schema + "_upgrade", fromSequenceNumber))
  }

  class UpgradeDatabase {
    var upgradeSchema: bool
    var shadow: Option<seq<UpgradedRow>>
    var live: Option<seq<EventRow>>
    var backup: Option<seq<EventRow>>

    constructor (live: seq<EventRow>)
      ensures Snapshot() == UpgradeTables(false, None, Some(live), None)
    {
      upgradeSchema, shadow, this.live, backup := false, None, Some(live), None;
    }

    function Snapshot(): UpgradeTables
      reads this
    {
      UpgradeTables(upgradeSchema, shadow, live, backup)
    }
  }

  class UpgradePrimitiveEventService {
    const settings: Settings
    const db: UpgradeDatabase

    constructor (settings: Settings, db: UpgradeDatabase)
      ensures this.settings == settings && this.db == db
    {
      this.settings := settings;
      this.db := db;
    }

    /** InitialDatabaseConfigurationAsync as written: a stale backup is truncated and the `SELECT * INTO` then fails. */
    method InitialDatabaseConfigurationAsWritten() returns (r: Outcome)
      modifies db
      ensures (db.Snapshot(), r) == InitialConfigurationAsWritten(old(db.Snapshot()))
    {
      db.upgradeSchema := true;
      if db.shadow.None? {
        db.shadow := Some([]);
      }
      if db.live.None? {
        return Failed(InvalidObjectName);
      }
      if db.backup.None? {
        db.backup := db.live;
      } else if MaximaDiffer(db.live.value, db.backup.value) {
        db.backup := Some([]);
        return Failed(ObjectAlreadyExists);
      }
      r := Done;
    }

    /** InitialDatabaseConfigurationAsync, corrected: the refresh reloads the truncated backup. */
    method InitialDatabaseConfiguration() returns (r: Outcome)
      modifies db
      ensures (db.Snapshot(), r) == InitialConfiguration(old(db.Snapshot()))
    {
      db.upgradeSchema := true;
      if db.shadow.None? {
        db.shadow := Some([]);
      }
      if db.live.None? {
        return Failed(InvalidObjectName);
      }
      if db.backup.None? || MaximaDiffer(db.live.value, db.backup.value) {
        db.backup := db.live;
      }
      r := Done;
    }

    /** UpgradeEvent: count the rows with the event's (Id, Version), and insert the upgraded row if there are none. */
    method UpgradeEventInto(row: EventRow, envelope: EnvelopeV20, encode: EventEnvelope -> Bytes)
      requires db.shadow.Some?
      modifies db`shadow
      ensures db.shadow == Some(UpgradeEvent(old(db.shadow.value), row, envelope, encode))
    {
      var present := HasUpgradedKey(db.shadow.value, row.id, row.version);
      if !present {
        db.shadow := Some(db.shadow.value + [UpgradedRowOf(row, envelope, encode)]);
      }
    }

    /** ProcessBatch: UpgradeEvent for each pair of the batch, in order. */
    method ProcessBatchInto(batch: seq<(EventRow, EnvelopeV20)>, encode: EventEnvelope -> Bytes)
      requires db.shadow.Some?
      modifies db`shadow
      ensures db.shadow == Some(ProcessBatch(old(db.shadow.value), batch, encode))
    {
      var j := 0;
      while j < |batch|
        invariant 0 <= j <= |batch|
        invariant db.shadow.Some?
        invariant ProcessBatch(db.shadow.value, batch[j..], encode) == ProcessBatch(old(db.shadow.value), batch, encode)
      {
        assert batch[j..][0] == batch[j] && batch[j..][1..] == batch[j + 1..];
        UpgradeEventInto(batch[j].0, batch[j].1, encode);
        j := j + 1;
      }
    }

    /** Processes a full or final batch after the rows already processed. */
    method FlushInto(ghost shadow0: seq<UpgradedRow>, ghost done: seq<(EventRow, EnvelopeV20)>, batch: seq<(EventRow, EnvelopeV20)>,
                     ghost reader: seq<EventRow>, decode: Bytes -> Option<EnvelopeV20>, encode: EventEnvelope -> Bytes)
      requires db.shadow == Some(ProcessBatch(shadow0, done, encode))
      requires BatchOf(done, reader, 0, decode) && BatchOf(batch, reader, |done|, decode)
      modifies db`shadow
      ensures db.shadow == Some(ProcessBatch(shadow0, done + batch, encode))
      ensures BatchOf(done + batch, reader, 0, decode)
    {
      Flush(shadow0, done, batch, reader, decode, encode);
      ProcessBatchInto(batch, encode);
    }

    /**
     * The read loop: decode each row's envelope, collect the pairs, and
     * process a batch as soon as it holds 1000 rows, then the remainder.
     * Returns the processed count, or the decode failure; on a failure the
     * batches already processed stay in the shadow table and the partial
     * batch is dropped.
     */
    method Stream(decode: Bytes -> Option<EnvelopeV20>, encode: EventEnvelope -> Bytes) returns (r: Result<int>)
      requires db.live.Some? && db.shadow.Some?
      modifies db`shadow
      ensures var reader := ReadFrom(old(db.live.value), settings.fromSequenceNumber);
        && db.shadow.Some?
        && (r.Ok? ==> && AllDecode(reader, |reader|, decode)
                      && r.value == |reader|
                      && db.shadow.value == ProcessBatch(old(db.shadow.value), Pairs(reader, decode), encode))
        && (r.Err? ==> && r.error == EnvelopeDecodeFailure
                       && exists n: nat, p: nat :: FailedAfterBatches(reader, n, p, decode)
                            && db.shadow.value == ProcessBatch(old(db.shadow.value), Pairs(reader[..p], decode), encode))
    {
      var reader := ReadFrom(db.live.value, settings.fromSequenceNumber);
      ghost var shadow0 := db.shadow.value;
      var failed, batch, processedCount, done := ReadBatches(reader, decode, encode);
      BatchOfPairs(done, reader, decode);
      if failed {
        assert FailedAfterBatches(reader, processedCount + |batch|, processedCount, decode);
        return Err(EnvelopeDecodeFailure);
      }
      if |batch| > 0 {
        FlushInto(shadow0, done, batch, reader, decode, encode);
        done := done + batch;
        processedCount := processedCount + |batch|;
        BatchOfPairs(done, reader, decode);
      }
      assert reader[..processedCount] == reader;
      r := Ok(processedCount);
    }

    /**
     * The loop over the reader: the whole batches of 1000 decoded rows are
     * processed as they fill; returns the partial batch and the number of
     * rows processed, or stops at the first row that does not decode.
     */
    method ReadBatches(reader: seq<EventRow>, decode: Bytes -> Option<EnvelopeV20>, encode: EventEnvelope -> Bytes)
      returns (failed: bool, batch: seq<(EventRow, EnvelopeV20)>, processedCount: nat, ghost done: seq<(EventRow, EnvelopeV20)>)
      requires db.shadow.Some?
      modifies db`shadow
      ensures |done| == processedCount && processedCount % BatchSize == 0 && |batch| < BatchSize
      ensures BatchOf(done, reader, 0, decode) && BatchOf(batch, reader, processedCount, decode)
      ensures db.shadow == Some(ProcessBatch(old(db.shadow.value), done, encode))
      ensures failed ==> FailsAt(reader, processedCount + |batch|, decode)
      ensures !failed ==> processedCount + |batch| == |reader|
    {
      ghost var shadow0 := db.shadow.value;
      done := [];
      batch := [];
      processedCount := 0;
      var i := 0;
      while i < |reader|
        invariant 0 <= i <= |reader|
        invariant processedCount + |batch| == i && processedCount % BatchSize == 0 && |batch| < BatchSize
        invariant |done| == processedCount && BatchOf(done, reader, 0, decode)
        invariant BatchOf(batch, reader, processedCount, decode)
        invariant db.shadow == Some(ProcessBatch(shadow0, done, encode))
      {
        var envelope := decode(reader[i].envelope);
        if envelope.None? {
          BatchOfDecodes(done, batch, reader, decode);
          return true, batch, processedCount, done;
        }
        batch, processedCount, done := Accept(shadow0, done, batch, processedCount, reader, envelope.value, decode, encode);
        i := i + 1;
      }
      failed := false;
    }

    /** Adds row `processedCount + |batch|` to the batch, and processes the batch once it holds 1000 rows. */
    method Accept(ghost shadow0: seq<UpgradedRow>, ghost done: seq<(EventRow, EnvelopeV20)>, batch: seq<(EventRow, EnvelopeV20)>,
                  processedCount: nat, reader: seq<EventRow>, envelope: EnvelopeV20,
                  decode: Bytes -> Option<EnvelopeV20>, encode: EventEnvelope -> Bytes)
      returns (batch': seq<(EventRow, EnvelopeV20)>, processedCount': nat, ghost done': seq<(EventRow, EnvelopeV20)>)
      requires processedCount + |batch| < |reader| && processedCount % BatchSize == 0 && |batch| < BatchSize
      requires |done| == processedCount && BatchOf(done, reader, 0, decode) && BatchOf(batch, reader, processedCount, decode)
      requires db.shadow == Some(ProcessBatch(shadow0, done, encode))
      requires decode(reader[processedCount + |batch|].envelope) == Some(envelope)
      modifies db`shadow
      ensures processedCount' + |batch'| == processedCount + |batch| + 1 && processedCount' % BatchSize == 0 && |batch'| < BatchSize
      ensures |done'| == processedCount' && BatchOf(done', reader, 0, decode) && BatchOf(batch', reader, processedCount', decode)
      ensures db.shadow == Some(ProcessBatch(shadow0, done', encode))
    {
      var row := reader[processedCount + |batch|];
      BatchOfSnoc(batch, reader, processedCount, decode, row, envelope);
      batch' := batch + [(row, envelope)];
      processedCount' := processedCount;
      done' := done;
      if |batch'| >= BatchSize {
        FlushInto(shadow0, done, batch', reader, decode, encode);
        done' := done + batch';
        WholeBatch(processedCount);
        processedCount' := processedCount + BatchSize;
        batch' := [];
      }
    }

    /** A count of whole batches stays one after one more batch. */
    static lemma WholeBatch(p: nat)
      requires p % BatchSize == 0
      ensures (p + BatchSize) % BatchSize == 0
    {
    }

    /** `batch` holds the decoded rows of the reader from `lo` on, in order. */
    static ghost predicate BatchOf(batch: seq<(EventRow, EnvelopeV20)>, reader: seq<EventRow>, lo: nat, decode: Bytes -> Option<EnvelopeV20>) {
      && lo + |batch| <= |reader|
      && forall k :: 0 <= k < |batch| ==>
           decode(reader[lo + k].envelope).Some? && batch[k] == (reader[lo + k], decode(reader[lo + k].envelope).value)
    }

    static lemma BatchOfSnoc(batch: seq<(EventRow, EnvelopeV20)>, reader: seq<EventRow>, lo: nat, decode: Bytes -> Option<EnvelopeV20>,
                             row: EventRow, envelope: EnvelopeV20)
      requires BatchOf(batch, reader, lo, decode) && lo + |batch| < |reader|
      requires row == reader[lo + |batch|] && decode(row.envelope) == Some(envelope)
      ensures BatchOf(batch + [(row, envelope)], reader, lo, decode)
    {
      var b := batch + [(row, envelope)];
      forall k | 0 <= k < |b|
        ensures decode(reader[lo + k].envelope).Some? && b[k] == (reader[lo + k], decode(reader[lo + k].envelope).value)
      {
        if k < |batch| {
          var x := batch[k];
          assert b[k] == x;
        } else {
          assert k == |batch|;
          assert b[k] == (row, envelope);
        }
      }
    }

    /** The decoded rows from the start are the pairs of that prefix. */
    static lemma BatchOfPairs(done: seq<(EventRow, EnvelopeV20)>, reader: seq<EventRow>, decode: Bytes -> Option<EnvelopeV20>)
      requires BatchOf(done, reader, 0, decode)
      ensures AllDecode(reader, |done|, decode)
      ensures done == Pairs(reader[..|done|], decode)
    {
      forall k | 0 <= k < |done|
        ensures decode(reader[k].envelope).Some? && done[k] == (reader[k], decode(reader[k].envelope).value)
      {
        var d := done[k];
        assert decode(reader[0 + k].envelope).Some? && d == (reader[0 + k], decode(reader[0 + k].envelope).value);
      }
      var p := Pairs(reader[..|done|], decode);
      assert forall k :: 0 <= k < |done| ==> done[k] == p[k];
    }

    /** Every row before the batch's end decodes. */
    static lemma BatchOfDecodes(done: seq<(EventRow, EnvelopeV20)>, batch: seq<(EventRow, EnvelopeV20)>, reader: seq<EventRow>,
                                decode: Bytes -> Option<EnvelopeV20>)
      requires BatchOf(done, reader, 0, decode) && BatchOf(batch, reader, |done|, decode)
      ensures AllDecode(reader, |done| + |batch|, decode)
    {
      forall k | 0 <= k < |done| + |batch| ensures decode(reader[k].envelope).Some? {
        if k < |done| {
          assert done[k].0 == reader[0 + k];
        } else {
          assert batch[k - |done|].0 == reader[|done| + (k - |done|)];
        }
      }
    }

    /** The rows from the start followed by the next batch are the rows from the start. */
    static lemma BatchOfAppend(done: seq<(EventRow, EnvelopeV20)>, batch: seq<(EventRow, EnvelopeV20)>,
                               reader: seq<EventRow>, decode: Bytes -> Option<EnvelopeV20>)
      requires BatchOf(done, reader, 0, decode) && BatchOf(batch, reader, |done|, decode)
      ensures BatchOf(done + batch, reader, 0, decode)
    {
      var all := done + batch;
      forall k | 0 <= k < |all|
        ensures decode(reader[k].envelope).Some? && all[k] == (reader[k], decode(reader[k].envelope).value)
      {
        if k < |done| {
          var d := done[k];
          assert all[k] == d;
        } else {
          var j := k - |done|;
          var b := batch[j];
          assert all[k] == b;
          assert |done| + j == k;
        }
      }
    }

    /** Processing a batch after the rows before it is processing both, and together they are the rows from the start. */
    static lemma Flush(shadow0: seq<UpgradedRow>, done: seq<(EventRow, EnvelopeV20)>, batch: seq<(EventRow, EnvelopeV20)>,
                       reader: seq<EventRow>, decode: Bytes -> Option<EnvelopeV20>, encode: EventEnvelope -> Bytes)
      requires BatchOf(done, reader, 0, decode) && BatchOf(batch, reader, |done|, decode)
      ensures BatchOf(done + batch, reader, 0, decode)
      ensures ProcessBatch(ProcessBatch(shadow0, done, encode), batch, encode) == ProcessBatch(shadow0, done + batch, encode)
    {
      ProcessBatchConcat(shadow0, done, batch, encode);
      BatchOfAppend(done, batch, reader, decode);
    }

    /**
     * CompletedDatabaseConfigurationAsync, run on the connection whose
     * transaction ExecuteAsync has begun; `enlisted` is whether the command
     * carries that transaction. The drop/transfer block runs only when the
     * command is accepted and both tables exist.
     */
    method CompletedDatabaseConfiguration(enlisted: bool) returns (r: Outcome, cutover: bool)
      ensures r == Done <==> enlisted
      ensures r != Done ==> r == Failed(TransactionNotSet)
      ensures cutover <==> enlisted && CutoverGuard(db.Snapshot())
    {
      r := RunCommand(true, enlisted);
      cutover := r == Done && db.shadow.Some? && db.live.Some?;
    }

    /** ExecuteAsync corrected: the corrected preparation, then the stream, then the completion command enlisted in the transaction. */
    method Execute(decode: Bytes -> Option<EnvelopeV20>, encode: EventEnvelope -> Bytes) returns (r: Result<int>, cutover: bool)
      modifies db
      ensures old(db.live).None? ==> r == Err(InvalidObjectName) && !cutover
      ensures r.Ok? ==> cutover && old(db.live).Some? && db.live == old(db.live)
      ensures r.Ok? ==> var reader := ReadFrom(old(db.live.value), settings.fromSequenceNumber);
        && r.value == |reader|
        && (forall k :: 0 <= k < |reader| ==> decode(reader[k].envelope).Some?)
        && db.shadow.Some?
        && db.shadow.value == ProcessBatch(InitialConfiguration(old(db.Snapshot())).0.shadow.value, Pairs(reader, decode), encode)
      ensures var prepared := InitialConfiguration(old(db.Snapshot())).0;
        (db.upgradeSchema, db.live, db.backup) == (prepared.upgradeSchema, prepared.live, prepared.backup)
      ensures old(db.live).None? ==> db.Snapshot() == InitialConfiguration(old(db.Snapshot())).0
      ensures old(db.live).Some? ==> var reader := ReadFrom(old(db.live.value), settings.fromSequenceNumber);
        var shadow0 := InitialConfiguration(old(db.Snapshot())).0.shadow.value;
        && db.shadow.Some?
        && (AllDecode(reader, |reader|, decode) ==> r == Ok(|reader|) && cutover)
        && (!AllDecode(reader, |reader|, decode) ==>
              && r == Err(EnvelopeDecodeFailure) && !cutover
              && exists n: nat, p: nat :: FailedAfterBatches(reader, n, p, decode)
                   && db.shadow.value == ProcessBatch(shadow0, Pairs(reader[..p], decode), encode))
    {
      cutover := false;
      var prepared := InitialDatabaseConfiguration();
      if prepared.Failed? {
        return Err(prepared.error), false;
      }
      r := Stream(decode, encode);
      if r.Err? {
        return;
      }
      var completed;
      completed, cutover := CompletedDatabaseConfiguration(true);
    }

    /**
     * ExecuteAsync as written: the as-written preparation runs first, so a
     * stale backup is emptied and the run stops with error 2714 before any
     * row is read. Otherwise the rows are streamed, but the completion
     * command is created on the connection after its transaction has begun
     * and is never given that transaction, so SqlClient refuses it. No run
     * succeeds, and the cutover is never reached.
     */
    method ExecuteAsWritten(decode: Bytes -> Option<EnvelopeV20>, encode: EventEnvelope -> Bytes) returns (r: Result<int>, cutover: bool)
      modifies db
      ensures r.Err? && !cutover
      ensures var prepared := InitialConfigurationAsWritten(old(db.Snapshot())).0;
        (db.upgradeSchema, db.live, db.backup) == (prepared.upgradeSchema, prepared.live, prepared.backup)
      ensures old(db.live).None? ==> r == Err(InvalidObjectName) && db.Snapshot() == InitialConfigurationAsWritten(old(db.Snapshot())).0
      ensures old(db.live).Some? && old(db.backup).Some? && MaximaDiffer(old(db.live.value), old(db.backup.value)) ==>
        && r == Err(ObjectAlreadyExists)
        && db.Snapshot() == InitialConfigurationAsWritten(old(db.Snapshot())).0
        && db.backup == Some([])
      ensures InitialConfigurationAsWritten(old(db.Snapshot())).1 == Done ==>
        var reader := ReadFrom(old(db.live.value), settings.fromSequenceNumber);
        var shadow0 := InitialConfigurationAsWritten(old(db.Snapshot())).0.shadow.value;
        && db.shadow.Some?
        && (AllDecode(reader, |reader|, decode) ==>
              && r == Err(TransactionNotSet)
              && db.shadow.value == ProcessBatch(shadow0, Pairs(reader, decode), encode))
        && (!AllDecode(reader, |reader|, decode) ==>
              && r == Err(EnvelopeDecodeFailure)
              && exists n: nat, p: nat :: FailedAfterBatches(reader, n, p, decode)
                   && db.shadow.value == ProcessBatch(shadow0, Pairs(reader[..p], decode), encode))
    {
      cutover := false;
      var prepared := InitialDatabaseConfigurationAsWritten();
      if prepared.Failed? {
        return Err(prepared.error), false;
      }
      var streamed := Stream(decode, encode);
      if streamed.Err? {
        return streamed, false;
      }
      var completed;
      completed, cutover := CompletedDatabaseConfiguration(false);
      r := Err(completed.error);
    }
  }
}
