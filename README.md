# Shuttle.Recall SQL Server storage, modelled in Dafny

This project models the SQL Server event store used by Shuttle.Recall. Almost everything the
store does is written as T-SQL statements. The model gives each statement its relational effect on
table values. A repository whose statements change tables is a class holding the `Database`
object. Its methods apply the statements, and each method is tied to a specification function
whose properties are proved as lemmas.

What is modelled:

- **IdKey index** (`idkeys.dfy`, module `IdKeys`). The `IdKey` table is a map from `UniqueKey` to
  `Id`. It supports add with a primary-key check, contains by key and by id, find, rekey, remove by
  key and remove by id. The fixture's call sequence is replayed as `FixtureScenario`.
- **Event-type interning** (`eventtypes.dfy`, module `EventTypes`). A cache keyed by the
  lower-cased type name sits in front of an insert-if-absent-then-select on the type table. The
  semaphore is a `lockHeld` flag.
- **Primitive event store** (`primitiveevents.dfy`, module `PrimitiveEvents`). The
  `PrimitiveEvent` table is keyed by (Id, Version). It supports get by id ordered by Version, the two
  "maximum sequence number, 0 if none" queries, remove by id, and the save loop. The save loop
  interns each type, inserts one row per event and tracks the maximum supplied sequence number.
- **Search** (`query.dfy`, module `Query`). The type-resolution loop is followed by the WHERE
  filter with its bounds (0 means unbounded), the IN lists, the TOP cap and ORDER BY SequenceNumber.
- **Specification builder** (`specification.dfy`, module `Specifications`). It keeps duplicate-free
  lists of types and ids, appended in insertion order, plus two setters.
- **Offline upgrade** (`upgrade.dfy`, module `Upgrade`). It reads rows from a start sequence
  number, in 1000-row batches, into a shadow table keyed by (Id, Version) with insert-if-absent. It
  also models the envelope field mapping, the backup-refresh decision and the cutover guard.
- **Startup schema script** (`schema.dfy`, module `StorageSchema`). The thirteen IF-blocks of the
  script act on an abstract catalog, including the identity-to-nullable conversion of
  `SequenceNumber` and the removal of `DateCommitted`. The script runs inside a retry loop of at
  most four attempts.
- **Options validation** (`validator.dfy`, module `OptionsValidation`). It checks the connection
  string, then the schema, using .NET's white-space test.

Shared modules:

- `base.dfy` (`Base`): Option, Result, Outcome, the error kinds, and the integer widths.
- `ordering.dfy` (`Ordering`): SQL `ORDER BY` as a stable insertion sort with NULLs first. Rows
  with equal keys keep their input order, which is one of the orders SQL Server may return.
- `tables.dfy` (`Tables`): the row records, the inner join with the type table, and the `Database`
  class.

Inputs that the program takes from outside appear as parameters:

- `Guid.NewGuid()` becomes `newId`/`newIds`.
- JSON decode and encode of envelopes become function parameters (decode returns an `Option`).
- Lock acquisition and transient failures in the hosted service become oracles, `lockGranted` and
  `interruptAfter`.

## Model

| member | source | states |
|---|---|---|
| Tables.Joined | Shuttle.Recall.SqlServer.Storage/PrimitiveEventRepository.cs:37-38 | a row joins exactly when its EventTypeId is in the type table; the joined event carries the row's Id, Version and SequenceNumber |
| Tables.JoinAll | Shuttle.Recall.SqlServer.Storage/PrimitiveEventQuery.cs:41-44 | the inner join yields exactly the events whose row is present and joins, never more rows than it reads |
| Tables.ReadEvents | Shuttle.Recall.SqlServer.Storage/PrimitiveEventRepository.cs:54-70 | the reader loop appends every row it reads, in reader order, and nothing else; column decoding is not modelled, so the loop is a copy |
| Ordering.SortByCorrect | Shuttle.Recall.SqlServer.Storage/PrimitiveEventRepository.cs:41-42 | ORDER BY returns a permutation of its input, sorted by the key with NULLs first |
| Ordering.SortByStrict | Shuttle.Recall.SqlServer.Storage/PrimitiveEventRepository.cs:41-42 | when the keys are distinct, ORDER BY puts them in strictly increasing order |
| IdKeys.Insert | Shuttle.Recall.SqlServer.Storage/IdKeyRepository.cs:15-36 | the insert fails with a primary-key violation exactly when the key is present; otherwise it adds that key with that id and keeps every other entry |
| IdKeys.ContainsKey | Shuttle.Recall.SqlServer.Storage/IdKeyRepository.cs:38-43 | the count is positive exactly when the key is in the table |
| IdKeys.ContainsId | Shuttle.Recall.SqlServer.Storage/IdKeyRepository.cs:45-50 | the count is positive exactly when some key maps to the id |
| IdKeys.Find | Shuttle.Recall.SqlServer.Storage/IdKeyRepository.cs:52-57 | the result is null exactly when the key is absent, and otherwise is the id stored for it |
| IdKeys.Rekey | Shuttle.Recall.SqlServer.Storage/IdKeyRepository.cs:59-75 | fails exactly when both keys are present and different; an absent old key changes nothing; otherwise the new key takes the old key's id and the other keys are unchanged |
| IdKeys.RemoveKey | Shuttle.Recall.SqlServer.Storage/IdKeyRepository.cs:77-90 | removes exactly that key and keeps every other entry |
| IdKeys.RemoveId | Shuttle.Recall.SqlServer.Storage/IdKeyRepository.cs:92-105 | keeps exactly the entries whose id differs, unchanged |
| IdKeys.AddDuplicateFails | Shuttle.Recall.SqlServer.Storage.Tests/IdKeyRepositoryFixture.cs:50-55 | a second add of the same key fails with a primary-key violation, whatever the id |
| IdKeys.AddThenFind | Shuttle.Recall.SqlServer.Storage.Tests/IdKeyRepositoryFixture.cs:57-62 | after adding a fresh key, find returns its id, both contains report true, and every other key finds what it found before |
| IdKeys.RemoveKeyOnlyThatKey | Shuttle.Recall.SqlServer.Storage.Tests/IdKeyRepositoryFixture.cs:68-71 | after removal by key, that key finds nothing and every other key is unaffected |
| IdKeys.RemoveIdAllItsKeys | Shuttle.Recall.SqlServer.Storage.Tests/IdKeyRepositoryFixture.cs:96-99 | after removal by id, no key maps to that id, and the keys of other ids are unaffected |
| IdKeys.RekeyMovesKey | Shuttle.Recall.SqlServer.Storage.Tests/IdKeyRepositoryFixture.cs:81-84 | rekeying onto a fresh key succeeds, the old key is gone, the new key finds the old id, and the set of ids is unchanged |
| IdKeys.RekeyAbsentNoChange | Shuttle.Recall.SqlServer.Storage/IdKeyRepository.cs:63-73 | rekeying an absent key leaves the table as it was |
| IdKeys.RekeyOntoExistingFails | Shuttle.Recall.SqlServer.Storage.Tests/IdKeyRepositoryFixture.cs:86-94 | rekeying onto another present key fails with a primary-key violation |
| IdKeys.IdKeyRepository.Add | Shuttle.Recall.SqlServer.Storage/IdKeyRepository.cs:15-36 | the table becomes the insert's result on success; on failure it is unchanged and the error is reported |
| IdKeys.IdKeyRepository.RekeyKey | Shuttle.Recall.SqlServer.Storage/IdKeyRepository.cs:59-75 | the table becomes the rekey's result, or is unchanged with the error reported |
| IdKeys.IdKeyRepository.RemoveByKey | Shuttle.Recall.SqlServer.Storage/IdKeyRepository.cs:77-90 | the table becomes the delete-by-key result |
| IdKeys.IdKeyRepository.RemoveById | Shuttle.Recall.SqlServer.Storage/IdKeyRepository.cs:92-105 | the table becomes the delete-by-id result |
| IdKeys.FixtureScenario | Shuttle.Recall.SqlServer.Storage.Tests/IdKeyRepositoryFixture.cs:50-99 | the fixture's sequence of calls ends with neither key present; the answers the fixture asserts along the way are asserted in the body |
| EventTypes.Lower | Shuttle.Recall.SqlServer.Storage/EventTypeRepository.cs:21 | lower-casing keeps the length and maps each character |
| EventTypes.LowerIdempotent | Shuttle.Recall.SqlServer.Storage/EventTypeRepository.cs:21 | lower-casing twice is lower-casing once |
| EventTypes.IdOfName | Shuttle.Recall.SqlServer.Storage/EventTypeRepository.cs:37 | the select returns an id exactly when a row has that TypeName, and that row's id |
| EventTypes.InsertIfAbsent | Shuttle.Recall.SqlServer.Storage/EventTypeRepository.cs:32-36 | an existing name leaves the table unchanged; otherwise one row with the new id is appended, failing only on an id clash; unique names and ids are kept |
| EventTypes.Resolve | Shuttle.Recall.SqlServer.Storage/EventTypeRepository.cs:13-62 | an empty name fails before any access; a cache hit returns the cached id and changes nothing; a miss returns the id stored for the name and caches it; the cache only grows and the table only gains rows |
| EventTypes.ResolveKeepsCacheValid | Shuttle.Recall.SqlServer.Storage/EventTypeRepository.cs:48-53 | every cached id stays the id of the type row with that lower-cased name |
| EventTypes.ResolveStable | Shuttle.Recall.SqlServer.Storage/EventTypeRepository.cs:23-56 | after a successful resolution, resolving the same name again returns the same id and changes nothing |
| EventTypes.CaseInsensitiveSharing | Shuttle.Recall.SqlServer.Storage/EventTypeRepository.cs:21-23 | two names that differ only in case resolve to one id, the second without any table access |
| EventTypes.MissNeverYieldsNull | Shuttle.Recall.SqlServer.Storage/EventTypeRepository.cs:48-56 | a cache miss on a non-empty name succeeds unless the generated id clashes with an existing row |
| EventTypes.EventTypeRepository.constructor | Shuttle.Recall.SqlServer.Storage/EventTypeRepository.cs:10-11 | the cache starts empty and the lock free |
| EventTypes.EventTypeRepository.GetId | Shuttle.Recall.SqlServer.Storage/EventTypeRepository.cs:13-62 | the result, cache and table are those of `Resolve`, and the lock is released on every path |
| PrimitiveEvents.MaxSequence | Shuttle.Recall.SqlServer.Storage/PrimitiveEventRepository.cs:77-80 | MAX over the column is NULL exactly when every value is NULL, and otherwise is a present value bounding every other |
| PrimitiveEvents.MaxSequenceNumber | Shuttle.Recall.SqlServer.Storage/PrimitiveEventRepository.cs:75-83 | the maximum non-null sequence number, or 0 when there is none |
| PrimitiveEvents.SequenceNumberOf | Shuttle.Recall.SqlServer.Storage/PrimitiveEventRepository.cs:85-94 | the maximum non-null sequence number among rows whose EventId matches, or 0 |
| PrimitiveEvents.GetQueryCorrect | Shuttle.Recall.SqlServer.Storage/PrimitiveEventRepository.cs:25-43 | get by id returns exactly the joined events of rows with that Id, ordered by Version, strictly when the (Id, Version) key is unique |
| PrimitiveEvents.GetQueryStrict | Shuttle.Recall.SqlServer.Storage/PrimitiveEventRepository.cs:39-42 | with the primary key holding, versions come out strictly increasing |
| PrimitiveEvents.FilterKeepsKeysUnique | Shuttle.Recall.SqlServer.Storage/PrimitiveEventRepository.cs:39-40 | a WHERE filter keeps (Id, Version) unique |
| PrimitiveEvents.JoinedVersionsDistinct | Shuttle.Recall.SqlServer.Storage/PrimitiveEventRepository.cs:37-40 | rows of one Id with unique keys join to events with distinct versions |
| PrimitiveEvents.RemoveRows | Shuttle.Recall.SqlServer.Storage/PrimitiveEventRepository.cs:96-103 | the delete keeps exactly the rows with another Id |
| PrimitiveEvents.RemoveKeepsOtherIds | Shuttle.Recall.SqlServer.Storage/PrimitiveEventRepository.cs:96-103 | the rows of every other Id are unchanged, in order |
| PrimitiveEvents.RemoveThenGet | Shuttle.Recall.SqlServer.Storage/PrimitiveEventRepository.cs:96-103 | after removal, get of that Id is empty and get of every other Id is unchanged |
| PrimitiveEvents.SaveExistingKeyFails | Shuttle.Recall.SqlServer.Storage/PrimitiveEventRepository.cs:113-126 | inserting an existing (Id, Version) fails and adds no row |
| PrimitiveEvents.SaveStepInserts | Shuttle.Recall.SqlServer.Storage/PrimitiveEventRepository.cs:109-126 | one iteration either fails leaving the rows as they were, or appends exactly one row for the event with its resolved type id; the key stays unique |
| PrimitiveEvents.SaveAllInserts | Shuttle.Recall.SqlServer.Storage/PrimitiveEventRepository.cs:109-132 | the loop appends one row per event in iteration order, each with the resolved type id, keeps earlier rows on failure, succeeds exactly when every event was inserted, and keeps the key unique |
| PrimitiveEvents.SaveAllStuck | Shuttle.Recall.SqlServer.Storage/PrimitiveEventRepository.cs:109-132 | once an iteration fails, the later events change nothing |
| PrimitiveEvents.SaveAllMax | Shuttle.Recall.SqlServer.Storage/PrimitiveEventRepository.cs:107-131 | the returned value bounds every supplied sequence number and is either 0 or one of them |
| PrimitiveEvents.PrimitiveEventRepository.Get | Shuttle.Recall.SqlServer.Storage/PrimitiveEventRepository.cs:17-73 | returns exactly the joined events of that Id, ordered by Version, strictly when the key is unique |
| PrimitiveEvents.PrimitiveEventRepository.GetMaxSequenceNumber | Shuttle.Recall.SqlServer.Storage/PrimitiveEventRepository.cs:75-83 | returns the maximum non-null sequence number, or 0 |
| PrimitiveEvents.PrimitiveEventRepository.GetSequenceNumber | Shuttle.Recall.SqlServer.Storage/PrimitiveEventRepository.cs:85-94 | returns the maximum for that EventId, or 0 |
| PrimitiveEvents.PrimitiveEventRepository.Remove | Shuttle.Recall.SqlServer.Storage/PrimitiveEventRepository.cs:96-103 | the table becomes the delete's result |
| PrimitiveEvents.PrimitiveEventRepository.Save | Shuttle.Recall.SqlServer.Storage/PrimitiveEventRepository.cs:105-135 | the cache, type table and event table become those of the save loop; the result is its maximum or its first error; the lock is free afterwards |
| Query.SearchRowsAsWritten | Shuttle.Recall.SqlServer.Storage/PrimitiveEventQuery.cs:45-73 | the statement as written: an empty IN list is a syntax error, HasIds is an ambiguous-column error, otherwise the selection |
| Query.SearchRows | Shuttle.Recall.SqlServer.Storage/PrimitiveEventQuery.cs:45-73 | the corrected statement fails exactly when an enabled IN list is empty |
| Query.AmbiguousIdFilter | Shuttle.Recall.SqlServer.Storage/PrimitiveEventQuery.cs:62-66 | every well-formed query with ids fails as written and succeeds once the column is qualified |
| Query.AmbiguousIdExample | Shuttle.Recall.SqlServer.Storage/PrimitiveEventQuery.cs:62-66 | a one-row table and a one-id query on which the two statements differ |
| Query.Take | Shuttle.Recall.SqlServer.Storage/PrimitiveEventQuery.cs:32 | `TOP n` returns the first min(n, count) rows of its input |
| Query.SelectedCorrect | Shuttle.Recall.SqlServer.Storage/PrimitiveEventQuery.cs:32-73 | results are ordered by SequenceNumber and each comes from a matching joined row; with TOP n they are the first min(n, count) rows of the ordered selection; without a cap they are the whole ordered selection, so every matching event is returned |
| Query.SelectedWithinBounds | Shuttle.Recall.SqlServer.Storage/PrimitiveEventQuery.cs:46-71 | a non-zero start or end bound admits only present sequence numbers within it; the Id and sequence IN lists restrict only when enabled |
| Query.ResolveStepSpec | Shuttle.Recall.SqlServer.Storage/PrimitiveEventQuery.cs:18-23 | one iteration appends the resolved id, which is cached for the lower-cased name, or fails appending nothing |
| Query.ResolveAllSpec | Shuttle.Recall.SqlServer.Storage/PrimitiveEventQuery.cs:18-23 | the loop succeeds exactly when every name was resolved, each id being the cached id of its name, in order |
| Query.ResolveAllStuck | Shuttle.Recall.SqlServer.Storage/PrimitiveEventQuery.cs:18-23 | after a failed resolution the remaining names change nothing |
| Query.PrimitiveEventQuery.ResolveTypeIds | Shuttle.Recall.SqlServer.Storage/PrimitiveEventQuery.cs:18-23 | the ids, cache and type table are those of the resolution loop; the lock is free afterwards |
| Query.PrimitiveEventQuery.Search | Shuttle.Recall.SqlServer.Storage/PrimitiveEventQuery.cs:16-104 | a resolution failure is returned; otherwise the result is the corrected statement over the tables after resolution |
| Specifications.AppendDistinct | Shuttle.Recall.SqlServer.Storage/Models/PrimitiveEvent.cs:49-52 | an element already present changes nothing; a new one is appended at the end |
| Specifications.AppendDistinctKeeps | Shuttle.Recall.SqlServer.Storage/Models/PrimitiveEvent.cs:45-55 | the list stays duplicate-free and its old entries keep their order |
| Specifications.AppendAllDistinctSpec | Shuttle.Recall.SqlServer.Storage/Models/PrimitiveEvent.cs:79-87 | appending many keeps the list duplicate-free, extends it, and its members are the old ones and the added ones |
| Specifications.AppendAllDistinctIdempotent | Shuttle.Recall.SqlServer.Storage/Models/PrimitiveEvent.cs:79-87 | appending elements already present changes nothing |
| Specifications.AddTypesSpec | Shuttle.Recall.SqlServer.Storage/Models/PrimitiveEvent.cs:57-65 | the foreach stays duplicate-free, succeeds exactly when no element is null, stops with the guard's error otherwise, and adds only the listed types |
| Specifications.AddTypesAllPresent | Shuttle.Recall.SqlServer.Storage/Models/PrimitiveEvent.cs:57-65 | without nulls, adding many types is the element-by-element append |
| Specifications.Specification.constructor | Shuttle.Recall.SqlServer.Storage/Models/PrimitiveEvent.cs:30-36 | a fresh specification has empty lists, start 0 and no row cap |
| Specifications.Specification.AddEventType | Shuttle.Recall.SqlServer.Storage/Models/PrimitiveEvent.cs:45-55 | null is rejected and changes nothing; otherwise the type is appended if absent |
| Specifications.Specification.AddEventTypes | Shuttle.Recall.SqlServer.Storage/Models/PrimitiveEvent.cs:57-65 | a null list adds nothing; otherwise the list and outcome are those of the foreach |
| Specifications.Specification.AddId | Shuttle.Recall.SqlServer.Storage/Models/PrimitiveEvent.cs:67-77 | the id is appended if absent |
| Specifications.Specification.AddIds | Shuttle.Recall.SqlServer.Storage/Models/PrimitiveEvent.cs:79-87 | a null list is a null-reference failure; otherwise each id is appended if absent, in order |
| Specifications.Specification.WithSequenceNumberStart | Shuttle.Recall.SqlServer.Storage/Models/PrimitiveEvent.cs:89-94 | sets only the start |
| Specifications.Specification.WithMaximumRows | Shuttle.Recall.SqlServer.Storage/Models/PrimitiveEvent.cs:96-101 | sets only the row cap |
| Upgrade.UpgradeEnvelopeLossless | Shuttle.Recall.SqlServer.Storage.Upgrade/UpgradePrimitiveEventService.cs:257-268 | the new envelope copies every field of the old one, EventDate becoming RecordedAt, so nothing is lost |
| Upgrade.UpgradedRowCopies | Shuttle.Recall.SqlServer.Storage.Upgrade/UpgradePrimitiveEventService.cs:270-285 | the inserted row copies Id, Version, CorrelationId, EventId, EventTypeId and SequenceNumber, takes RecordedAt from DateRegistered, and holds the encoded new envelope |
| Upgrade.ReadFromCorrect | Shuttle.Recall.SqlServer.Storage.Upgrade/UpgradePrimitiveEventService.cs:25-41 | the reader yields exactly the rows at or above the start sequence number, each once, in ascending order |
| Upgrade.UpgradeEvent | Shuttle.Recall.SqlServer.Storage.Upgrade/UpgradePrimitiveEventService.cs:241-297 | a row with a key already in the shadow table is skipped; otherwise the mapped row is appended; the key is present afterwards and stays unique |
| Upgrade.ProcessBatchConcat | Shuttle.Recall.SqlServer.Storage.Upgrade/UpgradePrimitiveEventService.cs:229-239 | processing two batches in turn is processing their concatenation |
| Upgrade.ProcessBatchSpec | Shuttle.Recall.SqlServer.Storage.Upgrade/UpgradePrimitiveEventService.cs:229-239 | a batch only appends, at most one row per element, keeps the key unique, and leaves every element's key present |
| Upgrade.ProcessBatchPresent | Shuttle.Recall.SqlServer.Storage.Upgrade/UpgradePrimitiveEventService.cs:253-255 | a batch whose keys are all present changes nothing |
| Upgrade.ProcessBatchIdempotent | Shuttle.Recall.SqlServer.Storage.Upgrade/UpgradePrimitiveEventService.cs:253-255 | re-running a batch adds no rows |
| Upgrade.InitialConfigurationAsWritten | Shuttle.Recall.SqlServer.Storage.Upgrade/UpgradePrimitiveEventService.cs:166-227 | the preparation script as written, including the refresh that copies into the existing backup table |
| Upgrade.InitialConfiguration | Shuttle.Recall.SqlServer.Storage.Upgrade/UpgradePrimitiveEventService.cs:166-227 | succeeds exactly when the live table exists; creates the upgrade schema and the shadow table if absent; creates the backup as a copy of the live table, recopies it when both maxima are present and differ, and otherwise keeps it |
| Upgrade.InitialConfigurationIdempotent | Shuttle.Recall.SqlServer.Storage.Upgrade/UpgradePrimitiveEventService.cs:166-227 | running the corrected preparation a second time changes nothing |
| Upgrade.StaleBackupLost | Shuttle.Recall.SqlServer.Storage.Upgrade/UpgradePrimitiveEventService.cs:211-215 | as written, a stale backup is truncated, the copy fails because the table exists, and a rerun leaves the backup empty; the corrected script recopies it |
| Upgrade.StaleBackupExample | Shuttle.Recall.SqlServer.Storage.Upgrade/UpgradePrimitiveEventService.cs:211-215 | two concrete tables on which the script as written empties the backup and the corrected one refreshes it |
| Upgrade.PreparedEnablesCutover | Shuttle.Recall.SqlServer.Storage.Upgrade/UpgradePrimitiveEventService.cs:126-132 | after a successful preparation, the cutover guard holds |
| Upgrade.Configure | Shuttle.Recall.SqlServer.Storage.Upgrade/UpgradePrimitiveEventService.cs:9-13 | an empty connection string or schema is rejected; the upgrade schema is the schema with the `_upgrade` suffix |
| Upgrade.UpgradePrimitiveEventService.InitialDatabaseConfiguration | Shuttle.Recall.SqlServer.Storage.Upgrade/UpgradePrimitiveEventService.cs:166-227 | the database and outcome are those of the corrected preparation |
| Upgrade.UpgradePrimitiveEventService.InitialDatabaseConfigurationAsWritten | Shuttle.Recall.SqlServer.Storage.Upgrade/UpgradePrimitiveEventService.cs:166-227 | the database and outcome are those of the script as written, so a stale backup is emptied and the call fails with error 2714 |
| Upgrade.UpgradePrimitiveEventService.UpgradeEventInto | Shuttle.Recall.SqlServer.Storage.Upgrade/UpgradePrimitiveEventService.cs:241-297 | the shadow table becomes the insert-if-absent result |
| Upgrade.UpgradePrimitiveEventService.ProcessBatchInto | Shuttle.Recall.SqlServer.Storage.Upgrade/UpgradePrimitiveEventService.cs:229-239 | the shadow table becomes the batch's result |
| Upgrade.UpgradePrimitiveEventService.ReadBatches | Shuttle.Recall.SqlServer.Storage.Upgrade/UpgradePrimitiveEventService.cs:48-89 | batches are flushed at 1000 rows; the flushed rows and the pending batch partition the rows read so far, in order; the loop stops at the first row that does not decode or at the end |
| Upgrade.UpgradePrimitiveEventService.Stream | Shuttle.Recall.SqlServer.Storage.Upgrade/UpgradePrimitiveEventService.cs:48-96 | on success every row read decoded, the count equals the rows read and the shadow table has them all processed in order; on a decode failure only whole batches before the failure are processed |
| Upgrade.RunCommand | Shuttle.Recall.SqlServer.Storage.Upgrade/UpgradePrimitiveEventService.cs:103-113 | on a connection with a pending local transaction, a command not given that transaction is refused before reaching the server |
| Upgrade.UpgradePrimitiveEventService.CompletedDatabaseConfiguration | Shuttle.Recall.SqlServer.Storage.Upgrade/UpgradePrimitiveEventService.cs:111-164 | the command is accepted exactly when it carries the connection's transaction, and the cutover runs exactly when it is accepted and both the shadow and the live table exist |
| Upgrade.UpgradePrimitiveEventService.ExecuteAsWritten | Shuttle.Recall.SqlServer.Storage.Upgrade/UpgradePrimitiveEventService.cs:17-109 | as written, no run succeeds and the cutover is never reached. The preparation is the as-written one. A missing live table fails the preparation, leaving the prepared tables. A stale backup fails it with error 2714 before any row is read, leaving the backup empty and the shadow table as prepared. Once the preparation succeeds, an undecodable row fails the stream, leaving only the whole batches before it in the shadow table; otherwise the completion command is refused after every row was streamed into the shadow table. The schema flag, live table and backup are always the preparation's |
| Upgrade.UpgradePrimitiveEventService.Execute | Shuttle.Recall.SqlServer.Storage.Upgrade/UpgradePrimitiveEventService.cs:17-109 | with both corrections, the corrected preparation and the completion command enlisted: a missing live table fails without cutover, leaving the prepared tables; when the live table exists, the run succeeds and reaches the cutover exactly when every row read decodes, returning their count with the shadow table holding them all processed in order; otherwise it fails with the decode error, with only the whole batches before the bad row processed. The schema flag, live table and backup are always the preparation's |
| StorageSchema.Converted | Shuttle.Recall.SqlServer.Storage/SqlServerStorageHostedService.cs:80-93 | both conversion paths leave a nullable, non-identity column holding every row's value |
| StorageSchema.BlockFails | Shuttle.Recall.SqlServer.Storage/SqlServerStorageHostedService.cs:39-133 | a block fails only when the sequence index is created and no SequenceNumber column exists, with an invalid-column error |
| StorageSchema.BlockKeeps | Shuttle.Recall.SqlServer.Storage/SqlServerStorageHostedService.cs:39-133 | a block that succeeds establishes its own postcondition, keeps every earlier one, and does not change the final shape |
| StorageSchema.BlockAchieves | Shuttle.Recall.SqlServer.Storage/SqlServerStorageHostedService.cs:39-133 | after the blocks before it, each block fails exactly in the missing-column case and otherwise extends the achieved postconditions by one |
| StorageSchema.RunBlocksSpec | Shuttle.Recall.SqlServer.Storage/SqlServerStorageHostedService.cs:39-133 | running the first k blocks keeps the final shape; it succeeds exactly when no sequence index is reached or the column exists, then achieving all their postconditions |
| StorageSchema.RunBlocksStuck | Shuttle.Recall.SqlServer.Storage/SqlServerStorageHostedService.cs:134-138 | after a failing block, the TRY section runs no further block |
| StorageSchema.ScriptSpec | Shuttle.Recall.SqlServer.Storage/SqlServerStorageHostedService.cs:39-133 | the script succeeds exactly when the catalog can complete and then yields its final shape |
| StorageSchema.ScriptPostconditions | Shuttle.Recall.SqlServer.Storage/SqlServerStorageHostedService.cs:39-133 | afterwards the schema, three tables, three indexes, the default and the enabled foreign key exist, the DateCommitted index and column are gone, and SequenceNumber is nullable and holds its old values |
| StorageSchema.ScriptIdempotent | Shuttle.Recall.SqlServer.Storage/SqlServerStorageHostedService.cs:39-133 | running the script twice is running it once |
| StorageSchema.ScriptResumes | Shuttle.Recall.SqlServer.Storage/SqlServerStorageHostedService.cs:39-133 | rerunning after an interruption between blocks reaches the same result as one run |
| StorageSchema.EmptyCatalogConfigured | Shuttle.Recall.SqlServer.Storage/SqlServerStorageHostedService.cs:39-133 | on an empty database the script succeeds and creates a nullable sequence column |
| StorageSchema.AttemptSpec | Shuttle.Recall.SqlServer.Storage/SqlServerStorageHostedService.cs:31-141 | an attempt succeeds exactly when the lock is granted, nothing interrupts it and the catalog can complete |
| StorageSchema.StorageHostedService.ExecuteScript | Shuttle.Recall.SqlServer.Storage/SqlServerStorageHostedService.cs:31-141 | the catalog and outcome are those of one attempt, and the lock is released on both paths |
| StorageSchema.StorageHostedService.Start | Shuttle.Recall.SqlServer.Storage/SqlServerStorageHostedService.cs:15-156 | with configuration switched off nothing is touched; otherwise at most four attempts are made, success comes exactly from the first clean attempt, and the fourth failure is returned |
| OptionsValidation.AllWhiteSpaceSpec | Shuttle.Recall.SqlServer.Storage/SqlServerStorageOptionsValidator.cs:12 | the white-space scan accepts exactly the strings made only of white space |
| OptionsValidation.NullOrWhiteSpaceIsNoContent | Shuttle.Recall.SqlServer.Storage/SqlServerStorageOptionsValidator.cs:12-17 | null-or-white-space holds exactly when the string has no other character |
| OptionsValidation.Validate | Shuttle.Recall.SqlServer.Storage/SqlServerStorageOptionsValidator.cs:8-23 | null options are rejected by the guard, and only they |
| OptionsValidation.ValidateSpec | Shuttle.Recall.SqlServer.Storage/SqlServerStorageOptionsValidator.cs:12-22 | success exactly when both strings have content; the connection-string failure whenever it has none, whatever the schema; the schema failure only when the connection string has content |
| OptionsValidation.DefaultOptionsFail | Shuttle.Recall.SqlServer.Storage/SqlServerStorageOptions.cs:7-11 | freshly constructed options fail on their empty connection string |
| OptionsValidation.DefaultSchemaSuffices | Shuttle.Recall.SqlServer.Storage/SqlServerStorageOptions.cs:7-11 | with the default schema, validation succeeds exactly when the connection string has content |

## Left out

- Concurrency: the `SemaphoreSlim` in `EventTypeRepository` and the `sp_getapplock` session locks are a `lockHeld` flag that every path releases. The applocks of the upgrade scripts are not modelled.
- Connections, DbContext, command objects, parameters, async/await and cancellation are not modelled. A statement is its effect on table values.
- JSON serialisation of envelopes is a pair of function parameters. `decode` returns `None` both for a null result and for a parse error.
- `Guid.NewGuid()`, `DateTime.UtcNow` and the SQL time defaults are parameters or are left out. A Guid is a natural number.
- Logging, the console output, both `Program.cs` files and the dependency-injection wiring are left out. This includes the clamp at `RecallBuilderExtensions.cs:36`, which names an option that `SqlServerStorageOptions` does not have.
- `PrimitiveEventSequencer` is a stub that always returns false, and `GetMaximumSequenceNumberAsync` has no implementation, so neither is modelled.
- EventTypes.Lower: maps ASCII letters only. .NET's culture-sensitive `ToLower` is not modelled.
- IdKeys.Insert: keys are compared exactly. Under SQL Server's usual default collation, comparisons ignore case and trailing spaces, so on the server adding "A" and then "a" is a primary-key violation, while the model accepts both.
- IdKeys.ContainsKey, IdKeys.Find, IdKeys.Rekey, IdKeys.RemoveKey: the `UniqueKey = @Key` comparisons are exact, for the same collation reason.
- EventTypes.IdOfName, EventTypes.InsertIfAbsent: the `TypeName = @TypeName` comparisons are exact, for the same collation reason. A name that differs only in case from a stored one is inserted as a new row in the model, while the server finds the stored row.
- EventTypes.Resolve: `Guard.AgainstEmpty` belongs to an external library and is modelled as rejecting the empty string only; a name made only of white space is accepted. The same holds for EventTypes.EventTypeRepository.GetId.
- Column widths (`nvarchar(450)`, `nvarchar(1024)`) are not enforced. Strings are unbounded.
- `EventTypeRepository` queries a table named `EventTypes`, while the schema script creates `EventType`. The model uses one type table for both.
- Upgrade.UpgradePrimitiveEventService.CompletedDatabaseConfiguration: models only the cutover guard. The drop, `ALTER SCHEMA ... TRANSFER` and the constraints after it are not modelled, because the transfer names its schemas in an order that does not clearly move the shadow table into the live schema.
- Upgrade.Configure: `Guard.AgainstEmpty` is modelled as rejecting the empty string only; a connection string or schema made only of white space is accepted.
- `processedCount` is modelled as the number of rows handed to batches. The logging that reports it is left out.
- The search specification consumed by `PrimitiveEventQuery` belongs to an external library. It is modelled as the record `SearchSpec` with the fields the query reads.
- A `Type` in the specification builder is its name (`TypeRef`).
- StorageSchema.Block: data-dependent failures are not modelled. These are the unique index over duplicate TypeNames and the foreign key `WITH CHECK` over rows without a type.
- StorageSchema.Attempt: a transient failure happens between blocks, never inside one. Whether the lock is granted and where an attempt is interrupted are oracles.
- StorageSchema.ScriptResumes: covers interruptions between blocks only, and is no guarantee of crash safety. The conversion block runs four statements outside any transaction (SqlServerStorageHostedService.cs:84-87). An interruption after the `ADD [SequenceNumber_Temp]` leaves both columns, and every later run fails at that `ADD` because the column exists. An interruption after the `DROP COLUMN` leaves only `SequenceNumber_Temp`, and every later run fails at the sequence index. The model does not capture either state.
- Ordering.SortBy: SQL Server returns rows with equal ORDER BY keys in no defined order; the model keeps their input order. Ties are common in a search, because every row saved without a SequenceNumber has NULL there. The contracts that depend on this choice are Query.SelectedCorrect and Query.PrimitiveEventQuery.Search: for which rows `TOP n` keeps among tied ones, and the order of tied rows. They also include Upgrade.ReadFromCorrect, Upgrade.UpgradePrimitiveEventService.Stream and Upgrade.UpgradePrimitiveEventService.Execute, for the order in which rows with equal SequenceNumbers reach the shadow table. SortedBy, membership and the row counts hold for every order the server may choose. Get by id orders by Version, which the primary key makes unique, so it has no ties.
- Index dependencies on dropped or altered columns are not modelled.
- The localised resource messages of a failed validation are the two values of `Failure`.
- The v20 records and the options class are datatypes with no behaviour of their own.

## Findings

| source | as written | input that shows it | evidently intended | confidence | as-written member | corrected member |
|---|---|---|---|---|---|---|
| Shuttle.Recall.SqlServer.Storage/PrimitiveEventQuery.cs:62-66 | the id filter is an unqualified `Id IN (...)` in a join of `PrimitiveEvent` and `EventType`, which both have an `Id` column, so SQL Server reports an ambiguous column name | any search with `HasIds` and a non-empty id list, e.g. `Query.AmbiguousIdExample` | filter on the event's `Id` (`es.Id IN (...)`) | not executed | Query.SearchRowsAsWritten (Query.AmbiguousIdFilter, Query.AmbiguousIdExample) | Query.SearchRows |
| Shuttle.Recall.SqlServer.Storage.Upgrade/UpgradePrimitiveEventService.cs:211-215 | a stale backup is truncated and then refilled with `SELECT * INTO` the existing table, which fails because the object already exists; the failure leaves the backup empty, and on a rerun the empty backup's maximum is NULL, the comparison is not true, and the backup stays empty | live rows with sequence numbers 1 and 2 and a backup holding only the first, e.g. `Upgrade.StaleBackupExample` | refill the backup with `INSERT INTO ... SELECT` | not executed | Upgrade.InitialConfigurationAsWritten (Upgrade.StaleBackupLost, Upgrade.StaleBackupExample, Upgrade.UpgradePrimitiveEventService.InitialDatabaseConfigurationAsWritten) | Upgrade.InitialConfiguration |
| Shuttle.Recall.SqlServer.Storage.Upgrade/UpgradePrimitiveEventService.cs:103-113 | `ExecuteAsync` begins a transaction on the completion connection, but `CompletedDatabaseConfigurationAsync` creates its command with `CreateCommand()` and never sets its `Transaction`, so SqlClient refuses the command with an `InvalidOperationException` at :163 | any database whose live `PrimitiveEvent` table exists, whose backup is absent or not stale, and whose rows all decode: the rows are streamed into the shadow table, then the completion fails and the cutover never runs | assign the transaction to the command (`command.Transaction = transaction`) | not executed | Upgrade.UpgradePrimitiveEventService.ExecuteAsWritten (Upgrade.RunCommand) | Upgrade.UpgradePrimitiveEventService.Execute |
