/**
 * The startup schema script and its retry loop. The database catalog is
 * reduced to the shape the script inspects: which schema objects exist, the
 * kind of the SequenceNumber column and its per-row values. The script is a
 * sequence of thirteen guarded blocks, each creating, converting or dropping
 * one object only when the catalog calls for it. Statements run without an
 * enclosing transaction, so an interrupted run keeps the blocks it completed.
 */
module StorageSchema {
  import opened Base

  /**
   * The SequenceNumber column of PrimitiveEvent, if there is one, with each
   * row's value: an identity column has a value in every row.
   */
  datatype SequenceColumn =
    | NoColumn
    | IdentityColumn(identities: seq<Int64>)
    | PlainColumn(nullable: bool, values: seq<Option<Int64>>)

  /**
   * Each identity value as a nullable value: the UPDATE that copies
   * SequenceNumber into the nullable SequenceNumber_Temp, row by row.
   */
  function Present(vs: seq<Int64>): (r: seq<Option<Int64>>)
    ensures |r| == |vs| && forall k :: 0 <= k < |vs| ==> r[k] == Some(vs[k])
  {
    if vs == [] then [] else [Some(vs[0])] + Present(vs[1..])
  }

  /** The values the column holds, NULL where a row has none. */
  function ValuesOf(c: SequenceColumn): seq<Option<Int64>> {
    match c
    case NoColumn => []
    case IdentityColumn(vs) => Present(vs)
    case PlainColumn(_, vs) => vs
  }

  /**
   * The conversion block on the column: an identity column is copied into the
   * nullable SequenceNumber_Temp, dropped, and the copy renamed; any other
   * column is altered to a nullable bigint. The rows keep their values.
   */
  function Converted(c: SequenceColumn): (r: SequenceColumn)
    ensures ValuesOf(r) == ValuesOf(c)
    ensures r.NoColumn? <==> c.NoColumn?
    ensures r.NoColumn? || (r.PlainColumn? && r.nullable)
  {
    match c
    case NoColumn => NoColumn
    case IdentityColumn(ids) => PlainColumn(true, Present(ids))
    case PlainColumn(_, vs) => PlainColumn(true, vs)
  }

  datatype Catalog = Catalog(
    schemaExists: bool,
    eventTypeTable: bool,
    idKeyTable: bool,
    primitiveEventTable: bool,
    sequenceColumn: SequenceColumn,
    dateCommittedIndex: bool,             // IX_PrimitiveEvent_DateCommitted_Filtered_Null
    dateCommittedColumn: bool,
    eventTypeIndex: bool,                 // IX_EventType, unique on TypeName
    sequenceDateIndex: bool,              // IX_PrimitiveEvent_SequenceNumber_DateRegistered
    eventTypeIdIndex: bool,               // IX_PrimitiveEvent_EventTypeId
    dateRegisteredDefault: bool,          // DF_PrimitiveEvent_DateRegistered
    foreignKey: bool,                     // FK_PrimitiveEvent_EventType_EventTypeId
    foreignKeyEnabled: bool)

  /** What SQL Server guarantees of any catalog: objects live in their schema and table, indexes on their columns. */
  predicate WellFormed(s: Catalog) {
    && (!s.schemaExists ==> !s.eventTypeTable && !s.idKeyTable && !s.primitiveEventTable)
    && (!s.eventTypeTable ==> !s.eventTypeIndex && !s.foreignKey)
    && (!s.primitiveEventTable ==>
          && s.sequenceColumn.NoColumn? && !s.dateCommittedColumn && !s.sequenceDateIndex
          && !s.eventTypeIdIndex && !s.dateRegisteredDefault && !s.foreignKey)
    && (s.sequenceColumn.NoColumn? ==> !s.sequenceDateIndex)
    && (s.dateCommittedIndex ==> s.dateCommittedColumn)
    && (!s.foreignKey ==> !s.foreignKeyEnabled)
  }

  /** A database with nothing of the storage engine in it. */
  const EmptyCatalog := Catalog(false, false, false, false, NoColumn, false, false, false, false, false, false, false, false)

  /** The thirteen IF blocks of the script, named by what each one does. */
  datatype Step =
    | CreateSchema
    | CreateEventTypeTable
    | CreateIdKeyTable
    | CreatePrimitiveEventTable
    | ConvertSequenceNumber
    | DropDateCommittedIndex
    | DropDateCommittedColumn
    | CreateEventTypeIndex
    | CreateSequenceNumberIndex
    | CreateEventTypeIdIndex
    | AddDateRegisteredDefault
    | AddForeignKey
    | CheckForeignKey

  /** The blocks in script order. */
  const Steps: seq<Step> := [
    CreateSchema, CreateEventTypeTable, CreateIdKeyTable, CreatePrimitiveEventTable, ConvertSequenceNumber,
    DropDateCommittedIndex, DropDateCommittedColumn, CreateEventTypeIndex, CreateSequenceNumberIndex,
    CreateEventTypeIdIndex, AddDateRegisteredDefault, AddForeignKey, CheckForeignKey]

  const BlockCount: nat := 13

  /** One block; an error is the failing statement's SQL Server error. */
  function Block(step: Step, s: Catalog): Result<Catalog> {
    match step
    case CreateSchema =>
      Ok(s.(schemaExists := true))
    case CreateEventTypeTable =>
      if s.eventTypeTable then Ok(s)
      else if !s.schemaExists then Err(InvalidObjectName)
      else Ok(s.(eventTypeTable := true))
    case CreateIdKeyTable =>
      if s.idKeyTable then Ok(s)
      else if !s.schemaExists then Err(InvalidObjectName)
      else Ok(s.(idKeyTable := true))
    case CreatePrimitiveEventTable =>  // SequenceNumber is created as a nullable bigint
      if s.primitiveEventTable then Ok(s)
      else if !s.schemaExists then Err(InvalidObjectName)
      else Ok(s.(primitiveEventTable := true, sequenceColumn := PlainColumn(true, [])))
    case ConvertSequenceNumber =>
      Ok(s.(sequenceColumn := Converted(s.sequenceColumn)))
    case DropDateCommittedIndex =>
      Ok(s.(dateCommittedIndex := false))
    case DropDateCommittedColumn =>
      Ok(s.(dateCommittedColumn := false))
    case CreateEventTypeIndex =>
      if s.eventTypeIndex then Ok(s)
      else if !s.eventTypeTable then Err(InvalidObjectName)
      else Ok(s.(eventTypeIndex := true))
    case CreateSequenceNumberIndex =>  // on (SequenceNumber, DateRegistered)
      if s.sequenceDateIndex then Ok(s)
      else if !s.primitiveEventTable then Err(InvalidObjectName)
      else if s.sequenceColumn.NoColumn? then Err(InvalidColumnName)
      else Ok(s.(sequenceDateIndex := true))
    case CreateEventTypeIdIndex =>
      if s.eventTypeIdIndex then Ok(s)
      else if !s.primitiveEventTable then Err(InvalidObjectName)
      else Ok(s.(eventTypeIdIndex := true))
    case AddDateRegisteredDefault =>   // DEFAULT (GETUTCDATE())
      if s.dateRegisteredDefault then Ok(s)
      else if !s.primitiveEventTable then Err(InvalidObjectName)
      else Ok(s.(dateRegisteredDefault := true))
    case AddForeignKey =>              // WITH CHECK, ON DELETE CASCADE
      if s.foreignKey then Ok(s)
      else if !s.primitiveEventTable || !s.eventTypeTable then Err(InvalidObjectName)
      else Ok(s.(foreignKey := true, foreignKeyEnabled := true))
    case CheckForeignKey =>
      if s.foreignKey then Ok(s.(foreignKeyEnabled := true)) else Ok(s)
  }

  /** The first `k` blocks in order; the first error stops the run and keeps what the blocks before it did. */
  function RunBlocks(s: Catalog, k: nat): (Catalog, Outcome)
    requires k <= BlockCount
  {
    if k == 0 then (s, Done)
    else
      var (p, o) := RunBlocks(s, k - 1);
      if o.Failed? then (p, o)
      else match Block(Steps[k - 1], p)
        case Ok(t) => (t, Done)
        case Err(e) => (p, Failed(e))
  }

  /** The whole script, once the schema lock is held. */
  function Script(s: Catalog): (Catalog, Outcome) {
    RunBlocks(s, BlockCount)
  }

  // ---------------------------------------------------------------------------
  // The closed form of the script

  /** The catalog the script leaves behind: every object present, SequenceNumber a nullable bigint with the rows' values. */
  function Normal(s: Catalog): Catalog {
    Catalog(true, true, true, true, PlainColumn(true, ValuesOf(s.sequenceColumn)), false, false, true, true, true, true, true, true)
  }

  /** The script fails exactly on a PrimitiveEvent table without a SequenceNumber column. */
  predicate CanComplete(s: Catalog) {
    !(s.primitiveEventTable && s.sequenceColumn.NoColumn?)
  }

  /** What a block guarantees once it has run. */
  predicate Post(step: Step, s: Catalog) {
    match step
    case CreateSchema => s.schemaExists
    case CreateEventTypeTable => s.eventTypeTable
    case CreateIdKeyTable => s.idKeyTable
    case CreatePrimitiveEventTable => s.primitiveEventTable
    case ConvertSequenceNumber => s.sequenceColumn.NoColumn? || (s.sequenceColumn.PlainColumn? && s.sequenceColumn.nullable)
    case DropDateCommittedIndex => !s.dateCommittedIndex
    case DropDateCommittedColumn => !s.dateCommittedColumn
    case CreateEventTypeIndex => s.eventTypeIndex
    case CreateSequenceNumberIndex => s.sequenceDateIndex
    case CreateEventTypeIdIndex => s.eventTypeIdIndex
    case AddDateRegisteredDefault => s.dateRegisteredDefault
    case AddForeignKey => s.foreignKey
    case CheckForeignKey => s.foreignKeyEnabled
  }

  /** What a block relies on: the schema, table or constraint it works in, or the index in the way of the column it drops. */
  predicate Ready(step: Step, s: Catalog) {
    match step
    case CreateEventTypeTable | CreateIdKeyTable | CreatePrimitiveEventTable => s.schemaExists
    case DropDateCommittedColumn => !s.dateCommittedIndex
    case CreateEventTypeIndex => s.eventTypeTable
    case CreateSequenceNumberIndex | CreateEventTypeIdIndex | AddDateRegisteredDefault => s.primitiveEventTable
    case AddForeignKey => s.primitiveEventTable && s.eventTypeTable
    case CheckForeignKey => s.foreignKey
    case _ => true
  }

  /** The blocks before the `k`th have taken effect. */
  predicate Achieved(k: nat, s: Catalog)
    requires k <= BlockCount
  {
    forall j :: 0 <= j < k ==> Post(Steps[j], s)
  }

  /** Each block comes after the blocks it relies on. */
  lemma InOrder(i: nat, s: Catalog)
    requires i < BlockCount && Achieved(i, s)
    ensures Ready(Steps[i], s)
  {
    if i > 0 { assert Post(Steps[0], s); }
    if i > 1 { assert Post(Steps[1], s); }
    if i > 3 { assert Post(Steps[3], s); }
    if i > 5 { assert Post(Steps[5], s); }
    if i > 11 { assert Post(Steps[11], s); }
  }

  /** A ready block fails only as the index on a missing SequenceNumber column. */
  lemma BlockFails(step: Step, s: Catalog)
    requires WellFormed(s) && Ready(step, s)
    ensures Block(step, s).Err? <==> step == CreateSequenceNumberIndex && !CanComplete(s)
    ensures Block(step, s).Err? ==> Block(step, s).error == InvalidColumnName
  {
  }

  /**
   * A ready block keeps the catalog well formed, changes neither its closed
   * form nor whether the script can complete, establishes its own guarantee
   * and undoes no other block's.
   */
  predicate Keeps(step: Step, s: Catalog, t: Catalog) {
    && WellFormed(t) && Normal(t) == Normal(s) && CanComplete(t) == CanComplete(s)
    && Post(step, t)
    && forall other :: Post(other, s) ==> Post(other, t)
  }

  /** `Keeps` for the blocks that create the schema and the EventType table. */
  lemma SchemaBlocksKeep(step: Step, s: Catalog)
    requires step in {CreateSchema, CreateEventTypeTable}
    requires WellFormed(s) && Ready(step, s) && Block(step, s).Ok?
    ensures Keeps(step, s, Block(step, s).value)
  {
  }

  /** `Keeps` for the blocks that create the IdKey and PrimitiveEvent tables. */
  lemma TableBlocksKeep(step: Step, s: Catalog)
    requires step in {CreateIdKeyTable, CreatePrimitiveEventTable}
    requires WellFormed(s) && Ready(step, s) && Block(step, s).Ok?
    ensures Keeps(step, s, Block(step, s).value)
  {
  }

  /** `Keeps` for the SequenceNumber conversion. */
  lemma ConversionBlockKeeps(s: Catalog)
    requires WellFormed(s) && Block(ConvertSequenceNumber, s).Ok?
    ensures Keeps(ConvertSequenceNumber, s, Block(ConvertSequenceNumber, s).value)
  {
  }

  /** `Keeps` for the blocks that drop the DateCommitted index and column. */
  lemma DropBlocksKeep(step: Step, s: Catalog)
    requires step in {DropDateCommittedIndex, DropDateCommittedColumn}
    requires WellFormed(s) && Ready(step, s) && Block(step, s).Ok?
    ensures Keeps(step, s, Block(step, s).value)
  {
  }

  /** `Keeps` for the index blocks. */
  lemma IndexBlocksKeep(step: Step, s: Catalog)
    requires step in {CreateEventTypeIndex, CreateSequenceNumberIndex, CreateEventTypeIdIndex}
    requires WellFormed(s) && Ready(step, s) && Block(step, s).Ok?
    ensures Keeps(step, s, Block(step, s).value)
  {
  }

  /** `Keeps` for the default and foreign-key blocks. */
  lemma ConstraintBlocksKeep(step: Step, s: Catalog)
    requires step in {AddDateRegisteredDefault, AddForeignKey, CheckForeignKey}
    requires WellFormed(s) && Ready(step, s) && Block(step, s).Ok?
    ensures Keeps(step, s, Block(step, s).value)
  {
  }

  lemma BlockKeeps(step: Step, s: Catalog)
    requires WellFormed(s) && Ready(step, s) && Block(step, s).Ok?
    ensures Keeps(step, s, Block(step, s).value)
  {
    match step {
      case CreateSchema | CreateEventTypeTable =>
        SchemaBlocksKeep(step, s);
      case CreateIdKeyTable | CreatePrimitiveEventTable =>
        TableBlocksKeep(step, s);
      case ConvertSequenceNumber =>
        ConversionBlockKeeps(s);
      case DropDateCommittedIndex | DropDateCommittedColumn =>
        DropBlocksKeep(step, s);
      case CreateEventTypeIndex | CreateSequenceNumberIndex | CreateEventTypeIdIndex =>
        IndexBlocksKeep(step, s);
      case AddDateRegisteredDefault | AddForeignKey | CheckForeignKey =>
        ConstraintBlocksKeep(step, s);
    }
  }

  /** The index on SequenceNumber is the ninth block, and only it. */
  lemma SequenceIndexBlock(i: nat)
    requires i < BlockCount
    ensures Steps[i] == CreateSequenceNumberIndex <==> i == 8
  {
  }

  /**
   * The `i`th block, run after the ones before it, fails only as the index on
   * a missing SequenceNumber column, and otherwise keeps the catalog's closed
   * form and extends what they achieved.
   */
  lemma BlockAchieves(i: nat, s: Catalog)
    requires i < BlockCount && WellFormed(s) && Achieved(i, s)
    ensures Block(Steps[i], s).Err? <==> i == 8 && !CanComplete(s)
    ensures Block(Steps[i], s).Err? ==> Block(Steps[i], s).error == InvalidColumnName
    ensures Block(Steps[i], s).Ok? ==>
      var t := Block(Steps[i], s).value;
      && WellFormed(t) && Normal(t) == Normal(s) && CanComplete(t) == CanComplete(s)
      && Achieved(i + 1, t)
  {
    InOrder(i, s);
    BlockFails(Steps[i], s);
    SequenceIndexBlock(i);
    if Block(Steps[i], s).Ok? {
      BlockKeeps(Steps[i], s);
      var t := Block(Steps[i], s).value;
      forall j | 0 <= j < i + 1 ensures Post(Steps[j], t) {
        if j < i {
          assert Post(Steps[j], s);
        }
      }
    }
  }

  /** A completed run of every block is the closed form. */
  lemma AchievedIsNormal(s: Catalog)
    requires WellFormed(s) && Achieved(BlockCount, s)
    ensures s == Normal(s)
  {
    assert Post(Steps[0], s) && Post(Steps[1], s) && Post(Steps[2], s) && Post(Steps[3], s) && Post(Steps[4], s);
    assert Post(Steps[5], s) && Post(Steps[6], s) && Post(Steps[7], s) && Post(Steps[8], s) && Post(Steps[9], s);
    assert Post(Steps[10], s) && Post(Steps[11], s) && Post(Steps[12], s);
  }

  /** Once a run has failed, later blocks are not reached. */
  lemma {:induction false} RunBlocksStuck(s: Catalog, i: nat, k: nat)
    requires i <= k <= BlockCount && RunBlocks(s, i).1.Failed?
    ensures RunBlocks(s, k) == RunBlocks(s, i)
    decreases k
  {
    if k > i {
      RunBlocksStuck(s, i, k - 1);
    }
  }

  /**
   * The first `k` blocks: the catalog stays well formed and heads for the same
   * closed form; they succeed unless the index block meets a missing
   * SequenceNumber column.
   */
  lemma {:induction false} RunBlocksSpec(s: Catalog, k: nat)
    requires WellFormed(s) && k <= BlockCount
    ensures var (t, o) := RunBlocks(s, k);
      && WellFormed(t) && Normal(t) == Normal(s) && CanComplete(t) == CanComplete(s)
      && (o == Done <==> k <= 8 || CanComplete(s))
      && (o == Done ==> Achieved(k, t))
      && (o != Done ==> o == Failed(InvalidColumnName))
    decreases k
  {
    if k > 0 {
      RunBlocksSpec(s, k - 1);
      var (p, o) := RunBlocks(s, k - 1);
      if o == Done {
        BlockAchieves(k - 1, p);
      }
    }
  }

  /** The script ends in the closed form when it can complete, and fails with the missing column otherwise. */
  lemma ScriptSpec(s: Catalog)
    requires WellFormed(s)
    ensures Script(s).1 == (if CanComplete(s) then Done else Failed(InvalidColumnName))
    ensures CanComplete(s) ==> Script(s).0 == Normal(s)
    ensures WellFormed(Script(s).0) && Normal(Script(s).0) == Normal(s) && CanComplete(Script(s).0) == CanComplete(s)
  {
    RunBlocksSpec(s, BlockCount);
    if CanComplete(s) {
      AchievedIsNormal(Script(s).0);
    }
  }

  /**
   * After a successful script: every table and index exists, SequenceNumber
   * is a nullable non-identity column holding each row's previous value, and
   * the DateCommitted index and column are gone.
   */
  lemma ScriptPostconditions(s: Catalog)
    requires WellFormed(s) && Script(s).1 == Done
    ensures var t := Script(s).0;
      && t.schemaExists && t.eventTypeTable && t.idKeyTable && t.primitiveEventTable
      && t.sequenceColumn == PlainColumn(true, ValuesOf(s.sequenceColumn))
      && !t.dateCommittedIndex && !t.dateCommittedColumn
      && t.eventTypeIndex && t.sequenceDateIndex && t.eventTypeIdIndex
      && t.dateRegisteredDefault && t.foreignKey && t.foreignKeyEnabled
  {
    ScriptSpec(s);
  }

  /** Running the script twice is running it once. */
  lemma ScriptIdempotent(s: Catalog)
    requires WellFormed(s)
    ensures Script(Script(s).0).1 == Script(s).1
    ensures CanComplete(s) ==> Script(Script(s).0) == Script(s)
  {
    ScriptSpec(s);
    var t := Script(s).0;
    ScriptSpec(t);
    if CanComplete(s) {
      assert Normal(t) == t;
    }
  }

  /** A run cut short after any number of blocks leaves a catalog from which the script ends as from the original. */
  lemma ScriptResumes(s: Catalog, k: nat)
    requires WellFormed(s) && k <= BlockCount
    ensures Script(RunBlocks(s, k).0).1 == Script(s).1
    ensures CanComplete(s) ==> Script(RunBlocks(s, k).0) == Script(s)
  {
    RunBlocksSpec(s, k);
    ScriptSpec(s);
    ScriptSpec(RunBlocks(s, k).0);
  }

  /** The empty database gets the whole schema. */
  lemma EmptyCatalogConfigured()
    ensures Script(EmptyCatalog) == (Normal(EmptyCatalog), Done)
    ensures Normal(EmptyCatalog).sequenceColumn == PlainColumn(true, [])
  {
    ScriptSpec(EmptyCatalog);
  }

  // ---------------------------------------------------------------------------
  // One attempt and the retry loop

  /** The connection survives every block: the interruption, if any, comes after the last. */
  predicate Uninterrupted(interruptAfter: Option<nat>) {
    interruptAfter.None? || interruptAfter.value >= BlockCount
  }

  /**
   * One execution of the command: the schema lock is taken or the command
   * throws before any change; then the blocks run until the first error or
   * until the connection is lost after `interruptAfter` blocks.
   */
  function Attempt(s: Catalog, lockGranted: bool, interruptAfter: Option<nat>): (Catalog, Outcome) {
    if !lockGranted then (s, Failed(SchemaLockNotAcquired))
    else if !Uninterrupted(interruptAfter) then
      var (t, o) := RunBlocks(s, interruptAfter.value);
      (t, if o.Failed? then o else Failed(TransientFailure))
    else Script(s)
  }

  /** An attempt succeeds exactly when it gets the lock, keeps its connection and the script can complete; it never loses ground. */
  lemma AttemptSpec(s: Catalog, lockGranted: bool, interruptAfter: Option<nat>)
    requires WellFormed(s)
    ensures var (t, o) := Attempt(s, lockGranted, interruptAfter);
      && WellFormed(t) && Normal(t) == Normal(s) && CanComplete(t) == CanComplete(s)
      && (o == Done <==> lockGranted && Uninterrupted(interruptAfter) && CanComplete(s))
      && (o == Done ==> t == Normal(s))
  {
    if lockGranted {
      if !Uninterrupted(interruptAfter) {
        RunBlocksSpec(s, interruptAfter.value);
      } else {
        ScriptSpec(s);
      }
    }
  }

  /** Attempt `a` of the retry loop gets the lock and keeps its connection. */
  predicate Clean(lockGranted: nat -> bool, interruptAfter: nat -> Option<nat>, a: nat) {
    lockGranted(a) && Uninterrupted(interruptAfter(a))
  }

  /** StartAsync of the hosted service, on one database. */
  class StorageHostedService {
    const configureDatabase: bool
    var catalog: Catalog
    var lockHeld: bool

    constructor (configureDatabase: bool, catalog: Catalog)
      requires WellFormed(catalog)
      ensures this.configureDatabase == configureDatabase && this.catalog == catalog && !lockHeld
    {
      this.configureDatabase := configureDatabase;
      this.catalog := catalog;
      lockHeld := false;
    }

    /**
     * The command: take the session lock, run the blocks, release the lock on
     * the success path and in the CATCH block before rethrowing.
     */
    method ExecuteScript(lockGranted: bool, interruptAfter: Option<nat>) returns (r: Outcome)
      requires !lockHeld
      modifies this`catalog, this`lockHeld
      ensures !lockHeld
      ensures (catalog, r) == Attempt(old(catalog), lockGranted, interruptAfter)
    {
      if !lockGranted {
        return Failed(SchemaLockNotAcquired);
      }
      lockHeld := true;
      var limit := if Uninterrupted(interruptAfter) then BlockCount else interruptAfter.value;
      var i := 0;
      while i < limit
        invariant 0 <= i <= limit <= BlockCount
        invariant lockHeld
        invariant RunBlocks(old(catalog), i) == (catalog, Done)
      {
        var b := Block(Steps[i], catalog);
        if b.Err? {
          lockHeld := false;
          RunBlocksStuck(old(catalog), i + 1, limit);
          return Failed(b.error);
        }
        catalog := b.value;
        i := i + 1;
      }
      lockHeld := false;
      r := if limit < BlockCount then Failed(TransientFailure) else Done;
    }

    /**
     * StartAsync: nothing when ConfigureDatabase is off; otherwise the command
     * is attempted until it succeeds, and the fourth failure is rethrown.
     */
    method Start(lockGranted: nat -> bool, interruptAfter: nat -> Option<nat>) returns (r: Outcome, attempts: nat)
      requires WellFormed(catalog) && !lockHeld
      modifies this`catalog, this`lockHeld
      ensures !lockHeld && WellFormed(catalog)
      ensures !configureDatabase ==> r == Done && attempts == 0 && catalog == old(catalog)
      ensures configureDatabase ==> 1 <= attempts <= 4 && Normal(catalog) == Normal(old(catalog))
      ensures configureDatabase ==>
        (r == Done <==> CanComplete(old(catalog)) && exists a :: 0 <= a < 4 && Clean(lockGranted, interruptAfter, a))
      ensures configureDatabase && r == Done ==>
        && catalog == Normal(old(catalog))
        && Clean(lockGranted, interruptAfter, attempts - 1)
        && forall a :: 0 <= a < attempts - 1 ==> !Clean(lockGranted, interruptAfter, a)
      ensures r.Failed? ==> attempts == 4
    {
      if !configureDatabase {
        return Done, 0;
      }
      ghost var s0 := catalog;
      var retry := true;
      var retryCount := 0;
      while retry
        invariant 0 <= retryCount <= 3
        invariant !lockHeld && WellFormed(catalog)
        invariant Normal(catalog) == Normal(s0) && CanComplete(catalog) == CanComplete(s0)
        invariant forall a :: 0 <= a < retryCount ==> !(CanComplete(s0) && Clean(lockGranted, interruptAfter, a))
        invariant !retry ==> CanComplete(s0) && Clean(lockGranted, interruptAfter, retryCount) && catalog == Normal(s0)
        decreases retry, 3 - retryCount
      {
        AttemptSpec(catalog, lockGranted(retryCount), interruptAfter(retryCount));
        var outcome := ExecuteScript(lockGranted(retryCount), interruptAfter(retryCount));
        if outcome == Done {
          retry := false;
        } else {
          retryCount := retryCount + 1;
          if retryCount > 3 {
            return outcome, 4;
          }
        }
      }
      r, attempts := Done, retryCount + 1;
    }
  }
}
