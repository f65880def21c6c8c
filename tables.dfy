/**
 * The three tables the storage engine owns, with the column layout the startup
 * schema script creates, and the record the repositories hand back to callers.
 * The class `Database` holds the current contents of the tables; every
 * repository works against one `Database`.
 */
module Tables {
  import opened Base

  /** A row of [schema].[EventType]: primary key Id, unique index on TypeName. */
  datatype EventTypeRow = EventTypeRow(id: Guid, typeName: string)

  /** A row of [schema].[PrimitiveEvent]: primary key (Id, Version). */
  datatype EventRow = EventRow(
    id: Guid,
    version: Int32,
    correlationId: Option<Guid>,
    envelope: Bytes,
    eventId: Guid,
    eventTypeId: Guid,
    dateRegistered: Timestamp,
    sequenceNumber: Option<Int64>)

  /** [schema].[IdKey]: UniqueKey is the primary key, so the table is a map from key to Id. */
  type IdKeyTable = map<string, Guid>

  /**
   * The event record read and written by the repositories: a PrimitiveEvent row
   * whose event type is named by its TypeName rather than by its EventType Id.
   */
  datatype PrimitiveEvent = PrimitiveEvent(
    id: Guid,
    version: Int32,
    eventId: Guid,
    envelope: Bytes,
    sequenceNumber: Option<Int64>,
    dateRegistered: Timestamp,
    correlationId: Option<Guid>,
    eventType: string)

  /** No two rows share an (Id, Version) pair: the PrimitiveEvent primary key holds. */
  ghost predicate EventKeysUnique(rows: seq<EventRow>) {
    forall i, j :: 0 <= i < j < |rows| ==>
      (rows[i].id, rows[i].version) != (rows[j].id, rows[j].version)
  }

  /** No two EventType rows share an Id (primary key). */
  ghost predicate TypeIdsUnique(types: seq<EventTypeRow>) {
    forall i, j :: 0 <= i < j < |types| ==> types[i].id != types[j].id
  }

  /** Some row of the type table carries `id`. */
  predicate HasTypeId(types: seq<EventTypeRow>, id: Guid) {
    exists i :: 0 <= i < |types| && types[i].id == id
  }

  /** The TypeName of the first type row with Id `id`, as the INNER JOIN on EventTypeId finds it. */
  function TypeNameOf(types: seq<EventTypeRow>, id: Guid): (r: Option<string>)
    ensures r.Some? <==> HasTypeId(types, id)
    ensures r.Some? ==> exists i :: 0 <= i < |types| && types[i] == EventTypeRow(id, r.value)
  {
    if types == [] then None
    else if types[0].id == id then Some(types[0].typeName)
    else
      var r := TypeNameOf(types[1..], id);
      assert forall i :: 0 <= i < |types| - 1 ==> types[1..][i] == types[i + 1];
      assert HasTypeId(types, id) ==> HasTypeId(types[1..], id) by {
        if HasTypeId(types, id) {
          var i :| 0 <= i < |types| && types[i].id == id;
          assert types[1..][i - 1].id == id;
        }
      }
      r
  }

  /** The joined record of one event row when its EventTypeId names a type row. */
  function Joined(types: seq<EventTypeRow>, row: EventRow): (r: Option<PrimitiveEvent>)
    ensures r.Some? <==> HasTypeId(types, row.eventTypeId)
    ensures r.Some? ==> r.value.id == row.id && r.value.version == row.version
    ensures r.Some? ==> r.value.sequenceNumber == row.sequenceNumber
  {
    match TypeNameOf(types, row.eventTypeId)
    case None => None
    case Some(name) =>
      Some(PrimitiveEvent(row.id, row.version, row.eventId, row.envelope, row.sequenceNumber,
                          row.dateRegistered, row.correlationId, name))
  }

  /** `WHERE p`: the rows satisfying `p`, in table order. */
  function Filter<T(!new)>(p: T -> bool, s: seq<T>): (r: seq<T>)
    ensures |r| <= |s|
    ensures forall x :: x in r <==> x in s && p(x)
  {
    if s == [] then []
    else if p(s[0]) then [s[0]] + Filter(p, s[1..])
    else Filter(p, s[1..])
  }

  /** `INNER JOIN EventType ON EventTypeId = EventType.Id`: the rows whose type exists, as records. */
  function JoinAll(types: seq<EventTypeRow>, rows: seq<EventRow>): (r: seq<PrimitiveEvent>)
    ensures |r| <= |rows|
    ensures forall e :: e in r <==> exists row :: row in rows && Joined(types, row) == Some(e)
  {
    if rows == [] then []
    else
      var rest := JoinAll(types, rows[1..]);
      assert forall row :: row in rows <==> row == rows[0] || row in rows[1..];
      match Joined(types, rows[0])
      case Some(e) => [e] + rest
      case None => rest
  }

  /**
   * The reader loop: while the data reader has a row, build a record from its
   * columns and append it. The record reads back every column it was given.
   */
  method ReadEvents(reader: seq<PrimitiveEvent>) returns (result: seq<PrimitiveEvent>)
    ensures result == reader
  {
    result := [];
    var i := 0;
    while i < |reader|
      invariant 0 <= i <= |reader|
      invariant result == reader[..i]
    {
      var row := reader[i];
      result := result + [PrimitiveEvent(row.id, row.version, row.eventId, row.envelope, row.sequenceNumber,
                                         row.dateRegistered, row.correlationId, row.eventType)];
      i := i + 1;
    }
  }

  /** The contents of the storage engine's tables in one database schema. */
  class Database {
    var eventTypes: seq<EventTypeRow>
    var events: seq<EventRow>
    var idKeys: IdKeyTable

    /** The database right after the schema script created empty tables. */
    constructor Empty()
      ensures eventTypes == [] && events == [] && idKeys == map[]
    {
      eventTypes, events, idKeys := [], [], map[];
    }
  }
}
