/**
 * The primitive event store: the PrimitiveEvent table keyed by (Id, Version).
 * Reads are functions of the table contents; `PrimitiveEventRepository`
 * applies the writes (an ordered insert loop, a delete) to the database.
 */
module PrimitiveEvents {
  import opened Base
  import opened Tables
  import opened Ordering
  import opened EventTypes

  // ---------------------------------------------------------------------------
  // Aggregates over SequenceNumber

  /** `MAX(SequenceNumber)`: NULL when no row has a sequence number. */
  function MaxSequence(rows: seq<EventRow>): (r: Option<Int64>)
    ensures r.None? <==> forall row :: row in rows ==> row.sequenceNumber.None?
    ensures r.Some? ==> exists row :: row in rows && row.sequenceNumber == r
    ensures r.Some? ==> forall row :: row in rows && row.sequenceNumber.Some? ==> row.sequenceNumber.value <= r.value
  {
    if rows == [] then None
    else
      assert forall row :: row in rows <==> row == rows[0] || row in rows[1..];
      var rest := MaxSequence(rows[1..]);
      match rows[0].sequenceNumber
      case None => rest
      case Some(n) => if rest.Some? && rest.value >= n then rest else Some(n)
  }

  /** `ISNULL(..., 0)`. */
  function IsNullZero(m: Option<Int64>): Int64 {
    match m
    case None => 0
    case Some(n) => n
  }

  /** GetMaxSequenceNumberAsync: `ISNULL(MAX(SequenceNumber), 0)` over the whole table. */
  function MaxSequenceNumber(rows: seq<EventRow>): (r: Int64)
    ensures (forall row :: row in rows ==> row.sequenceNumber.None?) ==> r == 0
    ensures forall row :: row in rows && row.sequenceNumber.Some? ==> row.sequenceNumber.value <= r
    ensures (exists row :: row in rows && row.sequenceNumber.Some?) ==>
      exists row :: row in rows && row.sequenceNumber == Some(r)
  {
    IsNullZero(MaxSequence(rows))
  }

  /** GetSequenceNumberAsync(id): the same aggregate over the rows whose EventId (not Id) is `eventId`. */
  function SequenceNumberOf(rows: seq<EventRow>, eventId: Guid): (r: Int64)
    ensures (forall row :: row in rows && row.eventId == eventId ==> row.sequenceNumber.None?) ==> r == 0
    ensures forall row :: row in rows && row.eventId == eventId && row.sequenceNumber.Some? ==>
      row.sequenceNumber.value <= r
    ensures (exists row :: row in rows && row.eventId == eventId && row.sequenceNumber.Some?) ==>
      exists row :: row in rows && row.eventId == eventId && row.sequenceNumber == Some(r)
  {
    MaxSequenceNumber(Filter((row: EventRow) => row.eventId == eventId, rows))
  }

  // ---------------------------------------------------------------------------
  // GetAsync and RemoveAsync

  function VersionKey(e: PrimitiveEvent): Option<int> {
    Some(e.version as int)
  }

  /** `WHERE Id = @Id`. */
  function IdIs(id: Guid): EventRow -> bool {
    (row: EventRow) => row.id == id
  }

  /** The rows of GetAsync's SELECT: rows with that Id joined to their type, `ORDER BY Version ASC`. */
  function GetQuery(types: seq<EventTypeRow>, rows: seq<EventRow>, id: Guid): seq<PrimitiveEvent> {
    SortBy(VersionKey, JoinAll(types, Filter(IdIs(id), rows)))
  }

  /** Filtering keeps the primary key unique. */
  lemma {:induction false} FilterKeepsKeysUnique(p: EventRow -> bool, rows: seq<EventRow>)
    requires EventKeysUnique(rows)
    ensures EventKeysUnique(Filter(p, rows))
  {
    if rows != [] {
      var rest := rows[1..];
      assert forall i :: 0 <= i < |rest| ==> rest[i] == rows[i + 1];
      FilterKeepsKeysUnique(p, rest);
      if p(rows[0]) {
        var f := Filter(p, rest);
        forall k | 0 <= k < |f| ensures (f[k].id, f[k].version) != (rows[0].id, rows[0].version) {
          assert f[k] in f;
          var m :| 0 <= m < |rest| && rest[m] == f[k];
        }
        var g := [rows[0]] + f;
        assert forall k :: 1 <= k < |g| ==> g[k] == f[k - 1];
      }
    }
  }

  /** A version no row has is the version of no joined record. */
  lemma JoinedVersionAbsent(types: seq<EventTypeRow>, rows: seq<EventRow>, v: Int32)
    requires forall i :: 0 <= i < |rows| ==> rows[i].version != v
    ensures forall k :: 0 <= k < |JoinAll(types, rows)| ==> JoinAll(types, rows)[k].version != v
  {
    var joined := JoinAll(types, rows);
    forall k | 0 <= k < |joined| ensures joined[k].version != v {
      assert joined[k] in joined;
      var row :| row in rows && Joined(types, row) == Some(joined[k]);
      var m :| 0 <= m < |rows| && rows[m] == row;
    }
  }

  /** Rows of one Id with a unique primary key join to records of distinct versions. */
  lemma {:induction false} JoinedVersionsDistinct(types: seq<EventTypeRow>, rows: seq<EventRow>, id: Guid)
    requires EventKeysUnique(rows)
    requires forall i :: 0 <= i < |rows| ==> rows[i].id == id
    ensures KeysDistinct(VersionKey, JoinAll(types, rows))
  {
    if rows != [] {
      var rest := rows[1..];
      forall i | 0 <= i < |rest| ensures rest[i].id == id && rest[i].version != rows[0].version {
        assert rest[i] == rows[i + 1];
      }
      assert EventKeysUnique(rest) by {
        forall i, j | 0 <= i < j < |rest| ensures (rest[i].id, rest[i].version) != (rest[j].id, rest[j].version) {
          assert rest[i] == rows[i + 1] && rest[j] == rows[j + 1];
        }
      }
      JoinedVersionsDistinct(types, rest, id);
      var tail := JoinAll(types, rest);
      match Joined(types, rows[0])
      case None =>
        assert JoinAll(types, rows) == tail;
      case Some(e) =>
        assert JoinAll(types, rows) == [e] + tail;
        JoinedVersionAbsent(types, rest, rows[0].version);
        KeysDistinctCons(VersionKey, e, tail);
    }
  }

  /** GetAsync returns exactly the joined rows of that Id, ordered by Version, strictly when the key holds. */
  lemma GetQueryCorrect(types: seq<EventTypeRow>, rows: seq<EventRow>, id: Guid)
    ensures forall e :: e in GetQuery(types, rows, id) <==>
      exists row :: row in rows && row.id == id && Joined(types, row) == Some(e)
    ensures SortedBy(VersionKey, GetQuery(types, rows, id))
    ensures EventKeysUnique(rows) ==> forall i, j :: 0 <= i < j < |GetQuery(types, rows, id)| ==>
      GetQuery(types, rows, id)[i].version < GetQuery(types, rows, id)[j].version
  {
    var joined := JoinAll(types, Filter(IdIs(id), rows));
    SortByCorrect(VersionKey, joined);
    forall e ensures e in GetQuery(types, rows, id) <==> e in joined {
      InMultiset(e, GetQuery(types, rows, id), joined);
    }
    if EventKeysUnique(rows) {
      GetQueryStrict(types, rows, id);
    }
  }

  /** With a unique primary key, the versions of one Id's history strictly increase. */
  lemma GetQueryStrict(types: seq<EventTypeRow>, rows: seq<EventRow>, id: Guid)
    requires EventKeysUnique(rows)
    ensures forall i, j :: 0 <= i < j < |GetQuery(types, rows, id)| ==>
      GetQuery(types, rows, id)[i].version < GetQuery(types, rows, id)[j].version
  {
    var f := Filter(IdIs(id), rows);
    FilterKeepsKeysUnique(IdIs(id), rows);
    assert forall i :: 0 <= i < |f| ==> f[i] in f;
    JoinedVersionsDistinct(types, f, id);
    SortByStrict(VersionKey, JoinAll(types, f));
  }

  /** RemoveAsync(id): `DELETE FROM PrimitiveEvent WHERE Id = @Id`. */
  function RemoveRows(rows: seq<EventRow>, id: Guid): (r: seq<EventRow>)
    ensures forall row :: row in r <==> row in rows && row.id != id
  {
    Filter((row: EventRow) => row.id != id, rows)
  }

  lemma {:induction false} RemoveKeepsOtherIds(rows: seq<EventRow>, id: Guid, other: Guid)
    requires other != id
    ensures Filter(IdIs(other), RemoveRows(rows, id)) == Filter(IdIs(other), rows)
  {
    if rows != [] {
      RemoveKeepsOtherIds(rows[1..], id, other);
    }
  }

  /** After removing an id its history is empty, and every other id's history is unchanged. */
  lemma RemoveThenGet(types: seq<EventTypeRow>, rows: seq<EventRow>, id: Guid, other: Guid)
    ensures GetQuery(types, RemoveRows(rows, id), id) == []
    ensures other != id ==> GetQuery(types, RemoveRows(rows, id), other) == GetQuery(types, rows, other)
  {
    if other != id {
      RemoveKeepsOtherIds(rows, id, other);
    }
  }

  // ---------------------------------------------------------------------------
  // SaveAsync as a function of the registry and the table

  predicate HasEventKey(rows: seq<EventRow>, id: Guid, version: Int32) {
    exists i :: 0 <= i < |rows| && rows[i].id == id && rows[i].version == version
  }

  /** The row the INSERT writes for `e` once its type name resolved to `typeId`. */
  function RowOf(e: PrimitiveEvent, typeId: Guid): EventRow {
    EventRow(e.id, e.version, e.correlationId, e.envelope, e.eventId, typeId, e.dateRegistered, e.sequenceNumber)
  }

  /** What a save has done so far: registry and table contents, the running maximum, the first failure. */
  datatype SaveState = SaveState(
    cache: map<string, Guid>,
    types: seq<EventTypeRow>,
    rows: seq<EventRow>,
    max: Int64,
    failure: Option<Error>)

  /** One iteration of the foreach: resolve the type, insert the row, update the maximum. */
  function SaveStep(s: SaveState, e: PrimitiveEvent, newId: Guid): SaveState {
    if s.failure.Some? then s
    else
      var res := Resolve(s.cache, s.types, e.eventType, newId);
      if res.result.Err? then s.(cache := res.cache, types := res.types, failure := Some(res.result.error))
      else if HasEventKey(s.rows, e.id, e.version) then
        s.(cache := res.cache, types := res.types, failure := Some(PrimaryKeyViolation))
      else
        s.(cache := res.cache, types := res.types, rows := s.rows + [RowOf(e, res.result.value)],
           max := if e.sequenceNumber.Some? && e.sequenceNumber.value > s.max then e.sequenceNumber.value else s.max)
  }

  function SaveAll(s: SaveState, events: seq<PrimitiveEvent>, newIds: seq<Guid>): SaveState
    requires |events| == |newIds|
    decreases |events|
  {
    if events == [] then s
    else
      var n := |events| - 1;
      SaveStep(SaveAll(s, events[..n], newIds[..n]), events[n], newIds[n])
  }

  /** `row` was written for `e`: its columns are e's, and its EventTypeId names a type of e's name up to case. */
  ghost predicate Saved(types: seq<EventTypeRow>, row: EventRow, e: PrimitiveEvent) {
    && row == RowOf(e, row.eventTypeId)
    && exists j :: 0 <= j < |types| && types[j].id == row.eventTypeId && Lower(types[j].typeName) == Lower(e.eventType)
  }

  /** Once a save has failed, the remaining events change nothing. */
  lemma {:induction false} SaveAllStuck(s: SaveState, events: seq<PrimitiveEvent>, newIds: seq<Guid>, k: nat)
    requires |events| == |newIds| && k <= |events|
    requires SaveAll(s, events[..k], newIds[..k]).failure.Some?
    ensures SaveAll(s, events, newIds) == SaveAll(s, events[..k], newIds[..k])
    decreases |events|
  {
    if k < |events| {
      var n := |events| - 1;
      assert events[..n][..k] == events[..k] && newIds[..n][..k] == newIds[..k];
      SaveAllStuck(s, events[..n], newIds[..n], k);
      var p := SaveAll(s, events[..n], newIds[..n]);
      assert p.failure.Some?;
      assert SaveAll(s, events, newIds) == SaveStep(p, events[n], newIds[n]) == p;
    } else {
      assert events[..k] == events && newIds[..k] == newIds;
    }
  }

  /** The save of one more event is one more step. */
  lemma SaveAllPrefix(s: SaveState, events: seq<PrimitiveEvent>, newIds: seq<Guid>, i: nat)
    requires |events| == |newIds| && i < |events|
    ensures SaveAll(s, events[..i + 1], newIds[..i + 1]) == SaveStep(SaveAll(s, events[..i], newIds[..i]), events[i], newIds[i])
  {
    assert events[..i + 1][..i] == events[..i] && newIds[..i + 1][..i] == newIds[..i];
  }

  /** A saved row stays saved when the type table gains rows. */
  lemma SavedGrows(types: seq<EventTypeRow>, types': seq<EventTypeRow>, row: EventRow, e: PrimitiveEvent)
    requires types <= types' && Saved(types, row, e)
    ensures Saved(types', row, e)
  {
    var j :| 0 <= j < |types| && types[j].id == row.eventTypeId && Lower(types[j].typeName) == Lower(e.eventType);
    assert types'[j] == types[j];
  }

  /** Appending a row whose key is absent keeps the primary key unique. */
  lemma AppendFreshKey(rows: seq<EventRow>, row: EventRow)
    requires EventKeysUnique(rows) && !HasEventKey(rows, row.id, row.version)
    ensures EventKeysUnique(rows + [row])
  {
    var all := rows + [row];
    forall i, j | 0 <= i < j < |all| ensures (all[i].id, all[i].version) != (all[j].id, all[j].version) {
      assert all[i] == rows[i];
      if j < |rows| {
        assert all[j] == rows[j];
      }
    }
  }

  /** A successful step appended exactly the event's row, with a type Id registered under its name. */
  lemma SaveStepAppends(p: SaveState, e: PrimitiveEvent, newId: Guid)
    requires p.failure.None? && CacheValid(p.cache, p.types)
    requires SaveStep(p, e, newId).failure.None?
    ensures var r := SaveStep(p, e, newId);
      && |r.rows| == |p.rows| + 1 && r.rows[..|p.rows|] == p.rows
      && !HasEventKey(p.rows, e.id, e.version)
      && Saved(r.types, r.rows[|p.rows|], e)
  {
    var res := Resolve(p.cache, p.types, e.eventType, newId);
    var r := SaveStep(p, e, newId);
    var key := Lower(e.eventType);
    assert key in res.cache && res.cache[key] == res.result.value;
    var j :| 0 <= j < |res.types| && res.types[j].id == res.cache[key] && Lower(res.types[j].typeName) == key;
    assert r.rows == p.rows + [RowOf(e, res.result.value)];
    assert r.rows[..|p.rows|] == p.rows;
  }

  /** One step either appends the event's row or records a failure and appends nothing. */
  lemma SaveStepInserts(p: SaveState, e: PrimitiveEvent, newId: Guid)
    requires p.failure.None? && CacheValid(p.cache, p.types)
    ensures var r := SaveStep(p, e, newId);
      && p.types <= r.types
      && CacheValid(r.cache, r.types)
      && (r.failure.Some? ==> r.rows == p.rows)
      && (r.failure.None? ==> |r.rows| == |p.rows| + 1 && r.rows[..|p.rows|] == p.rows
                              && Saved(r.types, r.rows[|p.rows|], e))
      && (EventKeysUnique(p.rows) ==> EventKeysUnique(r.rows))
  {
    ResolveKeepsCacheValid(p.cache, p.types, e.eventType, newId);
    var r := SaveStep(p, e, newId);
    if r.failure.None? {
      SaveStepAppends(p, e, newId);
      if EventKeysUnique(p.rows) {
        AppendFreshKey(p.rows, r.rows[|p.rows|]);
        assert r.rows == p.rows + [r.rows[|p.rows|]];
      }
    }
  }

  /** Every row a save has appended after `base` was written for the event at the same position. */
  ghost predicate SavedInOrder(base: seq<EventRow>, r: SaveState, events: seq<PrimitiveEvent>) {
    && base <= r.rows
    && |r.rows| - |base| <= |events|
    && forall i :: 0 <= i < |r.rows| - |base| ==> Saved(r.types, r.rows[|base| + i], events[i])
  }

  /**
   * SaveAsync inserts the events in order, one row each; on a failure the rows
   * of the events before it stay inserted and the failing event's row is not.
   */
  lemma {:induction false} SaveAllInserts(s: SaveState, events: seq<PrimitiveEvent>, newIds: seq<Guid>)
    requires |events| == |newIds| && s.failure.None? && CacheValid(s.cache, s.types)
    ensures var r := SaveAll(s, events, newIds);
      && SavedInOrder(s.rows, r, events)
      && s.types <= r.types
      && (r.failure.None? <==> |r.rows| - |s.rows| == |events|)
      && CacheValid(r.cache, r.types)
      && (EventKeysUnique(s.rows) ==> EventKeysUnique(r.rows))
    decreases |events|
  {
    if events != [] {
      var n := |events| - 1;
      SaveAllInserts(s, events[..n], newIds[..n]);
      var p := SaveAll(s, events[..n], newIds[..n]);
      if p.failure.None? {
        SaveStepInserts(p, events[n], newIds[n]);
        var r := SaveStep(p, events[n], newIds[n]);
        SavedInOrderStep(s.rows, p, r, events, n);
      } else {
        assert SaveAll(s, events, newIds) == p;
        assert forall i :: 0 <= i < n ==> events[..n][i] == events[i];
      }
    }
  }

  lemma SavedInOrderStep(base: seq<EventRow>, p: SaveState, r: SaveState, events: seq<PrimitiveEvent>, n: nat)
    requires n < |events| && SavedInOrder(base, p, events[..n]) && |p.rows| - |base| == n
    requires p.types <= r.types
    requires r.rows == p.rows || (|r.rows| == |p.rows| + 1 && r.rows[..|p.rows|] == p.rows && Saved(r.types, r.rows[|p.rows|], events[n]))
    ensures SavedInOrder(base, r, events)
  {
    forall i | 0 <= i < |r.rows| - |base| ensures Saved(r.types, r.rows[|base| + i], events[i]) {
      if i < n {
        assert r.rows[|base| + i] == p.rows[|base| + i];
        assert events[..n][i] == events[i];
        SavedGrows(p.types, r.types, p.rows[|base| + i], events[i]);
      }
    }
  }

  /** An event whose (Id, Version) is already stored fails and inserts nothing. */
  lemma SaveExistingKeyFails(s: SaveState, e: PrimitiveEvent, newId: Guid)
    requires s.failure.None? && HasEventKey(s.rows, e.id, e.version)
    ensures SaveStep(s, e, newId).failure.Some?
    ensures SaveStep(s, e, newId).rows == s.rows
  {
  }

  lemma SaveStepMax(p: SaveState, e: PrimitiveEvent, newId: Guid)
    requires SaveStep(p, e, newId).failure.None?
    ensures var r := SaveStep(p, e, newId);
      && p.failure.None? && r.max >= p.max
      && (e.sequenceNumber.Some? ==> e.sequenceNumber.value <= r.max)
      && (r.max == p.max || e.sequenceNumber == Some(r.max))
  {
  }

  /** `m` is the largest supplied SequenceNumber of `events`, or `start` if none is larger. */
  ghost predicate MaxCovers(events: seq<PrimitiveEvent>, start: Int64, m: Int64) {
    && m >= start
    && (forall i :: 0 <= i < |events| && events[i].sequenceNumber.Some? ==> events[i].sequenceNumber.value <= m)
    && (m == start || exists i :: 0 <= i < |events| && events[i].sequenceNumber == Some(m))
  }

  /** Extending the events by one whose number is covered by the new maximum. */
  lemma MaxCoversSnoc(events: seq<PrimitiveEvent>, start: Int64, m: Int64, m': Int64)
    requires events != [] && MaxCovers(events[..|events| - 1], start, m)
    requires var e := events[|events| - 1];
      && m' >= m && (e.sequenceNumber.Some? ==> e.sequenceNumber.value <= m')
      && (m' == m || e.sequenceNumber == Some(m'))
    ensures MaxCovers(events, start, m')
  {
    var n := |events| - 1;
    assert forall i :: 0 <= i < n ==> events[..n][i] == events[i];
    if m' != start {
      if m' == m {
        var i :| 0 <= i < n && events[..n][i].sequenceNumber == Some(m);
        assert events[i].sequenceNumber == Some(m');
      } else {
        assert events[n].sequenceNumber == Some(m');
      }
    }
  }

  /** A completed save returns the largest supplied SequenceNumber, or the starting value if none is larger. */
  lemma {:induction false} SaveAllMax(s: SaveState, events: seq<PrimitiveEvent>, newIds: seq<Guid>)
    requires |events| == |newIds|
    requires SaveAll(s, events, newIds).failure.None?
    ensures MaxCovers(events, s.max, SaveAll(s, events, newIds).max)
    decreases |events|
  {
    if events != [] {
      var n := |events| - 1;
      var p := SaveAll(s, events[..n], newIds[..n]);
      SaveStepMax(p, events[n], newIds[n]);
      SaveAllMax(s, events[..n], newIds[..n]);
      MaxCoversSnoc(events, s.max, p.max, SaveAll(s, events, newIds).max);
    }
  }

  // ---------------------------------------------------------------------------
  // The repository

  class PrimitiveEventRepository {
    const db: Database
    const registry: EventTypeRepository

    constructor (db: Database, registry: EventTypeRepository)
      requires registry.db == db
      ensures this.db == db && this.registry == registry
    {
      this.db := db;
      this.registry := registry;
    }

    /** GetAsync: the reader loop appends one record per row of the ordered query. */
    method Get(id: Guid) returns (result: seq<PrimitiveEvent>)
      ensures forall e :: e in result <==>
        exists row :: row in db.events && row.id == id && Joined(db.eventTypes, row) == Some(e)
      ensures SortedBy(VersionKey, result)
      ensures EventKeysUnique(db.events) ==>
        forall i, j :: 0 <= i < j < |result| ==> result[i].version < result[j].version
    {
      var reader := GetQuery(db.eventTypes, db.events, id);
      result := ReadEvents(reader);
      GetQueryCorrect(db.eventTypes, db.events, id);
    }

    /** GetMaxSequenceNumberAsync. */
    method GetMaxSequenceNumber() returns (r: Int64)
      ensures r == MaxSequenceNumber(db.events)
    {
      r := MaxSequenceNumber(db.events);
    }

    /** GetSequenceNumberAsync(id). */
    method GetSequenceNumber(eventId: Guid) returns (r: Int64)
      ensures r == SequenceNumberOf(db.events, eventId)
    {
      r := SequenceNumberOf(db.events, eventId);
    }

    /** RemoveAsync(id). */
    method Remove(id: Guid)
      modifies db`events
      ensures db.events == RemoveRows(old(db.events), id)
    {
      db.events := RemoveRows(db.events, id);
    }

    /**
     * SaveAsync: for each event in order, resolve its type name, insert its
     * row, and keep the largest supplied SequenceNumber (starting from 0).
     * `newIds[i]` is the `Guid.NewGuid()` the i-th type resolution would use.
     */
    method Save(events: seq<PrimitiveEvent>, newIds: seq<Guid>) returns (r: Result<Int64>)
      requires |newIds| == |events|
      requires registry.db == db && !registry.lockHeld
      modifies db`events, db`eventTypes, registry`cache, registry`lockHeld
      ensures !registry.lockHeld
      ensures var s := SaveAll(SaveState(old(registry.cache), old(db.eventTypes), old(db.events), 0, None), events, newIds);
        && registry.cache == s.cache && db.eventTypes == s.types && db.events == s.rows
        && r == (if s.failure.None? then Ok(s.max) else Err(s.failure.value))
    {
      ghost var s0 := SaveState(registry.cache, db.eventTypes, db.events, 0, None);
      var maxSequenceNumber: Int64 := 0;
      var i := 0;
      while i < |events|
        invariant 0 <= i <= |events|
        invariant !registry.lockHeld
        invariant SaveAll(s0, events[..i], newIds[..i]) ==
          SaveState(registry.cache, db.eventTypes, db.events, maxSequenceNumber, None)
      {
        SaveAllPrefix(s0, events, newIds, i);
        ghost var p := SaveState(registry.cache, db.eventTypes, db.events, maxSequenceNumber, None);
        var e := events[i];
        var typeId := registry.GetId(e.eventType, newIds[i]);
        assert SaveStep(p, e, newIds[i]) == SaveAll(s0, events[..i + 1], newIds[..i + 1]);
        if typeId.Err? {
          SaveAllStuck(s0, events, newIds, i + 1);
          return Err(typeId.error);
        }
        if HasEventKey(db.events, e.id, e.version) {
          SaveAllStuck(s0, events, newIds, i + 1);
          return Err(PrimaryKeyViolation);
        }
        db.events := db.events + [RowOf(e, typeId.value)];
        if e.sequenceNumber.Some? && e.sequenceNumber.value > maxSequenceNumber {
          maxSequenceNumber := e.sequenceNumber.value;
        }
        i := i + 1;
      }
      assert events[..i] == events && newIds[..i] == newIds;
      r := Ok(maxSequenceNumber);
    }
  }
}
