/**
 * Event-type interning: an in-memory cache, keyed by the lower-cased type
 * name, over an insert-if-absent-then-select on the EventType table. The
 * cache is consulted and filled under one lock; in this sequential model the
 * lock is a flag that is set on entry and cleared on every exit path.
 */
module EventTypes {
  import opened Base
  import opened Tables

  // ---------------------------------------------------------------------------
  // Case folding

  /** Lower-casing of one character (ASCII letters only; other characters are unchanged). */
  function LowerChar(c: char): char {
    if 'A' <= c <= 'Z' then (c as int + 32) as char else c
  }

  /** `string.ToLower()`, character by character. */
  function Lower(s: string): (r: string)
    ensures |r| == |s|
    ensures forall i :: 0 <= i < |s| ==> r[i] == LowerChar(s[i])
  {
    if s == [] then [] else [LowerChar(s[0])] + Lower(s[1..])
  }

  lemma LowerIdempotent(s: string)
    ensures Lower(Lower(s)) == Lower(s)
  {
    assert forall i :: 0 <= i < |s| ==> LowerChar(LowerChar(s[i])) == LowerChar(s[i]);
  }

  // ---------------------------------------------------------------------------
  // The type table

  predicate HasTypeName(types: seq<EventTypeRow>, name: string) {
    exists i :: 0 <= i < |types| && types[i].typeName == name
  }

  /** No two type rows share a TypeName: the unique index IX_EventType holds. */
  ghost predicate TypeNamesUnique(types: seq<EventTypeRow>) {
    forall i, j :: 0 <= i < j < |types| ==> types[i].typeName != types[j].typeName
  }

  /** `SELECT Id FROM EventType WHERE TypeName = @TypeName`, first row or null. */
  function IdOfName(types: seq<EventTypeRow>, name: string): (r: Option<Guid>)
    ensures r.Some? <==> HasTypeName(types, name)
    ensures r.Some? ==> exists i :: 0 <= i < |types| && types[i] == EventTypeRow(r.value, name)
  {
    if types == [] then None
    else if types[0].typeName == name then Some(types[0].id)
    else
      var r := IdOfName(types[1..], name);
      assert forall i :: 0 <= i < |types| - 1 ==> types[1..][i] == types[i + 1];
      assert HasTypeName(types, name) ==> HasTypeName(types[1..], name) by {
        if HasTypeName(types, name) {
          var i :| 0 <= i < |types| && types[i].typeName == name;
          assert types[1..][i - 1].typeName == name;
        }
      }
      r
  }

  /**
   * `IF NOT EXISTS (... WHERE TypeName = @TypeName) INSERT (@Id, @TypeName)`.
   * The insert is skipped when the name is present; an Id already in the table
   * violates the primary key.
   */
  function InsertIfAbsent(types: seq<EventTypeRow>, name: string, newId: Guid): (r: Result<seq<EventTypeRow>>)
    ensures HasTypeName(types, name) ==> r == Ok(types)
    ensures r.Err? <==> !HasTypeName(types, name) && HasTypeId(types, newId)
    ensures r.Err? ==> r.error == PrimaryKeyViolation
    ensures r.Ok? ==> HasTypeName(r.value, name) && types <= r.value && |r.value| <= |types| + 1
    ensures r.Ok? && |r.value| > |types| ==> r.value[|types|] == EventTypeRow(newId, name)
    ensures r.Ok? && TypeNamesUnique(types) ==> TypeNamesUnique(r.value)
    ensures r.Ok? && TypeIdsUnique(types) ==> TypeIdsUnique(r.value)
  {
    if HasTypeName(types, name) then Ok(types)
    else if HasTypeId(types, newId) then Err(PrimaryKeyViolation)
    else
      var t := types + [EventTypeRow(newId, name)];
      assert t[|types|].typeName == name;
      Ok(t)
  }

  // ---------------------------------------------------------------------------
  // GetIdAsync as a function of the cache and the table

  datatype Resolution = Resolution(result: Result<Guid>, cache: map<string, Guid>, types: seq<EventTypeRow>)

  /** Every cached id names a type row whose name lower-cases to the cache key. */
  ghost predicate CacheValid(cache: map<string, Guid>, types: seq<EventTypeRow>) {
    forall k :: k in cache ==>
      exists i :: 0 <= i < |types| && types[i].id == cache[k] && Lower(types[i].typeName) == k
  }

  function Resolve(cache: map<string, Guid>, types: seq<EventTypeRow>, typeName: string, newId: Guid): (r: Resolution)
    // an empty name is rejected before the cache or the table is looked at
    ensures typeName == "" ==> r == Resolution(Err(ArgumentEmpty), cache, types)
    // a cache hit returns the cached id and touches no table
    ensures typeName != "" && Lower(typeName) in cache ==>
      r == Resolution(Ok(cache[Lower(typeName)]), cache, types)
    // the cache only grows: no entry is replaced or removed
    ensures forall k :: k in cache ==> k in r.cache && r.cache[k] == cache[k]
    ensures r.cache.Keys <= cache.Keys + {Lower(typeName)}
    // a returned id is the one now cached under the lower-cased name
    ensures r.result.Ok? ==> Lower(typeName) in r.cache && r.cache[Lower(typeName)] == r.result.value
    // on a miss the id is the one stored in the table for that name
    ensures typeName != "" && Lower(typeName) !in cache && r.result.Ok? ==>
      IdOfName(r.types, typeName) == Some(r.result.value)
    // the table only gains rows, and a failed insert changes nothing
    ensures types <= r.types
    ensures r.result.Err? ==> r.cache == cache && r.types == types
    ensures r.result.Err? && typeName != "" ==>
      r.result.error == PrimaryKeyViolation && Lower(typeName) !in cache
  {
    if typeName == "" then Resolution(Err(ArgumentEmpty), cache, types)
    else
      var key := Lower(typeName);
      if key in cache then Resolution(Ok(cache[key]), cache, types)
      else
        match InsertIfAbsent(types, typeName, newId)
        case Err(e) => Resolution(Err(e), cache, types)
        case Ok(types') =>
          match IdOfName(types', typeName)
          case Some(id) => Resolution(Ok(id), cache[key := id], types')
          case None => Resolution(Err(KeyNotFound), cache, types')
  }

  /** Resolving keeps every cached id pointing at a type row of the matching name. */
  lemma ResolveKeepsCacheValid(cache: map<string, Guid>, types: seq<EventTypeRow>, typeName: string, newId: Guid)
    requires CacheValid(cache, types)
    ensures CacheValid(Resolve(cache, types, typeName, newId).cache, Resolve(cache, types, typeName, newId).types)
  {
    var r := Resolve(cache, types, typeName, newId);
    forall k | k in r.cache
      ensures exists i :: 0 <= i < |r.types| && r.types[i].id == r.cache[k] && Lower(r.types[i].typeName) == k
    {
      if k in cache {
        var i :| 0 <= i < |types| && types[i].id == cache[k] && Lower(types[i].typeName) == k;
        assert r.types[i] == types[i];
      } else {
        assert k == Lower(typeName) && r.result.Ok?;
        var i :| 0 <= i < |r.types| && r.types[i] == EventTypeRow(r.result.value, typeName);
      }
    }
  }

  /** Once a name resolves, resolving it again returns the same id and changes nothing. */
  lemma ResolveStable(cache: map<string, Guid>, types: seq<EventTypeRow>, typeName: string, newId: Guid, newId2: Guid)
    requires Resolve(cache, types, typeName, newId).result.Ok?
    ensures var r := Resolve(cache, types, typeName, newId);
      Resolve(r.cache, r.types, typeName, newId2) == Resolution(r.result, r.cache, r.types)
  {
  }

  /** Names that differ only in letter case share one cached id. */
  lemma CaseInsensitiveSharing(cache: map<string, Guid>, types: seq<EventTypeRow>, a: string, b: string, newId: Guid, newId2: Guid)
    requires b != "" && Lower(a) == Lower(b)
    requires Resolve(cache, types, a, newId).result.Ok?
    ensures var r := Resolve(cache, types, a, newId);
      Resolve(r.cache, r.types, b, newId2) == Resolution(r.result, r.cache, r.types)
  {
  }

  /** With a successful insert-if-absent the select always finds a row, so the null result cannot occur. */
  lemma MissNeverYieldsNull(cache: map<string, Guid>, types: seq<EventTypeRow>, typeName: string, newId: Guid)
    requires typeName != "" && Lower(typeName) !in cache && !(HasTypeId(types, newId) && !HasTypeName(types, typeName))
    ensures Resolve(cache, types, typeName, newId).result.Ok?
  {
  }

  // ---------------------------------------------------------------------------
  // The repository

  class EventTypeRepository {
    const db: Database
    var cache: map<string, Guid>
    var lockHeld: bool

    constructor (db: Database)
      ensures this.db == db && cache == map[] && !lockHeld
    {
      this.db := db;
      cache := map[];
      lockHeld := false;
    }

    /** GetIdAsync; `newId` is the value `Guid.NewGuid()` yields for the insert. */
    method GetId(typeName: string, newId: Guid) returns (r: Result<Guid>)
      requires !lockHeld
      modifies this`cache, this`lockHeld, db`eventTypes
      ensures !lockHeld
      ensures Resolution(r, cache, db.eventTypes) == Resolve(old(cache), old(db.eventTypes), typeName, newId)
    {
      if typeName == "" {
        return Err(ArgumentEmpty);
      }
      lockHeld := true;
      var key := Lower(typeName);
      if key !in cache {
        var inserted := InsertIfAbsent(db.eventTypes, typeName, newId);
        if inserted.Err? {
          lockHeld := false;
          return Err(inserted.error);
        }
        db.eventTypes := inserted.value;
        var selected := IdOfName(db.eventTypes, typeName);
        if selected.Some? {
          cache := cache[key := selected.value];
        }
      }
      if key in cache {
        r := Ok(cache[key]);
      } else {
        r := Err(KeyNotFound);
      }
      lockHeld := false;
    }
  }
}
