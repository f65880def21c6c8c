/**
 * The event search: type names are resolved to EventType ids one by one, then
 * one SELECT filters the joined event rows, orders them by SequenceNumber and
 * optionally keeps only the first rows. The WHERE clause is assembled as text;
 * an `IN (...)` filter is appended only when its condition is set.
 */
module Query {
  import opened Base
  import opened Tables
  import opened Ordering
  import opened EventTypes

  /** The search conditions handed to the query. */
  datatype SearchSpec = SearchSpec(
    eventTypes: seq<string>,
    ids: seq<Guid>,
    hasIds: bool,
    sequenceNumbers: seq<Int64>,
    hasSequenceNumbers: bool,
    sequenceNumberStart: Int64,
    sequenceNumberEnd: Int64,
    maximumRows: Int32)

  // ---------------------------------------------------------------------------
  // The WHERE clause

  /** `(@SequenceNumberStart = 0 OR es.SequenceNumber >= @SequenceNumberStart)`; a NULL comparison is not true. */
  predicate AboveStart(start: Int64, sequenceNumber: Option<Int64>) {
    start == 0 || (sequenceNumber.Some? && sequenceNumber.value >= start)
  }

  /** `(@SequenceNumberEnd = 0 OR es.SequenceNumber <= @SequenceNumberEnd)`. */
  predicate BelowEnd(end: Int64, sequenceNumber: Option<Int64>) {
    end == 0 || (sequenceNumber.Some? && sequenceNumber.value <= end)
  }

  /** The whole WHERE clause for one event row, given the resolved type ids. */
  predicate Matches(spec: SearchSpec, typeIds: seq<Guid>, row: EventRow) {
    && AboveStart(spec.sequenceNumberStart, row.sequenceNumber)
    && BelowEnd(spec.sequenceNumberEnd, row.sequenceNumber)
    && (|typeIds| == 0 || row.eventTypeId in typeIds)
    && (!spec.hasIds || row.id in spec.ids)
    && (!spec.hasSequenceNumbers || (row.sequenceNumber.Some? && row.sequenceNumber.value in spec.sequenceNumbers))
  }

  function Where(spec: SearchSpec, typeIds: seq<Guid>): EventRow -> bool {
    (row: EventRow) => Matches(spec, typeIds, row)
  }

  function SequenceKey(e: PrimitiveEvent): Option<int> {
    match e.sequenceNumber
    case None => None
    case Some(n) => Some(n as int)
  }

  /** `TOP n`: the first min(n, |s|) elements. */
  function Take<T>(s: seq<T>, n: nat): (r: seq<T>)
    ensures |r| == (if |s| < n then |s| else n) && r <= s
    ensures |s| <= n ==> r == s
    ensures |s| > n ==> r == s[..n]
  {
    if |s| <= n then s else s[..n]
  }

  /** The rows the SELECT returns once it is accepted by the server. */
  function Selected(types: seq<EventTypeRow>, rows: seq<EventRow>, spec: SearchSpec, typeIds: seq<Guid>): seq<PrimitiveEvent> {
    var ordered := SortBy(SequenceKey, JoinAll(types, Filter(Where(spec, typeIds), rows)));
    if spec.maximumRows > 0 then Take(ordered, spec.maximumRows as nat) else ordered
  }

  /** An `IN ()` with an empty list does not parse. */
  predicate EmptyInList(spec: SearchSpec) {
    (spec.hasIds && |spec.ids| == 0) || (spec.hasSequenceNumbers && |spec.sequenceNumbers| == 0)
  }

  /**
   * The query as the code writes it: the id filter is an unqualified `Id IN`,
   * and both joined tables have an Id column.
   */
  function SearchRowsAsWritten(types: seq<EventTypeRow>, rows: seq<EventRow>, spec: SearchSpec, typeIds: seq<Guid>): (r: Result<seq<PrimitiveEvent>>)
    ensures EmptyInList(spec) ==> r == Err(SyntaxError)
    ensures !EmptyInList(spec) && spec.hasIds ==> r == Err(AmbiguousColumn)
    ensures !spec.hasIds && !EmptyInList(spec) ==> r == Ok(Selected(types, rows, spec, typeIds))
  {
    if EmptyInList(spec) then Err(SyntaxError)
    else if spec.hasIds then Err(AmbiguousColumn)
    else Ok(Selected(types, rows, spec, typeIds))
  }

  /** The query with the id filter qualified as `es.Id IN`, as evidently intended. */
  function SearchRows(types: seq<EventTypeRow>, rows: seq<EventRow>, spec: SearchSpec, typeIds: seq<Guid>): (r: Result<seq<PrimitiveEvent>>)
    ensures r.Err? <==> EmptyInList(spec)
    ensures r.Err? ==> r.error == SyntaxError
  {
    if EmptyInList(spec) then Err(SyntaxError) else Ok(Selected(types, rows, spec, typeIds))
  }

  /** Any search with ids set fails as written, while the qualified query answers it. */
  lemma AmbiguousIdFilter(types: seq<EventTypeRow>, rows: seq<EventRow>, spec: SearchSpec, typeIds: seq<Guid>)
    requires spec.hasIds && |spec.ids| > 0 && !(spec.hasSequenceNumbers && |spec.sequenceNumbers| == 0)
    ensures SearchRowsAsWritten(types, rows, spec, typeIds) == Err(AmbiguousColumn)
    ensures SearchRows(types, rows, spec, typeIds).Ok?
  {
  }

  /** Concretely: one stored event, searched for by its own id. */
  lemma AmbiguousIdExample()
    ensures var types := [EventTypeRow(7, "Opened")];
      var rows := [EventRow(1, 1, None, [], 2, 7, 0, Some(1))];
      var spec := SearchSpec([], [1], true, [], false, 0, 0, 0);
      && SearchRowsAsWritten(types, rows, spec, []) == Err(AmbiguousColumn)
      && SearchRows(types, rows, spec, []) == Ok([PrimitiveEvent(1, 1, 2, [], Some(1), 0, None, "Opened")])
  {
    var types := [EventTypeRow(7, "Opened")];
    var rows := [EventRow(1, 1, None, [], 2, 7, 0, Some(1))];
    var spec := SearchSpec([], [1], true, [], false, 0, 0, 0);
    var f := Filter(Where(spec, []), rows);
    assert f == rows;
    assert JoinAll(types, f) == [PrimitiveEvent(1, 1, 2, [], Some(1), 0, None, "Opened")];
  }

  /** The selected rows are joined rows that satisfy the WHERE clause, in SequenceNumber order, NULLs first. */
  lemma {:induction false} SelectedCorrect(types: seq<EventTypeRow>, rows: seq<EventRow>, spec: SearchSpec, typeIds: seq<Guid>)
    ensures var r := Selected(types, rows, spec, typeIds);
      var ordered := SortBy(SequenceKey, JoinAll(types, Filter(Where(spec, typeIds), rows)));
      && SortedBy(SequenceKey, r)
      && (forall e :: e in r ==> exists row :: row in rows && Matches(spec, typeIds, row) && Joined(types, row) == Some(e))
      && r <= ordered
      && (spec.maximumRows > 0 ==>
            |r| == (if |ordered| < spec.maximumRows as int then |ordered| else spec.maximumRows as int))
      && (spec.maximumRows <= 0 ==> r == ordered)
      && (spec.maximumRows <= 0 ==> forall e :: e in r <==>
            exists row :: row in rows && Matches(spec, typeIds, row) && Joined(types, row) == Some(e))
  {
    var joined := JoinAll(types, Filter(Where(spec, typeIds), rows));
    var ordered := SortBy(SequenceKey, joined);
    SortByCorrect(SequenceKey, joined);
    var r := Selected(types, rows, spec, typeIds);
    forall e ensures e in ordered <==> e in joined {
      InMultiset(e, ordered, joined);
    }
    assert forall i, j :: 0 <= i < j < |r| ==> r[i] == ordered[i] && r[j] == ordered[j];
    assert forall e :: e in r ==> e in ordered;
  }

  /** Each row returned lies within the non-zero bounds, so in particular has a SequenceNumber. */
  lemma SelectedWithinBounds(types: seq<EventTypeRow>, rows: seq<EventRow>, spec: SearchSpec, typeIds: seq<Guid>, e: PrimitiveEvent)
    requires e in Selected(types, rows, spec, typeIds)
    ensures spec.sequenceNumberStart != 0 ==> e.sequenceNumber.Some? && e.sequenceNumber.value >= spec.sequenceNumberStart
    ensures spec.sequenceNumberEnd != 0 ==> e.sequenceNumber.Some? && e.sequenceNumber.value <= spec.sequenceNumberEnd
    ensures spec.hasIds ==> e.id in spec.ids
    ensures spec.hasSequenceNumbers ==> e.sequenceNumber.Some? && e.sequenceNumber.value in spec.sequenceNumbers
  {
    SelectedCorrect(types, rows, spec, typeIds);
    var row :| row in rows && Matches(spec, typeIds, row) && Joined(types, row) == Some(e);
  }

  // ---------------------------------------------------------------------------
  // Resolving the event-type names

  /** The ids resolved so far, the registry's state, and the first failure. */
  datatype TypeIdsState = TypeIdsState(ids: seq<Guid>, cache: map<string, Guid>, types: seq<EventTypeRow>, failure: Option<Error>)

  function ResolveStep(s: TypeIdsState, name: string, newId: Guid): TypeIdsState {
    if s.failure.Some? then s
    else
      var res := Resolve(s.cache, s.types, name, newId);
      match res.result
      case Err(e) => s.(cache := res.cache, types := res.types, failure := Some(e))
      case Ok(id) => TypeIdsState(s.ids + [id], res.cache, res.types, None)
  }

  function ResolveAll(s: TypeIdsState, names: seq<string>, newIds: seq<Guid>): TypeIdsState
    requires |names| == |newIds|
    decreases |names|
  {
    if names == [] then s
    else
      var n := |names| - 1;
      ResolveStep(ResolveAll(s, names[..n], newIds[..n]), names[n], newIds[n])
  }

  /** One resolution keeps the registry valid and the earlier ids cached, and appends the id now cached for `name`. */
  lemma ResolveStepSpec(p: TypeIdsState, name: string, newId: Guid)
    requires p.failure.None? && CacheValid(p.cache, p.types)
    ensures var r := ResolveStep(p, name, newId);
      && CacheValid(r.cache, r.types)
      && p.types <= r.types
      && p.ids <= r.ids
      && (forall k :: k in p.cache ==> k in r.cache && r.cache[k] == p.cache[k])
      && (r.failure.None? ==> |r.ids| == |p.ids| + 1 && r.ids[..|p.ids|] == p.ids
                              && Lower(name) in r.cache && r.cache[Lower(name)] == r.ids[|p.ids|])
      && (r.failure.Some? ==> r.ids == p.ids)
  {
    ResolveKeepsCacheValid(p.cache, p.types, name, newId);
  }

  /** Each id resolved so far is the one the registry caches for the name at the same position. */
  ghost predicate IdsCached(names: seq<string>, r: TypeIdsState) {
    && |r.ids| <= |names|
    && forall i :: 0 <= i < |r.ids| ==> Lower(names[i]) in r.cache && r.cache[Lower(names[i])] == r.ids[i]
  }

  lemma IdsCachedStep(names: seq<string>, p: TypeIdsState, r: TypeIdsState)
    requires |names| > 0 && IdsCached(names[..|names| - 1], p) && |p.ids| == |names| - 1
    requires forall k :: k in p.cache ==> k in r.cache && r.cache[k] == p.cache[k]
    requires r.ids == p.ids || (|r.ids| == |p.ids| + 1 && r.ids[..|p.ids|] == p.ids
                                && Lower(names[|p.ids|]) in r.cache && r.cache[Lower(names[|p.ids|])] == r.ids[|p.ids|])
    ensures IdsCached(names, r)
  {
    var n := |names| - 1;
    forall i | 0 <= i < |r.ids| ensures Lower(names[i]) in r.cache && r.cache[Lower(names[i])] == r.ids[i] {
      if i < n {
        assert names[..n][i] == names[i];
        assert r.ids[i] == p.ids[i];
      }
    }
  }

  /** Every resolved id is the one the registry now caches for that name, and the registry stays valid. */
  lemma {:induction false} ResolveAllSpec(s: TypeIdsState, names: seq<string>, newIds: seq<Guid>)
    requires |names| == |newIds| && s.failure.None? && s.ids == [] && CacheValid(s.cache, s.types)
    ensures var r := ResolveAll(s, names, newIds);
      && CacheValid(r.cache, r.types)
      && s.types <= r.types
      && (r.failure.None? <==> |r.ids| == |names|)
      && IdsCached(names, r)
    decreases |names|
  {
    if names != [] {
      var n := |names| - 1;
      ResolveAllSpec(s, names[..n], newIds[..n]);
      var p := ResolveAll(s, names[..n], newIds[..n]);
      if p.failure.None? {
        ResolveStepSpec(p, names[n], newIds[n]);
        var r := ResolveStep(p, names[n], newIds[n]);
        assert ResolveAll(s, names, newIds) == r;
        IdsCachedStep(names, p, r);
      } else {
        assert ResolveAll(s, names, newIds) == p;
        assert forall i :: 0 <= i < |p.ids| ==> names[..n][i] == names[i];
      }
    }
  }

  /** Once a name fails to resolve, the later names are not looked at. */
  lemma {:induction false} ResolveAllStuck(s: TypeIdsState, names: seq<string>, newIds: seq<Guid>, k: nat)
    requires |names| == |newIds| && k <= |names|
    requires ResolveAll(s, names[..k], newIds[..k]).failure.Some?
    ensures ResolveAll(s, names, newIds) == ResolveAll(s, names[..k], newIds[..k])
    decreases |names|
  {
    if k < |names| {
      var n := |names| - 1;
      assert names[..n][..k] == names[..k] && newIds[..n][..k] == newIds[..k];
      ResolveAllStuck(s, names[..n], newIds[..n], k);
      var p := ResolveAll(s, names[..n], newIds[..n]);
      assert p.failure.Some?;
      assert ResolveAll(s, names, newIds) == ResolveStep(p, names[n], newIds[n]) == p;
    } else {
      assert names[..k] == names && newIds[..k] == newIds;
    }
  }

  // ---------------------------------------------------------------------------
  // The query object

  class PrimitiveEventQuery {
    const db: Database
    const registry: EventTypeRepository

    constructor (db: Database, registry: EventTypeRepository)
      requires registry.db == db
      ensures this.db == db && this.registry == registry
    {
      this.db := db;
      this.registry := registry;
    }

    /** The loop that resolves each type name through the registry, stopping at the first failure. */
    method ResolveTypeIds(names: seq<string>, newIds: seq<Guid>) returns (r: Result<seq<Guid>>)
      requires |newIds| == |names|
      requires registry.db == db && !registry.lockHeld
      modifies db`eventTypes, registry`cache, registry`lockHeld
      ensures !registry.lockHeld
      ensures var s := ResolveAll(TypeIdsState([], old(registry.cache), old(db.eventTypes), None), names, newIds);
        && registry.cache == s.cache && db.eventTypes == s.types
        && r == (if s.failure.Some? then Err(s.failure.value) else Ok(s.ids))
    {
      ghost var s0 := TypeIdsState([], registry.cache, db.eventTypes, None);
      var eventTypeIds: seq<Guid> := [];
      var i := 0;
      while i < |names|
        invariant 0 <= i <= |names|
        invariant !registry.lockHeld
        invariant ResolveAll(s0, names[..i], newIds[..i]) ==
          TypeIdsState(eventTypeIds, registry.cache, db.eventTypes, None)
      {
        assert names[..i + 1][..i] == names[..i] && newIds[..i + 1][..i] == newIds[..i];
        var id := registry.GetId(names[i], newIds[i]);
        if id.Err? {
          ResolveAllStuck(s0, names, newIds, i + 1);
          return Err(id.error);
        }
        eventTypeIds := eventTypeIds + [id.value];
        i := i + 1;
      }
      assert names[..i] == names && newIds[..i] == newIds;
      r := Ok(eventTypeIds);
    }

    /**
     * SearchAsync: resolve each type name through the registry (`newIds[i]`
     * is the fresh Guid the i-th resolution would insert), then run the query
     * and read its rows in order.
     */
    method Search(spec: SearchSpec, newIds: seq<Guid>) returns (result: Result<seq<PrimitiveEvent>>)
      requires |newIds| == |spec.eventTypes|
      requires registry.db == db && !registry.lockHeld
      modifies db`eventTypes, registry`cache, registry`lockHeld
      ensures !registry.lockHeld
      ensures var s := ResolveAll(TypeIdsState([], old(registry.cache), old(db.eventTypes), None), spec.eventTypes, newIds);
        && registry.cache == s.cache && db.eventTypes == s.types
        && result == (if s.failure.Some? then Err(s.failure.value) else SearchRows(db.eventTypes, db.events, spec, s.ids))
    {
      var eventTypeIds := ResolveTypeIds(spec.eventTypes, newIds);
      if eventTypeIds.Err? {
        return Err(eventTypeIds.error);
      }
      var query := SearchRows(db.eventTypes, db.events, spec, eventTypeIds.value);
      if query.Err? {
        return Err(query.error);
      }
      var rows := ReadEvents(query.value);
      result := Ok(rows);
    }
  }
}
