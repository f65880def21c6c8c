/**
 * The fluent search specification: two duplicate-free lists, the event types
 * and the ids, each appended in place, and two scalar settings. The list
 * semantics is the function `AppendDistinct`; the class applies it.
 */
module Specifications {
  import opened Base

  /** A CLR `Type`, identified by its full name. */
  type TypeRef = string

  /** `if (!list.Contains(x)) list.Add(x)`. */
  function AppendDistinct<T(==, !new)>(s: seq<T>, x: T): (r: seq<T>)
    ensures x in r
    ensures x in s ==> r == s
    ensures x !in s ==> r == s + [x]
    ensures forall y :: y in r <==> y in s || y == x
  {
    if x in s then s else s + [x]
  }

  /** Repeated `AppendDistinct` over `xs`, in order. */
  function AppendAllDistinct<T(==, !new)>(s: seq<T>, xs: seq<T>): (r: seq<T>)
    decreases |xs|
  {
    if xs == [] then s else AppendAllDistinct(AppendDistinct(s, xs[0]), xs[1..])
  }

  ghost predicate NoDuplicates<T>(s: seq<T>) {
    forall i, j :: 0 <= i < j < |s| ==> s[i] != s[j]
  }

  /** Appending keeps a duplicate-free list duplicate-free, and keeps the existing entries in place. */
  lemma AppendDistinctKeeps<T(!new)>(s: seq<T>, x: T)
    requires NoDuplicates(s)
    ensures NoDuplicates(AppendDistinct(s, x))
    ensures s <= AppendDistinct(s, x)
  {
  }

  /** Appending every element keeps the list duplicate-free, extends it, and makes exactly the elements members. */
  lemma {:induction false} AppendAllDistinctSpec<T(!new)>(s: seq<T>, xs: seq<T>)
    requires NoDuplicates(s)
    ensures NoDuplicates(AppendAllDistinct(s, xs))
    ensures s <= AppendAllDistinct(s, xs)
    ensures forall y :: y in AppendAllDistinct(s, xs) <==> y in s || y in xs
    decreases |xs|
  {
    if xs != [] {
      AppendDistinctKeeps(s, xs[0]);
      AppendAllDistinctSpec(AppendDistinct(s, xs[0]), xs[1..]);
      assert forall y :: y in xs <==> y == xs[0] || y in xs[1..];
    }
  }

  /** Adding what is already there changes nothing. */
  lemma {:induction false} AppendAllDistinctIdempotent<T(!new)>(s: seq<T>, xs: seq<T>)
    requires forall k :: 0 <= k < |xs| ==> xs[k] in s
    ensures AppendAllDistinct(s, xs) == s
    decreases |xs|
  {
    if xs != [] {
      assert xs[0] in s;
      assert forall k :: 0 <= k < |xs| - 1 ==> xs[1..][k] == xs[k + 1];
      AppendAllDistinctIdempotent(s, xs[1..]);
    }
  }

  /**
   * AddEventTypes over a present sequence: each element is added in order;
   * the guard rejects a null element, and the elements before it stay added.
   */
  function AddTypes(s: seq<TypeRef>, xs: seq<Option<TypeRef>>): (r: (seq<TypeRef>, Outcome))
    decreases |xs|
  {
    if xs == [] then (s, Done)
    else if xs[0].None? then (s, Failed(ArgumentNull))
    else AddTypes(AppendDistinct(s, xs[0].value), xs[1..])
  }

  /** AddTypes keeps the list duplicate-free, succeeds exactly when no element is null, and adds only given types. */
  lemma {:induction false} AddTypesSpec(s: seq<TypeRef>, xs: seq<Option<TypeRef>>)
    requires NoDuplicates(s)
    ensures var (t, o) := AddTypes(s, xs);
      && NoDuplicates(t)
      && s <= t
      && (o == Done <==> forall k :: 0 <= k < |xs| ==> xs[k].Some?)
      && (o != Done ==> o == Failed(ArgumentNull))
      && (forall y :: y in t ==> y in s || Some(y) in xs)
      && (o == Done ==> forall k :: 0 <= k < |xs| ==> xs[k].value in t)
    decreases |xs|
  {
    if xs != [] && xs[0].Some? {
      var s' := AppendDistinct(s, xs[0].value);
      AppendDistinctKeeps(s, xs[0].value);
      AddTypesSpec(s', xs[1..]);
      assert forall k :: 0 <= k < |xs| - 1 ==> xs[1..][k] == xs[k + 1];
      assert forall y :: Some(y) in xs[1..] ==> Some(y) in xs;
      var (t, o) := AddTypes(s', xs[1..]);
      if o == Done {
        forall k | 0 <= k < |xs| ensures xs[k].value in t {
          if k == 0 {
            assert xs[0].value in s';
          } else {
            assert xs[k] == xs[1..][k - 1];
          }
        }
      } else {
        var k :| 0 <= k < |xs| - 1 && xs[1..][k].None?;
        assert xs[k + 1].None?;
      }
    }
  }

  /** Without null elements, AddTypes is AppendAllDistinct over the type values. */
  lemma {:induction false} AddTypesAllPresent(s: seq<TypeRef>, xs: seq<Option<TypeRef>>, values: seq<TypeRef>)
    requires |values| == |xs| && forall k :: 0 <= k < |xs| ==> xs[k] == Some(values[k])
    ensures AddTypes(s, xs) == (AppendAllDistinct(s, values), Done)
    decreases |xs|
  {
    if xs != [] {
      assert forall k :: 0 <= k < |xs| - 1 ==> xs[1..][k] == Some(values[1..][k]);
      AddTypesAllPresent(AppendDistinct(s, values[0]), xs[1..], values[1..]);
    }
  }

  class Specification {
    var eventTypes: seq<TypeRef>
    var ids: seq<Guid>
    var sequenceNumberStart: Int64
    var maximumRows: Int32

    /** The lists are duplicate-free. */
    ghost predicate Valid()
      reads this
    {
      NoDuplicates(eventTypes) && NoDuplicates(ids)
    }

    constructor ()
      ensures eventTypes == [] && ids == [] && sequenceNumberStart == 0 && maximumRows == 0
      ensures Valid()
    {
      eventTypes, ids := [], [];
      sequenceNumberStart, maximumRows := 0, 0;
    }

    /** AddEventType(type); a null type is rejected by the guard and changes nothing. */
    method AddEventType(t: Option<TypeRef>) returns (r: Outcome)
      requires Valid()
      modifies this`eventTypes
      ensures Valid()
      ensures t.None? ==> r == Failed(ArgumentNull) && eventTypes == old(eventTypes)
      ensures t.Some? ==> r == Done && eventTypes == AppendDistinct(old(eventTypes), t.value)
    {
      if t.None? {
        return Failed(ArgumentNull);
      }
      AppendDistinctKeeps(eventTypes, t.value);
      if t.value !in eventTypes {
        eventTypes := eventTypes + [t.value];
      }
      r := Done;
    }

    /** AddEventTypes(types): a null sequence adds nothing; otherwise AddTypes over its elements. */
    method AddEventTypes(types: Option<seq<Option<TypeRef>>>) returns (r: Outcome)
      requires Valid()
      modifies this`eventTypes
      ensures Valid()
      ensures types.None? ==> r == Done && eventTypes == old(eventTypes)
      ensures types.Some? ==> (eventTypes, r) == AddTypes(old(eventTypes), types.value)
    {
      if types.None? {
        return Done;
      }
      var xs := types.value;
      var i := 0;
      while i < |xs|
        invariant 0 <= i <= |xs|
        invariant Valid()
        invariant AddTypes(eventTypes, xs[i..]) == AddTypes(old(eventTypes), xs)
      {
        assert xs[i..][0] == xs[i] && xs[i..][1..] == xs[i + 1..];
        var added := AddEventType(xs[i]);
        if added.Failed? {
          return added;
        }
        i := i + 1;
      }
      r := Done;
    }

    /** AddId(id): a Guid is never null, so the guard always passes. */
    method AddId(id: Guid)
      requires Valid()
      modifies this`ids
      ensures Valid()
      ensures ids == AppendDistinct(old(ids), id)
    {
      AppendDistinctKeeps(ids, id);
      if id !in ids {
        ids := ids + [id];
      }
    }

    /** AddIds(ids): iterating a null sequence throws before anything is added. */
    method AddIds(newIds: Option<seq<Guid>>) returns (r: Outcome)
      requires Valid()
      modifies this`ids
      ensures Valid()
      ensures newIds.None? ==> r == Failed(NullReference) && ids == old(ids)
      ensures newIds.Some? ==> r == Done && ids == AppendAllDistinct(old(ids), newIds.value)
    {
      if newIds.None? {
        return Failed(NullReference);
      }
      var xs := newIds.value;
      var i := 0;
      while i < |xs|
        invariant 0 <= i <= |xs|
        invariant Valid()
        invariant AppendAllDistinct(ids, xs[i..]) == AppendAllDistinct(old(ids), xs)
      {
        assert xs[i..][0] == xs[i] && xs[i..][1..] == xs[i + 1..];
        AddId(xs[i]);
        i := i + 1;
      }
      r := Done;
    }

    method WithSequenceNumberStart(value: Int64)
      modifies this`sequenceNumberStart
      ensures sequenceNumberStart == value
    {
      sequenceNumberStart := value;
    }

    method WithMaximumRows(value: Int32)
      modifies this`maximumRows
      ensures maximumRows == value
    {
      maximumRows := value;
    }
  }
}
