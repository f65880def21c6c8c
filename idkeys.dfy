/**
 * The IdKey index: a table keyed by UniqueKey that maps each external key to
 * an identity. Each repository call runs one SQL statement; the functions
 * below give each statement's effect on the table, and `IdKeyRepository`
 * applies them to the database. A statement that fails (a primary-key
 * violation) leaves the table as it was.
 */
module IdKeys {
  import opened Base
  import opened Tables

  /** `INSERT INTO IdKey (Id, UniqueKey) VALUES (@Id, @UniqueKey)`. */
  function Insert(t: IdKeyTable, id: Guid, key: string): (r: Result<IdKeyTable>)
    ensures r.Err? <==> key in t
    ensures r.Err? ==> r.error == PrimaryKeyViolation
    ensures r.Ok? ==> r.value.Keys == t.Keys + {key} && r.value[key] == id
    ensures r.Ok? ==> forall k :: k in t ==> r.value[k] == t[k]
  {
    if key in t then Err(PrimaryKeyViolation) else Ok(t[key := id])
  }

  /** `SELECT COUNT(1) FROM IdKey WHERE UniqueKey = @Key`. */
  function CountKey(t: IdKeyTable, key: string): nat {
    |set k | k in t && k == key|
  }

  /** `SELECT COUNT(1) FROM IdKey WHERE Id = @Id`. */
  function CountId(t: IdKeyTable, id: Guid): nat {
    |set k | k in t && t[k] == id|
  }

  /** ContainsAsync(key): the count of rows with that key is positive. */
  function ContainsKey(t: IdKeyTable, key: string): (r: bool)
    ensures r <==> key in t
  {
    var rows := set k | k in t && k == key;
    assert key in t ==> key in rows;
    assert key !in t ==> rows == {};
    CountKey(t, key) > 0
  }

  /** ContainsAsync(id): the count of rows with that Id is positive. */
  function ContainsId(t: IdKeyTable, id: Guid): (r: bool)
    ensures r <==> exists k :: k in t && t[k] == id
  {
    var rows := set k | k in t && t[k] == id;
    assert (exists k :: k in t && t[k] == id) ==> rows != {} by {
      if exists k :: k in t && t[k] == id {
        var k :| k in t && t[k] == id;
        assert k in rows;
      }
    }
    CountId(t, id) > 0
  }

  /** FindAsync(key): `SELECT Id FROM IdKey WHERE UniqueKey = @Key`, null when no row matches. */
  function Find(t: IdKeyTable, key: string): (r: Option<Guid>)
    ensures r.None? <==> !ContainsKey(t, key)
    ensures r.Some? ==> key in t && t[key] == r.value
  {
    if key in t then Some(t[key]) else None
  }

  /**
   * RekeyAsync: `UPDATE IdKey SET UniqueKey = @NewKey WHERE UniqueKey = @OldKey`.
   * No row matches an absent old key; renaming onto another existing key
   * violates the primary key.
   */
  function Rekey(t: IdKeyTable, oldKey: string, newKey: string): (r: Result<IdKeyTable>)
    ensures r.Err? <==> oldKey in t && newKey in t && oldKey != newKey
    ensures r.Err? ==> r.error == PrimaryKeyViolation
    ensures r.Ok? && oldKey !in t ==> r.value == t
    ensures r.Ok? && oldKey in t ==>
      r.value.Keys == t.Keys - {oldKey} + {newKey} && r.value[newKey] == t[oldKey]
    ensures r.Ok? ==> forall k :: k in t && k != oldKey && k != newKey ==> k in r.value && r.value[k] == t[k]
  {
    if oldKey !in t || oldKey == newKey then Ok(t)
    else if newKey in t then Err(PrimaryKeyViolation)
    else Ok((t - {oldKey})[newKey := t[oldKey]])
  }

  /** RemoveAsync(key): `DELETE FROM IdKey WHERE UniqueKey = @UniqueKey`. */
  function RemoveKey(t: IdKeyTable, key: string): (r: IdKeyTable)
    ensures r.Keys == t.Keys - {key}
    ensures forall k :: k in r ==> r[k] == t[k]
  {
    t - {key}
  }

  /** RemoveAsync(id): `DELETE FROM IdKey WHERE Id = @Id`. */
  function RemoveId(t: IdKeyTable, id: Guid): (r: IdKeyTable)
    ensures forall k :: k in r <==> k in t && t[k] != id
    ensures forall k :: k in r ==> r[k] == t[k]
  {
    map k | k in t && t[k] != id :: t[k]
  }

  /** `outcome` and `after` are what running a statement with result `res` on `before` leaves. */
  predicate Applied(res: Result<IdKeyTable>, before: IdKeyTable, after: IdKeyTable, outcome: Outcome) {
    match res
    case Ok(t) => after == t && outcome == Done
    case Err(e) => after == before && outcome == Failed(e)
  }

  // ---------------------------------------------------------------------------
  // Properties relating the statements

  /** Adding an existing key fails with a primary-key violation. */
  lemma AddDuplicateFails(t: IdKeyTable, id: Guid, other: Guid, key: string)
    requires Insert(t, other, key).Ok?
    ensures Insert(Insert(t, other, key).value, id, key) == Err(PrimaryKeyViolation)
  {
  }

  /** After adding a fresh key, it is found with its id, and the id is contained. */
  lemma AddThenFind(t: IdKeyTable, id: Guid, key: string)
    requires !ContainsKey(t, key)
    ensures Insert(t, id, key).Ok?
    ensures Find(Insert(t, id, key).value, key) == Some(id)
    ensures ContainsKey(Insert(t, id, key).value, key)
    ensures ContainsId(Insert(t, id, key).value, id)
    ensures forall k :: k != key ==> Find(Insert(t, id, key).value, k) == Find(t, k)
  {
    var t' := Insert(t, id, key).value;
    assert t'[key] == id;
  }

  /** Removing a key deletes exactly that key; other keys keep their ids. */
  lemma RemoveKeyOnlyThatKey(t: IdKeyTable, key: string, other: string)
    ensures Find(RemoveKey(t, key), key) == None
    ensures other != key ==> Find(RemoveKey(t, key), other) == Find(t, other)
  {
  }

  /** Removing an id deletes every key mapped to it and no key of any other id. */
  lemma RemoveIdAllItsKeys(t: IdKeyTable, id: Guid, key: string)
    ensures !ContainsId(RemoveId(t, id), id)
    ensures Find(t, key) == Some(id) ==> Find(RemoveId(t, id), key) == None
    ensures Find(t, key) != Some(id) ==> Find(RemoveId(t, id), key) == Find(t, key)
  {
    assert forall k :: k in RemoveId(t, id) ==> RemoveId(t, id)[k] != id;
  }

  /** Rekeying onto a fresh key moves the association: old key gone, new key has the old id. */
  lemma RekeyMovesKey(t: IdKeyTable, oldKey: string, newKey: string, id: Guid)
    requires Find(t, oldKey) == Some(id) && !ContainsKey(t, newKey)
    ensures Rekey(t, oldKey, newKey).Ok?
    ensures !ContainsKey(Rekey(t, oldKey, newKey).value, oldKey)
    ensures Find(Rekey(t, oldKey, newKey).value, newKey) == Some(id)
    ensures forall other :: ContainsId(Rekey(t, oldKey, newKey).value, other) <==> ContainsId(t, other)
  {
    var t' := Rekey(t, oldKey, newKey).value;
    forall other ensures ContainsId(t', other) <==> ContainsId(t, other) {
      if ContainsId(t, other) {
        var k :| k in t && t[k] == other;
        if k == oldKey { assert t'[newKey] == other; } else { assert t'[k] == other; }
      }
      if ContainsId(t', other) {
        var k :| k in t' && t'[k] == other;
        if k == newKey { assert t[oldKey] == other; } else { assert t[k] == other; }
      }
    }
  }

  /** Rekeying an absent key changes nothing, whether or not the new key exists. */
  lemma RekeyAbsentNoChange(t: IdKeyTable, oldKey: string, newKey: string)
    requires !ContainsKey(t, oldKey)
    ensures Rekey(t, oldKey, newKey) == Ok(t)
  {
  }

  /** Rekeying onto another existing key fails, and both keys remain. */
  lemma RekeyOntoExistingFails(t: IdKeyTable, oldKey: string, newKey: string)
    requires ContainsKey(t, oldKey) && ContainsKey(t, newKey) && oldKey != newKey
    ensures Rekey(t, oldKey, newKey) == Err(PrimaryKeyViolation)
  {
  }

  /**
   * The repository over the IdKey table of one database. Each method runs one
   * statement; the read-only queries are the functions ContainsKey,
   * ContainsId and Find over `db.idKeys`.
   */
  class IdKeyRepository {
    const db: Database

    constructor (db: Database)
      ensures this.db == db
    {
      this.db := db;
    }

    /** AddAsync. */
    method Add(id: Guid, key: string) returns (r: Outcome)
      modifies db`idKeys
      ensures Applied(Insert(old(db.idKeys), id, key), old(db.idKeys), db.idKeys, r)
    {
      var res := Insert(db.idKeys, id, key);
      if res.Ok? {
        db.idKeys := res.value;
        r := Done;
      } else {
        r := Failed(res.error);
      }
    }

    /** RekeyAsync. */
    method RekeyKey(oldKey: string, newKey: string) returns (r: Outcome)
      modifies db`idKeys
      ensures Applied(Rekey(old(db.idKeys), oldKey, newKey), old(db.idKeys), db.idKeys, r)
    {
      var res := Rekey(db.idKeys, oldKey, newKey);
      if res.Ok? {
        db.idKeys := res.value;
        r := Done;
      } else {
        r := Failed(res.error);
      }
    }

    /** RemoveAsync(string key). */
    method RemoveByKey(key: string)
      modifies db`idKeys
      ensures db.idKeys == RemoveKey(old(db.idKeys), key)
    {
      db.idKeys := RemoveKey(db.idKeys, key);
    }

    /** RemoveAsync(Guid id). */
    method RemoveById(id: Guid)
      modifies db`idKeys
      ensures db.idKeys == RemoveId(old(db.idKeys), id)
    {
      db.idKeys := RemoveId(db.idKeys, id);
    }
  }

  /**
   * The sequence of calls the repository's test fixture makes, with the
   * answers the fixture asserts. `a` and `b` are its two keys for one id.
   */
  method FixtureScenario(db: Database, id: Guid, a: string, b: string)
    requires a != b && a !in db.idKeys && b !in db.idKeys
    modifies db`idKeys
    ensures !ContainsKey(db.idKeys, a) && !ContainsKey(db.idKeys, b)
  {
    var repo := new IdKeyRepository(db);
    var r := repo.Add(id, a);
    assert r == Done;
    r := repo.Add(id, a);
    assert r == Failed(PrimaryKeyViolation);
    assert Find(db.idKeys, a) == Some(id);
    assert Find(db.idKeys, b) == None;
    repo.RemoveById(id);
    assert Find(db.idKeys, a) == None;
    r := repo.Add(id, a);
    repo.RemoveByKey(a);
    assert Find(db.idKeys, a) == None;
    assert !ContainsKey(db.idKeys, a) && !ContainsKey(db.idKeys, b);
    r := repo.Add(id, b);
    assert !ContainsKey(db.idKeys, a) && ContainsKey(db.idKeys, b);
    r := repo.RekeyKey(b, a);
    assert r == Done;
    assert ContainsKey(db.idKeys, a) && !ContainsKey(db.idKeys, b);
    r := repo.Add(id, b);
    assert ContainsKey(db.idKeys, a) && ContainsKey(db.idKeys, b);
    r := repo.RekeyKey(a, b);
    assert r == Failed(PrimaryKeyViolation);
    repo.RemoveById(id);
  }
}
