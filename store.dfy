/** An explicit in-memory record store in place of the relational table and its
    generated repository: the rows in insertion order and the next surrogate key. */
module InMemoryStore {
  import opened Wrappers
  import opened Persons

  /** The business invariant: no two stored rows share an identification number. */
  ghost predicate UniqueNumbers(rows: seq<Person>)
  {
    forall i, j :: 0 <= i < j < |rows| ==>
      rows[i].nationalIdentificationNumber != rows[j].nationalIdentificationNumber
  }

  /** The primary-key invariant: every row has a key, no two rows share one. */
  ghost predicate UniqueIds(rows: seq<Person>)
  {
    && (forall i :: 0 <= i < |rows| ==> rows[i].id.Some?)
    && (forall i, j :: 0 <= i < j < |rows| ==> rows[i].id != rows[j].id)
  }

  /** Every stored key is below the next key the store will hand out. */
  ghost predicate IdsBelow(rows: seq<Person>, bound: int)
  {
    forall i :: 0 <= i < |rows| ==> rows[i].id.Some? && rows[i].id.value < bound
  }

  /** The derived query `findByNationalIdentificationNumber`: a row with that number, or null. */
  function Lookup(rows: seq<Person>, nin: NullableString): (r: Option<Person>)
    ensures r.Some? ==> r.value in rows && r.value.nationalIdentificationNumber == nin
    ensures r.None? <==> forall i :: 0 <= i < |rows| ==> rows[i].nationalIdentificationNumber != nin
  {
    if rows == [] then None
    else if rows[0].nationalIdentificationNumber == nin then Some(rows[0])
    else Lookup(rows[1..], nin)
  }

  /** The derived delete `deleteByNationalIdentificationNumber`: every row with that number goes. */
  function RemoveAll(rows: seq<Person>, nin: NullableString): (r: seq<Person>)
    ensures forall p :: p in r <==> p in rows && p.nationalIdentificationNumber != nin
    ensures |r| <= |rows|
  {
    if rows == [] then []
    else if rows[0].nationalIdentificationNumber == nin then RemoveAll(rows[1..], nin)
    else [rows[0]] + RemoveAll(rows[1..], nin)
  }

  lemma UniqueNumbersTail(rows: seq<Person>)
    requires rows != [] && UniqueNumbers(rows)
    ensures UniqueNumbers(rows[1..])
  {
  }

  /** Under the invariant, looking up a stored row's number finds that very row. */
  lemma {:induction false} LookupFindsUnique(rows: seq<Person>, k: int)
    requires UniqueNumbers(rows) && 0 <= k < |rows|
    ensures Lookup(rows, rows[k].nationalIdentificationNumber) == Some(rows[k])
  {
    if k > 0 {
      UniqueNumbersTail(rows);
      LookupFindsUnique(rows[1..], k - 1);
      assert rows[1..][k - 1] == rows[k];
    }
  }

  /** Nothing is removed when no row carries the number. */
  lemma {:induction false} RemoveAllNoMatch(rows: seq<Person>, nin: NullableString)
    requires forall i :: 0 <= i < |rows| ==> rows[i].nationalIdentificationNumber != nin
    ensures RemoveAll(rows, nin) == rows
  {
    if rows != [] {
      assert forall i :: 0 <= i < |rows| - 1 ==> rows[1..][i] == rows[i + 1];
      RemoveAllNoMatch(rows[1..], nin);
    }
  }

  /** Under the invariant, deleting a stored row's number removes exactly that row and keeps
      every other row in its place and order. */
  lemma {:induction false} RemoveAllRemovesExactlyOne(rows: seq<Person>, k: int)
    requires UniqueNumbers(rows) && 0 <= k < |rows|
    ensures RemoveAll(rows, rows[k].nationalIdentificationNumber) == rows[..k] + rows[k + 1..]
  {
    var nin := rows[k].nationalIdentificationNumber;
    var tail := rows[1..];
    UniqueNumbersTail(rows);
    if k == 0 {
      assert forall i :: 0 <= i < |tail| ==> tail[i] == rows[i + 1];
      RemoveAllNoMatch(tail, nin);
    } else {
      assert tail[k - 1] == rows[k];
      RemoveAllRemovesExactlyOne(tail, k - 1);
      assert rows[..k] + rows[k + 1..] == [rows[0]] + (tail[..k - 1] + tail[k..]);
    }
  }

  /** Deleting keeps the business invariant. */
  lemma {:induction false} RemoveAllKeepsUniqueNumbers(rows: seq<Person>, nin: NullableString)
    requires UniqueNumbers(rows)
    ensures UniqueNumbers(RemoveAll(rows, nin))
  {
    if rows != [] {
      var tail := rows[1..];
      UniqueNumbersTail(rows);
      RemoveAllKeepsUniqueNumbers(tail, nin);
      var rest := RemoveAll(tail, nin);
      if rows[0].nationalIdentificationNumber != nin {
        forall j | 0 <= j < |rest|
          ensures rows[0].nationalIdentificationNumber != rest[j].nationalIdentificationNumber
        {
          assert rest[j] in tail;
          var m :| 0 <= m < |tail| && tail[m] == rest[j];
          assert tail[m] == rows[m + 1];
        }
        assert RemoveAll(rows, nin) == [rows[0]] + rest;
      }
    }
  }

  /** Deleting keeps every remaining key unique and below the bound. */
  lemma {:induction false} RemoveAllKeepsIds(rows: seq<Person>, nin: NullableString, bound: int)
    requires UniqueIds(rows) && IdsBelow(rows, bound)
    ensures UniqueIds(RemoveAll(rows, nin)) && IdsBelow(RemoveAll(rows, nin), bound)
  {
    if rows != [] {
      var tail := rows[1..];
      assert forall i :: 0 <= i < |tail| ==> tail[i] == rows[i + 1];
      RemoveAllKeepsIds(tail, nin, bound);
      var rest := RemoveAll(tail, nin);
      if rows[0].nationalIdentificationNumber != nin {
        forall j | 0 <= j < |rest| ensures rows[0].id != rest[j].id {
          assert rest[j] in tail;
          var m :| 0 <= m < |tail| && tail[m] == rest[j];
        }
        assert RemoveAll(rows, nin) == [rows[0]] + rest;
      }
    }
  }

  /** The repository: the table's rows in insertion order and its identity counter. */
  class PersonRepository {
    var rows: seq<Person>
    var nextId: int

    /** Every row has a distinct key handed out earlier by the counter. */
    ghost predicate Valid()
      reads this
    {
      UniqueIds(rows) && IdsBelow(rows, nextId)
    }

    /** An empty table whose identity column starts at 1. */
    constructor ()
      ensures Valid() && rows == [] && nextId == 1
    {
      rows := [];
      nextId := 1;
    }

    /** The inherited `findAll`: every row, in storage order. */
    function FindAll(): (r: seq<Person>)
      reads this
      ensures |r| == |rows|
      ensures forall i :: 0 <= i < |r| ==> r[i] == rows[i]
    {
      rows
    }

    /** The derived query: a stored row with that number, or null exactly when none has it. */
    function FindByNationalIdentificationNumber(nin: NullableString): (r: Option<Person>)
      reads this
      ensures r.Some? ==> r.value in rows && r.value.nationalIdentificationNumber == nin
      ensures r.None? <==> forall i :: 0 <= i < |rows| ==> rows[i].nationalIdentificationNumber != nin
    {
      Lookup(rows, nin)
    }

    /** Inserting a new row: the store assigns the key, whatever key the caller passed. */
    method Save(person: Person) returns (saved: Person)
      requires Valid()
      modifies this
      ensures Valid()
      ensures saved == person.(id := Some(old(nextId)))
      ensures rows == old(rows) + [saved] && nextId == old(nextId) + 1
      ensures forall i :: 0 <= i < |old(rows)| ==> old(rows)[i].id != saved.id
    {
      saved := person.(id := Some(nextId));
      rows := rows + [saved];
      nextId := nextId + 1;
    }

    method DeleteByNationalIdentificationNumber(nin: NullableString)
      requires Valid()
      modifies this
      ensures Valid()
      ensures rows == RemoveAll(old(rows), nin) && nextId == old(nextId)
    {
      RemoveAllKeepsIds(rows, nin, nextId);
      rows := RemoveAll(rows, nin);
    }
  }
}
