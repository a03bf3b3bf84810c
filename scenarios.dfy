/** Clients of the service, proved from the service's contracts alone: a repeated save
    of one number is rejected, a repeated delete of one number fails, and a walk-through
    of the whole life cycle of one record. */
module Scenarios {
  import opened Wrappers
  import opened Persons
  import opened InMemoryStore
  import opened Service

  /** Once a number is on file, a later save with that number is rejected, whatever
      its other fields and whatever the first save did. */
  method SaveTwiceWithSameNumber(service: NationalRegistryService, first: Person, second: Person)
    returns (r1: Result<Person, ServiceError>, r2: Result<Person, ServiceError>)
    requires service.repository.Valid()
    requires second.nationalIdentificationNumber == first.nationalIdentificationNumber
    modifies service.repository
    ensures r2 == Failure(PersonMismatch)
    ensures service.repository.rows == old(service.repository.rows) + (if r1.Success? then [r1.value] else [])
  {
    r1 := service.Save(Some(first));
    if r1.Success? {
      LookupAppended(old(service.repository.rows), r1.value);
    }
    r2 := service.Save(Some(second));
  }

  /** After any delete of a number, a second delete of it fails with PersonNotFound. */
  method DeleteTwice(service: NationalRegistryService, nin: NullableString)
    returns (d1: Outcome<ServiceError>, d2: Outcome<ServiceError>)
    requires service.repository.Valid()
    modifies service.repository
    ensures d2 == Fail(PersonNotFound)
    ensures service.repository.rows == RemoveAll(old(service.repository.rows), nin)
  {
    d1 := service.DeleteByNationalIdentificationNumber(nin);
    if d1.Fail? {
      RemoveAllNoMatch(old(service.repository.rows), nin);
    }
    d2 := service.DeleteByNationalIdentificationNumber(nin);
  }

  lemma LookupAppended(rows: seq<Person>, p: Person)
    requires Lookup(rows, p.nationalIdentificationNumber).None?
    ensures Lookup(rows + [p], p.nationalIdentificationNumber) == Some(p)
  {
    var all := rows + [p];
    assert all[|rows|] == p;
    var r := Lookup(all, p.nationalIdentificationNumber);
    assert r.Some?;
    var i :| 0 <= i < |all| && all[i] == r.value;
    if i < |rows| {
      assert all[i] == rows[i];
    }
  }

  /** The life cycle of the record the service tests build (first name Claudia, number 90001),
      on an empty registry: look up, save, save a clash, look up again, save null, delete,
      delete again. */
  method RegistryWalkThrough()
  {
    var repository := new PersonRepository();
    var service := new NationalRegistryService(repository);
    var number := Some("90001");
    var claudia := Person(Some(1), Some("Claudia"), Some("Guedes"), number,
                          Some("15/02/2001"), Some("claudiaguedes@gmail.com"));

    assert service.FindByNationalIdentificationNumber(number) == None;

    var saved := service.Save(Some(claudia));
    assert saved.Success? && Equals(saved.value, claudia);
    assert repository.rows == [saved.value];
    assert Lookup(repository.rows, number) == Some(saved.value);

    var clash := service.Save(Some(claudia.(firstName := Some("Someone"), email := None)));
    assert clash == Failure(PersonMismatch);
    assert repository.rows == [saved.value];
    assert service.FindByNationalIdentificationNumber(number) == Some(saved.value);

    var missing := service.Save(None);
    assert missing == Failure(PersonNotProvided);
    assert repository.rows == [saved.value];
    assert RemoveAll(repository.rows, number) == [];

    var deleted := service.DeleteByNationalIdentificationNumber(number);
    assert deleted == Pass;
    assert repository.rows == [];

    var again := service.DeleteByNationalIdentificationNumber(number);
    assert again == Fail(PersonNotFound);
  }
}
