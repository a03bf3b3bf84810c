/** The service layer: guards on an injected repository. It rejects a missing person
    and a duplicate identification number on save, and an unknown number on delete. */
module Service {
  import opened Wrappers
  import opened Persons
  import opened InMemoryStore

  /** The three checked exceptions, as error kinds. */
  datatype ServiceError = PersonNotProvided | PersonMismatch | PersonNotFound

  class NationalRegistryService {
    const repository: PersonRepository

    /** The repository is injected; the service keeps no state of its own. */
    constructor (repository: PersonRepository)
      ensures this.repository == repository
    {
      this.repository := repository;
    }

    /** Every stored person, in storage order; never fails. */
    function FindAll(): (r: seq<Person>)
      reads repository
      ensures |r| == |repository.rows|
      ensures forall i :: 0 <= i < |r| ==> r[i] == repository.rows[i]
    {
      repository.FindAll()
    }

    /** The stored person with that number, or null; a missing match is not an error. */
    function FindByNationalIdentificationNumber(nin: NullableString): (r: Option<Person>)
      reads repository
      ensures r.Some? ==> r.value in repository.rows && r.value.nationalIdentificationNumber == nin
      ensures r.None? <==> forall i :: 0 <= i < |repository.rows| ==>
                             repository.rows[i].nationalIdentificationNumber != nin
    {
      repository.FindByNationalIdentificationNumber(nin)
    }

    predicate PersonAlreadyExists(nin: NullableString)
      reads repository
      ensures PersonAlreadyExists(nin) <==>
                exists i :: 0 <= i < |repository.rows| && repository.rows[i].nationalIdentificationNumber == nin
    {
      var existingPerson := FindByNationalIdentificationNumber(nin);
      existingPerson.Some?
    }

    method Save(person: Option<Person>) returns (r: Result<Person, ServiceError>)
      requires repository.Valid()
      modifies repository
      ensures repository.Valid()
      // a null person is rejected and nothing is written
      ensures person.None? ==> r == Failure(PersonNotProvided) && unchanged(repository)
      // a number already on file is rejected and nothing is written
      ensures (person.Some? && Lookup(old(repository.rows), person.value.nationalIdentificationNumber).Some?)
                ==> r == Failure(PersonMismatch) && unchanged(repository)
      // a fresh number is appended, with a fresh key, and returned
      ensures (person.Some? && Lookup(old(repository.rows), person.value.nationalIdentificationNumber).None?)
                ==> && r.Success?
                    && repository.rows == old(repository.rows) + [r.value]
                    && repository.nextId == old(repository.nextId) + 1
      ensures r.Success? ==> && person.Some? && Equals(r.value, person.value)
                             && r.value.id.Some?
                             && forall q :: q in old(repository.rows) ==> q.id != r.value.id
      ensures r.Failure? ==> r.error != PersonNotFound
      // the business invariant survives every outcome
      ensures UniqueNumbers(old(repository.rows)) ==> UniqueNumbers(repository.rows)
    {
      if person.Some? {
        if PersonAlreadyExists(person.value.nationalIdentificationNumber) {
          return Failure(PersonMismatch);
        }
        var saved := repository.Save(person.value);
        return Success(saved);
      }
      return Failure(PersonNotProvided);
    }

    method DeleteByNationalIdentificationNumber(nin: NullableString) returns (r: Outcome<ServiceError>)
      requires repository.Valid()
      modifies repository
      ensures repository.Valid()
      ensures r == Fail(PersonNotFound) <==> Lookup(old(repository.rows), nin).None?
      ensures r.Fail? ==> r.error == PersonNotFound && unchanged(repository)
      ensures r.Pass? ==> && repository.rows == RemoveAll(old(repository.rows), nin)
                          && repository.nextId == old(repository.nextId)
      // afterwards no stored person carries the number, whatever the outcome
      ensures Lookup(repository.rows, nin).None?
      // under the business invariant exactly the one match is gone, the rest stay in order
      ensures r.Pass? && UniqueNumbers(old(repository.rows)) ==>
                exists k :: && 0 <= k < |old(repository.rows)|
                            && old(repository.rows)[k].nationalIdentificationNumber == nin
                            && repository.rows == old(repository.rows)[..k] + old(repository.rows)[k + 1..]
      ensures UniqueNumbers(old(repository.rows)) ==> UniqueNumbers(repository.rows)
    {
      if PersonAlreadyExists(nin) {
        ghost var before := repository.rows;
        ghost var k :| 0 <= k < |before| && before[k].nationalIdentificationNumber == nin;
        if UniqueNumbers(before) {
          RemoveAllRemovesExactlyOne(before, k);
          RemoveAllKeepsUniqueNumbers(before, nin);
        }
        repository.DeleteByNationalIdentificationNumber(nin);
        r := Pass;
      } else {
        r := Fail(PersonNotFound);
      }
    }
  }
}
