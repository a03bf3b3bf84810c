/** The HTTP boundary: each handler calls the service once and maps its value or its
    exception to a status and a body. */
module Controller {
  import opened Wrappers
  import opened Persons
  import opened InMemoryStore
  import opened Service

  /** The statuses the handlers produce. 503 is only declared in the API annotations. */
  datatype HttpStatus = Ok | Created | BadRequest | NotFound
  {
    function Code(): int
    {
      match this
      case Ok => 200
      case Created => 201
      case BadRequest => 400
      case NotFound => 404
    }
  }

  /** A response entity: a status and a body that may be null. */
  datatype Response<T> = Response(status: HttpStatus, body: Option<T>)

  /** GET: always 200 with the service's list, the empty list included. */
  function FindAllResponse(people: seq<Person>): (r: Response<seq<Person>>)
    ensures r.status.Code() == 200 && r.body == Some(people)
  {
    Response(Ok, Some(people))
  }

  /** POST: 201 with the saved person, or 400 with a null body on either rejection.
      `save` declares only PersonMismatch and PersonNotProvided, so no other error reaches here. */
  function SaveResponse(outcome: Result<Person, ServiceError>): (r: Response<Person>)
    requires outcome.Failure? ==> outcome.error != PersonNotFound
    ensures r.status.Code() == 201 <==> outcome.Success?
    ensures outcome.Success? ==> r.body == Some(outcome.value)
    ensures outcome.Failure? ==> r.status.Code() == 400 && r.body.None?
  {
    match outcome
    case Success(savedPerson) => Response(Created, Some(savedPerson))
    case Failure(_) => Response(BadRequest, None)
  }

  /** GET by number: always 200 with whatever the service returned, null included; never 404. */
  function FindByNumberResponse(person: Option<Person>): (r: Response<Person>)
    ensures r.status.Code() == 200 && r.body == person
  {
    Response(Ok, person)
  }

  /** DELETE: the handler is void, so the caller always sees 200 with no body. The 404 entity
      built when PersonNotFound is caught is discarded, not returned. */
  function DeleteResponse(outcome: Outcome<ServiceError>): (r: Response<()>)
    ensures r.status.Code() == 200 && r.body.None?
  {
    match outcome
    case Pass => Response(Ok, None)
    case Fail(_) =>
      var discarded: Response<()> := Response(NotFound, None);
      Response(Ok, None)
  }

  /** The not-found outcome is indistinguishable from success at the boundary. */
  lemma DeleteSwallowsNotFound()
    ensures DeleteResponse(Fail(PersonNotFound)) == DeleteResponse(Pass)
    ensures forall o: Outcome<ServiceError> :: DeleteResponse(o).status != NotFound
  {
  }

  class NationalRegistryController {
    const service: NationalRegistryService

    constructor (service: NationalRegistryService)
      ensures this.service == service
    {
      this.service := service;
    }

    function FindAll(): (r: Response<seq<Person>>)
      reads service.repository
      ensures r.status == Ok && r.body == Some(service.repository.rows)
    {
      FindAllResponse(service.FindAll())
    }

    /** 201 exactly when a person was given and its number was not yet on file. */
    method Save(person: Option<Person>) returns (r: Response<Person>)
      requires service.repository.Valid()
      modifies service.repository
      ensures service.repository.Valid()
      ensures r.status == Created <==>
                person.Some? && Lookup(old(service.repository.rows), person.value.nationalIdentificationNumber).None?
      ensures r.status == Created ==> && r.body.Some? && Equals(r.body.value, person.value)
                                      && service.repository.rows == old(service.repository.rows) + [r.body.value]
      ensures r.status != Created ==> r.status == BadRequest && r.body.None? && unchanged(service.repository)
    {
      var outcome := service.Save(person);
      r := SaveResponse(outcome);
    }

    /** 200 with the match, or 200 with a null body when nothing matches. */
    function FindByNationalIdentificationNumber(nin: string): (r: Response<Person>)
      reads service.repository
      ensures r.status == Ok
      ensures r.body == Lookup(service.repository.rows, Some(nin))
    {
      FindByNumberResponse(service.FindByNationalIdentificationNumber(Some(nin)))
    }

    /** 200 with no body, whether or not a person carried that number. */
    method DeleteByNationalIdentificationNumber(nin: string) returns (r: Response<()>)
      requires service.repository.Valid()
      modifies service.repository
      ensures service.repository.Valid()
      ensures r == Response(Ok, None)
      ensures Lookup(old(service.repository.rows), Some(nin)).None? ==> unchanged(service.repository)
      ensures Lookup(old(service.repository.rows), Some(nin)).Some? ==>
                service.repository.rows == RemoveAll(old(service.repository.rows), Some(nin))
    {
      var outcome := service.DeleteByNationalIdentificationNumber(Some(nin));
      r := DeleteResponse(outcome);
    }
  }
}
