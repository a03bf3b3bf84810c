# National Registry Identification System — a Dafny model

The system keeps a table of `Person` records behind an HTTP API. You can list the records, look one
up by its national identification number, create one, and delete one by number. All of its logic
lives in the service layer, which checks a few guards before it calls the repository:

- **save** rejects a null person (`PersonNotProvided`). It also rejects a person whose number is
  already on file (`PersonMismatch`). Otherwise the store appends the person under a fresh key.
- **delete** rejects an unknown number (`PersonNotFound`). Otherwise the matching rows are removed.
- **find all** and **find by number** never fail. A missing match gives null.

The business invariant is that no two stored persons share a national identification number.

The model has these modules:

- `Wrappers`: `Option`, `Result` and `Outcome`, which stand for Java's null references and for
  the checked exceptions.
- `Persons` (`person.dfy`): the `Person` entity. Its Lombok-generated equality leaves out the
  surrogate key `id`. The matching `hashCode` is modelled with Java's 32-bit wrap-around and
  `String.hashCode` over UTF-16 code units, and that fold is proved equal to the exact polynomial reduced to 32 bits. Every String field is nullable (`Option<string>`),
  because a JSON body may leave any field out.
- `InMemoryStore` (`store.dfy`): an explicit in-memory store that replaces the JPA repository and
  its relational table. It holds the rows in insertion order and an identity counter that starts
  at 1. `Lookup` and `RemoveAll` are the two derived queries, and the lemmas about them are stated
  under the uniqueness invariant.
- `Service` (`service.dfy`): the service class, which holds the injected repository. `save` and
  `delete` are methods that change the store. The read-only operations are functions.
- `Controller` (`controller.dfy`): pure functions from a service outcome to an HTTP status and body,
  plus the controller class that calls the service and applies them.
- `Scenarios` (`scenarios.dfy`): clients proved from the contracts alone. They show that a
  repeated save of one number fails, and that a repeated delete fails. `RegistryWalkThrough`
  replays the life cycle of the record the service tests build (Claudia Guedes, number 90001) on an
  empty registry: lookup before save, save, clashing save, lookup, null save, delete, repeated delete.

Behaviour kept as the code has it:

- Find-by-number answers 200 with a null body when nothing matches. It never answers 404.
- The delete handler is `void`. When it catches `PersonNotFound` it builds a 404 response entity and
  then discards it, so the caller always sees 200 with no body (`Controller.DeleteSwallowsNotFound`).
- The controller's save maps both rejections to 400 with a null body.

## Model

| member | source | states |
|---|---|---|
| `Persons.Equals` | src/main/java/com/addi/challenge/externalsystem/nationalregistryidentificationsystem/entity/Person.java:12-24 | Two persons are equal when first name, last name, identification number, birth date and e-mail are equal, null-safely. `id` takes no part. |
| `Persons.AllArgsConstructorSetsFields` | src/main/java/com/addi/challenge/externalsystem/nationalregistryidentificationsystem/entity/Person.java:13-15 | The all-arguments constructor (and so the builder) sets each of the six fields to exactly the value given. |
| `Persons.EqualsIffEqualWithoutId` | src/main/java/com/addi/challenge/externalsystem/nationalregistryidentificationsystem/entity/Person.java:12-24 | Two persons are equal exactly when the records are identical once both keys are erased. |
| `Persons.EqualsIgnoresId` | src/main/java/com/addi/challenge/externalsystem/nationalregistryidentificationsystem/entity/Person.java:12-19 | Assigning or changing `id` never changes what a person equals. The re-keyed person equals the original. |
| `Persons.EqualsIsEquivalence` | src/main/java/com/addi/challenge/externalsystem/nationalregistryidentificationsystem/entity/Person.java:12 | The generated equality is reflexive, symmetric and transitive. |
| `Persons.ToInt32` | src/main/java/com/addi/challenge/externalsystem/nationalregistryidentificationsystem/entity/Person.java:12 | Java `int` arithmetic. The result is in the 32-bit signed range and congruent to the exact value modulo 2^32. |
| `Persons.CharUnits` | src/main/java/com/addi/challenge/externalsystem/nationalregistryidentificationsystem/entity/Person.java:12 | A character below U+10000 is one code unit equal to itself. Any other character is a high surrogate followed by a low surrogate, and the pair decodes back to that character. |
| `Persons.Utf16Units` | src/main/java/com/addi/challenge/externalsystem/nationalregistryidentificationsystem/entity/Person.java:12 | A string becomes its UTF-16 code units, as a Java String holds them. Each unit is below 0x10000, and there are between one and two units per character. |
| `Persons.UnitsHash` | src/main/java/com/addi/challenge/externalsystem/nationalregistryidentificationsystem/entity/Person.java:12 | `String.hashCode` over the code units always gives a 32-bit value. |
| `Persons.PolynomialAppend` | src/main/java/com/addi/challenge/externalsystem/nationalregistryidentificationsystem/entity/Person.java:12 | Appending a unit to the exact polynomial multiplies the polynomial by 31 and adds the unit. |
| `Persons.UnitsHashIsPolynomial` | src/main/java/com/addi/challenge/externalsystem/nationalregistryidentificationsystem/entity/Person.java:12 | The 32-bit `String.hashCode` fold equals the textbook polynomial, the sum of `s[i]*31^(n-1-i)`, reduced to 32 bits. |
| `Persons.FieldHash` | src/main/java/com/addi/challenge/externalsystem/nationalregistryidentificationsystem/entity/Person.java:12 | A field's share of the hash is a 32-bit value. A null field contributes 43. |
| `Persons.HashStep` | src/main/java/com/addi/challenge/externalsystem/nationalregistryidentificationsystem/entity/Person.java:12 | One step of the generated hash code always yields a 32-bit value. |
| `Persons.HashCode` | src/main/java/com/addi/challenge/externalsystem/nationalregistryidentificationsystem/entity/Person.java:12 | The generated hash code is a 32-bit value. That `id` takes no part is stated by `Persons.EqualsImpliesEqualHashCode`. |
| `Persons.EqualsImpliesEqualHashCode` | src/main/java/com/addi/challenge/externalsystem/nationalregistryidentificationsystem/entity/Person.java:12 | Equal persons have equal hash codes, with or without a key. |
| `InMemoryStore.Lookup` | src/main/java/com/addi/challenge/externalsystem/nationalregistryidentificationsystem/repository/NationalRegistryIdentificationSystemRepository.java:9 | A found row is stored and carries the number. The result is absent exactly when no stored row carries the number. |
| `InMemoryStore.RemoveAll` | src/main/java/com/addi/challenge/externalsystem/nationalregistryidentificationsystem/repository/NationalRegistryIdentificationSystemRepository.java:10 | A person stays exactly when it was stored and does not carry the number. The table never grows. |
| `InMemoryStore.LookupFindsUnique` | src/main/java/com/addi/challenge/externalsystem/nationalregistryidentificationsystem/repository/NationalRegistryIdentificationSystemRepository.java:9 | Under uniqueness, looking up the number of any stored row returns that very row. |
| `InMemoryStore.RemoveAllNoMatch` | src/main/java/com/addi/challenge/externalsystem/nationalregistryidentificationsystem/repository/NationalRegistryIdentificationSystemRepository.java:10 | Deleting a number no row carries leaves the rows exactly as they were. |
| `InMemoryStore.RemoveAllRemovesExactlyOne` | src/main/java/com/addi/challenge/externalsystem/nationalregistryidentificationsystem/service/NationalRegistryIdentificationSystemServiceImpl.java:48-49 | Under uniqueness, deleting a stored row's number removes exactly that row. Every other row stays, in order. |
| `InMemoryStore.RemoveAllKeepsUniqueNumbers` | src/main/java/com/addi/challenge/externalsystem/nationalregistryidentificationsystem/service/NationalRegistryIdentificationSystemServiceImpl.java:46-53 | Deleting keeps the uniqueness of identification numbers. |
| `InMemoryStore.RemoveAllKeepsIds` | src/main/java/com/addi/challenge/externalsystem/nationalregistryidentificationsystem/entity/Person.java:17-19 | Deleting keeps the stored keys present, distinct and below the identity counter. |
| `InMemoryStore.PersonRepository.constructor` | src/main/java/com/addi/challenge/externalsystem/nationalregistryidentificationsystem/entity/Person.java:17-19 | The table starts empty and its identity column starts at 1. |
| `InMemoryStore.PersonRepository.FindAll` | src/main/java/com/addi/challenge/externalsystem/nationalregistryidentificationsystem/repository/NationalRegistryIdentificationSystemRepository.java:8 | The inherited `findAll` returns every stored row, element by element, in storage order. |
| `InMemoryStore.PersonRepository.FindByNationalIdentificationNumber` | src/main/java/com/addi/challenge/externalsystem/nationalregistryidentificationsystem/repository/NationalRegistryIdentificationSystemRepository.java:9 | A found row is stored and carries the number. The result is null exactly when no stored row carries it. |
| `InMemoryStore.PersonRepository.Save` | src/main/java/com/addi/challenge/externalsystem/nationalregistryidentificationsystem/service/NationalRegistryIdentificationSystemServiceImpl.java:41 | The person is appended with the counter's key in place of the caller's `id`. The counter advances, and the new key differs from every stored key. |
| `InMemoryStore.PersonRepository.DeleteByNationalIdentificationNumber` | src/main/java/com/addi/challenge/externalsystem/nationalregistryidentificationsystem/repository/NationalRegistryIdentificationSystemRepository.java:10 | The rows become the old rows without every row carrying the number. The counter is untouched and the key invariant still holds. |
| `Service.NationalRegistryService.constructor` | src/main/java/com/addi/challenge/externalsystem/nationalregistryidentificationsystem/service/NationalRegistryIdentificationSystemServiceImpl.java:21-23 | The service holds the injected repository and no state of its own. |
| `Service.NationalRegistryService.FindAll` | src/main/java/com/addi/challenge/externalsystem/nationalregistryidentificationsystem/service/NationalRegistryIdentificationSystemServiceImpl.java:25-28 | Returns every stored row, in storage order (the empty list included), without failing or changing anything. |
| `Service.NationalRegistryService.FindByNationalIdentificationNumber` | src/main/java/com/addi/challenge/externalsystem/nationalregistryidentificationsystem/service/NationalRegistryIdentificationSystemServiceImpl.java:30-33 | Returns a stored person carrying the number, or null exactly when none does. It never fails. |
| `Service.NationalRegistryService.PersonAlreadyExists` | src/main/java/com/addi/challenge/externalsystem/nationalregistryidentificationsystem/service/NationalRegistryIdentificationSystemServiceImpl.java:55-58 | Holds exactly when some stored row carries the number, which is when the lookup is non-null. |
| `Service.NationalRegistryService.Save` | src/main/java/com/addi/challenge/externalsystem/nationalregistryidentificationsystem/service/NationalRegistryIdentificationSystemServiceImpl.java:35-44 | A null person fails with PersonNotProvided and a number on file fails with PersonMismatch. Both leave the store unchanged. Otherwise exactly one record with a fresh key is appended and returned, equal to the input. Uniqueness is kept whatever the outcome. |
| `Service.NationalRegistryService.DeleteByNationalIdentificationNumber` | src/main/java/com/addi/challenge/externalsystem/nationalregistryidentificationsystem/service/NationalRegistryIdentificationSystemServiceImpl.java:46-53 | An unknown number fails with PersonNotFound and leaves the store unchanged. Otherwise the matches are removed, and under uniqueness that is exactly the one match, with the rest in order. Afterwards no row carries the number and uniqueness is kept. |
| `Controller.FindAllResponse` | src/main/java/com/addi/challenge/externalsystem/nationalregistryidentificationsystem/controller/NationalRegistryIdentificationSystemController.java:40-42 | Always 200, with the service's list as the body. |
| `Controller.SaveResponse` | src/main/java/com/addi/challenge/externalsystem/nationalregistryidentificationsystem/controller/NationalRegistryIdentificationSystemController.java:61-69 | 201 with the saved person exactly on success. PersonMismatch and PersonNotProvided both give 400 with a null body. |
| `Controller.FindByNumberResponse` | src/main/java/com/addi/challenge/externalsystem/nationalregistryidentificationsystem/controller/NationalRegistryIdentificationSystemController.java:85-88 | Always 200, with the service's result as the body, null included. There is no 404. |
| `Controller.DeleteResponse` | src/main/java/com/addi/challenge/externalsystem/nationalregistryidentificationsystem/controller/NationalRegistryIdentificationSystemController.java:103-110 | Always 200 with no body. The 404 entity built on PersonNotFound is discarded. |
| `Controller.DeleteSwallowsNotFound` | src/main/java/com/addi/challenge/externalsystem/nationalregistryidentificationsystem/controller/NationalRegistryIdentificationSystemController.java:106-109 | A not-found delete answers exactly what a successful one does. No outcome yields 404. |
| `Controller.NationalRegistryController.constructor` | src/main/java/com/addi/challenge/externalsystem/nationalregistryidentificationsystem/controller/NationalRegistryIdentificationSystemController.java:26-28 | The controller holds the injected service. |
| `Controller.NationalRegistryController.FindAll` | src/main/java/com/addi/challenge/externalsystem/nationalregistryidentificationsystem/controller/NationalRegistryIdentificationSystemController.java:40-42 | 200 with exactly the stored rows. |
| `Controller.NationalRegistryController.Save` | src/main/java/com/addi/challenge/externalsystem/nationalregistryidentificationsystem/controller/NationalRegistryIdentificationSystemController.java:61-69 | 201 exactly when a person was given whose number was not on file. The body then equals the input and is appended to the store. Otherwise 400 with a null body and an unchanged store. |
| `Controller.NationalRegistryController.FindByNationalIdentificationNumber` | src/main/java/com/addi/challenge/externalsystem/nationalregistryidentificationsystem/controller/NationalRegistryIdentificationSystemController.java:85-88 | 200, with the stored match or a null body. |
| `Controller.NationalRegistryController.DeleteByNationalIdentificationNumber` | src/main/java/com/addi/challenge/externalsystem/nationalregistryidentificationsystem/controller/NationalRegistryIdentificationSystemController.java:103-110 | Always 200 with no body. An unknown number leaves the store unchanged, and a known one is removed. |
| `Scenarios.SaveTwiceWithSameNumber` | src/main/java/com/addi/challenge/externalsystem/nationalregistryidentificationsystem/service/NationalRegistryIdentificationSystemServiceImpl.java:37-40 | After any save of a number, a second save carrying that number fails with PersonMismatch and adds nothing. |
| `Scenarios.DeleteTwice` | src/main/java/com/addi/challenge/externalsystem/nationalregistryidentificationsystem/service/NationalRegistryIdentificationSystemServiceImpl.java:48-52 | After any delete of a number, deleting it again fails with PersonNotFound. |

## Left out

- Persistence engine and transactions: the relational table, Hibernate and transaction handling are replaced by the in-memory store. A store fault (the 503 in the API documentation) is not modelled.
- `InMemoryStore.PersonRepository.Save`: JPA merges an entity whose `id` is already set rather than inserting it. The model always inserts under a fresh key and ignores the caller's `id`.
- `InMemoryStore.Lookup`: when several rows match, the derived query would throw, but `Lookup` returns the first match. Several matches cannot occur while the uniqueness invariant holds.
- Transactions on delete: no transaction is declared around the derived delete, and the library may then refuse a delete of a number on file (an `InvalidDataAccessApiUsageException`, which surfaces as HTTP 500). That library behaviour lies outside the model, whose in-memory store always removes the row.
- Identity counter: the 64-bit `Long` key is an unbounded integer, so the counter never overflows.
- `Persons.Utf16Units`: Dafny characters are Unicode scalar values. A Java String holding an unpaired surrogate cannot be expressed.
- Concurrency: the model is sequential, so the race between the existence check and the insert under concurrent saves is not represented.
- Framework plumbing is not modelled: request routing, `@RequestBody`/`@PathVariable` binding (including Spring's own 400 for a missing body), JSON serialisation, OpenAPI annotations and logging.
- Exception messages: errors are the kinds `PersonNotProvided`, `PersonMismatch` and `PersonNotFound`, not strings.
- `@RequiredArgsConstructor`: with no final fields this is a no-argument constructor. It gives the all-null person `Person(None, None, None, None, None, None)`, so it needs no member of its own.
- `Persons.Equals`: Java's `equals(null)` and comparisons with other classes are outside the type and are not modelled.
