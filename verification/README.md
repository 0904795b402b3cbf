# Biblioteca book catalogue — a Dafny model

This project models the book catalogue of the Biblioteca library system:
the backend's `LivroService` (registering, listing, looking up, updating and
deleting books), the `LivroDto` transfer object with its conversions to and
from the `Livro` entity, and the frontend loan model's title formatting
(`Emprestimo.getLivrosFormatados`).

The repository behind the service is modelled as its contents: a map from id
to stored record (`Repository.Store`), where every record sits under its own
id. Each service operation is a pure function (or, for the sorted listings, a
method) from a store to an outcome and, when it writes, the store after it.

The service returns `Object` and reports errors through two channels: most
operations throw `ResourceNotFoundException` or `ConflictException`, but
`delete` catches its own not-found exception and returns it as a value.
`LivroService.Outcome` keeps the channels apart: `Thrown(error)` against
`Returned(value)`, where a returned value is a book DTO, a text message or an
exception object.

Modules, one per component:

- `Domain`: the `Livro` entity and the Java `int`/`long` widths of its fields.
- `Dto`: `LivroDto`, its default `status`, and the single and list conversions.
- `Repository`: the store, `existsByTitulo`, and the unique-titles invariant.
- `Listing`: what an id-sorted listing of a store is. It is built by insertion and is unique.
- `LivroService`: the eight service operations and the lemmas relating them.
- `EmprestimoModel`: the frontend loan record, its constructor, and the title join.
  The model also has a newline split, used to show that the join keeps order.
- `Wrappers`: `Option`, for the frontend's optional fields.

Two behaviours of the code that a reader might not expect, and that the model keeps:

- `delete` on an absent id returns the not-found error; it does not fail with it.
- `update` re-checks nothing about titles. So titles are unique only as long as no
  update duplicates one (`LivroService.UpdateCanDuplicateTitles`).

## Model

| member | source | states |
|---|---|---|
| Dto.NewLivroDto | biblioteca-backend/src/main/java/br/com/pjcode/biblioteca/dto/LivroDto.java:14-27 | a DTO built by the no-argument constructor and setters has `status` equal to the DISPONIVEL description, and every other field as set |
| Dto.DtoRoundTrip | biblioteca-backend/src/main/java/br/com/pjcode/biblioteca/dto/LivroDto.java:34-61 | `fromLivro(toLivro(d)) == d` for every DTO, all seven fields |
| Dto.EntityRoundTrip | biblioteca-backend/src/main/java/br/com/pjcode/biblioteca/dto/LivroDto.java:34-61 | `toLivro(fromLivro(e)) == e` for every entity, `id` included |
| Dto.ConversionsInjective | biblioteca-backend/src/main/java/br/com/pjcode/biblioteca/dto/LivroDto.java:34-61 | both conversions are injective: equal outputs exactly when the inputs are equal |
| Dto.ToConvertList | biblioteca-backend/src/main/java/br/com/pjcode/biblioteca/dto/LivroDto.java:68-72 | the result has the input's length, and element i is `toLivro` of input element i |
| Dto.FromConvertList | biblioteca-backend/src/main/java/br/com/pjcode/biblioteca/dto/LivroDto.java:79-83 | the result has the input's length, and element i is `fromLivro` of input element i |
| Dto.ListRoundTrips | biblioteca-backend/src/main/java/br/com/pjcode/biblioteca/dto/LivroDto.java:68-83 | the two list conversions undo each other in both directions |
| Listing.InsertById | biblioteca-backend/src/main/java/br/com/pjcode/biblioteca/service/LivroService.java:69 | inserting a record with a new id into an id-ascending listing keeps it ascending and adds exactly that record |
| Listing.SortById | biblioteca-backend/src/main/java/br/com/pjcode/biblioteca/service/LivroService.java:66-70 | sorting the store's records by id lists every record once, as its DTO, strictly ascending by id, with as many entries as the store has records |
| Listing.ListingUnique | biblioteca-backend/src/main/java/br/com/pjcode/biblioteca/service/LivroService.java:69 | a store has only one id-sorted listing, so the sorted result does not depend on the order the repository yields records |
| LivroService.Save | biblioteca-backend/src/main/java/br/com/pjcode/biblioteca/service/LivroService.java:42-49 | a title already in the store throws Conflict and leaves the store unchanged. Otherwise exactly one record is added under the new id, every old record is kept, and the stored record and the returned DTO equal the input DTO apart from the generated id |
| LivroService.SavePreservesUniqueTitles | biblioteca-backend/src/main/java/br/com/pjcode/biblioteca/service/LivroService.java:44-48 | if titles were unique before a save, they are unique after it |
| LivroService.GetAll | biblioteca-backend/src/main/java/br/com/pjcode/biblioteca/service/LivroService.java:64-70 | every stored book appears exactly once, as its DTO, sorted by ascending id |
| LivroService.FindAllByDisponiveis | biblioteca-backend/src/main/java/br/com/pjcode/biblioteca/service/LivroService.java:83-90 | exactly the books with `quantidadeDisponivel > 0`, each once, as DTOs sorted by ascending id |
| LivroService.KeepAvailable | biblioteca-backend/src/main/java/br/com/pjcode/biblioteca/service/LivroService.java:87 | the filter keeps exactly the entries with an available copy and keeps an ascending listing ascending |
| LivroService.DisponiveisFiltersGetAll | biblioteca-backend/src/main/java/br/com/pjcode/biblioteca/service/LivroService.java:64-90 | the available-books listing is the full listing with the unavailable books removed, in the same order: a subsequence of `getAll` |
| LivroService.FindById | biblioteca-backend/src/main/java/br/com/pjcode/biblioteca/service/LivroService.java:104-110 | an absent id throws not-found for that id. A present id returns the DTO of that stored book |
| LivroService.Lookup | biblioteca-backend/src/main/java/br/com/pjcode/biblioteca/service/LivroService.java:104-153 | a lookup by id, CDU or title throws not-found when nothing matches. It returns the DTO when exactly one book matches. When several match, it returns the internal-error exception as a value |
| LivroService.FindByCdu | biblioteca-backend/src/main/java/br/com/pjcode/biblioteca/service/LivroService.java:124-133 | not-found is thrown exactly when no book has that CDU. Exactly one match returns that book's DTO, and it is the only book with that CDU. Several matches return the internal-error exception as a value |
| LivroService.FindByTitulo | biblioteca-backend/src/main/java/br/com/pjcode/biblioteca/service/LivroService.java:144-153 | not-found is thrown exactly when `existsByTitulo` is false. Exactly one match returns that book's DTO, and it is the only book with that title. Several matches return the internal-error exception as a value |
| LivroService.FindByCduOfUniqueCdu | biblioteca-backend/src/main/java/br/com/pjcode/biblioteca/service/LivroService.java:124-128 | a stored book whose CDU no other book shares is found by that CDU, and the result is its DTO |
| LivroService.FindByCduOfSharedCdu | biblioteca-backend/src/main/java/br/com/pjcode/biblioteca/service/LivroService.java:124-132 | two stored books sharing a CDU make the lookup by it return the internal-error exception as a value |
| LivroService.FindByTituloUnderUniqueTitles | biblioteca-backend/src/main/java/br/com/pjcode/biblioteca/service/LivroService.java:144-148 | while titles are unique, every stored book is found by its title, and the result is its DTO |
| LivroService.Update | biblioteca-backend/src/main/java/br/com/pjcode/biblioteca/service/LivroService.java:166-174 | an absent id throws not-found and leaves the store unchanged. Otherwise the record keeps its id and takes every other field from the DTO, all other records are unchanged, and the updated DTO is returned |
| LivroService.UpdateUniqueTitlesExactly | biblioteca-backend/src/main/java/br/com/pjcode/biblioteca/service/LivroService.java:168-171 | starting from unique titles, titles stay unique after an update exactly when no other book already had the new title |
| LivroService.UpdateCanDuplicateTitles | biblioteca-backend/src/main/java/br/com/pjcode/biblioteca/service/LivroService.java:170 | a concrete update succeeds while giving one book another's title, so `update` does not preserve title uniqueness |
| LivroService.Delete | biblioteca-backend/src/main/java/br/com/pjcode/biblioteca/service/LivroService.java:188-196 | delete never throws. An absent id returns the not-found exception as a value and leaves the store unchanged. A present id removes only that record and returns the success message |
| LivroService.DeletePreservesUniqueTitles | biblioteca-backend/src/main/java/br/com/pjcode/biblioteca/service/LivroService.java:190-194 | deleting keeps titles unique |
| LivroService.DeleteReturnsWhatOthersThrow | biblioteca-backend/src/main/java/br/com/pjcode/biblioteca/service/LivroService.java:166-196 | for an absent id, `delete` returns the same not-found exception that `findById` and `update` throw |
| LivroService.SaveThenFind | biblioteca-backend/src/main/java/br/com/pjcode/biblioteca/service/LivroService.java:42-153 | a newly registered book is found again by its new id and by its title, as the saved DTO |
| LivroService.UpdateThenFindById | biblioteca-backend/src/main/java/br/com/pjcode/biblioteca/service/LivroService.java:104-172 | after an update, finding the record by id returns the updated DTO |
| LivroService.DeleteThenFindById | biblioteca-backend/src/main/java/br/com/pjcode/biblioteca/service/LivroService.java:104-196 | after a delete, finding the id throws not-found, and deleting it again returns not-found |
| EmprestimoModel.NewEmprestimo | biblioteca-frontend/src/app/models/emprestimo.ts:12-22 | the constructor stores the reader, the books and the three dates exactly as given, and leaves `id` unset |
| EmprestimoModel.GetLivrosFormatados | biblioteca-frontend/src/app/models/emprestimo.ts:27-29 | no books give the empty string. A single book gives exactly its title |
| EmprestimoModel.SplitJoinRoundTrip | biblioteca-frontend/src/app/models/emprestimo.ts:27-29 | splitting a newline join of one or more newline-free strings at newlines gives the strings back, in order |
| EmprestimoModel.JoinNewlineCount | biblioteca-frontend/src/app/models/emprestimo.ts:27-29 | a newline join of n ≥ 1 newline-free strings contains exactly n − 1 newlines |
| EmprestimoModel.FormattedTitlesInOrder | biblioteca-frontend/src/app/models/emprestimo.ts:27-29 | with n ≥ 1 books whose titles have no newline, the formatted text holds the titles in list order, separated by exactly n − 1 newlines |

## Left out

- The `catch (Exception)` branches that turn a repository or driver failure into an internal error are left out. These are in `save`, `getAll`, `findAllByDisponiveis`, `findById`, `update` and `delete`. The repository is modelled as total and never fails.
- One such branch is kept in `findByCdu` and `findByTitulo`. Both are single-result `Optional` repository queries. When more than one book matches, such a query raises a non-unique-result error, and the service catches it and returns the internal-error exception as a value. Nothing in the service keeps CDUs unique, and titles stop being unique after an update that duplicates one. Without this branch these lookups would have no defined result.
- `countAllLivros` and `livrosMaisEmprestados` are left out. They delegate to repository queries whose definitions are not part of this model. Only the page size of 5 is visible in the service.
- Id generation is left out. `LivroService.Save` takes the generated id as a parameter, with any id not already in the store allowed. It ignores any id the incoming DTO carries. The persistence layer's merge of a DTO that arrives with an id is not modelled.
- Java `null` is left out. A `null` `Long` id or `null` string is not modelled: strings are plain sequences and ids are 64-bit integers. Any validation of the `@NotBlank` fields happens outside the service and is not modelled. `convertReturn`'s `null` branch cannot be reached from a total repository. `convertOptionalReturn` is never called.
- Dto.NewLivroDto: the text of `StatusLivroEnum.DISPONIVEL`'s description is not part of this model. The constant `Dto.StatusDisponivel` stands in for it, and the contract holds whatever that text is.
- The `Livro` entity class is not part of this model. It is modelled as a record whose all-arguments constructor takes the fields in the order `toLivro` passes them (id, cdu, titulo, autor, editora, quantidadeDisponivel, status), with getters returning them unchanged. `Dto.DtoRoundTrip` and `Dto.EntityRoundTrip` rest on that reading.
- The database's string comparison is not modelled. `existsByTitulo`, `findByTitulo` and `findByCdu` are modelled as exact, case-sensitive string equality. A case- or accent-insensitive collation would change which titles `LivroService.Save` rejects and what `Repository.UniqueTitles` means.
- The database schema is not part of this model. The model assumes no unique constraint on `titulo`. With such a constraint, the repository save at the end of `update` would fail, and `LivroService.UpdateCanDuplicateTitles` would not describe the running system.
- `@Transactional` boundaries and concurrent requests are left out. Every operation is one atomic step on the store.
- The loan service, which creates and returns loans and adjusts availability, is not part of this model. Neither are the loan HTTP resource and the `Emprestimo` JPA entity. Loans are not modelled on the backend at all.
- The Angular component, its dialogs and subscriptions, and the reader model are left out. The reader is an opaque type parameter of `EmprestimoModel.Emprestimo`.
- The frontend book model is reduced to the one field the loan model reads (`titulo`). JavaScript's rendering of an `undefined` title as an empty string is not modelled.
- Date and time types are left out. Frontend dates are optional strings, as the frontend declares them.
