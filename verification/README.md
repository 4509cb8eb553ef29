# Books API catalogue core, in Dafny

This project models the two layers of the BooksApi service that make decisions.

- **The book repository** (`BookRepository`, behind the five-method `IBookRepository` interface) keeps the Books table. The model treats that table as a `map<int, Book>` keyed by id, together with a counter that hands out fresh ids (`Store`). The five operations are pure functions from the store before a call to the store after it and the call's return value. These are list, find by id, add, partial update and delete. A null return is `None`. `Execute` dispatches one interface call (`Call`) to its operation and gives back the typed reply (`Reply`). The C# interface is polymorphic, and this dispatch takes its place.
- **The books controller** (`BooksController`). `Route` holds the validation guards. A request is either rejected with BadRequest, or it is delegated as exactly one repository call. `Translate` maps the outcome of that call to Ok, Created, NoContent or NotFound. `Handle` puts the two together. It returns the response, the store afterwards and the log of repository calls made. The controller tests observe only the status of a rejected request. The log is how the model states the further fact that a rejected request never consults the repository. There is one function per endpoint (`GetAllBooks` … `DeleteBook`), and its contract states that endpoint's response, the repository calls it makes and the whole store afterwards.

Files: `wrappers.dfy` (Option), `books.dfy` (the Book record and the null-or-empty test), `book_repository.dfy`, `books_controller.dfy` and `scenarios.dfy`. The last one holds the concrete scenarios of the test suite, stated over a store seeded with two books.

Two behaviours of the code that a reader might not expect:

- A successful `UpdateBook` returns the patch argument, not the updated stored record (Repositories/BookRepository.cs:59). So the body of the Ok answer carries the patch's id. `BookScenarios.UpdateAnswersWithPatchId` shows an instance where that id is 0 and the updated key is 2.
- The create endpoint requires a title and an author (Controllers/BooksController.cs:50-53), so one might expect every stored book to have both. The code does not keep that invariant: the update endpoint checks neither field, so a blank title is stored. `BooksController.AddKeepsTitled` proves that the create path keeps the invariant. `BooksController.UpdateMayStoreBlankTitle` exhibits a blank title reaching the store through the update path.

## Model

| member | source | states |
|---|---|---|
| BookRepository.Empty | Tests/BookTests.cs:14-21 | a freshly created database is a valid store with no books |
| BookRepository.ListBelow | Repositories/BookRepository.cs:25 | the listing up to a bound holds only stored books, under their own ids below the bound, in strictly increasing id order |
| BookRepository.ListBelowComplete | Repositories/BookRepository.cs:25 | every stored book whose id is below the bound is in the listing |
| BookRepository.ListBelowLength | Repositories/BookRepository.cs:25 | the listing has exactly one entry per stored key below the bound |
| BookRepository.GetAllBooks | Repositories/BookRepository.cs:22-27 | the list holds every stored book exactly once and nothing else; its length is the number of stored books, so an empty store gives an empty list |
| BookRepository.GetBookById | Repositories/BookRepository.cs:29-34 | yields a book exactly when one is stored under the id, and then that book with the same id; a non-positive id is never found |
| BookRepository.FindAgreesWithList | Repositories/BookRepository.cs:22-34 | a lookup finds book b under id exactly when b is in the listing with that id |
| BookRepository.AddBook | Repositories/BookRepository.cs:36-40 | the book is stored under an id never handed out before and absent from the store; the returned book is the candidate carrying that id; nothing else changes; the store stays valid |
| BookRepository.AddThenFind | Repositories/BookRepository.cs:36-40 | finding by the new id gives back the candidate, equal in every field but the assigned id |
| BookRepository.AddGrowsListByOne | Repositories/BookRepository.cs:36-40 | a create lengthens the listing by exactly one |
| BookRepository.UpdateBook | Repositories/BookRepository.cs:46-59 | not an upsert: on an absent id the result is null and the store is unchanged; on a present id the record keeps its id and takes the patch's title, author, ISBN and date, other records and the set of ids stay the same, and the patch itself is returned |
| BookRepository.UpdateAbsentCreatesNothing | Repositories/BookRepository.cs:49-51 | an update of an absent id leaves the listing exactly as it was |
| BookRepository.DeleteBook | Repositories/BookRepository.cs:70-77 | true exactly when a record was stored under the id; only that record is removed; the other records and the id counter are unchanged |
| BookRepository.DeleteThenFind | Repositories/BookRepository.cs:70-77 | after deleting an existing id, finding it gives null and the listing is one shorter |
| BookRepository.Execute | Repositories/IBookRepository.cs:7-11 | each interface call gets a reply of its method's type; reads change nothing; ids appear only through AddBook, always at or above the counter, and disappear only through a DeleteBook that returned true; a record's contents change only through UpdateBook on its id |
| BookRepository.Run | Repositories/IBookRepository.cs:7-11 | any sequence of calls keeps the store valid and never rewinds the id counter |
| BookRepository.IdsNeverReused | Repositories/BookRepository.cs:36-40 | an id already handed out that is not stored now is not stored after any further sequence of calls |
| BookScenarios.SeededStoreAssignsThree | Tests/BookTests.cs:58-66 | after two creates on a fresh database, the next create is given id 3 |
| BooksController.Route | Controllers/BooksController.cs:28-83 | validation rejects only with BadRequest; a delegated call forwards the request's own id and body; listing, and update with a body, are never rejected |
| BooksController.Translate | Controllers/BooksController.cs:34-85 | outcome mapping never yields BadRequest; it yields NotFound, naming the requested id, exactly for a null lookup, a null update or a false delete |
| BooksController.Handle | Controllers/BooksController.cs:20-87 | BadRequest is returned exactly when the repository was not called, and then the store is unchanged; otherwise exactly one call serving the request was made; the store stays valid |
| BooksController.GetAllBooks | Controllers/BooksController.cs:20-25 | no validation: Ok carrying exactly the repository's listing, with one list call and no change |
| BooksController.GetBookById | Controllers/BooksController.cs:27-40 | a non-positive id gives BadRequest with no call; otherwise NotFound naming the id when absent, and Ok with exactly the stored book when present |
| BooksController.AddBook | Controllers/BooksController.cs:42-57 | a null body, or a null or empty title or author, gives BadRequest with no call and no change; otherwise Created with route id equal to the created book's fresh id, at or above the counter, and only that book added |
| BooksController.UpdateBook | Controllers/BooksController.cs:59-74 | only a null body is rejected; with a body, whatever the id, one update call is made; NotFound with no change when the id is absent; otherwise Ok with the patch, the record under the id replaced by the patch keeping its id, and every other record and the id counter unchanged |
| BooksController.DeleteBook | Controllers/BooksController.cs:76-87 | a non-positive id gives BadRequest with no call; otherwise NotFound with no change when absent, and NoContent with the store exactly as before minus that record |
| BooksController.AddKeepsTitled | Controllers/BooksController.cs:50-55 | the create endpoint never stores a book without a title and author |
| BooksController.UpdateMayStoreBlankTitle | Controllers/BooksController.cs:63-73 | the update endpoint can store a book with an empty title |
| BookScenarios.Seeded | Tests/BookTests.cs:25-32 | the two seed books (titles, authors and ISBNs "1" and "2" as in the test; the publication dates are left null) are added under ids 1 and 2 (saved by the first SaveChanges), and the counter stands at 3 |
| BookScenarios.SeededAddGetsThree | Tests/BookTests.cs:45-55 | a book added to the seeded store gets id 3 and is found under it |
| BookScenarios.SeededRepositoryScenario | Tests/BookTests.cs:44-93 | on the seeded repository: an add gets id 3 and is found under it; updating 2 stores the patch's title under 2; deleting 1 returns true and a later find of 1 gives null |
| BookScenarios.SeededScenario | Controllers/BooksController.cs:27-87 | the controller endpoints over the seeded repository: find 2 is Ok with book 2; delete 1 is NoContent and a later find 1 is NotFound; update 2 is Ok with the new title, and the record stored under 2 then has that title |
| BookScenarios.UpdateAnswersWithPatchId | Repositories/BookRepository.cs:59 | the Ok body of an update is the patch, whose id can differ from the updated key, while the stored record keeps its key |
| BookScenarios.RejectionsMakeNoCalls | Tests/BookTests.cs:161-280 | find and delete of -99 answer 400 without a repository call; create of a null body or of an empty author answers 400 |
| BookScenarios.NotFoundMessageText | Controllers/BooksController.cs:32-81 | the message texts of `Text`: the three fixed client-error messages, and the not-found message spelling the id in decimal, with a sign when negative |

## Left out

- Entity Framework Core is not modelled. This covers `SaveChanges`, change tracking, transactions and connection handling. Each call is treated as one atomic step on the map. A store failure (StoreError) is not modelled, because the core only lets it propagate.
- BookRepository.AddBook: always assigns the next id from the counter and ignores any id the candidate carries. EF Core's key-generation algorithm is out of scope. With a client-chosen non-zero id, EF Core would insert under that id or raise a store error.
- BookRepository.IdsNeverReused: holds only because the model's AddBook ignores the candidate's id. The controller forwards any body with a title and an author (Controllers/BooksController.cs:50-55), and `Books.Add` keeps a non-zero `Id` (Repositories/BookRepository.cs:38). So in the program a POST carrying `Id = 1` after a delete of 1 stores id 1 again. A POST carrying `Id = -3` stores a record under -3, which PUT can update but GET and DELETE never reach (Controllers/BooksController.cs:30, 79). For the same reason, three more guarantees are facts of this model's id assignment and not of the program: the store invariant `Valid` (keys positive and below the counter), BookRepository.GetBookById's clause that a non-positive id is never found, and BookRepository.Execute's clause that new ids are at or above the counter.
- BookRepository.AddBook and BookRepository.UpdateBook: take a non-null book. In the source a null argument throws in `AddBook` (Repositories/BookRepository.cs:38). In `UpdateBook` it returns null for an absent id (line 51) and throws at `book.Title` for a present one (line 53). The controller rejects a null body before either call (Controllers/BooksController.cs:45, 63), so the endpoints are unaffected.
- BookRepository.GetAllBooks: lists in increasing id order. The source promises only the store's own order, and this model picks one.
- C# `int` is 32 bits, but ids here are unbounded. The id counter's overflow is not modelled.
- EF Core returns tracked object references, so a caller that mutates a returned book mutates the tracked entity. The model works on immutable values and has no aliasing.
- Models/Book.cs is not part of this model. The text fields are nullable strings, as the controller's `string.IsNullOrEmpty` tests on Title and Author show (Controllers/BooksController.cs:50); the publication date is an opaque optional value the model never inspects.
- ASP.NET model binding, `ModelState`, attribute routing and the URL that `CreatedAtAction` builds are not modelled. Only the route value `id` of the location is kept.
- Program.cs (dependency injection, Swagger, SQLite configuration) is wiring only and is not modelled.
- The commented-out in-memory list implementation in Repositories/BookRepository.cs is dead code and is not modelled.
- Concurrent requests are not modelled: requests are handled one at a time.
