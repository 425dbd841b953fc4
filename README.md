# Library catalog: store and catalog service

This project models and proves the core of a small library-catalog service.
The core has two layers:

- The in-memory **book store** (`BookRepository`): a table from id to book, with an id counter that starts at 4.
- The **catalog service** (`BookService`) on top of it. It validates titles, authors and search queries. It checks that an id exists before an update or a delete. It runs the availability machine: an available book can be borrowed, a borrowed book can be returned, and any other borrow or return is a conflict.

Files and modules:

- `text.dfy` (`Text`): the parts of `java.lang.String` the core uses. These are `trim()` and the emptiness test on it, `toLowerCase()` (ASCII letters only) and `contains`.
- `books.dfy` (`Books`): the `Book` record, with every nullable field as an `Option`, and the `Result`/`Error` outcome type. `NotFound` and `Invalid` stand for the two uses of `IllegalArgumentException`. `Conflict` stands for `IllegalStateException`. `NullPointer` stands for the `NullPointerException` raised when the code unboxes a null `available` flag or lower-cases a null author.
- `store.dfy` (`BookStore`): the store as a value (`Store(books, nextId)`), with one function per repository operation. It also defines `Gathers`, which says what a query's result list holds. Results are compared as multisets, because `HashMap.values()` fixes no order.
- `repository.dfy` (`Repository`): class `BookRepository`, whose fields `books` and `nextId` are updated in place.
  - Each mutator is proved to bring the fields to the value that the matching `BookStore` function computes.
  - The three scans over `values()` are `while` loops over the key set. Their invariants are proved.
- `catalog.dfy` (`Catalog`): the service rules as functions of the store value. It holds the lemmas that relate several calls, and the invariant that every reachable state keeps.
- `service.dfy` (`Service`): class `BookService`, which holds a `BookRepository`. Each mutator is proved to return exactly the outcome, and leave exactly the store, that the matching `Catalog` function gives.

Two behaviours of the Java code shape the model:

- The table is a `HashMap`, so query results carry no order.
- `updateBook` stores the payload's `available` flag as given, null included. So a stored `available` may be `None`. Then `findAvailableBooks`, and a borrow or return of that book, fail with `NullPointer`, as the Java code would.

A creation request may carry its own id. `save` keeps that id and leaves the counter where it is. When that id is one the counter has yet to hand out, a later creation without an id gets the same id and replaces the first book (`Catalog.PresetIdAtCounterIsOverwritten`).

All six files verify together with `dafny verify *.dfy`.

## Model

| member | source | states |
|---|---|---|
| Text.TrimStart | src/main/java/com/example/assignment2/service/BookService.java:47 | the result is a suffix of the input that starts with a non-trimmable character; everything dropped is trimmable |
| Text.TrimEnd | src/main/java/com/example/assignment2/service/BookService.java:47 | the result is a prefix of the input that ends with a non-trimmable character; everything dropped is trimmable |
| Text.Trim | src/main/java/com/example/assignment2/service/BookService.java:47 | `trim()` returns the slice of the input that starts and ends with a non-trimmable character, with only trimmable characters outside it |
| Text.TrimEmptyIffBlank | src/main/java/com/example/assignment2/service/BookService.java:47-52 | `s.trim().isEmpty()` holds exactly when every character of `s` is at most U+0020 |
| Text.LowerChar | src/main/java/com/example/assignment2/repository/BookRepository.java:99 | 'A' to 'Z' become 'a' to 'z' letter for letter; every other character is kept |
| Text.ToLower | src/main/java/com/example/assignment2/repository/BookRepository.java:99 | lower-casing keeps the length and lowers each character in place |
| Text.ToLowerIdempotent | src/main/java/com/example/assignment2/repository/BookRepository.java:99 | lower-casing twice equals lower-casing once |
| Text.Contains | src/main/java/com/example/assignment2/repository/BookRepository.java:99 | `contains` holds only when the needle is no longer than the string; every string contains the empty string and itself |
| Text.ContainsLowered | src/main/java/com/example/assignment2/repository/BookRepository.java:99 | an occurrence survives lower-casing both sides |
| Text.ContainsInfix | src/main/java/com/example/assignment2/repository/BookRepository.java:99 | `contains` finds a string wherever it is embedded, and the empty string in every string |
| Catalog.IsMissing | src/main/java/com/example/assignment2/service/BookService.java:47-52 | a field fails validation exactly when it is null or made only of characters at most U+0020 |
| BookStore.Seed | src/main/java/com/example/assignment2/repository/BookRepository.java:21-35 | the initial store holds exactly ids 1, 2 and 3, each keyed by its own id; books 1 and 2 are available, book 3 is not; the counter is 4 |
| Repository.BookRepository.constructor | src/main/java/com/example/assignment2/repository/BookRepository.java:24-35 | a new repository holds the seeded store |
| BookStore.FindById | src/main/java/com/example/assignment2/repository/BookRepository.java:47-49 | a lookup returns `Some(book)` exactly when the id is a key, and that book is the one stored there |
| Repository.BookRepository.FindById | src/main/java/com/example/assignment2/repository/BookRepository.java:47-49 | the same, for the repository's own table |
| Repository.BookRepository.ExistsById | src/main/java/com/example/assignment2/repository/BookRepository.java:89-91 | the answer is true exactly when the id is a key |
| BookStore.Save | src/main/java/com/example/assignment2/repository/BookRepository.java:54-61 | a book without an id gets the counter's value as id, and the counter goes up by one; a book with an id keeps it, and the counter stays; the saved book sits at its id; every other key is unchanged |
| Repository.BookRepository.Save | src/main/java/com/example/assignment2/repository/BookRepository.java:54-61 | the fields afterwards, and the returned book, are those of `BookStore.Save`; stored books stay keyed by their ids |
| BookStore.Update | src/main/java/com/example/assignment2/repository/BookRepository.java:66-73 | an absent id returns `None` and changes nothing; a present id gets the payload with its id forced to `id`, returns it, and leaves the keys, the counter and the other entries unchanged |
| Repository.BookRepository.Update | src/main/java/com/example/assignment2/repository/BookRepository.java:66-73 | the fields afterwards, and the result, are those of `BookStore.Update` |
| BookStore.DeleteById | src/main/java/com/example/assignment2/repository/BookRepository.java:78-84 | the answer is true exactly when the id was a key; afterwards the id is not a key, and no other entry or the counter changes; on false nothing changes |
| Repository.BookRepository.DeleteById | src/main/java/com/example/assignment2/repository/BookRepository.java:78-84 | the fields afterwards, and the answer, are those of `BookStore.DeleteById` |
| Repository.BookRepository.FindAll | src/main/java/com/example/assignment2/repository/BookRepository.java:40-42 | the list holds every stored book as often as it is stored, and its length is the table's size |
| Repository.BookRepository.FindByAuthor | src/main/java/com/example/assignment2/repository/BookRepository.java:96-104 | the call fails exactly when some stored author is null; otherwise the list holds exactly the stored books whose lower-cased author contains the lower-cased query |
| Repository.BookRepository.FindAvailableBooks | src/main/java/com/example/assignment2/repository/BookRepository.java:109-117 | the call fails exactly when some stored flag is null; otherwise the list holds exactly the stored books whose `available` is true |
| BookStore.GathersValues | src/main/java/com/example/assignment2/repository/BookRepository.java:96-117 | as a set, a query's list is exactly the set of books stored at the selected ids |
| BookStore.GathersDistinct | src/main/java/com/example/assignment2/repository/BookRepository.java:59-69 | when every book is stored under its own id, which save and update ensure, no book appears twice in a query's list |
| BookStore.AuthorResultsWithinAll | src/main/java/com/example/assignment2/repository/BookRepository.java:96-104 | what `findByAuthor` lists is a sub-multiset of what `findAll` lists |
| BookStore.AuthorMatches | src/main/java/com/example/assignment2/repository/BookRepository.java:99 | a book with a null author never matches; an author that contains the query as written always matches |
| BookStore.AuthorIdsIgnoreQueryCase | src/main/java/com/example/assignment2/repository/BookRepository.java:99 | lower-casing the query first selects the same books |
| Catalog.CreateBook | src/main/java/com/example/assignment2/service/BookService.java:45-60 | the call fails with Invalid exactly when the title or the author is null or blank, and then the store and counter are unchanged; otherwise the stored book keeps the title, author, isbn and year given, its `available` is true if unset and kept if set, its id is the counter's value if unset, and lookup finds it; the keys gain that id, every other entry is unchanged, and the counter moves by one exactly when the id was unset |
| Catalog.UpdateBook | src/main/java/com/example/assignment2/service/BookService.java:65-80 | an absent id gives NotFound whatever the fields are; a present id with a blank or null title or author gives Invalid and changes nothing; otherwise the entry becomes the payload with its id forced to `id`, and nothing else changes |
| Catalog.DeleteBook | src/main/java/com/example/assignment2/service/BookService.java:85-91 | an absent id gives NotFound and changes nothing; a present id gives true and only that key is removed |
| Catalog.BorrowBook | src/main/java/com/example/assignment2/service/BookService.java:113-126 | an absent id gives NotFound, a borrowed book gives Conflict, and a null flag gives NullPointer, each with nothing changed; an available book becomes unavailable, with its other fields and all other entries unchanged |
| Catalog.ReturnBook | src/main/java/com/example/assignment2/service/BookService.java:131-144 | the mirror image: NotFound, Conflict when already available, NullPointer on a null flag; a borrowed book becomes available, and nothing else changes |
| Catalog.CreateThenFind | src/main/java/com/example/assignment2/service/BookService.java:45-60 | a valid book created without an id gets the counter's value as id, keeps all its other fields apart from the `available` default, and is found again under that id |
| Catalog.CreateWithStoredIdOverwrites | src/main/java/com/example/assignment2/repository/BookRepository.java:54-61 | a creation request that already carries a stored id replaces that book: the keys and the counter stay as they were |
| Catalog.PresetIdAtCounterIsOverwritten | src/main/java/com/example/assignment2/repository/BookRepository.java:54-61 | a created book that carries the counter's own value as id leaves the counter there; the next creation without an id gets that id and replaces it |
| Catalog.DeleteTwice | src/main/java/com/example/assignment2/service/BookService.java:85-91 | deleting a present id succeeds and the id is gone; deleting it again gives NotFound |
| Catalog.BorrowTwiceConflicts | src/main/java/com/example/assignment2/service/BookService.java:113-126 | a first borrow of an available book succeeds and leaves it unavailable; an immediate second borrow gives Conflict |
| Catalog.ReturnTwiceConflicts | src/main/java/com/example/assignment2/service/BookService.java:131-144 | a first return of a borrowed book succeeds and leaves it available; an immediate second return gives Conflict |
| Catalog.BorrowThenReturnRestores | src/main/java/com/example/assignment2/service/BookService.java:113-144 | a borrow and then a return give back exactly the original store, and the return answers with the original book |
| Catalog.ReturnThenBorrowRestores | src/main/java/com/example/assignment2/service/BookService.java:113-144 | a return and then a borrow give back exactly the original store |
| Catalog.ReplacedCatalogued | src/main/java/com/example/assignment2/repository/BookRepository.java:66-73 | replacing one entry with a valid book keyed by its id keeps every stored book keyed and valid |
| Catalog.CreatePreserves | src/main/java/com/example/assignment2/service/BookService.java:45-60 | creation keeps every stored book keyed by its id, with a present title and author |
| Catalog.UpdatePreserves | src/main/java/com/example/assignment2/service/BookService.java:65-80 | update keeps the same invariant |
| Catalog.DeletePreserves | src/main/java/com/example/assignment2/service/BookService.java:85-91 | delete keeps the same invariant |
| Catalog.BorrowPreserves | src/main/java/com/example/assignment2/service/BookService.java:113-126 | borrow keeps the same invariant |
| Catalog.ReturnPreserves | src/main/java/com/example/assignment2/service/BookService.java:131-144 | return keeps the same invariant |
| Catalog.HandleCatalogued | src/main/java/com/example/assignment2/service/BookService.java:45-144 | every mutating request keeps every stored book keyed by its id, with a present title and author |
| Catalog.HandleCounter | src/main/java/com/example/assignment2/repository/BookRepository.java:54-61 | the counter goes up by exactly one when a valid book without an id is created, and stays otherwise |
| Catalog.RunCatalogued | src/main/java/com/example/assignment2/service/BookService.java:45-144 | over any sequence of requests the invariant holds |
| Catalog.RunCounter | src/main/java/com/example/assignment2/repository/BookRepository.java:21-61 | over any sequence of requests the counter only grows and never repeats an id it has handed out; those ids lie between its old and its new value |
| Catalog.HandlePreserves | src/main/java/com/example/assignment2/service/BookService.java:45-144 | every mutating request keeps the invariant; the counter goes up by exactly one when a valid book without an id is created, and stays otherwise |
| Catalog.RunPreserves | src/main/java/com/example/assignment2/repository/BookRepository.java:21-61 | over any sequence of requests the invariant holds and the counter only grows; the counter never repeats an id it has handed out, deleted or not, and all those ids lie between its old and its new value |
| Catalog.SeedCatalogued | src/main/java/com/example/assignment2/repository/BookRepository.java:31-35 | the seeded books are keyed by their ids and have present titles and authors |
| Catalog.SeedAvailable | src/main/java/com/example/assignment2/repository/BookRepository.java:31-35 | in the seed, exactly books 1 and 2 are available |
| Catalog.SeedReturnThree | src/main/java/com/example/assignment2/service/BookService.java:131-144 | in the seed, returning book 3 succeeds and makes all three books available; returning it again gives Conflict |
| Catalog.SeedSearchLee | src/main/java/com/example/assignment2/repository/BookRepository.java:96-104 | in the seed, the query "lee" matches book 2, whose author is "Harper Lee" |
| Catalog.LeeOccursInHarperLee | src/main/java/com/example/assignment2/repository/BookRepository.java:99 | lower-cased "lee" occurs in lower-cased "Harper Lee" |
| Catalog.SeedFirstCreate | src/main/java/com/example/assignment2/service/BookService.java:45-60 | in the seed, the first valid book created without an id or a flag gets id 4 and `available` true; the keys become 1 to 4 and the counter 5 |
| Service.BookService.constructor | src/main/java/com/example/assignment2/service/BookService.java:22-25 | the service works on the repository it is given |
| Service.BookService.GetAllBooks | src/main/java/com/example/assignment2/service/BookService.java:30-32 | the list is what `findAll` lists: every stored book |
| Service.BookService.GetBookById | src/main/java/com/example/assignment2/service/BookService.java:37-39 | the lookup of `findById` |
| Service.BookService.CreateBook | src/main/java/com/example/assignment2/service/BookService.java:45-60 | outcome and new store are those of `Catalog.CreateBook`; the service invariant is kept |
| Service.BookService.UpdateBook | src/main/java/com/example/assignment2/service/BookService.java:65-80 | outcome and new store are those of `Catalog.UpdateBook`; the service invariant is kept |
| Service.BookService.DeleteBook | src/main/java/com/example/assignment2/service/BookService.java:85-91 | outcome and new store are those of `Catalog.DeleteBook`; the service invariant is kept |
| Service.BookService.SearchBooksByAuthor | src/main/java/com/example/assignment2/service/BookService.java:96-101 | a null or blank query gives Invalid; any other query gives exactly the result of `findByAuthor`, which on a valid service always succeeds |
| Service.BookService.GetAvailableBooks | src/main/java/com/example/assignment2/service/BookService.java:106-108 | the result of `findAvailableBooks` |
| Service.BookService.BorrowBook | src/main/java/com/example/assignment2/service/BookService.java:113-126 | outcome and new store are those of `Catalog.BorrowBook`; the service invariant is kept |
| Service.BookService.ReturnBook | src/main/java/com/example/assignment2/service/BookService.java:131-144 | outcome and new store are those of `Catalog.ReturnBook`; the service invariant is kept |
| Service.SeededService | src/main/java/com/example/assignment2/service/BookService.java:113-126 | on a service over a fresh repository, borrowing book 1 succeeds and leaves it unavailable; borrowing it again gives Conflict |

## Left out

- The HTTP layer (`BookController.java`) is not part of this model. Its routes, Spring wiring and the mapping of outcomes to status codes are framework glue. That mapping sends `updateBook`'s validation error to 404 rather than 400, because it catches one exception type for both cases.
- Exception messages are not modelled; only the error kind is.
- Concurrency is not modelled. The model is strictly sequential, so the `AtomicLong` counter is a plain integer field, and the read-then-write race in borrow and return does not arise.
- Java object aliasing is not modelled. Books are values, so `borrowBook` changing the object it got from `findById` before calling `update` becomes building a new value. The stored result is the same.
- Iteration order of `HashMap.values()` is left open. Query results are specified as multisets over the selected ids.
- `toLowerCase` is modelled on ASCII letters only, not on full Unicode with locale rules. `trim` is modelled exactly: it strips characters at most U+0020.
- Ids and years are unbounded integers. The model does not capture overflow of the 64-bit `Long` counter.
- Null references are modelled only for fields. A null `Book` argument, a null id, and a null query passed straight to the repository are not modelled: every argument is a value, and the service rejects a null query before it reaches the repository.
- The catalog invariant (`Catalog.Catalogued`) does not include a non-null `available`, because the code does not enforce one. A stored null flag is modelled through the `NullPointer` outcome instead.
- Service.BookService.CreateBook: like the other service mutators, it requires the service invariant `Valid()`. Every service over a freshly seeded repository satisfies it, and every mutator keeps it. It is not a demand the Java code checks.
- Service.SeededService is a client of the classes. It stands for the seeded scenario, not for a member of the Java code.
