# Bookstore backend core, modelled in Dafny

This project models the core of a Kotlin/Spring bookstore REST service: books with one genre and a list of authors, stored in a JPA-backed table, and served to authenticated callers via JWT bearer tokens.

The model covers:

- **the book table** (`BookStore`). Rows are keyed by UUID and kept in a fixed store order. It supports save (insert under a generated id, or replace under an existing id), delete, find-by-id, paged listing and the paged search query.
- **the search query** (`BookQuery`). The JPQL `SELECT DISTINCT … JOIN … WHERE LOWER(..) LIKE ..` is written out literally: joined rows, then the filter, then DISTINCT. It is proved equal to a plain per-book filter by a reference matching rule.
- **the book service** (`BookServices`). `BookServiceImpl` is a class over the table. `createBook`, `updateBook` and `deleteBook` change the table. `getBook`, `getBooks` and `searchBooks` read it. Each method is proved against specification functions over the table.
- **the author and genre listings** (`AuthorServices`, `GenreServices`): paged projections to (id, name).
- **paging** (`Paging`): the page a request selects, and the `PagedDto` record filled from it.
- **the transfer objects and their declared constraints** (`Dtos`, `Decimals`). The price rule follows `@Digits(integer = 4, fraction = 2)` on a `BigDecimal` model (unscaled value and scale). Digits are counted on the representation as given: precision − scale integer digits, and the scale (0 when negative) as fraction digits. Trailing zeros count, so 29.990 has three fraction digits.
- **the exception handler** (`Errors`): `NotFound` becomes 404 with its message; a constraint violation becomes 400 with its messages joined by `"; "`.
- **the JWT converter** (`Security`): the authorities are the default ones plus `"ROLE_" + r` for every role r under `resource_access.bookstore-client-id.roles`. The principal is `preferred_username`.
- **the controllers** (`Controllers`):
  - who may call which endpoint (`@RolesAllowed`);
  - the order of the 401, 400 and 403 outcomes;
  - the criteria length check;
  - one request served end to end by `Serve`.

Modelling choices:

- I/O and randomness become parameters.
  - The id the database generates on insert is the parameter `generated`, which can be any id not yet in use.
  - The authorities that Spring's default scope converter grants are the parameter `defaults`.
  - The author and genre tables are sequences passed to the listing operations.
- Role checks are assumed to be enforced. The main security configuration (`config/SecurityConfig.kt:30-33`) carries `@EnableWebSecurity` but no `@EnableMethodSecurity`, and the application class that might enable method security is not part of this model.
- The decision order in `Controllers.Route` follows Spring's request pipeline:
  1. the filter chain refuses an unauthenticated request (401);
  2. resolving the request body can refuse it (400);
  3. the `@RolesAllowed` interceptor runs when the handler is invoked (403);
  4. the `@Size(min = 3)` method-validation check runs on the criteria of a search (400).

## Model

| member | source | states |
|---|---|---|
| Errors.Handle | src/main/kotlin/rs/ua/bookstore/exception/RestExceptionHandler.kt:12-25 | A NotFound becomes ApiError(404, message) with the message verbatim. A constraint violation becomes status 400 |
| Errors.StatusDistinguishes | src/main/kotlin/rs/ua/bookstore/exception/RestExceptionHandler.kt:12-25 | Equal response statuses mean the same kind of failure: the status tells not-found from invalid |
| Errors.SingleViolationVerbatim | src/main/kotlin/rs/ua/bookstore/exception/RestExceptionHandler.kt:23 | One violation is reported as 400 with exactly its own message |
| Errors.ViolationMessageEnds | src/main/kotlin/rs/ua/bookstore/exception/RestExceptionHandler.kt:23 | The joined message begins with the first violation's message and ends with the last one's; there is no leading or trailing separator |
| Errors.ViolationMessageLength | src/main/kotlin/rs/ua/bookstore/exception/RestExceptionHandler.kt:23 | The joined message has the length of all the messages plus two characters per gap between them |
| Errors.ViolationMessagesConcat | src/main/kotlin/rs/ua/bookstore/exception/RestExceptionHandler.kt:23 | Two groups of violations are reported as the two joined messages with exactly one "; " between them |
| Controllers.MissingBookReply | src/main/kotlin/rs/ua/bookstore/exception/RestExceptionHandler.kt:12-15 | A missing book's failure reaches the client as 404 with body {404, "Book with <id> not found."} |
| Text.ContainsIff | src/main/kotlin/rs/ua/bookstore/repository/BookRepository.kt:18-20 | LIKE '%part%' holds exactly when part occurs at some position of the text, in both directions |
| Text.LowerIdempotent | src/main/kotlin/rs/ua/bookstore/repository/BookRepository.kt:18-20 | Applying LOWER twice is the same as applying it once |
| Decimals.DigitsBound | src/main/kotlin/rs/ua/bookstore/dto/BookDto.kt:19 | A non-zero number meets @Digits(integer, fraction) exactly when its scale is at most fraction and its unscaled magnitude is below 10^(integer + scale) |
| Decimals.DigitsMagnitude | src/main/kotlin/rs/ua/bookstore/dto/BookDto.kt:19 | A number that meets @Digits(integer, fraction) has an unscaled magnitude below 10^(integer + fraction) and, unless zero, a scale of at most fraction |
| Decimals.TrailingZeroCounts | src/main/kotlin/rs/ua/bookstore/dto/BookDto.kt:19 | Writing the same value with one more trailing zero keeps its integer digits and adds one fraction digit: the representation is counted, not only the value |
| Decimals.ZeroDigits | src/main/kotlin/rs/ua/bookstore/dto/BookDto.kt:19 | A zero has 1 − scale integer digits and the scale (0 when negative) as fraction digits |
| Decimals.TwoDecimalDigits | src/main/kotlin/rs/ua/bookstore/dto/BookDto.kt:19 | An amount in cents has at most 4 integer and 2 fraction digits exactly when its magnitude is below 10000.00 |
| Dtos.TitleValid | src/main/kotlin/rs/ua/bookstore/dto/BookDto.kt:18 | `@Size(min = 3)`: a title of three or more characters. A valid title is never empty |
| Dtos.PriceValid | src/main/kotlin/rs/ua/bookstore/dto/BookDto.kt:19 | `@Digits(integer = 4, fraction = 2)` on the price as written. A valid price has an unscaled value below 10^6 in magnitude and, unless zero, a scale of at most 2 |
| Dtos.PriceValidCents | src/main/kotlin/rs/ua/bookstore/dto/BookDto.kt:19 | A two-decimal price is valid exactly when it lies strictly between -10000.00 and 10000.00 |
| Dtos.PriceValidIgnoresSign | src/main/kotlin/rs/ua/bookstore/dto/BookDto.kt:19 | Negating a price never changes its validity: only digits are counted |
| Dtos.PriceRepresentationCounts | src/main/kotlin/rs/ua/bookstore/dto/BookDto.kt:19 | 29.99 and 0.00 pass the price rule, while 29.990 and 0E+10 fail it, though they equal 29.99 and 0 |
| Dtos.PriceExamples | src/main/kotlin/rs/ua/bookstore/dto/BookDto.kt:19 | 29.99, 9999.99 and -10.00 are valid prices; 10000.00 and 1.005 are not |
| Dtos.EmptyTitleRejected | src/main/kotlin/rs/ua/bookstore/dto/BookDto.kt:17-22 | The request the tests send as invalid has an empty title and price -10.00. It fails the declared title rule, though its price passes |
| Paging.CeilDivIsCeiling | src/main/kotlin/rs/ua/bookstore/dto/PagedDto.kt:7 | The page count is the least number of pages that cover all elements, and it is zero only for zero elements |
| Paging.BeyondPage | src/main/kotlin/rs/ua/bookstore/dto/PagedDto.kt:8 | Another page follows page k exactly when some element lies beyond the end of page k |
| Paging.PageOf | src/main/kotlin/rs/ua/bookstore/service/BookService.kt:43 | The page a `Pageable` selects from a store-ordered result: at most `size` elements, element i being element page·size + i of the result, with the request's number and size and the total count |
| Paging.ToPagedDto | src/main/kotlin/rs/ua/bookstore/service/BookService.kt:44-50 | The PagedDto every listing builds from a page: the page's content, numberOfElements equal to its length, the total count, a page count that covers all elements, and hasNext exactly when elements lie beyond this page |
| Paging.PageOfShape | src/main/kotlin/rs/ua/bookstore/dto/PagedDto.kt:3-9 | Page element i is element offset + i of the whole result. The page is full unless it reaches the end, and empty past the end. It reports the total count, the ceiling page count, and whether a next page exists |
| Paging.PagedDtoDefaults | src/main/kotlin/rs/ua/bookstore/dto/PagedDto.kt:5-8 | The record's counts default to 0 and hasNext defaults to false |
| Paging.ResponseShape | src/main/kotlin/rs/ua/bookstore/service/BookService.kt:44-50 | The response's data length equals numberOfElements. totalElements, totalPages and hasNext are those of the whole result, and data i is element offset + i |
| Paging.SixteenRowsInPagesOfTen | src/test/kotlin/rs/ua/bookstore/controller/BookControllerIntegrationTest.kt:219-240 | With 16 rows and pages of 10, page 0 holds 10 of 16 rows on 2 pages and has a next page. Page 1 holds 6 rows and has none |
| Paging.OneRow | src/test/kotlin/rs/ua/bookstore/service/BookServiceImplTest.kt:130-134 | One row gives one element on one page, with no next page |
| Paging.NoRows | src/test/kotlin/rs/ua/bookstore/service/BookServiceImplTest.kt:256-259 | No rows gives no data, zero counts and no next page, whatever page is asked for |
| BookQuery.Query | src/main/kotlin/rs/ua/bookstore/repository/BookRepository.kt:14-20 | The JPQL written out: the book-author join rows, the three LIKE conditions, then DISTINCT. The result never lists a book twice |
| BookQuery.Distinct | src/main/kotlin/rs/ua/bookstore/repository/BookRepository.kt:15 | DISTINCT returns no repeats, and keeps exactly the selected books not already seen |
| BookQuery.FilterMatchingMembers | src/main/kotlin/rs/ua/bookstore/repository/BookRepository.kt:18-20 | The reference filter keeps exactly the listed books that match the rule |
| BookQuery.OwnRows | src/main/kotlin/rs/ua/bookstore/repository/BookRepository.kt:17-20 | A book's own joined rows select only that book, and select it exactly when the book matches the per-book rule |
| BookQuery.QueryIsFilter | src/main/kotlin/rs/ua/bookstore/repository/BookRepository.kt:14-27 | On a store without duplicate rows, the literal join-filter-DISTINCT query, given one criteria string for all three roles, equals the per-book filter in store order |
| BookQuery.QueryMembers | src/main/kotlin/rs/ua/bookstore/repository/BookRepository.kt:15-20 | A book is found exactly when it is stored and matches, and no book is found twice even when several of its authors match |
| BookQuery.AuthorlessNeverFound | src/main/kotlin/rs/ua/bookstore/repository/BookRepository.kt:17 | Because of the inner join on authors, a book without authors is never found, whatever its title or genre |
| BookQuery.QueryCaseInsensitive | src/main/kotlin/rs/ua/bookstore/repository/BookRepository.kt:18-20 | Two criteria that differ only in letter case find the same books |
| BookQuery.QueryIgnoresCriteriaCase | src/main/kotlin/rs/ua/bookstore/repository/BookRepository.kt:18-20 | Lower-casing the criteria first changes nothing |
| BookQuery.SingleAuthorRule | src/main/kotlin/rs/ua/bookstore/repository/BookRepository.kt:17-20 | A single-author book matches exactly when its title, its genre name or its one author's name contains the criteria |
| BookQuery.GreatFindsGreatBook | src/test/kotlin/rs/ua/bookstore/controller/BookControllerIntegrationTest.kt:370-410 | "Great" matches "The Great Book" by its title |
| BookQuery.GreatMissesTheShining | src/test/kotlin/rs/ua/bookstore/controller/BookControllerIntegrationTest.kt:370-410 | "Great" does not match "The Shining" (Horror, Stephen King) |
| BookQuery.StephenFindsTheShining | src/test/kotlin/rs/ua/bookstore/controller/BookControllerIntegrationTest.kt:370-410 | "Stephen" matches "The Shining" by its author's name |
| BookQuery.StephenMissesGreatBook | src/test/kotlin/rs/ua/bookstore/controller/BookControllerIntegrationTest.kt:370-410 | "Stephen" does not match "The Great Book" (Fiction, John Doe) |
| BookQuery.NonExistentMissesGreatBook | src/test/kotlin/rs/ua/bookstore/controller/BookControllerIntegrationTest.kt:370-410 | "NonExistent" does not match "The Great Book" |
| BookQuery.NonExistentMissesTheShining | src/test/kotlin/rs/ua/bookstore/controller/BookControllerIntegrationTest.kt:370-410 | "NonExistent" does not match "The Shining" |
| BookQuery.SearchScenarios | src/test/kotlin/rs/ua/bookstore/controller/BookControllerIntegrationTest.kt:370-410 | On a store of those two books the query returns exactly [The Great Book] for "Great", [The Shining] for "Stephen", and nothing for "NonExistent" |
| BookStore.Listed | src/main/kotlin/rs/ua/bookstore/repository/BookRepository.kt:12 | The listing has one entry per ordered id, and entry i is the row stored under id i |
| BookStore.Without | src/main/kotlin/rs/ua/bookstore/repository/BookRepository.kt:12 | Removing an id keeps every other id and changes nothing when the id is absent |
| BookStore.WithoutUnique | src/main/kotlin/rs/ua/bookstore/repository/BookRepository.kt:12 | Removing a present id from a list without repeats leaves a list without repeats that is one shorter |
| BookStore.ListedDistinct | src/main/kotlin/rs/ua/bookstore/entity/Book.kt:18-22 | Ids are the primary key, so the listing has as many entries as the table and no two equal books |
| BookStore.KeysAreOrder | src/main/kotlin/rs/ua/bookstore/entity/Book.kt:18-22 | The table and its store order have the same size |
| BookStore.InsertKeepsInvariant | src/main/kotlin/rs/ua/bookstore/entity/Book.kt:18-22 | Inserting a row under a fresh generated id keeps the table invariant |
| BookStore.InsertListed | src/main/kotlin/rs/ua/bookstore/repository/BookRepository.kt:12 | Inserting under a fresh id appends the new row to the end of the listing |
| BookStore.ReplaceKeepsInvariant | src/main/kotlin/rs/ua/bookstore/entity/Book.kt:21 | Replacing a row under its own id keeps the invariant and the order, and changes only that row's place in the listing |
| BookStore.RemoveKeepsInvariant | src/main/kotlin/rs/ua/bookstore/repository/BookRepository.kt:12 | Removing a row and its id keeps the table invariant |
| BookStore.BookRepository.FindById | src/main/kotlin/rs/ua/bookstore/repository/BookRepository.kt:12 | findById returns the stored row when the id is stored and nothing otherwise |
| BookStore.BookRepository.Save | src/main/kotlin/rs/ua/bookstore/entity/Book.kt:18-22 | A book without an id is inserted under the generated id and appended to the order. A book with a stored id replaces that row in place. Either way the saved row is returned, the invariant holds, and the save is logged |
| BookStore.BookRepository.Delete | src/main/kotlin/rs/ua/bookstore/repository/BookRepository.kt:12 | delete removes exactly the row under the book's id; a book without an id or not stored changes nothing |
| BookStore.BookRepository.FindAll | src/main/kotlin/rs/ua/bookstore/repository/BookRepository.kt:12 | findAll returns the requested page of the table in store order |
| BookStore.BookRepository.FindByTitleOrAuthorNameOrGenreName | src/main/kotlin/rs/ua/bookstore/repository/BookRepository.kt:22-27 | The search returns the requested page of the query's result over the table in store order |
| BookServices.MapToBookDto | src/main/kotlin/rs/ua/bookstore/service/BookService.kt:84-92 | mapToBookDto: the book's id and its genre's id dereferenced (both must be present), the title, price and genre name copied, and one author DTO per author |
| BookServices.MapToBookDtoAuthors | src/main/kotlin/rs/ua/bookstore/service/BookService.kt:84-92 | The projection keeps the count and the order of the authors; it is defined only when every dereferenced id is present |
| BookServices.AuthorsFromDtos | src/main/kotlin/rs/ua/bookstore/service/BookService.kt:32 | Request authors become author references one for one, ids and names copied in order |
| BookServices.BookFromRequest | src/main/kotlin/rs/ua/bookstore/service/BookService.kt:29-34 | The built entity carries the given id, the request's title and price, and ids for its genre and authors |
| BookServices.RequestRoundTrip | src/main/kotlin/rs/ua/bookstore/service/BookService.kt:27-35 | Building the entity from a request under an id and projecting it back gives exactly the request's fields under that id |
| BookServices.AuthorsRoundTrip | src/main/kotlin/rs/ua/bookstore/service/BookService.kt:32 | Turning request authors into references and back gives the request's authors |
| BookServices.NotFoundMentionsId | src/main/kotlin/rs/ua/bookstore/service/BookService.kt:39 | The not-found message contains the id it was built for |
| BookServices.BookDtos | src/main/kotlin/rs/ua/bookstore/service/BookService.kt:43 | A list of books is projected one for one, in order |
| BookServices.MapBookPageCommutes | src/main/kotlin/rs/ua/bookstore/service/BookService.kt:43 | Projecting a page equals paging the projected list: the counts are kept, and element i is element i projected |
| BookServices.MissingBookResponse | src/main/kotlin/rs/ua/bookstore/service/BookService.kt:39 | Reading a missing id fails, and the handler turns the failure into {404, "Book with <id> not found."} |
| BookServices.CreatedIsFound | src/main/kotlin/rs/ua/bookstore/service/BookService.kt:27-40 | After a create under a fresh id, that id reads back the request's fields, and every other id reads as before |
| BookServices.DeletedIsGone | src/main/kotlin/rs/ua/bookstore/service/BookService.kt:66-69 | After a delete the id reads as NotFound, and every other id reads as before |
| BookServices.BookListingShape | src/main/kotlin/rs/ua/bookstore/service/BookService.kt:42-51 | The book listing reports the table's counts and hasNext exactly when rows remain. Element i is the book at offset + i of the store order, projected |
| BookServices.SearchListingMembers | src/main/kotlin/rs/ua/bookstore/service/BookService.kt:71-82 | The search listing contains the projection of every stored matching book, and only those |
| BookServices.SearchScenarioResponses | src/test/kotlin/rs/ua/bookstore/controller/BookControllerIntegrationTest.kt:370-410 | On the two-book store with pages of ten: "Great" returns The Great Book, "Stephen" returns The Shining, and "NonExistent" returns no data and a total of 0 |
| BookServices.BookServiceImpl.CreateBook | src/main/kotlin/rs/ua/bookstore/service/BookService.kt:27-35 | createBook performs exactly one save of the entity built from the request. The table gains that row under the generated id, at the end of the order, and the returned DTO is the request's fields under the new id |
| BookServices.BookServiceImpl.GetBook | src/main/kotlin/rs/ua/bookstore/service/BookService.kt:38-40 | getBook returns the stored book projected, or NotFound naming the id; it fails exactly when the id is absent |
| BookServices.BookServiceImpl.GetBooks | src/main/kotlin/rs/ua/bookstore/service/BookService.kt:42-51 | getBooks returns the requested page of the projected table in store order, with that page's counts |
| BookServices.BookServiceImpl.UpdateBook | src/main/kotlin/rs/ua/bookstore/service/BookService.kt:54-64 | On an absent id, updateBook returns NotFound and leaves the table untouched with no save. Otherwise one save replaces that row with the request's fields under the same id, keeps the order, and returns the DTO under the path id |
| BookServices.BookServiceImpl.DeleteBook | src/main/kotlin/rs/ua/bookstore/service/BookService.kt:66-69 | On an absent id, deleteBook returns NotFound and deletes nothing. Otherwise one delete of the stored book removes exactly that row |
| BookServices.BookServiceImpl.SearchBooks | src/main/kotlin/rs/ua/bookstore/service/BookService.kt:71-82 | searchBooks, passing the same criteria as title, author and genre, returns the requested page of the matching books projected, in store order, with that page's counts |
| AuthorServices.AuthorDtos | src/main/kotlin/rs/ua/bookstore/service/AuthorService.kt:18 | Authors are projected to (id, name) one for one, in order; getAllAuthors and mapToBookDto (service/BookService.kt:89) share this projection |
| AuthorServices.GetAllAuthors | src/main/kotlin/rs/ua/bookstore/service/AuthorService.kt:17-26 | data is the page's authors projected in order; the page's counts are copied unchanged; every author on the page must have an id |
| AuthorServices.AuthorListingShape | src/main/kotlin/rs/ua/bookstore/service/AuthorService.kt:17-26 | Against the whole author table: data i is the author at offset + i, the total is the table size, and hasNext holds exactly when authors remain |
| GenreServices.GenreDtos | src/main/kotlin/rs/ua/bookstore/service/GenreService.kt:19 | Genres are projected to (id, name) one for one, in order |
| GenreServices.GetAllGenres | src/main/kotlin/rs/ua/bookstore/service/GenreService.kt:18-27 | data is the page's genres projected in order; the page's counts are copied unchanged; every genre on the page must have an id |
| GenreServices.GenreListingShape | src/main/kotlin/rs/ua/bookstore/service/GenreService.kt:18-27 | Against the whole genre table: data i is the genre at offset + i, the total is the table size, and hasNext holds exactly when genres remain |
| Security.ExtractResourceRoles | src/main/kotlin/rs/ua/bookstore/config/SecurityConfig.kt:98-103 | Fails, naming resource_access, exactly when resource_access is missing, null or not an object. When the client entry is an object and its roles value is a list, the result is exactly "ROLE_" + r for every listed role r; any roles granted come from such an entry; a missing or non-object client entry, or a missing or non-list roles value, gives no roles |
| Security.PrincipalName | src/main/kotlin/rs/ua/bookstore/config/SecurityConfig.kt:93-96 | Succeeds exactly when preferred_username is a string, and returns it. A missing or null claim is a missing-claim failure; any other type is a wrong-type failure |
| Security.Convert | src/main/kotlin/rs/ua/bookstore/config/SecurityConfig.kt:88-91 | Succeeds exactly when both the roles and the principal name can be read, and a roles failure wins. A converted token keeps every default authority and is named by preferred_username |
| Security.Lookup | src/main/kotlin/rs/ua/bookstore/config/SecurityConfig.kt:100 | Map.get finds a value exactly when the key is present, and the value found is stored under that key |
| Security.StringRoleGranted | src/main/kotlin/rs/ua/bookstore/config/SecurityConfig.kt:99-101 | For string roles, "ROLE_" + r is granted exactly when r is listed |
| Security.ExtractedArePrefixed | src/main/kotlin/rs/ua/bookstore/config/SecurityConfig.kt:98-103 | Every extracted authority starts with "ROLE_" |
| Security.DuplicateRolesCollapse | src/main/kotlin/rs/ua/bookstore/config/SecurityConfig.kt:101 | Listing a role twice, in front or at the back, grants the same authorities |
| Security.NoRolesCases | src/main/kotlin/rs/ua/bookstore/config/SecurityConfig.kt:100-102 | A missing or non-object client entry, or a missing or non-list roles entry, gives the empty role set |
| Security.ResourceAccessRequired | src/main/kotlin/rs/ua/bookstore/config/SecurityConfig.kt:99 | A token whose resource_access is missing, or is not an object, fails conversion instead of yielding no roles |
| Security.ConvertedAuthorities | src/main/kotlin/rs/ua/bookstore/config/SecurityConfig.kt:88-96 | A converted token's authorities are exactly the defaults united with the extracted roles, and its name is the preferred_username string |
| Security.ClientRolesGranted | src/main/kotlin/rs/ua/bookstore/config/SecurityConfig.kt:88-103 | For a token listing string roles for the client, conversion succeeds; every listed role r is granted as ROLE_r, and a non-default ROLE_r is granted only when r is listed |
| Security.AdminTokenExample | src/main/kotlin/rs/ua/bookstore/config/SecurityConfig.kt:106-109 | A token listing the role "ADMIN" for the client converts to its user with exactly the defaults plus "ROLE_ADMIN" |
| Controllers.RolesAllowed | src/main/kotlin/rs/ua/bookstore/controller/BookController.kt:23-44 | The `@RolesAllowed` table of the book, author (AuthorController.kt:18) and genre (GenreController.kt:18) endpoints. ADMIN is allowed everywhere, USER exactly on the reads, and no other role anywhere |
| Controllers.Route | src/main/kotlin/rs/ua/bookstore/controller/BookController.kt:22-46 | A request is dispatched exactly when the caller is authenticated, any body is readable and valid, a role the endpoint allows is held, and a search criteria has at least 3 characters. It is then dispatched with its arguments unchanged. Each rejection has its own cause, checked in this order: no authentication gives 401; an unreadable or invalid body gives 400 with no error body; a missing role gives 403; criteria shorter than 3 characters give 400 with the size message |
| Controllers.WritesAdminOnly | src/main/kotlin/rs/ua/bookstore/controller/BookController.kt:22-33 | Create, update and delete are permitted exactly to holders of ROLE_ADMIN |
| Controllers.ReadsUserOrAdmin | src/main/kotlin/rs/ua/bookstore/controller/BookController.kt:35-46 | Getting a book, the list, the search, the authors and the genres are permitted exactly to holders of ROLE_USER or ROLE_ADMIN |
| Controllers.AnonymousUnauthorized | src/main/kotlin/rs/ua/bookstore/config/SecurityConfig.kt:46-48 | Every request without authentication gets 401 |
| Controllers.UserForbiddenToWrite | src/main/kotlin/rs/ua/bookstore/controller/BookController.kt:22-33 | A caller holding only ROLE_USER gets 403 from every write whose body is accepted |
| Controllers.UnreadableBodyBadRequest | src/main/kotlin/rs/ua/bookstore/controller/BookController.kt:24-29 | An unreadable body, such as the tests' null genre, gets 400 before any role check |
| Controllers.CriteriaLength | src/main/kotlin/rs/ua/bookstore/controller/BookController.kt:43-46 | Criteria shorter than 3 characters get 400 with "size must be between 3 and 2147483647", and the service is not called. Criteria of exactly 3 characters reach the search |
| Controllers.ReadsForbiddenWithoutRole | src/main/kotlin/rs/ua/bookstore/controller/BookController.kt:35-46 | Every read (a book, the book list, the search, the authors, the genres) by a caller holding neither ROLE_USER nor ROLE_ADMIN gets 403 |
| Controllers.ListingsDelegate | src/main/kotlin/rs/ua/bookstore/controller/AuthorController.kt:17-19 | GET /author and GET /genres are permitted to ROLE_USER and to ROLE_ADMIN, and pass the page request unchanged |
| Controllers.ListingsForbidden | src/main/kotlin/rs/ua/bookstore/controller/GenreController.kt:17-19 | Any caller holding neither ROLE_USER nor ROLE_ADMIN gets 403 from GET /author and GET /genres |
| Controllers.InvalidBodyBadRequest | src/main/kotlin/rs/ua/bookstore/dto/BookDto.kt:17-22 | Under the declared rules, a create or update whose readable body breaks the title or price rule gets 400 from an authenticated caller of any role, before the role check and without a service call |
| Controllers.ValidBodyDispatched | src/main/kotlin/rs/ua/bookstore/controller/BookController.kt:22-29 | A create or update with a valid body from a holder of ROLE_ADMIN reaches the service with the body and the path id unchanged |
| Controllers.ShortTitleAcceptedAsWritten | src/main/kotlin/rs/ua/bookstore/dto/BookDto.kt:18 | A two-character title passes the body check as the code runs it, but fails the declared rule |
| Controllers.LargePriceAcceptedAsWritten | src/main/kotlin/rs/ua/bookstore/dto/BookDto.kt:19 | A price of 10000.00 passes the body check as the code runs it, but fails the declared rule |
| Controllers.Serve | src/main/kotlin/rs/ua/bookstore/controller/BookController.kt:20-47 | One request end to end. A rejected request gets its status, and the table is unchanged, so a forbidden delete leaves the book in place. A dispatched read leaves the table unchanged. Every dispatched call returns its service operation's result. Every change to the table is the one that operation promises: its rows, the store order the listings use (a created book is listed last, a deleted one drops out) and exactly one logged save or delete |

## Left out

- Framework configuration: the filter-chain builder, CORS, CSRF, stateless sessions and JWT signature verification against the key set (`config/SecurityConfig.kt:41-80`). This is library configuration and cryptography.
- Method-security enabling: the model assumes `@RolesAllowed` is enforced. The main configuration does not enable it, and the application class is not part of this model.
- Transactions (`@Transactional`) and the auditing timestamps `createdOn`/`updatedOn` (`entity/Book.kt:24-30`), which the auditing listener fills in. The model does not capture one consequence, which follows from the code but was never executed: updateBook saves a fresh `Book` whose `createdOn` is the default null (`service/BookService.kt:56-62`, `entity/Book.kt:26`). The merge copies that null over the stored value, and the listener's update hook sets only `updatedOn`, so an update clears the creation time.
- The database engine and the ORM:
  - how a save cascades to or merges the embedded author and genre rows;
  - `gen_random_uuid`, replaced by the `generated` parameter.
- Referential integrity: the model does not check that the author and genre ids in a request exist. The service does not check them either.
- `BookServices.CreatedIsFound`: a read after a create returns the author and genre names the request carried, because the book row holds those names. The ORM maps the genre (`@ManyToOne`) and the authors (`@ManyToMany`) to their own tables without cascade (`entity/Book.kt:35-45`). A later getBook, getBooks or search therefore reads the names stored in those tables under the referenced ids. When the request's names differ from the stored ones, the model returns the request's names and the program returns the stored ones.
- `BookQuery.MatchesCriteria`: the search matches the author and genre names held in the book row. The query reads `g.name` and `a.name` from the genre and author tables (`repository/BookRepository.kt:18-20`), and the two agree only when every row holds the names stored under its referenced ids.
- `Controllers.Route`: it checks request bodies by the declared title and price rules (`Controllers.BodyAccepted`). This is stricter than the code as written, which accepts any readable body (see Findings); `Controllers.Serve` inherits it.
- `BookServices.BookServiceImpl.UpdateBook`: it returns the request's author and genre names. A merge that reloads the referenced rows could return their stored names; the ORM's resolution is not modelled.
- `BookStore.BookRepository.Save`: it requires a given id to be stored already. A merge that inserts under a caller-chosen id is not modelled, and the service never does one.
- Search text handling:
  - `BookQuery.LikeAnywhere`: lower-casing covers ASCII letters only, with no Unicode case folding;
  - `%` and `_` in the criteria are not treated as LIKE wildcards.
- Strings are sequences of characters. Java's UTF-16 length, which the `@Size` checks count, is not distinguished from it.
- Paging:
  - Spring's pageable resolution (default page size 20, maximum 2000, negative values clamped) is not modelled; a page request is a page index and a positive size.
  - `totalPages` is computed as an exact integer ceiling, not through `Math.ceil` on doubles.
  - `Int` and `Long` widths of the counts are not modelled.
  - Unsorted pages list rows in one fixed store order.
  - The `sort` part of a page request, which `findAll` and the search both apply, is not modelled: every page lists rows in store order.
- Orders that come from hash structures: the order of claim-map entries and the order in which constraint violations are iterated are taken as given sequences.
- `Security.Convert`: a conversion failure (a missing claim or a wrong claim type) is an error outcome. The HTTP status the framework then returns is not modelled.
- A malformed UUID in a path is rejected by the framework before the handler runs; the model takes ids as already parsed.
- The default authorities that Spring's scope converter derives from the `scope` claim are a parameter (`defaults`), not computed.
- The name rule of `GenreDto`: it is only reachable through nested validation, and the request's `genre` is not marked `@Valid`.
- Logging (`logging/LoggingAspect.kt`): AOP logging only, with no effect on results.

## Findings

| source | as written | input that shows it | evidently intended | confidence | as-written member | corrected member |
|---|---|---|---|---|---|---|
| src/main/kotlin/rs/ua/bookstore/dto/BookDto.kt:18-19 | `@param:Size(min = 3)` and `@param:Digits(integer = 4, fraction = 2)` place the constraints on constructor parameters. Bean validation of the `@Valid` request body reads field and getter constraints, so neither rule is checked and any readable body is accepted | a body with title "ab", or with price 10000.00, and a valid genre | a body whose title is shorter than 3 characters, or whose price has more than 4 integer or 2 fraction digits, is refused with 400 | medium, not executed | Controllers.ShortTitleAcceptedAsWritten | Controllers.InvalidBodyBadRequest |

For the finding above:

- `Controllers.BodyAcceptedAsWritten` models the check as it runs, and `Controllers.LargePriceAcceptedAsWritten` exhibits the price half of the discrepancy.
- `Controllers.Route` uses the corrected `Controllers.BodyAccepted`, and `Controllers.InvalidBodyBadRequest` proves that such a body is refused with 400.
- The repository's only invalid-body test still gets its 400, because that body's null genre makes it unreadable. That test therefore does not exercise the constraints.
