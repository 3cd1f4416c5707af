/**
  controller/BookController.kt, controller/AuthorController.kt and
  controller/GenreController.kt: the role each endpoint allows
  (@RolesAllowed, checked against "ROLE_" + role), the request-body and
  criteria checks, and the delegation of every permitted request to its
  service operation with its arguments unchanged.

  The decision order is the request pipeline's: an unauthenticated request
  is refused (401) by the filter chain, which lets no request through
  unauthenticated; an unreadable or invalid body is refused (400) while the
  handler's arguments are resolved; the role check (403) runs when the
  handler is invoked; the criteria size check (400) runs after it.
*/
module Controllers {
  import opened Wrappers
  import opened Decimals
  import opened Entities
  import opened Dtos
  import opened Paging
  import opened Errors
  import opened Security
  import opened BookStore
  import opened BookServices
  import opened AuthorServices
  import opened GenreServices

  const UnauthorizedStatus: int := 401
  const ForbiddenStatus: int := 403
  /** @Size(min = 3) on the search criteria, and the message its violation carries. */
  const CriteriaMinLength: nat := 3
  const CriteriaSizeMessage: string := "size must be between 3 and 2147483647"

  datatype Endpoint =
    | CreateNewBook | UpdateBook | DeleteBook | GetBook | GetBooks | SearchBooks
    | GetAuthors | GetGenres

  /** The @RolesAllowed table: writes for ADMIN, reads for USER or ADMIN. */
  function RolesAllowed(e: Endpoint): (r: set<string>)
    ensures AdminRole in r
    ensures UserRole in r <==> !IsWrite(e)
    ensures r <= {UserRole, AdminRole}
  {
    match e
    case CreateNewBook => {AdminRole}
    case UpdateBook => {AdminRole}
    case DeleteBook => {AdminRole}
    case _ => {UserRole, AdminRole}
  }

  predicate Permits(e: Endpoint, authorities: set<string>)
  {
    exists role :: role in RolesAllowed(e) && RolePrefix + role in authorities
  }

  /** A request body: read into the transfer object, or not readable (malformed JSON, a missing non-null field). */
  datatype Body<T> = Parsed(value: T) | Unreadable

  datatype Request =
    | CreateRequest(body: Body<BookRequestDto>)
    | UpdateRequest(id: Uuid, body: Body<BookRequestDto>)
    | DeleteRequest(id: Uuid)
    | GetRequest(id: Uuid)
    | ListRequest(page: PageRequest)
    | SearchRequest(criteria: string, page: PageRequest)
    | AuthorsRequest(page: PageRequest)
    | GenresRequest(page: PageRequest)

  function EndpointOf(r: Request): Endpoint
  {
    match r
    case CreateRequest(_) => CreateNewBook
    case UpdateRequest(_, _) => UpdateBook
    case DeleteRequest(_) => DeleteBook
    case GetRequest(_) => GetBook
    case ListRequest(_) => GetBooks
    case SearchRequest(_, _) => SearchBooks
    case AuthorsRequest(_) => GetAuthors
    case GenresRequest(_) => GetGenres
  }

  /** The service operation a handler calls, with the arguments it passes. */
  datatype Call =
    | Create(request: BookRequestDto)
    | Update(id: Uuid, request: BookRequestDto)
    | Delete(id: Uuid)
    | Get(id: Uuid)
    | List(page: PageRequest)
    | Search(criteria: string, page: PageRequest)
    | AllAuthors(page: PageRequest)
    | AllGenres(page: PageRequest)

  datatype Caller = Anonymous | Authenticated(token: Token)

  datatype Decision = Dispatch(call: Call) | Reject(status: int, error: Option<ApiError>)

  /** The @RequestBody @Valid check as the code runs it: the @param:-targeted constraints are not seen, so any readable body passes. */
  predicate BodyAcceptedAsWritten(body: Body<BookRequestDto>)
  {
    body.Parsed?
  }

  /** The @RequestBody @Valid check the constraints declare: a readable body whose title and price are valid. */
  predicate BodyAccepted(body: Body<BookRequestDto>)
  {
    body.Parsed? && RequestValid(body.value)
  }

  /**
    The declared rule's outcome: an authenticated caller of any role that
    sends a readable body breaking the title or price rule to create or
    update a book is refused with 400, before the role check and without a
    service call.
  */
  lemma InvalidBodyBadRequest(r: Request, token: Token)
    requires BodyOf(r).Some? && BodyOf(r).value.Parsed? && !RequestValid(BodyOf(r).value.value)
    ensures Route(r, Authenticated(token)) == Reject(400, None)
  {
  }

  /** A valid body from a holder of ROLE_ADMIN reaches the service, with the body unchanged. */
  lemma ValidBodyDispatched(r: Request, name: string)
    requires BodyOf(r).Some? && BodyOf(r).value.Parsed? && RequestValid(BodyOf(r).value.value)
    ensures Route(r, Authenticated(Token(name, {"ROLE_ADMIN"}))) == Dispatch(CallOf(r))
    ensures r.CreateRequest? ==> CallOf(r) == Create(BodyOf(r).value.value)
    ensures r.UpdateRequest? ==> CallOf(r) == Update(r.id, BodyOf(r).value.value)
  {
    WritesAdminOnly(EndpointOf(r), {"ROLE_ADMIN"});
  }

  /** A two-character title passes the check as the code runs it, and fails the declared one. */
  lemma ShortTitleAcceptedAsWritten(genre: GenreDto)
    ensures BodyAcceptedAsWritten(Parsed(BookRequestDto("ab", Decimal(2999, 2), [], genre)))
    ensures !BodyAccepted(Parsed(BookRequestDto("ab", Decimal(2999, 2), [], genre)))
  {
  }

  /** A price of 10000.00 passes the check as the code runs it, and fails the declared one. */
  lemma LargePriceAcceptedAsWritten(genre: GenreDto)
    ensures BodyAcceptedAsWritten(Parsed(BookRequestDto("Dune", Decimal(1000000, 2), [], genre)))
    ensures !BodyAccepted(Parsed(BookRequestDto("Dune", Decimal(1000000, 2), [], genre)))
  {
    PriceExamples();
  }

  function BodyOf(r: Request): Option<Body<BookRequestDto>>
  {
    match r
    case CreateRequest(body) => Some(body)
    case UpdateRequest(_, body) => Some(body)
    case _ => None
  }

  /** The call a permitted request makes: every argument passed on unchanged. */
  function CallOf(r: Request): Call
    requires BodyOf(r).Some? ==> BodyOf(r).value.Parsed?
  {
    match r
    case CreateRequest(body) => Create(body.value)
    case UpdateRequest(id, body) => Update(id, body.value)
    case DeleteRequest(id) => Delete(id)
    case GetRequest(id) => Get(id)
    case ListRequest(page) => List(page)
    case SearchRequest(criteria, page) => Search(criteria, page)
    case AuthorsRequest(page) => AllAuthors(page)
    case GenresRequest(page) => AllGenres(page)
  }

  /** The handling of one request up to the service call. */
  function Route(r: Request, caller: Caller): (d: Decision)
    ensures d.Dispatch? <==>
      && caller.Authenticated?
      && (BodyOf(r).Some? ==> BodyAccepted(BodyOf(r).value))
      && Permits(EndpointOf(r), caller.token.authorities)
      && (r.SearchRequest? ==> |r.criteria| >= CriteriaMinLength)
    ensures d.Dispatch? ==> d.call == CallOf(r)
    ensures caller.Anonymous? ==> d == Reject(UnauthorizedStatus, None)
    ensures caller.Authenticated? && BodyOf(r).Some? && !BodyAccepted(BodyOf(r).value) ==>
      d == Reject(BadRequestStatus, None)
    ensures (&& caller.Authenticated?
             && (BodyOf(r).Some? ==> BodyAccepted(BodyOf(r).value))
             && !Permits(EndpointOf(r), caller.token.authorities)) ==>
      d == Reject(ForbiddenStatus, None)
    ensures (&& caller.Authenticated?
             && Permits(EndpointOf(r), caller.token.authorities)
             && r.SearchRequest? && |r.criteria| < CriteriaMinLength) ==>
      d == Reject(BadRequestStatus, Some(Handle(ConstraintViolation([CriteriaSizeMessage]))))
    ensures d.Reject? ==> d.status in {BadRequestStatus, UnauthorizedStatus, ForbiddenStatus}
  {
    if caller.Anonymous? then Reject(UnauthorizedStatus, None)
    else if BodyOf(r).Some? && !BodyAccepted(BodyOf(r).value) then Reject(BadRequestStatus, None)
    else if !Permits(EndpointOf(r), caller.token.authorities) then Reject(ForbiddenStatus, None)
    else if r.SearchRequest? && |r.criteria| < CriteriaMinLength then
      Reject(BadRequestStatus, Some(Handle(ConstraintViolation([CriteriaSizeMessage]))))
    else Dispatch(CallOf(r))
  }

  predicate IsWrite(e: Endpoint)
  {
    e == CreateNewBook || e == UpdateBook || e == DeleteBook
  }

  /** Creating, updating and deleting books is permitted exactly to holders of ROLE_ADMIN. */
  lemma WritesAdminOnly(e: Endpoint, authorities: set<string>)
    requires IsWrite(e)
    ensures Permits(e, authorities) <==> "ROLE_ADMIN" in authorities
  {
    assert RolesAllowed(e) == {AdminRole};
    assert RolePrefix + AdminRole == "ROLE_ADMIN";
  }

  /** Every read (a book, the book list, the search, the authors, the genres) is permitted exactly to holders of ROLE_USER or ROLE_ADMIN. */
  lemma ReadsUserOrAdmin(e: Endpoint, authorities: set<string>)
    requires !IsWrite(e)
    ensures Permits(e, authorities) <==> "ROLE_USER" in authorities || "ROLE_ADMIN" in authorities
  {
    assert RolePrefix + AdminRole == "ROLE_ADMIN";
    assert RolePrefix + UserRole == "ROLE_USER";
  }

  /** No authentication: 401, whatever is asked. */
  lemma AnonymousUnauthorized(r: Request)
    ensures Route(r, Anonymous) == Reject(401, None)
  {
  }

  /** A caller holding only ROLE_USER gets 403 from every write whose body is accepted. */
  lemma UserForbiddenToWrite(r: Request, name: string)
    requires IsWrite(EndpointOf(r))
    requires BodyOf(r).Some? ==> BodyAccepted(BodyOf(r).value)
    ensures Route(r, Authenticated(Token(name, {"ROLE_USER"}))) == Reject(403, None)
  {
    WritesAdminOnly(EndpointOf(r), {"ROLE_USER"});
  }

  /** An unreadable body (the tests' null genre) is refused with 400 before any role check. */
  lemma UnreadableBodyBadRequest(r: Request, token: Token)
    requires BodyOf(r) == Some(Unreadable)
    ensures Route(r, Authenticated(token)) == Reject(400, None)
  {
  }

  /**
    Search criteria: shorter than three characters is refused with 400 and
    the size message, before the service is called; three characters reach it.
  */
  lemma CriteriaLength(criteria: string, page: PageRequest, name: string)
    ensures |criteria| < 3 ==>
      Route(SearchRequest(criteria, page), Authenticated(Token(name, {"ROLE_USER"})))
        == Reject(400, Some(ApiError(400, "size must be between 3 and 2147483647")))
    ensures |criteria| == 3 ==>
      Route(SearchRequest(criteria, page), Authenticated(Token(name, {"ROLE_USER"}))) == Dispatch(Search(criteria, page))
  {
    ReadsUserOrAdmin(SearchBooks, {"ROLE_USER"});
  }

  /** Every read (a book, the book list, the search, the authors, the genres) by a caller holding neither ROLE_USER nor ROLE_ADMIN gets 403. */
  lemma ReadsForbiddenWithoutRole(r: Request, token: Token)
    requires !IsWrite(EndpointOf(r))
    requires "ROLE_USER" !in token.authorities && "ROLE_ADMIN" !in token.authorities
    ensures Route(r, Authenticated(token)) == Reject(403, None)
  {
    ReadsUserOrAdmin(EndpointOf(r), token.authorities);
  }

  /** The author and genre listings pass the page request unchanged, for ROLE_USER and for ROLE_ADMIN alike. */
  lemma ListingsDelegate(page: PageRequest, name: string, role: string)
    requires role == "ROLE_USER" || role == "ROLE_ADMIN"
    ensures Route(AuthorsRequest(page), Authenticated(Token(name, {role}))) == Dispatch(AllAuthors(page))
    ensures Route(GenresRequest(page), Authenticated(Token(name, {role}))) == Dispatch(AllGenres(page))
  {
    ReadsUserOrAdmin(GetAuthors, {role});
    ReadsUserOrAdmin(GetGenres, {role});
  }

  /** Any other authority is refused the author and genre listings. */
  lemma ListingsForbidden(page: PageRequest, token: Token)
    requires "ROLE_USER" !in token.authorities && "ROLE_ADMIN" !in token.authorities
    ensures Route(AuthorsRequest(page), Authenticated(token)) == Reject(403, None)
    ensures Route(GenresRequest(page), Authenticated(token)) == Reject(403, None)
  {
    ReadsUserOrAdmin(GetAuthors, token.authorities);
    ReadsUserOrAdmin(GetGenres, token.authorities);
  }

  /** What the client receives with status 200; `EmptyBody` is the reply of a handler returning Unit. */
  datatype Response =
    | BookBody(book: BookDto)
    | BooksBody(books: PagedDto<BookDto>)
    | EmptyBody
    | AuthorsBody(authors: PagedDto<AuthorDto>)
    | GenresBody(genres: PagedDto<GenreDto>)

  datatype Reply = Ok(response: Response) | Error(status: int, error: Option<ApiError>)

  /** A service failure as the exception handler renders it. */
  function FailureReply(f: Failure): Reply
  {
    Error(Handle(f).status, Some(Handle(f)))
  }

  /**
    One request end to end: routed, and when dispatched, served by the book
    service or by the author and genre listings (`authors` and `genres`,
    their tables in store order; `generated`, the id a create would receive).
  */
  method Serve(service: BookServiceImpl, authors: seq<Author>, genres: seq<Genre>, r: Request, caller: Caller, generated: Uuid)
    returns (reply: Reply)
    requires service.Valid()
    requires generated !in service.repository.rows
    requires forall i :: 0 <= i < |authors| ==> authors[i].id.Some?
    requires forall i :: 0 <= i < |genres| ==> genres[i].id.Some?
    modifies service.repository
    ensures service.Valid()
    ensures var d := Route(r, caller);
      d.Reject? ==> reply == Error(d.status, d.error) && unchanged(service.repository)
    ensures var d := Route(r, caller);
      d.Dispatch? && !IsWrite(EndpointOf(r)) ==> unchanged(service.repository)
    ensures var d := Route(r, caller);
      d.Dispatch? && d.call.Get? ==>
        reply == (if d.call.id in service.repository.rows then Ok(BookBody(MapToBookDto(service.repository.rows[d.call.id])))
                  else FailureReply(NotFound(NotFoundMessage(d.call.id))))
    ensures var d := Route(r, caller);
      d.Dispatch? && d.call.Create? ==>
        && reply == Ok(BookBody(BookDto(generated, d.call.request.title, d.call.request.price, d.call.request.authors, d.call.request.genre)))
        && service.repository.rows == old(service.repository.rows)[generated := BookFromRequest(Some(generated), d.call.request)]
        && service.repository.order == old(service.repository.order) + [generated]
        && service.repository.writes == old(service.repository.writes) + [Saved(BookFromRequest(None, d.call.request))]
    ensures var d := Route(r, caller);
      d.Dispatch? && d.call.Update? ==>
        if d.call.id in old(service.repository.rows) then
          && reply == Ok(BookBody(BookDto(d.call.id, d.call.request.title, d.call.request.price, d.call.request.authors, d.call.request.genre)))
          && service.repository.rows == old(service.repository.rows)[d.call.id := BookFromRequest(Some(d.call.id), d.call.request)]
          && service.repository.order == old(service.repository.order)
          && service.repository.writes == old(service.repository.writes) + [Saved(BookFromRequest(Some(d.call.id), d.call.request))]
        else reply == FailureReply(NotFound(NotFoundMessage(d.call.id))) && unchanged(service.repository)
    ensures var d := Route(r, caller);
      d.Dispatch? && d.call.Delete? ==>
        if d.call.id in old(service.repository.rows) then
          && reply == Ok(EmptyBody)
          && service.repository.rows == old(service.repository.rows) - {d.call.id}
          && service.repository.order == Without(old(service.repository.order), d.call.id)
          && service.repository.writes == old(service.repository.writes) + [Deleted(old(service.repository.rows)[d.call.id])]
        else reply == FailureReply(NotFound(NotFoundMessage(d.call.id))) && unchanged(service.repository)
    ensures var d := Route(r, caller);
      d.Dispatch? && d.call.List? ==>
        reply == Ok(BooksBody(ToPagedDto(PageOf(AllBookDtos(service.repository.rows, service.repository.order), d.call.page))))
    ensures var d := Route(r, caller);
      d.Dispatch? && d.call.Search? ==>
        reply == Ok(BooksBody(ToPagedDto(PageOf(MatchingBookDtos(service.repository.rows, service.repository.order, d.call.criteria), d.call.page))))
    ensures var d := Route(r, caller);
      d.Dispatch? && d.call.AllAuthors? ==> reply == Ok(AuthorsBody(GetAllAuthors(authors, d.call.page)))
    ensures var d := Route(r, caller);
      d.Dispatch? && d.call.AllGenres? ==> reply == Ok(GenresBody(GetAllGenres(genres, d.call.page)))
  {
    var d := Route(r, caller);
    if d.Reject? {
      reply := Error(d.status, d.error);
      return;
    }
    match d.call
    case Create(request) =>
      var dto := service.CreateBook(request, generated);
      reply := Ok(BookBody(dto));
    case Update(id, request) =>
      var result := service.UpdateBook(id, request);
      reply := if result.Success? then Ok(BookBody(result.value)) else FailureReply(result.error);
    case Delete(id) =>
      var result := service.DeleteBook(id);
      reply := if result.Success? then Ok(EmptyBody) else FailureReply(result.error);
    case Get(id) =>
      var result := service.GetBook(id);
      reply := if result.Success? then Ok(BookBody(result.value)) else FailureReply(result.error);
    case List(page) =>
      var books := service.GetBooks(page);
      reply := Ok(BooksBody(books));
    case Search(criteria, page) =>
      var books := service.SearchBooks(criteria, page);
      reply := Ok(BooksBody(books));
    case AllAuthors(page) =>
      PageOfShape(authors, page);
      reply := Ok(AuthorsBody(GetAllAuthors(authors, page)));
    case AllGenres(page) =>
      PageOfShape(genres, page);
      reply := Ok(GenresBody(GetAllGenres(genres, page)));
  }

  /** The reply to a request for a missing book: 404, with the message naming the id. */
  lemma MissingBookReply(id: Uuid)
    ensures FailureReply(NotFound(NotFoundMessage(id))) == Error(404, Some(ApiError(404, "Book with " + id.text + " not found.")))
  {
  }
}
