/**
  service/BookService.kt: BookServiceImpl over the book table. Creating,
  updating and deleting change the table; reading, listing and searching
  do not. A NotFoundException is the Failure outcome NotFound, with the
  message the service builds.
*/
module BookServices {
  import opened Wrappers
  import opened Text
  import opened Entities
  import opened Dtos
  import opened Paging
  import opened BookQuery
  import opened Errors
  import opened BookStore
  import opened AuthorServices

  /** mapToBookDto: every field copied, authors in order; the ids it dereferences must be present. */
  function MapToBookDto(b: Book): (r: BookDto)
    requires HasIds(b)
    ensures Some(r.id) == b.id && Some(r.genre.id) == b.genre.id
    ensures r.title == b.title && r.price == b.price && r.genre.name == b.genre.name
    ensures |r.authors| == |b.authors|
  {
    BookDto(b.id.value, b.title, b.price, AuthorDtos(b.authors), GenreDto(b.genre.id.value, b.genre.name))
  }

  /** The request's authors as entity references, ids and names copied in order. */
  function AuthorsFromDtos(dtos: seq<AuthorDto>): (r: seq<Author>)
    ensures |r| == |dtos|
    ensures forall i :: 0 <= i < |dtos| ==> r[i] == Author(Some(dtos[i].id), dtos[i].name)
  {
    if dtos == [] then [] else [Author(Some(dtos[0].id), dtos[0].name)] + AuthorsFromDtos(dtos[1..])
  }

  /** The Book entity createBook (id absent) and updateBook (the path id) build from a request. */
  function BookFromRequest(id: Option<Uuid>, request: BookRequestDto): (b: Book)
    ensures b.id == id && b.genre.id.Some? && AuthorsHaveIds(b.authors)
    ensures b.title == request.title && b.price == request.price
  {
    Book(id, request.title, Genre(Some(request.genre.id), request.genre.name), AuthorsFromDtos(request.authors), request.price)
  }

  /**
    Building the entity from a request under an id and projecting it back
    gives the request's own fields under that id: the service stores and
    returns exactly what it was sent.
  */
  lemma {:induction false} RequestRoundTrip(id: Uuid, request: BookRequestDto)
    ensures HasIds(BookFromRequest(Some(id), request))
    ensures MapToBookDto(BookFromRequest(Some(id), request))
         == BookDto(id, request.title, request.price, request.authors, request.genre)
  {
    AuthorsRoundTrip(request.authors);
  }

  lemma {:induction false} AuthorsRoundTrip(dtos: seq<AuthorDto>)
    ensures AuthorsHaveIds(AuthorsFromDtos(dtos))
    ensures AuthorDtos(AuthorsFromDtos(dtos)) == dtos
  {
    if dtos != [] {
      AuthorsRoundTrip(dtos[1..]);
    }
  }

  /** The projection keeps the count and the order of the authors. */
  lemma MapToBookDtoAuthors(b: Book)
    requires HasIds(b)
    ensures |MapToBookDto(b).authors| == |b.authors|
    ensures forall i :: 0 <= i < |b.authors| ==> MapToBookDto(b).authors[i] == AuthorDto(b.authors[i].id.value, b.authors[i].name)
  {
  }

  /** "Book with <id> not found." */
  function NotFoundMessage(id: Uuid): string
  {
    "Book with " + id.text + " not found."
  }

  /** The not-found message names the id it was built for. */
  lemma NotFoundMentionsId(id: Uuid)
    ensures Contains(NotFoundMessage(id), id.text)
  {
    var m := NotFoundMessage(id);
    assert m[10..10 + |id.text|] == id.text;
    ContainsAt(m, id.text, 10);
  }

  function BookDtos(books: seq<Book>): (r: seq<BookDto>)
    requires forall i :: 0 <= i < |books| ==> HasIds(books[i])
    ensures |r| == |books|
    ensures forall i :: 0 <= i < |books| ==> r[i] == MapToBookDto(books[i])
  {
    if books == [] then [] else [MapToBookDto(books[0])] + BookDtos(books[1..])
  }

  /** page.map(mapToBookDto): the same page, its content projected. */
  function MapBookPage(page: Page<Book>): (r: Page<BookDto>)
    requires forall i :: 0 <= i < |page.content| ==> HasIds(page.content[i])
  {
    Page(BookDtos(page.content), page.number, page.size, page.totalElements)
  }

  /** Projecting a page is paging the projected list: the counts do not change and element i is element i projected. */
  lemma MapBookPageCommutes(books: seq<Book>, request: PageRequest)
    requires forall i :: 0 <= i < |books| ==> HasIds(books[i])
    ensures forall i :: 0 <= i < |PageOf(books, request).content| ==> HasIds(PageOf(books, request).content[i])
    ensures MapBookPage(PageOf(books, request)) == PageOf(BookDtos(books), request)
  {
    var start := if request.Offset() <= |books| then request.Offset() else |books|;
    var end := if start + request.size <= |books| then start + request.size else |books|;
    assert PageOf(books, request).content == books[start..end];
    assert PageOf(BookDtos(books), request).content == BookDtos(books)[start..end];
    BookDtosSlice(books, start, end);
  }

  lemma BookDtosSlice(books: seq<Book>, start: nat, end: nat)
    requires forall i :: 0 <= i < |books| ==> HasIds(books[i])
    requires start <= end <= |books|
    ensures forall i :: 0 <= i < |books[start..end]| ==> HasIds(books[start..end][i])
    ensures BookDtos(books[start..end]) == BookDtos(books)[start..end]
  {
    assert forall i :: 0 <= i < end - start ==> books[start..end][i] == books[start + i];
  }

  /** getBook's outcome on a table: the stored book projected, or NotFound naming the id. */
  function BookById(rows: map<Uuid, Book>, id: Uuid): Result<BookDto, Failure>
    requires forall k :: k in rows ==> HasIds(rows[k])
  {
    if id in rows then Success(MapToBookDto(rows[id])) else Failure(NotFound(NotFoundMessage(id)))
  }

  /** The listing every book response is paged from: the table in store order, projected. */
  function AllBookDtos(rows: map<Uuid, Book>, order: seq<Uuid>): seq<BookDto>
    requires WellFormed(rows, order)
  {
    BookDtos(Listed(rows, order))
  }

  /** The books a search finds, projected: those matching the criteria, in store order. */
  function MatchingBookDtos(rows: map<Uuid, Book>, order: seq<Uuid>, criteria: string): seq<BookDto>
    requires WellFormed(rows, order)
  {
    FilterMatchingListed(rows, order, criteria);
    BookDtos(FilterMatching(Listed(rows, order), criteria))
  }

  lemma FilterMatchingListed(rows: map<Uuid, Book>, order: seq<Uuid>, criteria: string)
    requires WellFormed(rows, order)
    ensures forall i :: 0 <= i < |FilterMatching(Listed(rows, order), criteria)| ==> HasIds(FilterMatching(Listed(rows, order), criteria)[i])
  {
    FilterMatchingMembers(Listed(rows, order), criteria);
    forall i | 0 <= i < |FilterMatching(Listed(rows, order), criteria)|
      ensures HasIds(FilterMatching(Listed(rows, order), criteria)[i])
    {
      var b := FilterMatching(Listed(rows, order), criteria)[i];
      assert b in FilterMatching(Listed(rows, order), criteria);
      var j :| 0 <= j < |Listed(rows, order)| && Listed(rows, order)[j] == b;
    }
  }

  /** A missing book reaches the client as 404 with the message naming the id. */
  lemma MissingBookResponse(rows: map<Uuid, Book>, id: Uuid)
    requires forall k :: k in rows ==> HasIds(rows[k])
    requires id !in rows
    ensures BookById(rows, id).Failure?
    ensures Handle(BookById(rows, id).error) == ApiError(404, "Book with " + id.text + " not found.")
  {
  }

  /** After a create under a fresh id, that id reads back the request's fields; every other id reads as before. */
  lemma CreatedIsFound(rows: map<Uuid, Book>, id: Uuid, request: BookRequestDto, other: Uuid)
    requires forall k :: k in rows ==> HasIds(rows[k])
    requires other != id
    ensures BookById(rows[id := BookFromRequest(Some(id), request)], id) == Success(BookDto(id, request.title, request.price, request.authors, request.genre))
    ensures BookById(rows[id := BookFromRequest(Some(id), request)], other) == BookById(rows, other)
  {
    RequestRoundTrip(id, request);
  }

  /** After a delete the id reads as NotFound; every other id reads as before. */
  lemma DeletedIsGone(rows: map<Uuid, Book>, id: Uuid, other: Uuid)
    requires forall k :: k in rows ==> HasIds(rows[k])
    requires other != id
    ensures BookById(rows - {id}, id) == Failure(NotFound(NotFoundMessage(id)))
    ensures BookById(rows - {id}, other) == BookById(rows, other)
  {
  }

  /** What getBooks reports, against the table alone: the counts of the table, and element i is the book at offset + i of the store order, projected. */
  lemma BookListingShape(rows: map<Uuid, Book>, order: seq<Uuid>, request: PageRequest)
    requires WellFormed(rows, order)
    ensures var r := ToPagedDto(PageOf(AllBookDtos(rows, order), request));
      && |r.data| == r.numberOfElements
      && r.totalElements == |rows|
      && r.totalPages == CeilDiv(|rows|, request.size)
      && (r.hasNext <==> (request.page + 1) * request.size < |rows|)
      && (forall i :: 0 <= i < |r.data| ==> request.Offset() + i < |order| && r.data[i] == MapToBookDto(rows[order[request.Offset() + i]]))
  {
    ListedDistinct(rows, order);
    ResponseShape(AllBookDtos(rows, order), request);
  }

  /** The search listing holds the projection of every stored book that matches the criteria, and nothing else. */
  lemma SearchListingMembers(rows: map<Uuid, Book>, order: seq<Uuid>, criteria: string)
    requires WellFormed(rows, order)
    ensures forall k :: k in rows && MatchesCriteria(rows[k], criteria) ==> MapToBookDto(rows[k]) in MatchingBookDtos(rows, order, criteria)
    ensures forall d :: d in MatchingBookDtos(rows, order, criteria) ==>
      exists k :: k in rows && MatchesCriteria(rows[k], criteria) && d == MapToBookDto(rows[k])
  {
    var listed := Listed(rows, order);
    var found := FilterMatching(listed, criteria);
    var m := MatchingBookDtos(rows, order, criteria);
    FilterMatchingMembers(listed, criteria);
    forall k | k in rows && MatchesCriteria(rows[k], criteria)
      ensures MapToBookDto(rows[k]) in m
    {
      var i :| 0 <= i < |order| && order[i] == k;
      assert listed[i] == rows[k];
      assert rows[k] in found;
      var j :| 0 <= j < |found| && found[j] == rows[k];
      assert m[j] == MapToBookDto(rows[k]);
    }
    forall d | d in m
      ensures exists k :: k in rows && MatchesCriteria(rows[k], criteria) && d == MapToBookDto(rows[k])
    {
      var j :| 0 <= j < |m| && m[j] == d;
      assert found[j] in found;
      var i :| 0 <= i < |listed| && listed[i] == found[j];
      assert order[i] in rows && d == MapToBookDto(rows[order[i]]);
    }
  }

  /**
    The search responses of the repository's tests, on a table listing "The
    Great Book" and then "The Shining", one page of ten: "Great" returns the
    first, "Stephen" the second, "NonExistent" no data and a total of 0.
  */
  lemma SearchScenarioResponses(rows: map<Uuid, Book>, order: seq<Uuid>, great: Book, shining: Book)
    requires WellFormed(rows, order)
    requires Listed(rows, order) == [great, shining]
    requires IsGreatBook(great) && IsTheShining(shining)
    ensures var r := ToPagedDto(PageOf(MatchingBookDtos(rows, order, "Great"), PageRequest(0, 10)));
      |r.data| == 1 && r.data[0].title == "The Great Book"
    ensures var r := ToPagedDto(PageOf(MatchingBookDtos(rows, order, "Stephen"), PageRequest(0, 10)));
      |r.data| == 1 && r.data[0].title == "The Shining"
    ensures var r := ToPagedDto(PageOf(MatchingBookDtos(rows, order, "NonExistent"), PageRequest(0, 10)));
      r.data == [] && r.totalElements == 0
  {
    ListedDistinct(rows, order);
    SearchScenarios(great, shining);
    QueryIsFilter([great, shining], "Great");
    QueryIsFilter([great, shining], "Stephen");
    QueryIsFilter([great, shining], "NonExistent");
  }

  /**
    The service. Ids the table generates on insert are the parameter
    `generated` of createBook: any id not yet in use.
  */
  class BookServiceImpl {
    const repository: BookRepository

    constructor (repository: BookRepository)
      ensures this.repository == repository
    {
      this.repository := repository;
    }

    predicate Valid()
      reads this, repository
    {
      repository.Valid()
    }

    /** createBook: one save of the book built from the request; the saved book comes back projected, under its new id. */
    method CreateBook(request: BookRequestDto, generated: Uuid) returns (dto: BookDto)
      requires Valid()
      requires generated !in repository.rows
      modifies repository
      ensures Valid()
      ensures repository.rows == old(repository.rows)[generated := BookFromRequest(Some(generated), request)]
      ensures repository.order == old(repository.order) + [generated]
      ensures repository.writes == old(repository.writes) + [Saved(BookFromRequest(None, request))]
      ensures dto == BookDto(generated, request.title, request.price, request.authors, request.genre)
    {
      var saved := repository.Save(BookFromRequest(None, request), generated);
      RequestRoundTrip(generated, request);
      dto := MapToBookDto(saved);
    }

    /** getBook: the stored book projected, or NotFound naming the id. */
    method GetBook(id: Uuid) returns (r: Result<BookDto, Failure>)
      requires Valid()
      ensures r == BookById(repository.rows, id)
      ensures r.Failure? <==> id !in repository.rows
    {
      var found := repository.FindById(id);
      if found.None? {
        r := Failure(NotFound(NotFoundMessage(id)));
      } else {
        r := Success(MapToBookDto(found.value));
      }
    }

    /** getBooks: one page of the table in store order, projected, with the page's counts. */
    method GetBooks(request: PageRequest) returns (r: PagedDto<BookDto>)
      requires Valid()
      ensures r == ToPagedDto(PageOf(AllBookDtos(repository.rows, repository.order), request))
    {
      var page := repository.FindAll(request);
      MapBookPageCommutes(Listed(repository.rows, repository.order), request);
      var mapped := MapBookPage(page);
      r := PagedDto(mapped.content, mapped.NumberOfElements(), mapped.totalElements, mapped.TotalPages(), mapped.HasNext());
    }

    /**
      updateBook: NotFound naming the id, with nothing saved, when the id is
      not stored; otherwise one save that replaces that row with the
      request's fields under the same id, returned projected.
    */
    method UpdateBook(id: Uuid, request: BookRequestDto) returns (r: Result<BookDto, Failure>)
      requires Valid()
      modifies repository
      ensures Valid()
      ensures id !in old(repository.rows) ==>
        && r == Failure(NotFound(NotFoundMessage(id)))
        && unchanged(repository)
      ensures id in old(repository.rows) ==>
        && r == Success(BookDto(id, request.title, request.price, request.authors, request.genre))
        && repository.rows == old(repository.rows)[id := BookFromRequest(Some(id), request)]
        && repository.order == old(repository.order)
        && repository.writes == old(repository.writes) + [Saved(BookFromRequest(Some(id), request))]
    {
      var found := repository.FindById(id);
      if found.None? {
        r := Failure(NotFound(NotFoundMessage(id)));
      } else {
        var saved := repository.Save(BookFromRequest(Some(id), request), id);
        RequestRoundTrip(id, request);
        r := Success(MapToBookDto(saved));
      }
    }

    /**
      deleteBook: NotFound naming the id, with nothing deleted, when the id
      is not stored; otherwise one delete of the stored book, which removes
      exactly that row.
    */
    method DeleteBook(id: Uuid) returns (r: Result<(), Failure>)
      requires Valid()
      modifies repository
      ensures Valid()
      ensures id !in old(repository.rows) ==>
        && r == Failure(NotFound(NotFoundMessage(id)))
        && unchanged(repository)
      ensures id in old(repository.rows) ==>
        && r == Success(())
        && repository.rows == old(repository.rows) - {id}
        && repository.order == Without(old(repository.order), id)
        && repository.writes == old(repository.writes) + [Deleted(old(repository.rows)[id])]
    {
      var found := repository.FindById(id);
      if found.None? {
        r := Failure(NotFound(NotFoundMessage(id)));
      } else {
        repository.Delete(found.value);
        r := Success(());
      }
    }

    /**
      searchBooks: the same criteria for title, author and genre; the page is
      a page of the matching books in store order, projected.
    */
    method SearchBooks(criteria: string, request: PageRequest) returns (r: PagedDto<BookDto>)
      requires Valid()
      ensures r == ToPagedDto(PageOf(MatchingBookDtos(repository.rows, repository.order, criteria), request))
    {
      var page := repository.FindByTitleOrAuthorNameOrGenreName(criteria, criteria, criteria, request);
      ListedDistinct(repository.rows, repository.order);
      QueryIsFilter(Listed(repository.rows, repository.order), criteria);
      FilterMatchingListed(repository.rows, repository.order, criteria);
      MapBookPageCommutes(FilterMatching(Listed(repository.rows, repository.order), criteria), request);
      var mapped := MapBookPage(page);
      r := PagedDto(mapped.content, mapped.NumberOfElements(), mapped.totalElements, mapped.TotalPages(), mapped.HasNext());
    }
  }
}
