/**
  service/AuthorService.kt: getAllAuthors, one page of the author table
  projected to (id, name). The table is read, never written.
*/
module AuthorServices {
  import opened Entities
  import opened Dtos
  import opened Paging

  /** Authors projected to (id, name), as both getAllAuthors and mapToBookDto do. */
  function AuthorDtos(xs: seq<Author>): (r: seq<AuthorDto>)
    requires forall i :: 0 <= i < |xs| ==> xs[i].id.Some?
    ensures |r| == |xs|
    ensures forall i :: 0 <= i < |xs| ==> r[i] == AuthorDto(xs[i].id.value, xs[i].name)
  {
    if xs == [] then [] else [AuthorDto(xs[0].id.value, xs[0].name)] + AuthorDtos(xs[1..])
  }

  /**
    getAllAuthors over the authors in store order: the requested page's
    authors projected in order, with the page's own counts. Only the authors
    on that page must carry an id.
  */
  function GetAllAuthors(authors: seq<Author>, request: PageRequest): (r: PagedDto<AuthorDto>)
    requires forall i :: 0 <= i < |PageOf(authors, request).content| ==> PageOf(authors, request).content[i].id.Some?
    ensures var page := PageOf(authors, request);
      && |r.data| == |page.content| == r.numberOfElements
      && (forall i :: 0 <= i < |r.data| ==> r.data[i] == AuthorDto(page.content[i].id.value, page.content[i].name))
      && r.totalElements == page.totalElements
      && r.totalPages == page.TotalPages()
      && r.hasNext == page.HasNext()
  {
    var page := PageOf(authors, request);
    PagedDto(AuthorDtos(page.content), page.NumberOfElements(), page.totalElements, page.TotalPages(), page.HasNext())
  }

  /** The response against the whole table: element i is the author at offset + i, the total is the table's size, hasNext exactly when authors remain. */
  lemma {:induction false} AuthorListingShape(authors: seq<Author>, request: PageRequest)
    requires forall i :: 0 <= i < |authors| ==> authors[i].id.Some?
    ensures forall i :: 0 <= i < |PageOf(authors, request).content| ==> PageOf(authors, request).content[i].id.Some?
    ensures var r := GetAllAuthors(authors, request);
      && r.totalElements == |authors|
      && r.totalPages == CeilDiv(|authors|, request.size)
      && (r.hasNext <==> (request.page + 1) * request.size < |authors|)
      && (forall i :: 0 <= i < |r.data| ==>
            request.Offset() + i < |authors|
            && r.data[i] == AuthorDto(authors[request.Offset() + i].id.value, authors[request.Offset() + i].name))
  {
    PageOfShape(authors, request);
  }
}
