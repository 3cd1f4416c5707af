/**
  service/GenreService.kt: getAllGenres, one page of the genre table
  projected to (id, name). The table is read, never written.
*/
module GenreServices {
  import opened Entities
  import opened Dtos
  import opened Paging

  function GenreDtos(xs: seq<Genre>): (r: seq<GenreDto>)
    requires forall i :: 0 <= i < |xs| ==> xs[i].id.Some?
    ensures |r| == |xs|
    ensures forall i :: 0 <= i < |xs| ==> r[i] == GenreDto(xs[i].id.value, xs[i].name)
  {
    if xs == [] then [] else [GenreDto(xs[0].id.value, xs[0].name)] + GenreDtos(xs[1..])
  }

  /**
    getAllGenres over the genres in store order: the requested page's
    genres projected in order, with the page's own counts. Only the genres
    on that page must carry an id.
  */
  function GetAllGenres(genres: seq<Genre>, request: PageRequest): (r: PagedDto<GenreDto>)
    requires forall i :: 0 <= i < |PageOf(genres, request).content| ==> PageOf(genres, request).content[i].id.Some?
    ensures var page := PageOf(genres, request);
      && |r.data| == |page.content| == r.numberOfElements
      && (forall i :: 0 <= i < |r.data| ==> r.data[i] == GenreDto(page.content[i].id.value, page.content[i].name))
      && r.totalElements == page.totalElements
      && r.totalPages == page.TotalPages()
      && r.hasNext == page.HasNext()
  {
    var page := PageOf(genres, request);
    PagedDto(GenreDtos(page.content), page.NumberOfElements(), page.totalElements, page.TotalPages(), page.HasNext())
  }

  /** The response against the whole table: element i is the genre at offset + i, the total is the table's size, hasNext exactly when genres remain. */
  lemma {:induction false} GenreListingShape(genres: seq<Genre>, request: PageRequest)
    requires forall i :: 0 <= i < |genres| ==> genres[i].id.Some?
    ensures forall i :: 0 <= i < |PageOf(genres, request).content| ==> PageOf(genres, request).content[i].id.Some?
    ensures var r := GetAllGenres(genres, request);
      && r.totalElements == |genres|
      && r.totalPages == CeilDiv(|genres|, request.size)
      && (r.hasNext <==> (request.page + 1) * request.size < |genres|)
      && (forall i :: 0 <= i < |r.data| ==>
            request.Offset() + i < |genres|
            && r.data[i] == GenreDto(genres[request.Offset() + i].id.value, genres[request.Offset() + i].name))
  {
    PageOfShape(genres, request);
  }
}
