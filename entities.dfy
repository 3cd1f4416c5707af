/**
  The persisted rows: Book (entity/Book.kt) with its one Genre and its list of
  Authors. An id is absent (None) until the store generates one on insert.
  The auditing timestamps createdOn/updatedOn are not modelled.
*/
module Entities {
  import opened Wrappers
  import opened Decimals

  /** A java.util.UUID, held as the canonical text its toString() prints. */
  datatype Uuid = Uuid(text: string)

  datatype Author = Author(id: Option<Uuid>, name: string)

  datatype Genre = Genre(id: Option<Uuid>, name: string)

  /** Title, genre and price are mandatory (non-null) columns; exactly one genre, a list of authors. */
  datatype Book = Book(id: Option<Uuid>, title: string, genre: Genre, authors: seq<Author>, price: Decimal)

  predicate AuthorsHaveIds(authors: seq<Author>)
  {
    forall i :: 0 <= i < |authors| ==> authors[i].id.Some?
  }

  /** Every id that mapping a book to its transfer object dereferences with `!!` is present. */
  predicate HasIds(b: Book)
  {
    b.id.Some? && b.genre.id.Some? && AuthorsHaveIds(b.authors)
  }
}
