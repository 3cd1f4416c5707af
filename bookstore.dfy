/**
  The book table behind repository/BookRepository.kt, as the JPA repository
  presents it to the service: rows keyed by id, listed in a fixed store
  order, with save (insert or merge), delete, find-by-id, an unsorted
  paged listing and the paged search query.
*/
module BookStore {
  import opened Wrappers
  import opened Entities
  import opened Paging
  import opened BookQuery

  /** What a caller has asked the table to write, in call order. */
  datatype Write = Saved(book: Book) | Deleted(book: Book)

  /** No id is listed twice. */
  predicate UniqueIds(order: seq<Uuid>)
  {
    forall i, j :: 0 <= i < j < |order| ==> order[i] != order[j]
  }

  /**
    The table invariant: the order lists every stored id exactly once and
    nothing else, each row carries its own key as id (an id never changes
    once assigned), and every row has the ids a transfer object needs.
  */
  predicate WellFormed(rows: map<Uuid, Book>, order: seq<Uuid>)
  {
    && UniqueIds(order)
    && (forall i :: 0 <= i < |order| ==> order[i] in rows)
    && (forall k :: k in rows ==> k in order)
    && (forall k :: k in rows ==> rows[k].id == Some(k) && HasIds(rows[k]))
  }

  /** The rows in store order. */
  function Listed(rows: map<Uuid, Book>, order: seq<Uuid>): (r: seq<Book>)
    requires forall i :: 0 <= i < |order| ==> order[i] in rows
    ensures |r| == |order|
    ensures forall i :: 0 <= i < |order| ==> r[i] == rows[order[i]]
  {
    if order == [] then [] else [rows[order[0]]] + Listed(rows, order[1..])
  }

  /** The order with one id taken out, the others kept in place. */
  function Without(order: seq<Uuid>, id: Uuid): (r: seq<Uuid>)
    ensures forall k :: k in r <==> k in order && k != id
    ensures id !in order ==> r == order
  {
    if order == [] then []
    else if order[0] == id then Without(order[1..], id)
    else [order[0]] + Without(order[1..], id)
  }

  /** Taking an id out of a list without repeats leaves a list without repeats, one shorter when the id was there. */
  lemma {:induction false} WithoutUnique(order: seq<Uuid>, id: Uuid)
    requires UniqueIds(order)
    ensures UniqueIds(Without(order, id))
    ensures id in order ==> |Without(order, id)| == |order| - 1
  {
    if order != [] {
      assert UniqueIds(order[1..]);
      WithoutUnique(order[1..], id);
      assert order[0] !in order[1..];
      if order[0] != id {
        assert id in order ==> id in order[1..];
      }
    }
  }

  function Elements(order: seq<Uuid>): set<Uuid>
  {
    set k | k in order
  }

  /** A list without repeats has as many elements as its set. */
  lemma {:induction false} UniqueCard(order: seq<Uuid>)
    requires UniqueIds(order)
    ensures |Elements(order)| == |order|
  {
    if order != [] {
      assert UniqueIds(order[1..]);
      UniqueCard(order[1..]);
      assert order[0] !in order[1..];
      assert Elements(order) == {order[0]} + Elements(order[1..]);
    }
  }

  /** Every stored row is listed exactly once, so the listing holds no two equal books. */
  lemma {:induction false} ListedDistinct(rows: map<Uuid, Book>, order: seq<Uuid>)
    requires WellFormed(rows, order)
    ensures |Listed(rows, order)| == |rows|
    ensures NoDuplicates(Listed(rows, order))
  {
    var l := Listed(rows, order);
    forall i, j | 0 <= i < j < |l|
      ensures l[i] != l[j]
    {
      assert l[i].id == Some(order[i]) && l[j].id == Some(order[j]);
    }
    KeysAreOrder(rows, order);
  }

  /** The ids of the table are exactly the ids of the order, so both have the same size. */
  lemma KeysAreOrder(rows: map<Uuid, Book>, order: seq<Uuid>)
    requires WellFormed(rows, order)
    ensures |rows| == |order|
  {
    assert rows.Keys == Elements(order);
    UniqueCard(order);
  }

  /** Appending a fresh id keeps the invariant. */
  lemma InsertKeepsInvariant(rows: map<Uuid, Book>, order: seq<Uuid>, k: Uuid, b: Book)
    requires WellFormed(rows, order)
    requires k !in rows && b.id == Some(k) && HasIds(b)
    ensures WellFormed(rows[k := b], order + [k])
  {
    var rows', order' := rows[k := b], order + [k];
    assert forall i :: 0 <= i < |order| ==> order[i] != k && order'[i] == order[i];
    assert UniqueIds(order');
    assert forall i :: 0 <= i < |order'| ==> order'[i] in rows';
    assert forall x :: x in rows' ==> x in order';
    assert forall x :: x in rows' ==> rows'[x].id == Some(x) && HasIds(rows'[x]);
  }

  /** Appending a fresh id appends its row to the listing. */
  lemma InsertListed(rows: map<Uuid, Book>, order: seq<Uuid>, k: Uuid, b: Book)
    requires WellFormed(rows, order)
    requires k !in rows
    ensures forall i :: 0 <= i < |order + [k]| ==> (order + [k])[i] in rows[k := b]
    ensures Listed(rows[k := b], order + [k]) == Listed(rows, order) + [b]
  {
    var rows', order' := rows[k := b], order + [k];
    assert forall i :: 0 <= i < |order| ==> order[i] != k && order'[i] == order[i];
    var l, l' := Listed(rows, order), Listed(rows', order');
    assert |l'| == |l + [b]|;
    forall i | 0 <= i < |l'|
      ensures l'[i] == (l + [b])[i]
    {
      if i < |order| {
        assert l'[i] == rows'[order[i]] == rows[order[i]];
      }
    }
  }

  /** Replacing a stored row under its own id keeps the invariant and the order, and changes only that row's place in the listing. */
  lemma ReplaceKeepsInvariant(rows: map<Uuid, Book>, order: seq<Uuid>, k: Uuid, b: Book)
    requires WellFormed(rows, order)
    requires k in rows && b.id == Some(k) && HasIds(b)
    ensures WellFormed(rows[k := b], order)
    ensures forall i :: 0 <= i < |order| ==>
      Listed(rows[k := b], order)[i] == (if order[i] == k then b else Listed(rows, order)[i])
  {
  }

  /** Removing a stored row and its id keeps the invariant. */
  lemma RemoveKeepsInvariant(rows: map<Uuid, Book>, order: seq<Uuid>, k: Uuid)
    requires WellFormed(rows, order)
    ensures WellFormed(rows - {k}, Without(order, k))
  {
    var r := Without(order, k);
    WithoutUnique(order, k);
    forall i | 0 <= i < |r|
      ensures r[i] in rows - {k}
    {
      assert r[i] in r;
    }
  }

  /**
    The table as the JpaRepository behind the service sees it. `writes` is
    the log of save and delete calls, kept to state the service's call
    discipline.
  */
  class BookRepository {
    var rows: map<Uuid, Book>
    var order: seq<Uuid>
    ghost var writes: seq<Write>

    predicate Valid()
      reads this
    {
      WellFormed(rows, order)
    }

    /** An empty table. */
    constructor ()
      ensures Valid()
      ensures rows == map[] && order == [] && writes == []
    {
      rows := map[];
      order := [];
      writes := [];
    }

    /** findById: the stored row, or nothing. */
    method FindById(id: Uuid) returns (r: Option<Book>)
      ensures id in rows ==> r == Some(rows[id])
      ensures id !in rows ==> r == None
    {
      if id in rows {
        r := Some(rows[id]);
      } else {
        r := None;
      }
    }

    /**
      save: a row without an id is inserted under the id the store generates
      (`generated`, one not in use) and appended to the store order; a row
      with a stored id replaces that row in place. The saved row is returned.
    */
    method Save(b: Book, generated: Uuid) returns (saved: Book)
      requires Valid()
      requires HasIds(Book(Some(generated), b.title, b.genre, b.authors, b.price))
      requires b.id.None? ==> generated !in rows
      requires b.id.Some? ==> b.id.value in rows
      modifies this
      ensures Valid()
      ensures saved == (if b.id.None? then Book(Some(generated), b.title, b.genre, b.authors, b.price) else b)
      ensures saved.id.Some? && rows == old(rows)[saved.id.value := saved]
      ensures order == if b.id.None? then old(order) + [generated] else old(order)
      ensures writes == old(writes) + [Saved(b)]
    {
      if b.id.None? {
        saved := Book(Some(generated), b.title, b.genre, b.authors, b.price);
        InsertKeepsInvariant(rows, order, generated, saved);
        rows := rows[generated := saved];
        order := order + [generated];
      } else {
        saved := b;
        ReplaceKeepsInvariant(rows, order, b.id.value, b);
        rows := rows[b.id.value := b];
      }
      writes := writes + [Saved(b)];
    }

    /** delete: removes the row with the book's id; a book without an id, or one not stored, changes nothing. */
    method Delete(b: Book)
      requires Valid()
      modifies this
      ensures Valid()
      ensures b.id.Some? ==> rows == old(rows) - {b.id.value} && order == Without(old(order), b.id.value)
      ensures b.id.None? ==> rows == old(rows) && order == old(order)
      ensures writes == old(writes) + [Deleted(b)]
    {
      if b.id.Some? {
        RemoveKeepsInvariant(rows, order, b.id.value);
        rows := rows - {b.id.value};
        order := Without(order, b.id.value);
      }
      writes := writes + [Deleted(b)];
    }

    /** findAll(pageable): one page of the rows in store order. */
    method FindAll(request: PageRequest) returns (page: Page<Book>)
      requires Valid()
      ensures page == PageOf(Listed(rows, order), request)
    {
      page := PageOf(Listed(rows, order), request);
    }

    /** findByTitleOrAuthorNameOrGenreName: one page of the query's result. */
    method FindByTitleOrAuthorNameOrGenreName(title: string, authorName: string, genreName: string, request: PageRequest)
      returns (page: Page<Book>)
      requires Valid()
      ensures page == PageOf(Query(Listed(rows, order), title, authorName, genreName), request)
    {
      page := PageOf(Query(Listed(rows, order), title, authorName, genreName), request);
    }
  }
}
