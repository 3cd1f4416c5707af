/**
  The search query of repository/BookRepository.kt:

    SELECT DISTINCT b FROM Book b JOIN b.genre g JOIN b.authors a
    WHERE LOWER(b.title) LIKE LOWER('%' || :title || '%')
       OR LOWER(g.name) LIKE LOWER('%' || :genreName || '%')
       OR LOWER(a.name) LIKE LOWER('%' || :authorName || '%')

  written literally (joined rows, filter, distinct) and proved equal to a
  plain filter of the books by a per-book matching rule.
*/
module BookQuery {
  import opened Entities
  import opened Text

  /** LOWER(value) LIKE LOWER(CONCAT('%', pattern, '%')) for a pattern without LIKE wildcards. */
  predicate LikeAnywhere(value: string, pattern: string)
  {
    Contains(Lower(value), Lower(pattern))
  }

  /** One row of the inner join: a book paired with one of its authors. */
  datatype Row = Row(book: Book, author: Author)

  function AuthorRows(b: Book, authors: seq<Author>): seq<Row>
  {
    if authors == [] then [] else [Row(b, authors[0])] + AuthorRows(b, authors[1..])
  }

  /** Book b JOIN b.authors a: one row per (book, author) pair, books in store order. */
  function JoinRows(books: seq<Book>): seq<Row>
  {
    if books == [] then [] else AuthorRows(books[0], books[0].authors) + JoinRows(books[1..])
  }

  /** The WHERE clause on one joined row. */
  predicate RowMatches(r: Row, title: string, authorName: string, genreName: string)
  {
    LikeAnywhere(r.book.title, title) || LikeAnywhere(r.book.genre.name, genreName) || LikeAnywhere(r.author.name, authorName)
  }

  /** The selected book of one row, if the row passes the WHERE clause. */
  function Pick(r: Row, title: string, authorName: string, genreName: string): seq<Book>
  {
    if RowMatches(r, title, authorName, genreName) then [r.book] else []
  }

  /** SELECT b ... WHERE: the book of every passing row, repeats included. */
  function SelectBooks(rows: seq<Row>, title: string, authorName: string, genreName: string): seq<Book>
  {
    if rows == [] then [] else Pick(rows[0], title, authorName, genreName) + SelectBooks(rows[1..], title, authorName, genreName)
  }

  predicate NoDuplicates(books: seq<Book>)
  {
    forall i, j :: 0 <= i < j < |books| ==> books[i] != books[j]
  }

  /** DISTINCT: the first occurrence of each book not already in `seen`, in order. */
  function Distinct(books: seq<Book>, seen: set<Book>): (r: seq<Book>)
    ensures NoDuplicates(r)
    ensures forall x :: x in r <==> x in books && x !in seen
  {
    if books == [] then []
    else if books[0] in seen then Distinct(books[1..], seen)
    else [books[0]] + Distinct(books[1..], seen + {books[0]})
  }

  /** The whole query over the stored books, before paging. */
  function Query(books: seq<Book>, title: string, authorName: string, genreName: string): (r: seq<Book>)
    ensures NoDuplicates(r)
  {
    Distinct(SelectBooks(JoinRows(books), title, authorName, genreName), {})
  }

  /** The reference rule: a book with at least one author whose title, genre name or some author name contains the criteria. */
  predicate MatchesCriteria(b: Book, criteria: string)
  {
    && |b.authors| > 0
    && (|| LikeAnywhere(b.title, criteria)
        || LikeAnywhere(b.genre.name, criteria)
        || exists a :: a in b.authors && LikeAnywhere(a.name, criteria))
  }

  function FilterMatching(books: seq<Book>, criteria: string): seq<Book>
  {
    if books == [] then []
    else (if MatchesCriteria(books[0], criteria) then [books[0]] else []) + FilterMatching(books[1..], criteria)
  }

  lemma {:induction false} FilterMatchingMembers(books: seq<Book>, criteria: string)
    ensures forall x :: x in FilterMatching(books, criteria) <==> x in books && MatchesCriteria(x, criteria)
  {
    if books != [] {
      FilterMatchingMembers(books[1..], criteria);
      assert books == [books[0]] + books[1..];
    }
  }

  lemma {:induction false} SelectBooksAppend(a: seq<Row>, b: seq<Row>, title: string, authorName: string, genreName: string)
    ensures SelectBooks(a + b, title, authorName, genreName)
         == SelectBooks(a, title, authorName, genreName) + SelectBooks(b, title, authorName, genreName)
  {
    if a == [] {
      assert a + b == b;
    } else {
      assert (a + b)[0] == a[0];
      assert (a + b)[1..] == a[1..] + b;
      SelectBooksAppend(a[1..], b, title, authorName, genreName);
      var p := Pick(a[0], title, authorName, genreName);
      calc {
        SelectBooks(a + b, title, authorName, genreName);
        p + SelectBooks(a[1..] + b, title, authorName, genreName);
        p + (SelectBooks(a[1..], title, authorName, genreName) + SelectBooks(b, title, authorName, genreName));
        (p + SelectBooks(a[1..], title, authorName, genreName)) + SelectBooks(b, title, authorName, genreName);
      }
    }
  }

  /** The rows of one book select only that book, and select it exactly when one of its authors' rows passes. */
  lemma {:induction false} AuthorRowsSelect(b: Book, authors: seq<Author>, criteria: string)
    ensures forall x :: x in SelectBooks(AuthorRows(b, authors), criteria, criteria, criteria) ==> x == b
    ensures |SelectBooks(AuthorRows(b, authors), criteria, criteria, criteria)| > 0
        <==> exists a :: a in authors && RowMatches(Row(b, a), criteria, criteria, criteria)
  {
    if authors != [] {
      AuthorRowsSelect(b, authors[1..], criteria);
      assert authors == [authors[0]] + authors[1..];
      if RowMatches(Row(b, authors[0]), criteria, criteria, criteria) {
        assert authors[0] in authors;
      }
    }
  }

  /** The per-row condition over a book's authors is the reference rule. */
  lemma RowsAgreeWithCriteria(b: Book, criteria: string)
    ensures (exists a :: a in b.authors && RowMatches(Row(b, a), criteria, criteria, criteria)) <==> MatchesCriteria(b, criteria)
  {
    if MatchesCriteria(b, criteria) {
      var a0 := b.authors[0];
      assert a0 in b.authors;
      if !LikeAnywhere(b.title, criteria) && !LikeAnywhere(b.genre.name, criteria) {
        var a :| a in b.authors && LikeAnywhere(a.name, criteria);
        assert RowMatches(Row(b, a), criteria, criteria, criteria);
      } else {
        assert RowMatches(Row(b, a0), criteria, criteria, criteria);
      }
    }
  }

  /** Leading repeats of books already seen are dropped by DISTINCT. */
  lemma {:induction false} DistinctSkipsSeen(xs: seq<Book>, ys: seq<Book>, seen: set<Book>)
    requires forall x :: x in xs ==> x in seen
    ensures Distinct(xs + ys, seen) == Distinct(ys, seen)
  {
    if xs != [] {
      assert (xs + ys)[0] == xs[0];
      assert xs[0] in xs;
      assert (xs + ys)[1..] == xs[1..] + ys;
      assert forall x :: x in xs[1..] ==> x in xs;
      DistinctSkipsSeen(xs[1..], ys, seen);
    } else {
      assert xs + ys == ys;
    }
  }

  /** The rows of one book select it (possibly several times) exactly when it matches the reference rule. */
  lemma OwnRows(b: Book, criteria: string)
    ensures forall x :: x in SelectBooks(AuthorRows(b, b.authors), criteria, criteria, criteria) ==> x == b
    ensures |SelectBooks(AuthorRows(b, b.authors), criteria, criteria, criteria)| > 0 <==> MatchesCriteria(b, criteria)
  {
    AuthorRowsSelect(b, b.authors, criteria);
    RowsAgreeWithCriteria(b, criteria);
  }

  /** Selections that repeat one unseen book b and then go on: DISTINCT keeps b once and skips its repeats. */
  lemma DistinctOfRepeats(b: Book, mine: seq<Book>, others: seq<Book>, seen: set<Book>)
    requires |mine| > 0 && b !in seen
    requires forall x :: x in mine ==> x == b
    ensures Distinct(mine + others, seen) == [b] + Distinct(others, seen + {b})
  {
    assert mine[0] in mine;
    assert forall x :: x in mine[1..] ==> x in mine;
    var sel := mine + others;
    assert sel[0] == b;
    assert sel[1..] == mine[1..] + others;
    DistinctSkipsSeen(mine[1..], others, seen + {b});
  }

  lemma {:induction false} QueryIsFilterFrom(books: seq<Book>, criteria: string, seen: set<Book>)
    requires NoDuplicates(books)
    requires forall b :: b in books ==> b !in seen
    ensures Distinct(SelectBooks(JoinRows(books), criteria, criteria, criteria), seen) == FilterMatching(books, criteria)
  {
    if books != [] {
      var b, rest := books[0], books[1..];
      var mine := SelectBooks(AuthorRows(b, b.authors), criteria, criteria, criteria);
      var others := SelectBooks(JoinRows(rest), criteria, criteria, criteria);
      assert JoinRows(books) == AuthorRows(b, b.authors) + JoinRows(rest);
      SelectBooksAppend(AuthorRows(b, b.authors), JoinRows(rest), criteria, criteria, criteria);
      OwnRows(b, criteria);
      assert b !in seen;
      assert NoDuplicates(rest);
      if |mine| == 0 {
        assert mine + others == others;
        assert forall x :: x in rest ==> x in books;
        QueryIsFilterFrom(rest, criteria, seen);
        assert FilterMatching(books, criteria) == FilterMatching(rest, criteria);
      } else {
        DistinctOfRepeats(b, mine, others, seen);
        assert forall j :: 0 <= j < |rest| ==> rest[j] == books[j + 1];
        assert forall x :: x in rest ==> x in books && x != b;
        QueryIsFilterFrom(rest, criteria, seen + {b});
        assert FilterMatching(books, criteria) == [b] + FilterMatching(rest, criteria);
      }
    }
  }

  /**
    On a store without duplicate rows, the joined, filtered and DISTINCT query
    with the same criteria for title, author and genre is the plain filter of
    the books by MatchesCriteria, in store order.
  */
  lemma QueryIsFilter(books: seq<Book>, criteria: string)
    requires NoDuplicates(books)
    ensures Query(books, criteria, criteria, criteria) == FilterMatching(books, criteria)
  {
    QueryIsFilterFrom(books, criteria, {});
  }

  /** A book is found exactly when it is stored and matches; no book is found twice. */
  lemma QueryMembers(books: seq<Book>, criteria: string)
    requires NoDuplicates(books)
    ensures NoDuplicates(Query(books, criteria, criteria, criteria))
    ensures forall x :: x in Query(books, criteria, criteria, criteria) <==> x in books && MatchesCriteria(x, criteria)
  {
    QueryIsFilter(books, criteria);
    FilterMatchingMembers(books, criteria);
  }

  /** The inner join on authors: a book without authors is never found, whatever its title or genre. */
  lemma AuthorlessNeverFound(books: seq<Book>, criteria: string, b: Book)
    requires NoDuplicates(books)
    requires b.authors == []
    ensures b !in Query(books, criteria, criteria, criteria)
  {
    QueryMembers(books, criteria);
  }

  lemma {:induction false} SelectBooksCaseInsensitive(rows: seq<Row>, c1: string, c2: string)
    requires Lower(c1) == Lower(c2)
    ensures SelectBooks(rows, c1, c1, c1) == SelectBooks(rows, c2, c2, c2)
  {
    if rows != [] {
      SelectBooksCaseInsensitive(rows[1..], c1, c2);
    }
  }

  /** Criteria that differ only in letter case find the same books. */
  lemma QueryCaseInsensitive(books: seq<Book>, c1: string, c2: string)
    requires Lower(c1) == Lower(c2)
    ensures Query(books, c1, c1, c1) == Query(books, c2, c2, c2)
  {
    SelectBooksCaseInsensitive(JoinRows(books), c1, c2);
  }

  /** In particular, lower-casing the criteria first changes nothing. */
  lemma QueryIgnoresCriteriaCase(books: seq<Book>, criteria: string)
    ensures Query(books, Lower(criteria), Lower(criteria), Lower(criteria)) == Query(books, criteria, criteria, criteria)
  {
    LowerIdempotent(criteria);
    QueryCaseInsensitive(books, Lower(criteria), criteria);
  }

  /** `criteria` sits at `at` in `value`, in any letter case. */
  lemma LikeAt(value: string, criteria: string, at: nat)
    requires at + |criteria| <= |value| && value[at..at + |criteria|] == criteria
    ensures LikeAnywhere(value, criteria)
  {
    LowerSlice(value, at, at + |criteria|);
    ContainsAt(Lower(value), Lower(criteria), at);
  }

  /** A lower-case letter of the criteria that `value` lacks in both cases rules the match out. */
  lemma NotLikeFor(value: string, criteria: string, k: nat)
    requires k < |criteria| && 'a' <= criteria[k] <= 'z'
    requires criteria[k] !in value && (criteria[k] as int - 32) as char !in value
    ensures !LikeAnywhere(value, criteria)
  {
    LowerMissing(value, criteria[k]);
    MissingCharNotContained(Lower(value), Lower(criteria), k);
  }

  /** For a single-author book the exists of the rule is that one author. */
  lemma SingleAuthorRule(b: Book, criteria: string)
    requires |b.authors| == 1
    ensures MatchesCriteria(b, criteria)
        <==> LikeAnywhere(b.title, criteria) || LikeAnywhere(b.genre.name, criteria) || LikeAnywhere(b.authors[0].name, criteria)
  {
    assert b.authors[0] in b.authors;
    assert forall a :: a in b.authors ==> a == b.authors[0];
  }

  /** The three names of a book with one author. */
  predicate Names(b: Book, title: string, genre: string, author: string)
  {
    b.title == title && b.genre.name == genre && |b.authors| == 1 && b.authors[0].name == author
  }

  /** A single-author book whose title holds the criteria at `at` matches. */
  lemma MatchesByTitle(b: Book, criteria: string, at: nat)
    requires |b.authors| == 1
    requires at + |criteria| <= |b.title| && b.title[at..at + |criteria|] == criteria
    ensures MatchesCriteria(b, criteria)
  {
    LikeAt(b.title, criteria, at);
  }

  /** A single-author book whose author's name holds the criteria at `at` matches. */
  lemma MatchesByAuthor(b: Book, criteria: string, at: nat)
    requires |b.authors| == 1
    requires at + |criteria| <= |b.authors[0].name| && b.authors[0].name[at..at + |criteria|] == criteria
    ensures MatchesCriteria(b, criteria)
  {
    LikeAt(b.authors[0].name, criteria, at);
    SingleAuthorRule(b, criteria);
  }

  /** A single-author book none of whose three names holds letter k of the criteria, in either case, does not match. */
  lemma MissesCriteria(b: Book, criteria: string, k: nat)
    requires |b.authors| == 1
    requires k < |criteria| && 'a' <= criteria[k] <= 'z'
    requires var c, upper := criteria[k], (criteria[k] as int - 32) as char;
      && c !in b.title && upper !in b.title
      && c !in b.genre.name && upper !in b.genre.name
      && c !in b.authors[0].name && upper !in b.authors[0].name
    ensures !MatchesCriteria(b, criteria)
  {
    NotLikeFor(b.title, criteria, k);
    NotLikeFor(b.genre.name, criteria, k);
    NotLikeFor(b.authors[0].name, criteria, k);
    SingleAuthorRule(b, criteria);
  }

  predicate IsGreatBook(b: Book)
  {
    Names(b, "The Great Book", "Fiction", "John Doe")
  }

  predicate IsTheShining(b: Book)
  {
    Names(b, "The Shining", "Horror", "Stephen King")
  }

  lemma GreatFindsGreatBook(b: Book)
    requires IsGreatBook(b)
    ensures MatchesCriteria(b, "Great")
  {
    MatchesByTitle(b, "Great", 4);
  }

  lemma GreatMissesTheShining(b: Book)
    requires IsTheShining(b)
    ensures !MatchesCriteria(b, "Great")
  {
    MissesCriteria(b, "Great", 3);
  }

  lemma StephenMissesGreatBook(b: Book)
    requires IsGreatBook(b)
    ensures !MatchesCriteria(b, "Stephen")
  {
    MissesCriteria(b, "Stephen", 3);
  }

  lemma StephenFindsTheShining(b: Book)
    requires IsTheShining(b)
    ensures MatchesCriteria(b, "Stephen")
  {
    MatchesByAuthor(b, "Stephen", 0);
  }

  /** No letter 'x' in either case in any name of The Great Book. */
  lemma NonExistentMissesGreatBook(b: Book)
    requires IsGreatBook(b)
    ensures !MatchesCriteria(b, "NonExistent")
  {
    var c := "NonExistent";
    assert c[4] == 'x';
    MissesCriteria(b, c, 4);
  }

  /** No letter 'x' in either case in any name of The Shining. */
  lemma NonExistentMissesTheShining(b: Book)
    requires IsTheShining(b)
    ensures !MatchesCriteria(b, "NonExistent")
  {
    var c := "NonExistent";
    assert c[4] == 'x';
    MissesCriteria(b, c, 4);
  }

  /** The query over a two-book store keeps each book exactly when it matches. */
  lemma QueryTwo(x: Book, y: Book, criteria: string)
    requires x != y
    ensures Query([x, y], criteria, criteria, criteria)
         == (if MatchesCriteria(x, criteria) then [x] else []) + (if MatchesCriteria(y, criteria) then [y] else [])
  {
    QueryIsFilter([x, y], criteria);
    assert [x, y][1..] == [y];
    assert [y][1..] == [];
    assert FilterMatching([y], criteria) == (if MatchesCriteria(y, criteria) then [y] else []) + FilterMatching([], criteria);
  }

  /**
    The search scenarios over a store holding "The Great Book" (Fiction, by
    John Doe) and "The Shining" (Horror, by Stephen King): "Great" finds the
    first by title, "Stephen" the second by author name, "NonExistent" nothing.
  */
  lemma SearchScenarios(great: Book, shining: Book)
    requires IsGreatBook(great) && IsTheShining(shining)
    ensures Query([great, shining], "Great", "Great", "Great") == [great]
    ensures Query([great, shining], "Stephen", "Stephen", "Stephen") == [shining]
    ensures Query([great, shining], "NonExistent", "NonExistent", "NonExistent") == []
  {
    assert great.title != shining.title;
    GreatFindsGreatBook(great);
    GreatMissesTheShining(shining);
    QueryTwo(great, shining, "Great");
    StephenMissesGreatBook(great);
    StephenFindsTheShining(shining);
    QueryTwo(great, shining, "Stephen");
    NonExistentMissesGreatBook(great);
    NonExistentMissesTheShining(shining);
    QueryTwo(great, shining, "NonExistent");
  }
}
