/**
  Paging: the framework's Pageable/Page (what the repositories return) and
  the PagedDto record (dto/PagedDto.kt) every listing service fills in from
  a page.
*/
module Paging {

  type PageSize = n: nat | n >= 1 witness 1

  /** A zero-based page index and a positive page size. */
  datatype PageRequest = PageRequest(page: nat, size: PageSize)
  {
    function Offset(): nat { page * size }
  }

  /** One page of a larger ordered result, as the framework's PageImpl holds it. */
  datatype Page<T> = Page(content: seq<T>, number: nat, size: PageSize, totalElements: nat)
  {
    function NumberOfElements(): nat { |content| }

    function TotalPages(): nat { CeilDiv(totalElements, size) }

    function HasNext(): bool { number + 1 < TotalPages() }
  }

  function CeilDiv(n: nat, d: PageSize): nat
  {
    (n + d - 1) / d
  }

  /** CeilDiv is the ceiling of n / d: the least q with q·d covering n. */
  lemma CeilDivIsCeiling(n: nat, d: PageSize)
    ensures CeilDiv(n, d) * d >= n
    ensures CeilDiv(n, d) > 0 ==> (CeilDiv(n, d) - 1) * d < n
    ensures CeilDiv(n, d) == 0 <==> n == 0
  {
    var q := CeilDiv(n, d);
    var r := (n + d - 1) % d;
    assert n + d - 1 == q * d + r && 0 <= r < d;
    if q > 0 {
      assert (q - 1) * d == q * d - d;
    }
  }

  lemma {:induction false} MulLe(a: nat, b: nat, d: nat)
    requires a <= b
    ensures a * d <= b * d
  {
    if d > 0 {
      MulLe(a, b, d - 1);
      assert a * d == a * (d - 1) + a && b * d == b * (d - 1) + b;
    }
  }

  /** There is another page exactly when some element lies beyond the end of page k. */
  lemma {:induction false} BeyondPage(n: nat, d: PageSize, k: nat)
    ensures k + 1 < CeilDiv(n, d) <==> (k + 1) * d < n
  {
    CeilDivIsCeiling(n, d);
    var q := CeilDiv(n, d);
    assert q * d <= n + d - 1 by {
      assert n + d - 1 == q * d + (n + d - 1) % d;
    }
    if k + 1 < q {
      MulLe(k + 2, q, d);
      assert (k + 2) * d == (k + 1) * d + d;
    } else {
      MulLe(q, k + 1, d);
    }
  }

  /** Page `request.page` of `all`: a slice at the request's offset, with the total count. */
  function PageOf<T>(all: seq<T>, request: PageRequest): (r: Page<T>)
    ensures r.totalElements == |all| && r.number == request.page && r.size == request.size
    ensures |r.content| <= request.size
    ensures forall i :: 0 <= i < |r.content| ==> request.Offset() + i < |all| && r.content[i] == all[request.Offset() + i]
  {
    var start := if request.Offset() <= |all| then request.Offset() else |all|;
    var end := if start + request.size <= |all| then start + request.size else |all|;
    Page(all[start..end], request.page, request.size, |all|)
  }

  /**
    What a page of n elements reports: element i of the page is element
    offset + i of the whole result, the page is full unless it reaches the
    end, the total is n, the page count is the ceiling of n / size, and there
    is a next page exactly when elements remain after this one.
  */
  lemma {:induction false} PageOfShape<T>(all: seq<T>, request: PageRequest)
    ensures var p := PageOf(all, request);
      && p.totalElements == |all|
      && p.number == request.page
      && (forall i :: 0 <= i < |p.content| ==> request.Offset() + i < |all| && p.content[i] == all[request.Offset() + i])
      && (request.Offset() + request.size <= |all| ==> |p.content| == request.size)
      && (request.Offset() <= |all| <= request.Offset() + request.size ==> |p.content| == |all| - request.Offset())
      && (request.Offset() >= |all| ==> p.content == [])
      && p.TotalPages() * request.size >= |all|
      && (p.TotalPages() > 0 ==> (p.TotalPages() - 1) * request.size < |all|)
      && (p.HasNext() <==> (request.page + 1) * request.size < |all|)
  {
    CeilDivIsCeiling(|all|, request.size);
    BeyondPage(|all|, request.size, request.page);
  }

  /** The paged response record; its counts default to zero and hasNext to false. */
  datatype PagedDto<T> = PagedDto(
    data: seq<T>,
    numberOfElements: nat := 0,
    totalElements: nat := 0,
    totalPages: nat := 0,
    hasNext: bool := false)

  /** How every listing service builds its PagedDto: the content and the page's own counts, unchanged. */
  function ToPagedDto<T>(page: Page<T>): (r: PagedDto<T>)
    ensures r.data == page.content && r.numberOfElements == |r.data|
    ensures r.totalElements == page.totalElements
    ensures r.totalPages * page.size >= page.totalElements
    ensures r.hasNext <==> (page.number + 1) * page.size < page.totalElements
  {
    CeilDivIsCeiling(page.totalElements, page.size);
    BeyondPage(page.totalElements, page.size, page.number);
    PagedDto(page.content, page.NumberOfElements(), page.totalElements, page.TotalPages(), page.HasNext())
  }

  /** The defaults of the record's optional counts. */
  lemma PagedDtoDefaults<T>(data: seq<T>)
    ensures PagedDto(data) == PagedDto(data, 0, 0, 0, false)
  {
  }

  /** The response of a page request over n elements, stated against n alone. */
  lemma ResponseShape<T>(all: seq<T>, request: PageRequest)
    ensures var r := ToPagedDto(PageOf(all, request));
      && |r.data| == r.numberOfElements
      && r.totalElements == |all|
      && r.totalPages == CeilDiv(|all|, request.size)
      && (r.hasNext <==> (request.page + 1) * request.size < |all|)
      && (forall i :: 0 <= i < |r.data| ==> request.Offset() + i < |all| && r.data[i] == all[request.Offset() + i])
  {
    PageOfShape(all, request);
  }

  /** Sixteen rows, pages of ten: the first page holds ten and has a successor; the second holds six and has none. */
  lemma SixteenRowsInPagesOfTen<T>(all: seq<T>)
    requires |all| == 16
    ensures var first := ToPagedDto(PageOf(all, PageRequest(0, 10)));
      first.numberOfElements == 10 && first.totalElements == 16 && first.totalPages == 2 && first.hasNext
    ensures var second := ToPagedDto(PageOf(all, PageRequest(1, 10)));
      second.numberOfElements == 6 && !second.hasNext
  {
  }

  /** One row, page size ten: one element on one page and no next page. */
  lemma OneRow<T>(all: seq<T>)
    requires |all| == 1
    ensures var r := ToPagedDto(PageOf(all, PageRequest(0, 10)));
      |r.data| == 1 && r.numberOfElements == 1 && r.totalElements == 1 && r.totalPages == 1 && !r.hasNext
  {
  }

  /** No rows: no data, zero counts and no next page, whatever page is asked for. */
  lemma NoRows<T>(all: seq<T>, request: PageRequest)
    requires |all| == 0
    ensures var r := ToPagedDto(PageOf(all, request));
      r.data == [] && r.numberOfElements == 0 && r.totalElements == 0 && r.totalPages == 0 && !r.hasNext
  {
  }
}
