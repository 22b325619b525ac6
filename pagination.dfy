/** The page arithmetic of the comment listing: how many pages a list has
    for a page size, which slice a page number selects, and the pagination
    record returned beside the slice. */
module Pagination {
  import opened Records

  /** The `pagination` block of `ListCommentDto`. */
  datatype PageInfo = PageInfo(
    totalPages: nat,
    itemsPerPage: nat,
    totalItems: nat,
    currentPage: nat,
    nextPage: Option<nat>,
    previousPage: Option<nat>)

  /** `ListCommentDto`: one page of items and its pagination block. */
  datatype Page<T> = Page(items: seq<T>, pagination: PageInfo)

  function Min(a: nat, b: nat): nat {
    if a <= b then a else b
  }

  /** `Math.ceil(n / d)` for a positive divisor: the fewest pages of `d`
      items that hold `n` items. */
  function CeilDiv(n: nat, d: nat): (q: nat)
    requires d >= 1
    ensures n <= q * d
    ensures q == 0 || (q - 1) * d < n
    ensures q == 0 <==> n == 0
  {
    if n == 0 then 0 else 1 + CeilDiv(if n <= d then 0 else n - d, d)
  }

  /** `findMany({ skip: take * (page - 1), take })`: skipping past the end
      yields fewer rows, or none. */
  function PageSlice<T>(all: seq<T>, page: nat, take: nat): seq<T>
    requires page >= 1
  {
    all[Min(take * (page - 1), |all|)..Min(take * (page - 1) + take, |all|)]
  }

  /** `items` is page `page` of `all` at `take` per page: between one and
      `take` items, as many as the list still holds from the skip offset on
      up to `take`, read in order from that offset. */
  ghost predicate IsFullPage<T>(items: seq<T>, all: seq<T>, page: nat, take: nat)
    requires page >= 1
  {
    && 1 <= |items| <= take
    && take * (page - 1) + |items| <= |all|
    && |items| == Min(take, |all| - take * (page - 1))
    && forall i :: 0 <= i < |items| ==> items[i] == all[take * (page - 1) + i]
  }

  /** One page of `all`, or 'Pages limit exceeded' past the last page. */
  function Paginate<T>(all: seq<T>, page: nat, take: nat): (r: Result<Page<T>>)
    requires page >= 1 && take >= 1
    ensures r.Ok? <==> page <= CeilDiv(|all|, take)
    ensures r.Err? ==> r.error == InternalError("Pages limit exceeded")
    ensures r.Ok? ==>
      var p := r.value.pagination;
      && p.totalPages == CeilDiv(|all|, take)
      && p.itemsPerPage == take
      && p.totalItems == |all|
      && p.currentPage == page
      && (p.nextPage.None? <==> page == p.totalPages)
      && (p.nextPage.Some? ==> p.nextPage.value == page + 1)
      && (p.previousPage.None? <==> page == 1)
      && (p.previousPage.Some? ==> p.previousPage.value == page - 1)
    ensures r.Ok? ==> IsFullPage(r.value.items, all, page, take)
  {
    var totalPages := CeilDiv(|all|, take);
    if page > totalPages then Err(InternalError("Pages limit exceeded"))
    else
      SkipBeforeEnd(|all|, page, take);
      PageSliceWithin(all, page, take);
      Ok(Page(
        PageSlice(all, page, take),
        PageInfo(
          totalPages,
          take,
          |all|,
          page,
          if page == totalPages then None else Some(page + 1),
          if page == 1 then None else Some(page - 1))))
  }

  /** A slice that starts inside the list holds between one and `take`
      items, read from the skip offset on. */
  lemma PageSliceWithin<T>(all: seq<T>, page: nat, take: nat)
    requires page >= 1 && take >= 1
    requires take * (page - 1) < |all|
    ensures IsFullPage(PageSlice(all, page, take), all, page, take)
  {
    var skip := take * (page - 1);
    assert Min(skip, |all|) == skip;
  }

  /** `findMany({ skip, take })` returns the `take` rows from the skip
      offset on, fewer when the list ends first, and none when the skip is
      past the end. */
  lemma PageSliceIsWindow<T>(all: seq<T>, page: nat, take: nat)
    requires page >= 1
    ensures take * (page - 1) >= |all| ==> PageSlice(all, page, take) == []
    ensures take * (page - 1) < |all| ==> |PageSlice(all, page, take)| == Min(take, |all| - take * (page - 1))
    ensures forall i :: 0 <= i < |PageSlice(all, page, take)| ==>
      take * (page - 1) + i < |all| && PageSlice(all, page, take)[i] == all[take * (page - 1) + i]
  {
    var skip := take * (page - 1);
    if skip < |all| {
      assert Min(skip, |all|) == skip;
    }
  }

  /** A page up to the last one starts inside the list. */
  lemma SkipBeforeEnd(n: nat, page: nat, take: nat)
    requires page >= 1 && take >= 1
    requires page <= CeilDiv(n, take)
    ensures take * (page - 1) < n
  {
    var q := CeilDiv(n, take);
    assert (q - 1) * take - (page - 1) * take == (q - page) * take;
    assert (q - page) * take >= 0;
  }

  /** The next and previous pages the record announces are pages that exist. */
  lemma NavigationStaysInRange<T>(all: seq<T>, page: nat, take: nat)
    requires page >= 1 && take >= 1
    requires Paginate(all, page, take).Ok?
    ensures var p := Paginate(all, page, take).value.pagination;
      && (p.nextPage.Some? ==> Paginate(all, p.nextPage.value, take).Ok?)
      && (p.previousPage.Some? ==> Paginate(all, p.previousPage.value, take).Ok?)
  {
  }

  /** A list with no items has no page at all. */
  lemma EmptyListRejectsEveryPage<T>(all: seq<T>, page: nat, take: nat)
    requires page >= 1 && take >= 1
    requires |all| == 0
    ensures Paginate(all, page, take) == Err(InternalError("Pages limit exceeded"))
  {
  }

  /** The slices of pages 1 to q, one after another. */
  function PagesUpTo<T>(all: seq<T>, take: nat, q: nat): seq<T> {
    if q == 0 then [] else PagesUpTo(all, take, q - 1) + PageSlice(all, q, take)
  }

  lemma {:induction false} PagesUpToIsPrefix<T>(all: seq<T>, take: nat, q: nat)
    ensures PagesUpTo(all, take, q) == all[..Min(take * q, |all|)]
  {
    if q > 0 {
      PagesUpToIsPrefix(all, take, q - 1);
      assert take * q == take * (q - 1) + take;
      var a, b := Min(take * (q - 1), |all|), Min(take * q, |all|);
      assert all[..a] + all[a..b] == all[..b];
    }
  }

  /** Reading every page from the first to the last returns every item once,
      in order: the pages partition the list. */
  lemma PagesCoverList<T>(all: seq<T>, take: nat)
    requires take >= 1
    ensures PagesUpTo(all, take, CeilDiv(|all|, take)) == all
  {
    var q := CeilDiv(|all|, take);
    PagesUpToIsPrefix(all, take, q);
    assert take * q == q * take;
    assert all[..|all|] == all;
  }
}
