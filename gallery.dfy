/**
 * `discoveries_gallery`: the page/per_page arithmetic and the SQLite
 * `LIMIT ? OFFSET ?` it feeds. The user's photos, already in the query's
 * `ORDER BY created_at DESC` order, are the input sequence.
 */
module Gallery {
  import opened Wrappers

  const DefaultPage: int := 1
  const DefaultPerPage: int := 12

  /** Python's `//`, which rounds toward minus infinity. */
  function FloorDiv(a: int, b: int): (q: int)
    requires b != 0
    ensures b > 0 ==> q * b <= a < q * b + b
    ensures b < 0 ==> q * b >= a > q * b + b
  {
    if b > 0 then a / b else (-a) / (-b)
  }

  function Max(a: int, b: int): int { if a < b then b else a }
  function Min(a: int, b: int): int { if a < b then a else b }

  /**
   * SQLite's `LIMIT limit OFFSET offset`: a negative offset counts as zero and
   * a negative limit means no upper bound.
   */
  function LimitOffset<T>(rows: seq<T>, limit: int, offset: int): (r: seq<T>)
    ensures limit >= 0 ==> |r| <= limit
    ensures |r| == (if limit < 0 then |rows| - Min(Max(offset, 0), |rows|)
                    else Min(limit, |rows| - Min(Max(offset, 0), |rows|)))
    ensures forall i :: 0 <= i < |r| ==> r[i] == rows[Max(offset, 0) + i]
  {
    var start := Min(Max(offset, 0), |rows|);
    var stop := if limit < 0 then |rows| else Min(start + limit, |rows|);
    rows[start..stop]
  }

  datatype Page<T> = Page(photos: seq<T>, total: nat, page: int, perPage: int, totalPages: int)

  /** The range of a SQLite INTEGER, which a bound Python int must fit. */
  const MinInt64: int := -0x8000_0000_0000_0000
  const MaxInt64: int := 0x7FFF_FFFF_FFFF_FFFF

  predicate FitsInt64(x: int) {
    MinInt64 <= x <= MaxInt64
  }

  /**
   * The two ways the route fails (answering 500): binding a LIMIT or OFFSET
   * outside the 64-bit range raises OverflowError, and `per_page == 0` makes
   * the division on line 716 raise.
   */
  datatype GalleryError = Overflow | ZeroDivision

  /** The page the route answers with, or the exception it raises first. */
  function GalleryPage<T>(userPhotos: seq<T>, page: int, perPage: int): (r: Result<Page<T>, GalleryError>)
    ensures r == Err(Overflow) <==> !FitsInt64(perPage) || !FitsInt64((page - 1) * perPage)
    ensures r == Err(ZeroDivision) <==> FitsInt64((page - 1) * perPage) && perPage == 0
    ensures r.Ok? ==> r.value.total == |userPhotos| && r.value.page == page && r.value.perPage == perPage
    ensures r.Ok? ==> r.value.photos == LimitOffset(userPhotos, perPage, (page - 1) * perPage)
    ensures r.Ok? && perPage > 0 ==> |r.value.photos| <= perPage
    ensures r.Ok? && perPage > 0 ==>
      (r.value.totalPages - 1) * perPage < |userPhotos| <= r.value.totalPages * perPage
  {
    if !FitsInt64(perPage) || !FitsInt64((page - 1) * perPage) then Err(Overflow)
    else if perPage == 0 then Err(ZeroDivision)
    else
      var total := |userPhotos|;
      var pages := FloorDiv(total + perPage - 1, perPage);
      assert perPage > 0 ==> (pages - 1) * perPage < total <= pages * perPage by {
        if perPage > 0 {
          TotalPagesIsCeiling(total, perPage);
        }
      }
      Ok(Page(LimitOffset(userPhotos, perPage, (page - 1) * perPage), total, page, perPage, pages))
  }

  /**
   * The request as the route reads it: `page` and `per_page` default to 1 and
   * 12 when absent, each on its own (parsing the query string is not
   * modelled). A request without either shows the first twelve photos.
   */
  function GalleryRequest<T>(userPhotos: seq<T>, page: Option<int>, perPage: Option<int>): (r: Result<Page<T>, GalleryError>)
    ensures page.Some? && perPage.Some? ==> r == GalleryPage(userPhotos, page.value, perPage.value)
    ensures page.None? && perPage.Some? ==> r == GalleryPage(userPhotos, DefaultPage, perPage.value)
    ensures page.Some? && perPage.None? ==> r == GalleryPage(userPhotos, page.value, DefaultPerPage)
    ensures r.Ok? ==> r.value.page == (if page.Some? then page.value else DefaultPage)
    ensures r.Ok? ==> r.value.perPage == (if perPage.Some? then perPage.value else DefaultPerPage)
    ensures page.None? && perPage.None? ==>
      && r.Ok? && r.value.page == DefaultPage && r.value.perPage == DefaultPerPage
      && r.value.photos == userPhotos[..Min(DefaultPerPage, |userPhotos|)]
  {
    var p := if page.Some? then page.value else DefaultPage;
    var n := if perPage.Some? then perPage.value else DefaultPerPage;
    GalleryPage(userPhotos, p, n)
  }

  /** `(total + per_page - 1) // per_page` is the ceiling of total / per_page. */
  lemma TotalPagesIsCeiling(total: nat, perPage: int)
    requires perPage > 0
    ensures var pages := FloorDiv(total + perPage - 1, perPage);
      pages >= 0 && (pages - 1) * perPage < total <= pages * perPage
  {
    var pages := FloorDiv(total + perPage - 1, perPage);
    assert (pages - 1) * perPage == pages * perPage - perPage;
    assert pages * perPage + perPage > 0;
  }

  /**
   * Every photo is shown on exactly one page between 1 and total_pages:
   * photo i sits at position i % per_page of page i / per_page + 1.
   */
  lemma EveryPhotoOnItsPage<T>(userPhotos: seq<T>, perPage: int, i: nat)
    requires 0 < perPage <= MaxInt64 && i < |userPhotos| <= MaxInt64
    ensures var p := i / perPage + 1;
      var r := GalleryPage(userPhotos, p, perPage);
      && 1 <= p <= r.value.totalPages
      && i % perPage < |r.value.photos|
      && r.value.photos[i % perPage] == userPhotos[i]
  {
    var q, m := i / perPage, i % perPage;
    var offset := DivModSplit(i, perPage);
    var p := q + 1;
    assert (p - 1) * perPage == offset;
    var r := GalleryPage(userPhotos, p, perPage);
    assert r.value.photos == LimitOffset(userPhotos, perPage, offset);
    SliceHolds(userPhotos, perPage, offset, m);
    PageNotBeyondLast(|userPhotos|, perPage, q, i);
  }

  /** i = (i / n) * n + i % n, with the quotient's product named. */
  lemma DivModSplit(i: nat, n: int) returns (offset: nat)
    requires n > 0
    ensures offset == (i / n) * n && i == offset + i % n && 0 <= i % n < n
  {
    MulMonotone(0, i / n, n);
    offset := (i / n) * n;
  }

  lemma SliceHolds<T>(rows: seq<T>, limit: int, offset: nat, m: nat)
    requires m < limit && offset + m < |rows|
    ensures m < |LimitOffset(rows, limit, offset)| && LimitOffset(rows, limit, offset)[m] == rows[offset + m]
  {
  }

  lemma PageNotBeyondLast(total: nat, perPage: int, q: nat, i: nat)
    requires perPage > 0 && q * perPage <= i < total
    ensures q + 1 <= FloorDiv(total + perPage - 1, perPage)
  {
    var pages := FloorDiv(total + perPage - 1, perPage);
    TotalPagesIsCeiling(total, perPage);
    if pages < q + 1 {
      MulMonotone(pages, q, perPage);
    }
  }

  lemma MulMonotone(a: int, b: int, c: int)
    requires a <= b && c >= 0
    ensures a * c <= b * c
  {
  }

  /** A page after the last one is empty, and so is every page when there are no photos. */
  lemma PagesBeyondLastAreEmpty<T>(userPhotos: seq<T>, page: int, perPage: int)
    requires 0 < perPage <= MaxInt64 && FitsInt64((page - 1) * perPage)
    requires page > GalleryPage(userPhotos, page, perPage).value.totalPages
    ensures GalleryPage(userPhotos, page, perPage).value.photos == []
  {
    var pages := GalleryPage(userPhotos, page, perPage).value.totalPages;
    TotalPagesIsCeiling(|userPhotos|, perPage);
    MulMonotone(pages, page - 1, perPage);
  }

  /**
   * Page numbers below 1 are not rejected: the negative offset counts as
   * zero in SQLite, so page 0 and below show the first page's photos.
   */
  lemma PagesBelowOneShowFirstPage<T>(userPhotos: seq<T>, page: int, perPage: int)
    requires 0 < perPage <= MaxInt64 && page < 1 && FitsInt64((page - 1) * perPage)
    ensures GalleryPage(userPhotos, page, perPage).value.photos == GalleryPage(userPhotos, 1, perPage).value.photos
  {
    MulMonotone(page - 1, 0, perPage);
  }
}
