/** The page navigation shared by the book catalog and the member roster:
    the page count, the window of numbered links around the current page,
    and the First/Previous and Next/Last links. */
module Pagination {
  import opened Common

  /** `$records_per_page` on both listing pages. */
  const RecordsPerPage: int := 10

  /** One link of the navigation bar, with the page it leads to. */
  datatype PageLink =
    | First
    | Previous(target: int)
    | Numbered(target: int, active: bool)
    | Next(target: int)
    | Last(target: int)

  /** The page a link leads to. */
  function TargetOf(l: PageLink): int {
    if l.First? then 1 else l.target
  }

  /** The query string of a listing page: `(int)$_GET['page']` (1 when
      absent) and the trimmed `search` term. */
  datatype ListingRequest = ListingRequest(page: int, search: string)

  /** The rows a listing page shows and its `$total_rows`: the whole search
      result and its size when there is a search term (PHP `empty`, so "0"
      is no term), otherwise the requested page and the table's row count;
      `None` when the paged statement fails. */
  function Selection<T>(req: ListingRequest, found: seq<T>, paged: Option<seq<T>>, count: nat): Option<(seq<T>, nat)> {
    if !Blank(req.search) then Some((found, |found|))
    else if paged.None? then None
    else Some((paged.value, count))
  }

  /** The bar under the table: it is inside the `rowCount() > 0` branch and
      needs more than one page and no search term. */
  function NavFor(req: ListingRequest, shown: int, totalPages: int): seq<PageLink> {
    if shown > 0 && totalPages > 1 && Blank(req.search) then Nav(req.page, totalPages) else []
  }

  /** `ceil($total_rows / $records_per_page)`. */
  function TotalPages(totalRows: nat, perPage: int): nat
    requires perPage > 0
  {
    (totalRows + perPage - 1) / perPage
  }

  function Max(a: int, b: int): int { if a < b then b else a }
  function Min(a: int, b: int): int { if a < b then a else b }

  /** The consecutive numbers from `lo` up to `hi`, none when `hi < lo`. */
  function Span(lo: int, hi: int): (r: seq<int>)
    ensures |r| == if hi < lo then 0 else hi - lo + 1
    ensures forall i :: 0 <= i < |r| ==> r[i] == lo + i
    decreases hi - lo
  {
    if hi < lo then [] else Span(lo, hi - 1) + [hi]
  }

  /** The numbers the `for` loop runs through: from `max(1, page - 2)` up to
      `min(total_pages, page + 2)`. */
  function Window(page: int, totalPages: int): seq<int> {
    Span(Max(1, page - 2), Min(totalPages, page + 2))
  }

  function NumberedOn(page: int): int -> PageLink {
    (n: int) => Numbered(n, n == page)
  }

  /** The whole navigation bar, in the order it is printed. */
  function Nav(page: int, totalPages: int): seq<PageLink> {
    (if page > 1 then [First, Previous(page - 1)] else [])
    + MapSeq(Window(page, totalPages), NumberedOn(page))
    + (if page < totalPages then [Next(page + 1), Last(totalPages)] else [])
  }

  // ---------------------------------------------------------------------------
  // Properties
  // ---------------------------------------------------------------------------

  /** The page count is the ceiling of rows over page size: enough pages for
      every row, and no page more than needed. */
  lemma TotalPagesIsCeiling(totalRows: nat, perPage: int)
    requires perPage > 0
    ensures TotalPages(totalRows, perPage) * perPage >= totalRows
    ensures TotalPages(totalRows, perPage) > 0 ==> (TotalPages(totalRows, perPage) - 1) * perPage < totalRows
    ensures TotalPages(totalRows, perPage) == 0 <==> totalRows == 0
  {
    var n := TotalPages(totalRows, perPage);
    var q := totalRows + perPage - 1;
    assert q == n * perPage + q % perPage;
    assert 0 <= q % perPage < perPage;
    assert n * perPage == q - q % perPage;
    assert (n - 1) * perPage == n * perPage - perPage;
  }

  /** The window holds exactly the pages from 1 to the last page that lie
      within two of the current one, in increasing order, so at most five,
      and the current page is among them exactly when it is a real page. */
  lemma WindowIsNeighbourhood(page: int, totalPages: int)
    ensures forall n :: n in Window(page, totalPages) <==> 1 <= n <= totalPages && page - 2 <= n <= page + 2
    ensures forall i :: 0 < i < |Window(page, totalPages)| ==> Window(page, totalPages)[i] == Window(page, totalPages)[i - 1] + 1
    ensures |Window(page, totalPages)| <= 5
    ensures page in Window(page, totalPages) <==> 1 <= page <= totalPages
  {
    var w := Window(page, totalPages);
    var start := Max(1, page - 2);
    forall n | 1 <= n <= totalPages && page - 2 <= n <= page + 2 ensures n in w {
      assert w[n - start] == n;
    }
  }

  /** First and Previous appear exactly when there is an earlier page, Next
      and Last exactly when there is a later one, each leading where its
      name says. */
  lemma NavEdgeLinksAreGated(page: int, totalPages: int)
    ensures First in Nav(page, totalPages) <==> page > 1
    ensures forall l :: l in Nav(page, totalPages) && l.Previous? ==> page > 1 && l.target == page - 1
    ensures Previous(page - 1) in Nav(page, totalPages) <==> page > 1
    ensures forall l :: l in Nav(page, totalPages) && l.Next? ==> page < totalPages && l.target == page + 1
    ensures forall l :: l in Nav(page, totalPages) && l.Last? ==> page < totalPages && l.target == totalPages
    ensures Next(page + 1) in Nav(page, totalPages) <==> page < totalPages
    ensures Last(totalPages) in Nav(page, totalPages) <==> page < totalPages
  {
    NavMembership(page, totalPages, First);
    NavMembership(page, totalPages, Previous(page - 1));
    NavMembership(page, totalPages, Next(page + 1));
    NavMembership(page, totalPages, Last(totalPages));
    forall l | l in Nav(page, totalPages)
      ensures l.Previous? ==> page > 1 && l.target == page - 1
      ensures l.Next? ==> page < totalPages && l.target == page + 1
      ensures l.Last? ==> page < totalPages && l.target == totalPages
    {
      NavMembership(page, totalPages, l);
    }
  }

  /** A link is in the bar exactly when it is an edge link its condition
      lets in, or a numbered link of the window. */
  lemma NavMembership(page: int, totalPages: int, l: PageLink)
    ensures l in Nav(page, totalPages) <==>
      || (page > 1 && (l == First || l == Previous(page - 1)))
      || (l.Numbered? && l in MapSeq(Window(page, totalPages), NumberedOn(page)))
      || (page < totalPages && (l == Next(page + 1) || l == Last(totalPages)))
  {
    var nums := MapSeq(Window(page, totalPages), NumberedOn(page));
    assert forall x :: x in nums ==> x.Numbered?;
  }

  /** Every numbered link leads to a page from 1 to the page count and is
      marked active exactly when it is the current page; the current page
      has its link exactly when it is a real page. */
  lemma NavNumberedLinksAreInRange(page: int, totalPages: int)
    ensures forall l :: l in Nav(page, totalPages) && l.Numbered? ==>
      1 <= l.target <= totalPages && (l.active <==> l.target == page)
    ensures Numbered(page, true) in Nav(page, totalPages) <==> 1 <= page <= totalPages
  {
    var w := Window(page, totalPages);
    var nums := MapSeq(w, NumberedOn(page));
    WindowIsNeighbourhood(page, totalPages);
    forall l | l in Nav(page, totalPages) && l.Numbered?
      ensures 1 <= l.target <= totalPages && (l.active <==> l.target == page)
    {
      assert l in nums;
      var i :| 0 <= i < |nums| && nums[i] == l;
      assert w[i] in w;
    }
    if 1 <= page <= totalPages {
      var i :| 0 <= i < |w| && w[i] == page;
      assert nums[i] == Numbered(page, true);
    }
  }

  /** A page size times a page number grows with the page number. */
  lemma PageOffsetMonotone(a: int, b: int, perPage: int)
    requires a <= b && perPage >= 0
    ensures a * perPage <= b * perPage
  {
    assert b * perPage - a * perPage == (b - a) * perPage;
  }

  /** Every numbered page up to the page count holds rows of the listing,
      and no page after it does: a link in the bar never leads to an empty
      page. */
  lemma NumberedPagesHaveRows<T>(s: seq<T>, page: int, perPage: int)
    requires perPage > 0
    requires page >= 1
    ensures Paginate(s, page, perPage).Some?
    ensures Paginate(s, page, perPage).value != [] <==> page <= TotalPages(|s|, perPage)
  {
    TotalPagesIsCeiling(|s|, perPage);
    var n := TotalPages(|s|, perPage);
    var offset := (page - 1) * perPage;
    PageOffsetMonotone(0, page - 1, perPage);
    if page <= n {
      PageOffsetMonotone(page - 1, n - 1, perPage);
      assert offset < |s|;
    } else {
      PageOffsetMonotone(n, page - 1, perPage);
      assert offset >= |s|;
    }
  }

  /** Once a page of a listing holds rows, every link of its bar leads to a
      page that holds rows too. */
  lemma NavTargetsHaveRows<T>(s: seq<T>, page: int, perPage: int)
    requires perPage > 0
    requires Paginate(s, page, perPage).Some? && Paginate(s, page, perPage).value != []
    ensures forall l :: l in Nav(page, TotalPages(|s|, perPage)) ==>
      Paginate(s, TargetOf(l), perPage).Some? && Paginate(s, TargetOf(l), perPage).value != []
  {
    var n := TotalPages(|s|, perPage);
    assert page >= 1;
    NumberedPagesHaveRows(s, page, perPage);
    NavEdgeLinksAreGated(page, n);
    NavNumberedLinksAreInRange(page, n);
    forall l | l in Nav(page, n)
      ensures Paginate(s, TargetOf(l), perPage).Some? && Paginate(s, TargetOf(l), perPage).value != []
    {
      assert 1 <= TargetOf(l) <= n;
      NumberedPagesHaveRows(s, TargetOf(l), perPage);
    }
  }

  /** On a listing without a search term the bar shows exactly when there
      is more than one page and the requested one is among them, and then
      it is the whole bar. */
  lemma NavForListing<T>(s: seq<T>, req: ListingRequest, perPage: int)
    requires perPage > 0 && Blank(req.search) && req.page >= 1
    ensures var shown := |Paginate(s, req.page, perPage).value|;
      var tp := TotalPages(|s|, perPage);
      && (NavFor(req, shown, tp) != [] <==> tp > 1 && req.page <= tp)
      && (NavFor(req, shown, tp) != [] ==> NavFor(req, shown, tp) == Nav(req.page, tp))
  {
    NumberedPagesHaveRows(s, req.page, perPage);
    NavMembership(req.page, TotalPages(|s|, perPage), First);
    NavMembership(req.page, TotalPages(|s|, perPage), Next(req.page + 1));
  }

  /** One more turn of the loop prints the link to one more page. */
  lemma NumberedSpanGrows(page: int, lo: int, hi: int)
    requires lo <= hi
    ensures MapSeq(Span(lo, hi), NumberedOn(page)) == MapSeq(Span(lo, hi - 1), NumberedOn(page)) + [Numbered(hi, hi == page)]
  {
    var before := Span(lo, hi - 1);
    assert Span(lo, hi) == before + [hi];
    var r := MapSeq(before + [hi], NumberedOn(page));
    assert r[|before|] == NumberedOn(page)(hi);
  }

  /** The `for` loop that prints the bar, link by link. */
  method NavLinks(page: int, totalPages: int) returns (links: seq<PageLink>)
    ensures links == Nav(page, totalPages)
  {
    links := [];
    if page > 1 {
      links := [First, Previous(page - 1)];
    }
    var numbered := NumberedLinks(page, Max(1, page - 2), Min(totalPages, page + 2));
    links := links + numbered;
    if page < totalPages {
      links := links + [Next(page + 1), Last(totalPages)];
    }
  }

  /** `for ($i = $start_page; $i <= $end_page; $i++)`: one numbered link per
      page of the window. */
  method NumberedLinks(page: int, start: int, end: int) returns (links: seq<PageLink>)
    ensures links == MapSeq(Span(start, end), NumberedOn(page))
  {
    links := [];
    var i := start;
    while i <= end
      invariant start <= i <= if start <= end then end + 1 else start
      invariant links == MapSeq(Span(start, i - 1), NumberedOn(page))
    {
      NumberedSpanGrows(page, start, i);
      links := links + [Numbered(i, i == page)];
      i := i + 1;
    }
    assert Span(start, i - 1) == Span(start, end);
  }
}
