/** The book catalog page (`books.php`): which books it lists, the page
    count, the navigation bar, and the links each row offers. */
module BookCatalog {
  import opened Common
  import opened Store
  import opened Auth
  import Books
  import opened Pagination

  /** The availability column. */
  datatype Stock = InStock(available: int, total: int) | NotAvailable

  /** One table row: the book, its availability badge, whether the edit and
      delete links are there, and whether the checkout link is. */
  datatype CatalogRow = CatalogRow(book: Book, stock: Stock, manageLinks: bool, checkoutLink: bool)

  /** `StatementFailed` when the paged `SELECT` is refused (a page number
      below 1 gives a negative `OFFSET`); otherwise the "Add New Book" link,
      the row count in the heading, the page count, the rows (none: the "No
      results found!" or "No books available!" notice) and the bar. */
  datatype CatalogPage =
    | StatementFailed
    | CatalogView(addLink: bool, totalRows: nat, totalPages: nat, rows: seq<CatalogRow>, nav: seq<PageLink>)

  function RowFor(s: Session): Book -> CatalogRow {
    (b: Book) => CatalogRow(
      b,
      if b.availableCopies > 0 then InStock(b.availableCopies, b.totalCopies) else NotAvailable,
      IsLibrarian(s),
      IsLoggedIn(s) && b.availableCopies > 0)
  }

  /** The books the request selects and `$total_rows`. */
  function CatalogSelection(books: map<int, Book>, req: ListingRequest): Option<(seq<Book>, nat)> {
    Selection(req, Books.Search(books, req.search), Books.ReadAll(books, req.page, RecordsPerPage), Books.CountAll(books))
  }

  /** One request to `books.php`. */
  function CatalogOf(books: map<int, Book>, s: Session, req: ListingRequest): CatalogPage {
    match CatalogSelection(books, req)
    case None => StatementFailed
    case Some((listed, totalRows)) =>
      var totalPages := TotalPages(totalRows, RecordsPerPage);
      CatalogView(IsLibrarian(s), totalRows, totalPages, MapSeq(listed, RowFor(s)), NavFor(req, |listed|, totalPages))
  }

  // ---------------------------------------------------------------------------
  // Properties
  // ---------------------------------------------------------------------------

  /** A search term lists every matching book and counts them; without one
      the page lists the requested ten books in title order and counts the
      whole catalog, and a page number below 1 makes the statement fail. */
  lemma CatalogSelectsBySearch(books: map<int, Book>, s: Session, req: ListingRequest)
    ensures CatalogOf(books, s, req).StatementFailed? <==> Blank(req.search) && req.page < 1
    ensures var p := CatalogOf(books, s, req);
      p.CatalogView? ==>
        var listed := if Blank(req.search) then Books.ReadAll(books, req.page, RecordsPerPage).value else Books.Search(books, req.search);
        && |p.rows| == |listed|
        && (forall i :: 0 <= i < |p.rows| ==> p.rows[i].book == listed[i])
        && p.totalRows == (if Blank(req.search) then |books| else |listed|)
        && p.totalPages == TotalPages(p.totalRows, RecordsPerPage)
        && p.addLink == IsLibrarian(s)
  {
    Books.ReadAllIsTitleOrderedPage(books, req.page, RecordsPerPage);
  }

  /** Every row of the table is a stored book; it shows the copies when
      some are available and "Not Available" otherwise, offers edit and
      delete to librarians only, and offers checkout exactly to a logged-in
      visitor when a copy is available. */
  lemma CatalogRowsAreGated(books: map<int, Book>, s: Session, req: ListingRequest)
    ensures var p := CatalogOf(books, s, req);
      p.CatalogView? ==> forall r :: r in p.rows ==>
        && r.book in books.Values
        && (r.checkoutLink <==> IsLoggedIn(s) && r.book.availableCopies > 0)
        && (r.manageLinks <==> IsLibrarian(s))
        && (r.stock.InStock? <==> r.book.availableCopies > 0)
        && (r.stock.InStock? ==> r.stock == InStock(r.book.availableCopies, r.book.totalCopies))
  {
    var p := CatalogOf(books, s, req);
    if p.CatalogView? {
      var listed := CatalogSelection(books, req).value.0;
      assert forall b :: b in listed ==> b in books.Values by {
        if Blank(req.search) {
          Books.ReadAllIsTitleOrderedPage(books, req.page, RecordsPerPage);
        } else {
          Books.SearchIsExact(books, req.search);
        }
      }
      forall r | r in p.rows ensures r.book in books.Values && r == RowFor(s)(r.book) {
        var i :| 0 <= i < |p.rows| && p.rows[i] == r;
        assert listed[i] in listed;
      }
    }
  }

  /** The bar appears exactly when there is no search term, the catalog
      takes more than one page and the requested page is one of them. */
  lemma CatalogNavIsGated(books: map<int, Book>, s: Session, req: ListingRequest)
    ensures var p := CatalogOf(books, s, req);
      p.CatalogView? ==>
        && (p.nav != [] <==> Blank(req.search) && p.totalPages > 1 && 1 <= req.page <= p.totalPages)
        && (p.nav != [] ==> p.nav == Nav(req.page, p.totalPages))
  {
    var p := CatalogOf(books, s, req);
    if p.CatalogView? && Blank(req.search) {
      Books.CountAllIsRowCount(books);
      NavForListing(Books.Catalog(books), req, RecordsPerPage);
    }
  }

  /** Following any link of the bar shows a page that lists books. */
  lemma CatalogNavLeadsToBooks(books: map<int, Book>, s: Session, req: ListingRequest, l: PageLink)
    requires CatalogOf(books, s, req).CatalogView?
    requires l in CatalogOf(books, s, req).nav
    ensures var next := CatalogOf(books, s, ListingRequest(TargetOf(l), req.search));
      next.CatalogView? && next.rows != []
  {
    var p := CatalogOf(books, s, req);
    Books.CountAllIsRowCount(books);
    NavTargetsHaveRows(Books.Catalog(books), req.page, RecordsPerPage);
  }
}
