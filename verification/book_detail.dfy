/** The book detail page (`book_detail.php`): the id guard, the borrow
    button, the recent loan history shown to librarians, and the list of
    similar books. */
module BookDetail {
  import opened Common
  import opened Store
  import opened Auth
  import opened Aggregates
  import Loans

  /** `LIMIT 5` on both side queries. */
  const HistoryLimit: nat := 5
  const SimilarLimit: nat := 5

  /** A row of the history query: the loan and `member_name`. */
  datatype HistoryEntry = HistoryEntry(loan: Loan, memberName: string)

  /** A row of the similar-books query: `id, title, author`. */
  datatype SimilarBook = SimilarBook(id: int, title: string, author: string)

  /** What sits under the cover: the checkout link, the disabled "Not
      Available" button, or nothing. */
  datatype BorrowControl = BorrowLink | NotAvailableButton | NoBorrowControl

  /** `RedirectCatalog` for a missing, non-positive or unknown id; otherwise
      the book, its borrow control, whether the edit and delete links are
      there, the history panel (when it is shown) and the similar books. */
  datatype BookPage =
    | RedirectCatalog
    | BookView(book: Book, borrow: BorrowControl, manageLinks: bool,
               history: Option<seq<HistoryEntry>>, similar: seq<SimilarBook>)

  /** `JOIN members m ON l.member_id = m.id WHERE l.book_id = ?`. */
  function JoinedFor(members: map<int, Member>, bookId: int): Loan -> bool {
    (l: Loan) => l.bookId == bookId && l.memberId in members
  }

  /** `CONCAT(m.first_name, ' ', m.last_name)`. */
  function FullName(m: Member): string {
    m.firstName + " " + m.lastName
  }

  function EntryIn(members: map<int, Member>): Loan -> HistoryEntry {
    (l: Loan) => HistoryEntry(l, if l.memberId in members then FullName(members[l.memberId]) else "")
  }

  /** The history query: the book's loans whose member still exists, newest
      checkout first, at most five. */
  function RecentHistory(t: Tables, bookId: int): seq<HistoryEntry> {
    MapSeq(TopN(Filter(Rows(t.loans), JoinedFor(t.members, bookId)), Loans.CheckoutDate, HistoryLimit), EntryIn(t.members))
  }

  /** `WHERE (author = ? OR category = ?) AND id != ?`. */
  function SimilarTo(b: Book): Book -> bool {
    (c: Book) => (c.author == b.author || c.category == b.category) && c.id != b.id
  }

  function Brief(c: Book): SimilarBook {
    SimilarBook(c.id, c.title, c.author)
  }

  /** The similar-books query: no `ORDER BY`, so rows in primary-key order,
      at most five. */
  function SimilarBooks(books: map<int, Book>, b: Book): seq<SimilarBook> {
    MapSeq(Take(Filter(Rows(books), SimilarTo(b)), SimilarLimit), Brief)
  }

  function BorrowFor(s: Session, b: Book): BorrowControl {
    if IsLoggedIn(s) && b.availableCopies > 0 then BorrowLink
    else if b.availableCopies <= 0 then NotAvailableButton
    else NoBorrowControl
  }

  /** One request to `book_detail.php?id=bookId` (0 when `id` is absent). */
  function BookDetailOf(t: Tables, s: Session, bookId: int): BookPage {
    if bookId <= 0 || bookId !in t.books then RedirectCatalog
    else
      var b := t.books[bookId];
      var history := RecentHistory(t, bookId);
      BookView(b, BorrowFor(s, b), IsLibrarian(s),
               if IsLibrarian(s) && |history| > 0 then Some(history) else None,
               SimilarBooks(t.books, b))
  }

  // ---------------------------------------------------------------------------
  // Properties
  // ---------------------------------------------------------------------------

  /** The page shows a stored book and only that; the checkout link is there
      exactly for a logged-in visitor when a copy is available, the disabled
      button exactly when none is, and the history panel exactly for a
      librarian when the book has some history. */
  lemma BookDetailIsGated(t: Tables, s: Session, bookId: int)
    ensures BookDetailOf(t, s, bookId).RedirectCatalog? <==> bookId <= 0 || bookId !in t.books
    ensures var p := BookDetailOf(t, s, bookId);
      p.BookView? ==>
        && p.book == t.books[bookId]
        && (p.borrow == BorrowLink <==> IsLoggedIn(s) && p.book.availableCopies > 0)
        && (p.borrow == NotAvailableButton <==> p.book.availableCopies <= 0)
        && (p.manageLinks <==> IsLibrarian(s))
        && (p.history.Some? <==> IsLibrarian(s) && RecentHistory(t, bookId) != [])
        && (p.history.Some? ==> p.history.value == RecentHistory(t, bookId))
  {
    var p := BookDetailOf(t, s, bookId);
    if p.BookView? {
      assert p.history.Some? <==> IsLibrarian(s) && |RecentHistory(t, bookId)| > 0;
    }
  }

  /** The history holds at most five loans, each a loan of this book by a
      member that still exists, with that member's full name, newest
      checkout first. */
  lemma RecentHistoryIsThisBooks(t: Tables, bookId: int)
    ensures var r := RecentHistory(t, bookId);
      && |r| <= HistoryLimit
      && (forall i :: 0 <= i < |r| ==>
            && r[i].loan in t.loans.Values
            && r[i].loan.bookId == bookId
            && r[i].loan.memberId in t.members
            && r[i].memberName == FullName(t.members[r[i].loan.memberId]))
      && (forall i, j :: 0 <= i < j < |r| ==> r[i].loan.checkoutDate >= r[j].loan.checkoutDate)
  {
    var joined := Filter(Rows(t.loans), JoinedFor(t.members, bookId));
    var top := TopN(joined, Loans.CheckoutDate, HistoryLimit);
    var r := RecentHistory(t, bookId);
    TopNIsTop(joined, Loans.CheckoutDate, HistoryLimit);
    forall i | 0 <= i < |r|
      ensures r[i].loan in t.loans.Values && r[i].loan.bookId == bookId && r[i].loan.memberId in t.members
    {
      assert r[i].loan == top[i] && top[i] in top;
    }
    forall i, j | 0 <= i < j < |r| ensures r[i].loan.checkoutDate >= r[j].loan.checkoutDate {
      assert r[i].loan == top[i] && r[j].loan == top[j];
    }
  }

  /** No qualifying loan newer than a listed one is left out: a loan of
      this book by an existing member that is not listed means the list is
      full and every listed loan was checked out no earlier. */
  lemma RecentHistoryIsNewest(t: Tables, bookId: int, l: Loan)
    requires l in t.loans.Values && l.bookId == bookId && l.memberId in t.members
    requires forall i :: 0 <= i < |RecentHistory(t, bookId)| ==> RecentHistory(t, bookId)[i].loan != l
    ensures var r := RecentHistory(t, bookId);
      |r| == HistoryLimit && forall i :: 0 <= i < |r| ==> r[i].loan.checkoutDate >= l.checkoutDate
  {
    var joined := Filter(Rows(t.loans), JoinedFor(t.members, bookId));
    assert l in Rows(t.loans) && JoinedFor(t.members, bookId)(l);
    LeftOutIsOlder(joined, t.members, l, RecentHistory(t, bookId));
  }

  /** The newest-first cut of any loan rows leaves out only loans no newer
      than every one it keeps, and only when it is full. */
  lemma LeftOutIsOlder(joined: seq<Loan>, members: map<int, Member>, l: Loan, r: seq<HistoryEntry>)
    requires r == MapSeq(TopN(joined, Loans.CheckoutDate, HistoryLimit), EntryIn(members))
    requires l in joined
    requires forall i :: 0 <= i < |r| ==> r[i].loan != l
    ensures |r| == HistoryLimit && forall i :: 0 <= i < |r| ==> r[i].loan.checkoutDate >= l.checkoutDate
  {
    var top := TopN(joined, Loans.CheckoutDate, HistoryLimit);
    TopNIsTop(joined, Loans.CheckoutDate, HistoryLimit);
    assert forall i :: 0 <= i < |top| ==> r[i].loan == top[i];
    assert l !in top;
    forall i | 0 <= i < |r| ensures r[i].loan.checkoutDate >= l.checkoutDate {
      assert top[i] in top;
    }
  }

  /** At most five similar books, each a stored book other than this one
      that shares its author or its category; when fewer than five are
      listed, every such book is. */
  lemma SimilarBooksAreSimilar(books: map<int, Book>, b: Book)
    ensures var r := SimilarBooks(books, b);
      && |r| <= SimilarLimit
      && (forall i :: 0 <= i < |r| ==> exists c :: c in books.Values && SimilarTo(b)(c) && r[i] == Brief(c))
      && (forall i :: 0 <= i < |r| ==> r[i].id != b.id)
      && (|r| < SimilarLimit ==> forall c :: c in books.Values && SimilarTo(b)(c) ==> Brief(c) in r)
  {
    var matching := Filter(Rows(books), SimilarTo(b));
    var top := Take(matching, SimilarLimit);
    var r := SimilarBooks(books, b);
    forall i | 0 <= i < |r| ensures exists c :: c in books.Values && SimilarTo(b)(c) && r[i] == Brief(c) {
      assert top[i] == matching[i] && matching[i] in matching;
    }
    if |r| < SimilarLimit {
      assert top == matching;
      MapSeqMembers(matching, Brief);
    }
  }
}
