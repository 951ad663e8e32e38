/** The catalog management page (`books_manage.php`): the librarian gate,
    the edit/delete dispatch, the available-copies recomputation when the
    total changes, the required-field check, and create or update. */
module BooksManage {
  import opened Common
  import opened Store
  import opened Auth
  import Books
  import Loans

  /** The posted form, after `trim` and the `(int)` casts. */
  datatype BookForm = BookForm(
    isbn: string,
    title: string,
    author: string,
    category: string,
    publicationYear: int,
    publisher: string,
    totalCopies: int)

  /** The message the form shows after a submission. */
  datatype Notice = NoNotice | RequiredFieldsMissing | BookCreated | CreateFailed | BookUpdated | UpdateFailed

  datatype ManagePage =
    | RedirectToCatalog
    | RedirectAfterDelete(deleted: bool)
    | FormPage(notice: Notice)

  // ---------------------------------------------------------------------------
  // The copy-count recomputation
  // ---------------------------------------------------------------------------

  /** On edit, a changed total shifts the available count by the same
      difference, floored at zero; an unchanged total keeps it. */
  function AvailableAfterEdit(originalTotal: int, originalAvailable: int, newTotal: int): int {
    if originalTotal != newTotal then
      var difference := newTotal - originalTotal;
      if originalAvailable + difference > 0 then originalAvailable + difference else 0
    else originalAvailable
  }

  /** Shrinking 5 copies to 3 with 4 on the shelf leaves 2; growing 5 to 8
      with 4 on the shelf gives 7. */
  lemma AvailableAfterEditExamples()
    ensures AvailableAfterEdit(5, 4, 3) == 2
    ensures AvailableAfterEdit(5, 4, 8) == 7
    ensures AvailableAfterEdit(5, 1, 2) == 0
  {
  }

  /** An unchanged total keeps the available count. */
  lemma AvailableAfterEditUnchangedTotal(total: int, available: int)
    ensures AvailableAfterEdit(total, available, total) == available
  {
  }

  /** From a sane book and a non-negative new total, the result is sane. */
  lemma AvailableAfterEditInRange(originalTotal: int, originalAvailable: int, newTotal: int)
    requires 0 <= originalAvailable <= originalTotal && newTotal >= 0
    ensures 0 <= AvailableAfterEdit(originalTotal, originalAvailable, newTotal) <= newTotal
  {
  }

  /** Unless the floor at zero applies, the number of copies out on loan
      (total minus available) is the same before and after the edit; when it
      applies, the new total is below the number out. */
  lemma AvailableAfterEditKeepsOnLoan(originalTotal: int, originalAvailable: int, newTotal: int)
    ensures originalAvailable + (newTotal - originalTotal) >= 0 ==>
      newTotal - AvailableAfterEdit(originalTotal, originalAvailable, newTotal) == originalTotal - originalAvailable
    ensures originalAvailable >= 0 && originalAvailable + (newTotal - originalTotal) < 0 ==>
      AvailableAfterEdit(originalTotal, originalAvailable, newTotal) == 0
      && newTotal < originalTotal - originalAvailable
  {
  }

  /** The columns written on add (available equals total) and on edit. */
  function NewBookFields(f: BookForm): (r: Books.BookFields)
    ensures r.availableCopies == r.totalCopies == f.totalCopies
  {
    Books.BookFields(f.isbn, f.title, f.author, f.category, f.publicationYear, f.publisher, f.totalCopies, f.totalCopies)
  }

  function EditedBookFields(f: BookForm, originalTotal: int, originalAvailable: int): Books.BookFields {
    Books.BookFields(f.isbn, f.title, f.author, f.category, f.publicationYear, f.publisher, f.totalCopies,
                     AvailableAfterEdit(originalTotal, originalAvailable, f.totalCopies))
  }

  /** The totals the recomputation starts from: the stored book when one was
      loaded for editing, else the form defaults of one copy. */
  function Originals(books: map<int, Book>, action: string, bookId: int): (int, int) {
    if action == "edit" && bookId > 0 && bookId in books
    then (books[bookId].totalCopies, books[bookId].availableCopies)
    else (1, 1)
  }

  predicate MissingRequired(f: BookForm) {
    Blank(f.isbn) || Blank(f.title) || Blank(f.author)
  }

  // ---------------------------------------------------------------------------
  // The ledger across an edit
  // ---------------------------------------------------------------------------

  /** An edit of a stored book that does not hit the floor keeps the
      copy-count ledger. */
  lemma {:induction false} EditKeepsLedger(t: Tables, bookId: int, f: BookForm)
    requires t.Valid() && Loans.LedgerConsistent(t) && bookId in t.books
    requires var b := t.books[bookId];
      b.availableCopies + (f.totalCopies - b.totalCopies) >= 0
    requires Books.Updated(t, bookId, EditedBookFields(f, t.books[bookId].totalCopies, t.books[bookId].availableCopies)).Some?
    ensures Loans.LedgerConsistent(
      Books.Updated(t, bookId, EditedBookFields(f, t.books[bookId].totalCopies, t.books[bookId].availableCopies)).value)
  {
    var b := t.books[bookId];
    AvailableAfterEditKeepsOnLoan(b.totalCopies, b.availableCopies, f.totalCopies);
  }

  /** A book with two copies, both out on loan. */
  function TwoCopiesBothOut(): Tables {
    Tables(
      map[1 := Book(1, "isbn", "title", "author", "", 2000, "", 2, 0, 0)],
      map[],
      map[1 := Loan(1, 1, 7, 0, 14, None, CheckedOut, 0, 0), 2 := Loan(2, 1, 7, 0, 14, None, CheckedOut, 0, 0)],
      map[],
      2, 1, 3, 1)
  }

  /** The floor at zero together with the uncapped increment of a return can
      push a book's available count above its total: shrink a two-copy book
      whose two copies are both out to one copy, then take both back. */
  lemma ClampedEditThenReturnsExceedTotal()
    ensures TwoCopiesBothOut().Valid() && Loans.LedgerConsistent(TwoCopiesBothOut())
    ensures var t0 := TwoCopiesBothOut();
      var f := BookForm("isbn", "title", "author", "", 2000, "", 1);
      var t1 := Books.Updated(t0, 1, EditedBookFields(f, 2, 0));
      && t1.Some? && t1.value.books[1].totalCopies == 1 && t1.value.books[1].availableCopies == 0
      && var t2 := Loans.Return(t1.value, 1, Some(10), 10);
      && t2.Some?
      && var t3 := Loans.Return(t2.value, 2, Some(10), 10);
      && t3.Some?
      && t3.value.books[1].availableCopies == 2 > t3.value.books[1].totalCopies
  {
    var t0 := TwoCopiesBothOut();
    assert Loans.OutstandingIds(t0.loans, 1) == {1, 2};
    assert Loans.OnLoan(t0.loans, 1) == 2;
    var f := BookForm("isbn", "title", "author", "", 2000, "", 1);
    assert !Books.IsbnTaken(t0.books, "isbn", 1);
    var t1 := Books.Updated(t0, 1, EditedBookFields(f, 2, 0)).value;
    assert t1.books[1].availableCopies == 0;
    var t2 := Loans.Return(t1, 1, Some(10), 10).value;
    assert t2.books[1].availableCopies == 1;
    assert t2.loans[2].status == CheckedOut;
  }

  // ---------------------------------------------------------------------------
  // The page
  // ---------------------------------------------------------------------------

  /** The submission part of the page, once a form has been posted: the
      required-field check, then `create()` on add or `update()` on edit. */
  function Submitted(t: Tables, clock: Day, action: string, bookId: int, f: BookForm,
                     originalTotal: int, originalAvailable: int): (r: (Notice, Tables))
    requires t.Valid()
    ensures r.1.Valid()
  {
    if MissingRequired(f) then (RequiredFieldsMissing, t)
    else if action == "add" then
      match Books.Inserted(t, NewBookFields(f), clock)
      case Some(t') => (BookCreated, t')
      case None => (CreateFailed, t)
    else if action == "edit" then
      match Books.Updated(t, bookId, EditedBookFields(f, originalTotal, originalAvailable))
      case Some(t') => (BookUpdated, t')
      case None => (UpdateFailed, t)
    else (NoNotice, t)
  }

  /** One request to `books_manage.php`, as the page and the store it leaves:
      `action` and `bookId` come from the query string, `post` is the
      submitted form when the request is a POST. */
  function Managed(t: Tables, clock: Day, session: Session, action: string, bookId: int,
                   post: Option<BookForm>): (r: (ManagePage, Tables))
    requires t.Valid()
    ensures r.1.Valid()
  {
    if !IsLibrarian(session) then (RedirectToCatalog, t)
    else if action == "edit" && bookId > 0 && bookId !in t.books then (RedirectToCatalog, t)
    else if action == "delete" && bookId > 0 then (RedirectAfterDelete(true), Books.Deleted(t, bookId))
    else if post.None? then (FormPage(NoNotice), t)
    else
      var (total, available) := Originals(t.books, action, bookId);
      var (notice, t') := Submitted(t, clock, action, bookId, post.value, total, available);
      (FormPage(notice), t')
  }

  /** Only librarians reach the page; editing an unknown positive id sends
      them back to the catalog; a GET never writes; a submission with a blank
      ISBN, title or author writes nothing; an edit with no positive id
      updates no row and still reports success. */
  lemma ManagedGuards(t: Tables, clock: Day, session: Session, action: string, bookId: int, post: Option<BookForm>)
    requires t.Valid()
    ensures !IsLibrarian(session) ==> Managed(t, clock, session, action, bookId, post) == (RedirectToCatalog, t)
    ensures IsLibrarian(session) && action == "edit" && bookId > 0 && bookId !in t.books ==>
      Managed(t, clock, session, action, bookId, post) == (RedirectToCatalog, t)
    ensures IsLibrarian(session) && action == "edit" && bookId <= 0 && post.Some? && !MissingRequired(post.value) ==>
      Managed(t, clock, session, action, bookId, post) == (FormPage(BookUpdated), t)
    ensures post.None? && action != "delete" ==> Managed(t, clock, session, action, bookId, post).1 == t
    ensures post.Some? && MissingRequired(post.value) && !(action == "delete" && bookId > 0) ==>
      Managed(t, clock, session, action, bookId, post).1 == t
  {
  }

  /** The page touches the catalog only: members, loans and users, and their
      counters, are as they were. */
  lemma ManagedTouchesOnlyBooks(t: Tables, clock: Day, session: Session, action: string, bookId: int, post: Option<BookForm>)
    requires t.Valid()
    ensures var t' := Managed(t, clock, session, action, bookId, post).1;
      t'.members == t.members && t'.loans == t.loans && t'.users == t.users
      && t'.nextMemberId == t.nextMemberId && t'.nextLoanId == t.nextLoanId && t'.nextUserId == t.nextUserId
  {
  }

  /** A successful add stores a new row whose available count equals its
      total. The copy-count ledger survives it exactly when the posted total
      is not negative: the `(int)` cast lets a negative total through, and the
      new book then starts with a negative available count. */
  lemma ManagedAddStartsFullyAvailable(t: Tables, clock: Day, session: Session, bookId: int, f: BookForm)
    requires t.Valid() && Loans.LedgerConsistent(t)
    requires Managed(t, clock, session, "add", bookId, Some(f)).0 == FormPage(BookCreated)
    ensures var t' := Managed(t, clock, session, "add", bookId, Some(f)).1;
      && t'.books.Keys == t.books.Keys + {t.nextBookId}
      && t'.books[t.nextBookId].availableCopies == t'.books[t.nextBookId].totalCopies == f.totalCopies
      && (Loans.LedgerConsistent(t') <==> f.totalCopies >= 0)
  {
    Books.InsertedAddsOneRow(t, NewBookFields(f), clock);
    var t' := Books.Inserted(t, NewBookFields(f), clock).value;
    assert Loans.OutstandingIds(t.loans, t.nextBookId) == {} by {
      forall k | k in t.loans ensures t.loans[k].bookId != t.nextBookId {
      }
    }
    AddedBookLedger(t, t', f.totalCopies);
  }

  /** Adding a book with no loan against it, and nothing else, keeps the
      ledger exactly when its available count is not negative. */
  lemma AddedBookLedger(t: Tables, t': Tables, total: int)
    requires Loans.LedgerConsistent(t)
    requires t'.books.Keys == t.books.Keys + {t.nextBookId}
    requires forall k :: k in t.books ==> t'.books[k] == t.books[k]
    requires t'.books[t.nextBookId].availableCopies == t'.books[t.nextBookId].totalCopies == total
    requires t'.loans == t.loans && t'.nextBookId == t.nextBookId + 1
    requires Loans.OnLoan(t.loans, t.nextBookId) == 0
    ensures Loans.LedgerConsistent(t') <==> total >= 0
  {
  }

  /** A successful edit that does not hit the floor at zero keeps the ledger. */
  lemma ManagedEditKeepsLedger(t: Tables, clock: Day, session: Session, bookId: int, f: BookForm)
    requires t.Valid() && Loans.LedgerConsistent(t)
    requires bookId in t.books
    requires t.books[bookId].availableCopies + (f.totalCopies - t.books[bookId].totalCopies) >= 0
    requires Managed(t, clock, session, "edit", bookId, Some(f)).0 == FormPage(BookUpdated)
    ensures Loans.LedgerConsistent(Managed(t, clock, session, "edit", bookId, Some(f)).1)
  {
    EditKeepsLedger(t, bookId, f);
  }

  /** The submission, on a `Book` object filled from the form. */
  method Submit(book: Books.BookRecord, action: string, bookId: int, f: BookForm,
                originalTotal: int, originalAvailable: int) returns (notice: Notice)
    requires book.db.Valid()
    modifies book, book.db
    ensures book.db.Valid()
    ensures (notice, book.db.Snapshot())
      == Submitted(old(book.db.Snapshot()), book.db.clock, action, bookId, f, originalTotal, originalAvailable)
  {
    book.isbn, book.title, book.author, book.category := f.isbn, f.title, f.author, f.category;
    book.publicationYear, book.publisher, book.totalCopies := f.publicationYear, f.publisher, f.totalCopies;
    if action == "add" {
      book.availableCopies := book.totalCopies;
    } else {
      book.availableCopies := AvailableAfterEdit(originalTotal, originalAvailable, book.totalCopies);
    }
    if MissingRequired(f) {
      return RequiredFieldsMissing;
    }
    if action == "add" {
      assert book.Fields() == NewBookFields(f);
      var created := book.Create();
      return if created then BookCreated else CreateFailed;
    } else if action == "edit" {
      book.id := bookId;
      assert book.Fields() == EditedBookFields(f, originalTotal, originalAvailable);
      var updated := book.Update();
      return if updated then BookUpdated else UpdateFailed;
    }
    notice := NoNotice;
  }

  /** `books_manage.php`. */
  method ManageBooks(db: Database, session: Session, action: string, bookId: int, post: Option<BookForm>)
    returns (page: ManagePage)
    requires db.Valid()
    modifies db
    ensures db.Valid()
    ensures (page, db.Snapshot()) == Managed(old(db.Snapshot()), db.clock, session, action, bookId, post)
  {
    if !IsLibrarian(session) {
      return RedirectToCatalog;
    }
    var book := new Books.BookRecord(db);
    var originalTotal, originalAvailable := 1, 1;
    if action == "edit" && bookId > 0 {
      book.id := bookId;
      var found := book.ReadOne();
      if !found {
        return RedirectToCatalog;
      }
      originalTotal, originalAvailable := book.totalCopies, book.availableCopies;
    } else if action == "delete" && bookId > 0 {
      book.id := bookId;
      var deleted := book.Delete();
      return RedirectAfterDelete(deleted);
    }
    if post.None? {
      return FormPage(NoNotice);
    }
    assert (originalTotal, originalAvailable) == Originals(db.books, action, bookId);
    var notice := Submit(book, action, bookId, post.value, originalTotal, originalAvailable);
    page := FormPage(notice);
  }
}
