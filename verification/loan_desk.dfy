/** The circulation desk page (`loans.php`): who may use it, checkout with
    the fourteen-day loan period, return, and which listing is shown. */
module LoanDesk {
  import opened Common
  import opened Store
  import opened Auth
  import Books
  import Members
  import Loans

  /** The query-string parameters after their `(int)` casts. */
  datatype DeskRequest = DeskRequest(action: string, loanId: int, bookId: int, memberId: int, filter: string, page: int)

  datatype DeskNotice =
    | NoDeskNotice
    | BookUnavailable
    | ChooseMember
    | CheckedOutNotice
    | CheckoutFailed
    | ReturnedNotice
    | ReturnFailed

  /** The table under the forms, if any. */
  datatype Listing =
    | NoListing
    | OverdueListing(overdue: seq<Loans.LoanView>)
    | PagedListing(paged: Option<seq<Loans.LoanView>>)
    | HistoryListing(history: seq<Loans.TitledLoan>)

  datatype DeskPage = RedirectHome | DeskView(notice: DeskNotice, listing: Listing)

  const RecordsPerPage: int := 10

  /** `getByUserId(getCurrentUserId())`: the member row linked to the
      logged-in account, if any. */
  function OwnMember(t: Tables, s: Session): Option<Member> {
    match CurrentUserId(s)
    case Some(IntValue(user)) => Members.ByUserId(t.members, user)
    case _ => None
  }

  /** The member a checkout is for, or `None` when the page redirects: a
      logged-in reader who is not a librarian may only check out, and only
      for their own member row; everyone else uses the `member_id` given. */
  function DeskMember(t: Tables, s: Session, req: DeskRequest): Option<int> {
    if IsLoggedIn(s) && !IsLibrarian(s) then
      var own := OwnMember(t, s);
      if req.action == "checkout" && own.Some? && own.value.id != 0 then Some(own.value.id) else None
    else Some(req.memberId)
  }

  /** The checkout step: refused when the book is missing or has no copy on
      the shelf; a librarian without a member is asked to pick one;
      otherwise a loan from today, due `LoanPeriodDays` later. */
  function CheckoutStep(t: Tables, clock: Day, today: Day, s: Session, bookId: int, memberId: int,
                        fault: Fault): (r: (DeskNotice, Tables))
    requires t.Valid()
    ensures r.1.Valid()
  {
    if bookId !in t.books || t.books[bookId].availableCopies <= 0 then (BookUnavailable, t)
    else if memberId <= 0 && IsLibrarian(s) then (ChooseMember, t)
    else
      var r := Loans.Checkout(t, bookId, memberId, today, today + Loans.LoanPeriodDays, clock);
      if r.Some? && !FailsBefore(fault, 2) then (CheckedOutNotice, r.value) else (CheckoutFailed, t)
  }

  /** The return step, for librarians: the loan is closed as of today. */
  function ReturnStep(t: Tables, clock: Day, today: Day, loanId: int, fault: Fault): (r: (DeskNotice, Tables))
    requires t.Valid()
    ensures r.1.Valid()
  {
    var r := Loans.Return(t, loanId, Some(today), clock);
    if r.Some? && !FailsBefore(fault, 3) then (ReturnedNotice, r.value) else (ReturnFailed, t)
  }

  /** The listing: librarians see the overdue list or every loan paged;
      a reader sees their own history; a guest sees none. */
  function DeskListing(t: Tables, today: Day, s: Session, req: DeskRequest, ownMemberId: int): Listing {
    if IsLibrarian(s) then
      if req.filter == "overdue" then OverdueListing(Loans.OverdueLoans(t, today))
      else PagedListing(Loans.ReadAll(t, req.page, RecordsPerPage))
    else if ownMemberId > 0 then HistoryListing(Loans.MemberLoanHistory(t, ownMemberId))
    else NoListing
  }

  /** The member id the page keeps for the listing (`$user_member_id`). */
  function OwnMemberId(t: Tables, s: Session): int {
    if IsLoggedIn(s) && !IsLibrarian(s) && OwnMember(t, s).Some? then OwnMember(t, s).value.id else 0
  }

  /** What one request to `loans.php` does to the store and which notice it
      shows; `None` when the page redirects home. */
  function DeskAction(t: Tables, clock: Day, today: Day, s: Session, req: DeskRequest,
                      checkoutFault: Fault, returnFault: Fault): (r: Option<(DeskNotice, Tables)>)
    requires t.Valid()
    ensures r.Some? ==> r.value.1.Valid()
  {
    match DeskMember(t, s, req)
    case None => None
    case Some(memberId) =>
      if req.action == "checkout" && req.bookId > 0 then Some(CheckoutStep(t, clock, today, s, req.bookId, memberId, checkoutFault))
      else if req.action == "return" && req.loanId > 0 && IsLibrarian(s) then Some(ReturnStep(t, clock, today, req.loanId, returnFault))
      else Some((NoDeskNotice, t))
  }

  /** The "return" button of a row: librarians, on a `checked_out` loan. */
  predicate ShowsReturnButton(s: Session, l: Loan) {
    IsLibrarian(s) && l.status == CheckedOut
  }

  // ---------------------------------------------------------------------------
  // Properties
  // ---------------------------------------------------------------------------

  /** A logged-in reader is sent home unless checking out with a member
      row; guests and librarians always get the page. */
  lemma DeskGate(t: Tables, clock: Day, today: Day, s: Session, req: DeskRequest, cf: Fault, rf: Fault)
    requires t.Valid()
    ensures DeskAction(t, clock, today, s, req, cf, rf).None? <==>
      IsLoggedIn(s) && !IsLibrarian(s) && (req.action != "checkout" || OwnMember(t, s).None?)
  {
    var own := OwnMember(t, s);
    if own.Some? {
      Members.ByUserIdFindsOwner(t.members, CurrentUserId(s).value.i);
    }
  }

  /** A reader who is not a librarian cannot change an existing loan (only
      librarians return), and any loan the page adds for a logged-in reader
      is for that reader's own member row. */
  lemma ReadersBorrowOnlyForThemselves(t: Tables, clock: Day, today: Day, s: Session, req: DeskRequest, cf: Fault, rf: Fault)
    requires t.Valid()
    requires !IsLibrarian(s) && DeskAction(t, clock, today, s, req, cf, rf).Some?
    ensures var t' := DeskAction(t, clock, today, s, req, cf, rf).value.1;
      && (forall k :: k in t.loans ==> k in t'.loans && t'.loans[k] == t.loans[k])
      && t'.loans.Keys <= t.loans.Keys + {t.nextLoanId}
      && (IsLoggedIn(s) && t.nextLoanId in t'.loans ==>
            OwnMember(t, s).Some? && t'.loans[t.nextLoanId].memberId == OwnMember(t, s).value.id)
  {
    var memberId := DeskMember(t, s, req).value;
    if req.action == "checkout" && req.bookId > 0 {
      var c := Loans.Checkout(t, req.bookId, memberId, today, today + Loans.LoanPeriodDays, clock);
      if c.Some? {
        Loans.CheckoutAddsOneLoan(t, req.bookId, memberId, today, today + Loans.LoanPeriodDays, clock);
      }
    }
  }

  /** A loan made at the desk runs from today for `LoanPeriodDays` days and
      starts `checked_out` with no fine. */
  lemma DeskLoanRunsFourteenDays(t: Tables, clock: Day, today: Day, s: Session, req: DeskRequest, cf: Fault, rf: Fault)
    requires t.Valid()
    requires DeskAction(t, clock, today, s, req, cf, rf).Some?
    requires DeskAction(t, clock, today, s, req, cf, rf).value.0 == CheckedOutNotice
    ensures var t' := DeskAction(t, clock, today, s, req, cf, rf).value.1;
      && t'.loans.Keys == t.loans.Keys + {t.nextLoanId}
      && t'.loans[t.nextLoanId].checkoutDate == today
      && t'.loans[t.nextLoanId].dueDate == today + 14
      && t'.loans[t.nextLoanId].status == CheckedOut && t'.loans[t.nextLoanId].fine == 0
  {
    var memberId := DeskMember(t, s, req).value;
    Loans.CheckoutAddsOneLoan(t, req.bookId, memberId, today, today + Loans.LoanPeriodDays, clock);
  }

  /** The checkout step refuses a missing book or one with no copy on the
      shelf, asks a librarian who named no member to pick one, and otherwise
      lends the book to that member from today for fourteen days, one copy
      leaving the shelf; every outcome but the loan writes nothing. */
  lemma CheckoutStepOutcomes(t: Tables, clock: Day, today: Day, s: Session, bookId: int, memberId: int, fault: Fault)
    requires t.Valid()
    ensures var (notice, t') := CheckoutStep(t, clock, today, s, bookId, memberId, fault);
      var shelved := bookId in t.books && t.books[bookId].availableCopies > 0;
      && (notice == BookUnavailable <==> !shelved)
      && (notice == ChooseMember <==> shelved && memberId <= 0 && IsLibrarian(s))
      && (notice == CheckedOutNotice <==>
            shelved && !(memberId <= 0 && IsLibrarian(s))
            && Loans.CheckoutRefusal(t, bookId, memberId).None? && !FailsBefore(fault, 2))
      && (notice != CheckedOutNotice ==> t' == t)
      && (notice == CheckedOutNotice ==>
            && t'.loans.Keys == t.loans.Keys + {t.nextLoanId}
            && t'.loans[t.nextLoanId] == Loan(t.nextLoanId, bookId, memberId, today, today + 14, None, CheckedOut, 0, clock)
            && t'.books[bookId].availableCopies == t.books[bookId].availableCopies - 1)
  {
    var c := Loans.Checkout(t, bookId, memberId, today, today + Loans.LoanPeriodDays, clock);
    if c.Some? {
      Loans.CheckoutAddsOneLoan(t, bookId, memberId, today, today + Loans.LoanPeriodDays, clock);
    }
  }

  lemma CheckoutStepKeepsLedger(t: Tables, clock: Day, today: Day, s: Session, bookId: int, memberId: int, fault: Fault)
    requires t.Valid() && Loans.LedgerConsistent(t)
    ensures Loans.LedgerConsistent(CheckoutStep(t, clock, today, s, bookId, memberId, fault).1)
  {
    var c := Loans.Checkout(t, bookId, memberId, today, today + Loans.LoanPeriodDays, clock);
    if c.Some? {
      Loans.CheckoutKeepsLedger(t, bookId, memberId, today, today + Loans.LoanPeriodDays, clock);
    }
  }

  lemma ReturnStepKeepsLedger(t: Tables, clock: Day, today: Day, loanId: int, fault: Fault)
    requires t.Valid() && Loans.LedgerConsistent(t)
    ensures Loans.LedgerConsistent(ReturnStep(t, clock, today, loanId, fault).1)
  {
    if Loans.Return(t, loanId, Some(today), clock).Some? {
      Loans.ReturnKeepsLedger(t, loanId, Some(today), clock);
    }
  }

  /** Whatever the request, the copy-count ledger survives it. */
  lemma DeskKeepsLedger(t: Tables, clock: Day, today: Day, s: Session, req: DeskRequest, cf: Fault, rf: Fault)
    requires t.Valid() && Loans.LedgerConsistent(t)
    requires DeskAction(t, clock, today, s, req, cf, rf).Some?
    ensures Loans.LedgerConsistent(DeskAction(t, clock, today, s, req, cf, rf).value.1)
  {
    var memberId := DeskMember(t, s, req).value;
    if req.action == "checkout" && req.bookId > 0 {
      CheckoutStepKeepsLedger(t, clock, today, s, req.bookId, memberId, cf);
    } else if req.action == "return" && req.loanId > 0 && IsLibrarian(s) {
      ReturnStepKeepsLedger(t, clock, today, req.loanId, rf);
    }
  }

  /** A reader's listing is exactly their own loans: every row is one of
      them, and each of them is listed. */
  lemma ReaderSeesOwnHistory(t: Tables, today: Day, s: Session, req: DeskRequest, ownMemberId: int)
    requires t.Valid() && !IsLibrarian(s) && ownMemberId > 0
    ensures var listing := DeskListing(t, today, s, req, ownMemberId);
      && listing.HistoryListing?
      && (forall v :: v in listing.history ==> v.loan in t.loans.Values && v.loan.memberId == ownMemberId)
      && (forall k :: k in t.loans && t.loans[k].memberId == ownMemberId ==>
            exists v :: v in listing.history && v.loan == t.loans[k])
  {
    var r := Loans.MemberLoanHistory(t, ownMemberId);
    assert DeskListing(t, today, s, req, ownMemberId) == HistoryListing(r);
    Loans.MemberLoanHistoryIsExact(t, ownMemberId);
    forall k | k in t.loans && t.loans[k].memberId == ownMemberId
      ensures exists v :: v in r && v.loan == t.loans[k]
    {
      assert t.loans[k] in t.loans.Values;
      assert Loans.TitledIn(t)(t.loans[k]) in r;
    }
  }

  /** The return button is shown only on loans that `returnBook()` accepts. */
  lemma ReturnButtonMeansReturnable(t: Tables, s: Session, k: int, returnDate: Option<Day>, now: Day)
    requires t.Valid() && k in t.loans
    ensures ShowsReturnButton(s, t.loans[k]) <==> IsLibrarian(s) && Loans.Return(t, k, returnDate, now).Some?
  {
  }

  // ---------------------------------------------------------------------------
  // The page
  // ---------------------------------------------------------------------------

  method CheckoutAtDesk(db: Database, today: Day, s: Session, bookId: int, memberId: int, fault: Fault)
    returns (notice: DeskNotice)
    requires db.Valid()
    modifies db
    ensures db.Valid()
    ensures (notice, db.Snapshot()) == CheckoutStep(old(db.Snapshot()), db.clock, today, s, bookId, memberId, fault)
  {
    var book := new Books.BookRecord(db);
    book.id := bookId;
    var found := book.ReadOne();
    if !found || book.availableCopies <= 0 {
      return BookUnavailable;
    }
    if memberId <= 0 && IsLibrarian(s) {
      return ChooseMember;
    }
    var loan := new Loans.LoanRecord(db);
    loan.bookId, loan.memberId := bookId, memberId;
    loan.checkoutDate, loan.dueDate := today, today + Loans.LoanPeriodDays;
    var ok := loan.CheckoutBook(fault);
    notice := if ok then CheckedOutNotice else CheckoutFailed;
  }

  method ReturnAtDesk(db: Database, today: Day, loanId: int, fault: Fault) returns (notice: DeskNotice)
    requires db.Valid()
    modifies db
    ensures db.Valid()
    ensures (notice, db.Snapshot()) == ReturnStep(old(db.Snapshot()), db.clock, today, loanId, fault)
  {
    var loan := new Loans.LoanRecord(db);
    loan.id, loan.returnDate := loanId, Some(today);
    var ok := loan.ReturnBook(fault);
    notice := if ok then ReturnedNotice else ReturnFailed;
  }

  /** The reader gate: the member a checkout is for (`None` to redirect),
      and the reader's own member id for the listing. */
  method DeskMemberFor(db: Database, s: Session, req: DeskRequest) returns (memberId: Option<int>, ownMemberId: int)
    ensures memberId == DeskMember(db.Snapshot(), s, req)
    ensures ownMemberId == OwnMemberId(db.Snapshot(), s)
  {
    if !(IsLoggedIn(s) && !IsLibrarian(s)) {
      return Some(req.memberId), 0;
    }
    var member := new Members.MemberRecord(db);
    var found := false;
    match CurrentUserId(s) {
      case Some(IntValue(user)) =>
        found := member.GetByUserId(user);
      case _ =>
    }
    ownMemberId := if found then member.id else 0;
    memberId := if req.action == "checkout" && found && member.id != 0 then Some(member.id) else None;
  }

  /** `loans.php`: `today` is the server's `date('Y-m-d')`, and the two
      faults say where, if anywhere, the storage fails inside each
      transaction. */
  method LoanDeskPage(db: Database, today: Day, s: Session, req: DeskRequest, checkoutFault: Fault, returnFault: Fault)
    returns (page: DeskPage)
    requires db.Valid()
    modifies db
    ensures db.Valid()
    ensures var r := DeskAction(old(db.Snapshot()), db.clock, today, s, req, checkoutFault, returnFault);
      if r.None? then page == RedirectHome && db.Snapshot() == old(db.Snapshot())
      else page == DeskView(r.value.0, DeskListing(r.value.1, today, s, req, OwnMemberId(old(db.Snapshot()), s)))
           && db.Snapshot() == r.value.1
  {
    var memberId, ownMemberId := DeskMemberFor(db, s, req);
    if memberId.None? {
      return RedirectHome;
    }
    var notice := NoDeskNotice;
    if req.action == "checkout" && req.bookId > 0 {
      notice := CheckoutAtDesk(db, today, s, req.bookId, memberId.value, checkoutFault);
    } else if req.action == "return" && req.loanId > 0 && IsLibrarian(s) {
      notice := ReturnAtDesk(db, today, req.loanId, returnFault);
    }
    page := DeskView(notice, DeskListing(db.Snapshot(), today, s, req, ownMemberId));
  }
}
