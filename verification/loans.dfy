/** The loan lifecycle (the `Loan` model object over the `loan_history`
    table): checkout, return with its fine, the overdue sweep, the loan
    listings, and the copy-count ledger that ties loans to books. */
module Loans {
  import opened Common
  import opened Store

  /** The loan period that `loans.php` adds to the checkout date. */
  const LoanPeriodDays: int := 14

  /** Fine per whole day late, in cents (0.50). */
  const FinePerDay: Cents := 50

  // ---------------------------------------------------------------------------
  // The fine rule
  // ---------------------------------------------------------------------------

  /** The fine charged when a loan due on `due` comes back on `returned`. */
  function Fine(due: Day, returned: Day): (f: Cents)
    ensures f >= 0
    ensures returned <= due ==> f == 0
    ensures returned > due ==> f == FinePerDay * (returned - due)
  {
    if returned > due then FinePerDay * (returned - due) else 0
  }

  /** The fine grows with lateness: returning later never costs less. */
  lemma FineMonotone(due: Day, r1: Day, r2: Day)
    requires r1 <= r2
    ensures Fine(due, r1) <= Fine(due, r2)
    ensures Fine(due, r2) - Fine(due, r1) <= FinePerDay * (r2 - r1)
  {
  }

  // ---------------------------------------------------------------------------
  // Transitions, as functions of the store
  // ---------------------------------------------------------------------------

  /** Why a checkout is refused before its transaction starts, if it is. */
  function CheckoutRefusal(t: Tables, bookId: int, memberId: int): Option<string> {
    if bookId !in t.books || t.books[bookId].availableCopies <= 0 then Some("book not available")
    else if memberId !in t.members || t.members[memberId].membershipStatus != Active then Some("member not active")
    else None
  }

  /** `checkoutBook()` when its transaction commits: a new `checked_out` loan
      with no fine, and one copy fewer on the shelf. */
  function Checkout(t: Tables, bookId: int, memberId: int, checkoutDate: Day, dueDate: Day, clock: Day): (r: Option<Tables>)
    requires t.Valid()
    ensures r.Some? ==> r.value.Valid()
    ensures r.None? <==> CheckoutRefusal(t, bookId, memberId).Some?
  {
    if CheckoutRefusal(t, bookId, memberId).Some? then None
    else
      var id := t.nextLoanId;
      var b := t.books[bookId];
      Some(t.(loans := t.loans[id := Loan(id, bookId, memberId, checkoutDate, dueDate, None, CheckedOut, 0, clock)],
              nextLoanId := id + 1,
              books := t.books[bookId := b.(availableCopies := b.availableCopies - 1)]))
  }

  /** The day the fine is computed from: the given return date, or the
      server's current date when none was set. */
  function ReturnDay(returnDate: Option<Day>, now: Day): Day {
    if returnDate.Some? then returnDate.value else now
  }

  /** `returnBook()` when its transaction commits. Only a `checked_out` loan is
      accepted; its book, if still stored, gets one copy back with no upper cap. */
  function Return(t: Tables, loanId: int, returnDate: Option<Day>, now: Day): (r: Option<Tables>)
    requires t.Valid()
    ensures r.Some? ==> r.value.Valid()
    ensures r.None? <==> loanId !in t.loans || t.loans[loanId].status != CheckedOut
  {
    if loanId !in t.loans || t.loans[loanId].status != CheckedOut then None
    else
      var l := t.loans[loanId];
      var loans' := t.loans[loanId := l.(returnDate := returnDate, status := Returned,
                                         fine := Fine(l.dueDate, ReturnDay(returnDate, now)))];
      if l.bookId in t.books then
        var b := t.books[l.bookId];
        Some(t.(loans := loans', books := t.books[l.bookId := b.(availableCopies := b.availableCopies + 1)]))
      else
        Some(t.(loans := loans'))
  }

  predicate DueBefore(l: Loan, today: Day) {
    l.status == CheckedOut && l.dueDate < today
  }

  /** `UPDATE loan_history SET status = 'overdue' WHERE status = 'checked_out' AND due_date < ?`. */
  function MarkOverdue(loans: map<int, Loan>, today: Day): (r: map<int, Loan>)
    ensures r.Keys == loans.Keys
  {
    map k | k in loans :: if DueBefore(loans[k], today) then loans[k].(status := Overdue) else loans[k]
  }

  // ---------------------------------------------------------------------------
  // Transition properties
  // ---------------------------------------------------------------------------

  /** A refused checkout names the first failed condition, book before member. */
  lemma CheckoutRefusalReasons(t: Tables, bookId: int, memberId: int)
    ensures (CheckoutRefusal(t, bookId, memberId) == Some("book not available"))
        <==> (bookId !in t.books || t.books[bookId].availableCopies <= 0)
    ensures (CheckoutRefusal(t, bookId, memberId) == Some("member not active"))
        <==> (bookId in t.books && t.books[bookId].availableCopies > 0
              && (memberId !in t.members || t.members[memberId].membershipStatus != Active))
  {
  }

  /** A committed checkout adds exactly one loan, under a fresh id, carrying
      the given book, member and dates with status `checked_out` and no fine;
      that book loses exactly one available copy; nothing else changes. */
  lemma CheckoutAddsOneLoan(t: Tables, bookId: int, memberId: int, checkoutDate: Day, dueDate: Day, clock: Day)
    requires t.Valid()
    requires Checkout(t, bookId, memberId, checkoutDate, dueDate, clock).Some?
    ensures var t' := Checkout(t, bookId, memberId, checkoutDate, dueDate, clock).value;
      var id := t.nextLoanId;
      && id !in t.loans
      && t'.loans.Keys == t.loans.Keys + {id}
      && t'.loans[id] == Loan(id, bookId, memberId, checkoutDate, dueDate, None, CheckedOut, 0, clock)
      && (forall k :: k in t.loans ==> t'.loans[k] == t.loans[k])
      && t'.books.Keys == t.books.Keys
      && t'.books[bookId] == t.books[bookId].(availableCopies := t.books[bookId].availableCopies - 1)
      && t'.books[bookId].availableCopies >= 0
      && (forall k :: k in t.books && k != bookId ==> t'.books[k] == t.books[k])
      && t'.members == t.members && t'.users == t.users
  {
  }

  /** A committed return stamps the loan `returned` with the return date and
      the fine for the days late, and puts back exactly one copy of its book. */
  lemma ReturnClosesLoan(t: Tables, loanId: int, returnDate: Option<Day>, now: Day)
    requires t.Valid()
    requires Return(t, loanId, returnDate, now).Some?
    ensures var t' := Return(t, loanId, returnDate, now).value;
      var l := t.loans[loanId];
      && l.status == CheckedOut
      && t'.loans.Keys == t.loans.Keys
      && t'.loans[loanId] == l.(returnDate := returnDate, status := Returned,
                                fine := Fine(l.dueDate, ReturnDay(returnDate, now)))
      && (forall k :: k in t.loans && k != loanId ==> t'.loans[k] == t.loans[k])
      && t'.books.Keys == t.books.Keys
      && (l.bookId in t.books ==>
            t'.books[l.bookId] == t.books[l.bookId].(availableCopies := t.books[l.bookId].availableCopies + 1))
      && (forall k :: k in t.books && k != l.bookId ==> t'.books[k] == t.books[k])
      && t'.members == t.members && t'.users == t.users
      && t'.nextLoanId == t.nextLoanId
  {
  }

  /** A loan cannot be returned twice, and a loan the sweep has already marked
      `overdue` cannot be returned at all. */
  lemma ReturnRejectsClosedAndOverdue(t: Tables, loanId: int, returnDate: Option<Day>, now: Day)
    requires t.Valid() && loanId in t.loans
    ensures t.loans[loanId].status == Returned ==> Return(t, loanId, returnDate, now).None?
    ensures t.loans[loanId].status == Overdue ==> Return(t, loanId, returnDate, now).None?
    ensures Return(t, loanId, returnDate, now).Some? ==>
              Return(Return(t, loanId, returnDate, now).value, loanId, returnDate, now).None?
  {
  }

  /** The sweep marks exactly the `checked_out` loans due before today, and
      changes nothing else about any loan. */
  lemma MarkOverdueIsExact(loans: map<int, Loan>, today: Day)
    ensures forall k :: k in loans ==>
      MarkOverdue(loans, today)[k].status == (if DueBefore(loans[k], today) then Overdue else loans[k].status)
    ensures forall k :: k in loans ==>
      MarkOverdue(loans, today)[k].(status := loans[k].status) == loans[k]
  {
  }

  /** Running the sweep a second time changes nothing. */
  lemma MarkOverdueIdempotent(loans: map<int, Loan>, today: Day)
    ensures MarkOverdue(MarkOverdue(loans, today), today) == MarkOverdue(loans, today)
  {
    var once := MarkOverdue(loans, today);
    assert forall k :: k in once ==> !DueBefore(once[k], today);
  }

  /** `returned` is terminal: no checkout, return or sweep changes a returned
      loan; and once `overdue`, a loan stays `overdue` under all three. */
  lemma StatusMachine(t: Tables, k: int, bookId: int, memberId: int, checkoutDate: Day, dueDate: Day,
                      clock: Day, loanId: int, returnDate: Option<Day>, now: Day, today: Day)
    requires t.Valid() && k in t.loans && t.loans[k].status != CheckedOut
    ensures var c := Checkout(t, bookId, memberId, checkoutDate, dueDate, clock);
      c.Some? ==> c.value.loans[k] == t.loans[k]
    ensures var r := Return(t, loanId, returnDate, now);
      r.Some? ==> r.value.loans[k] == t.loans[k]
    ensures MarkOverdue(t.loans, today)[k] == t.loans[k]
  {
  }

  // ---------------------------------------------------------------------------
  // The copy-count ledger
  // ---------------------------------------------------------------------------

  /** Ids of the loans of a book that are still out (`checked_out` or `overdue`). */
  function OutstandingIds(loans: map<int, Loan>, bookId: int): set<int> {
    set k | k in loans && loans[k].bookId == bookId && loans[k].status != Returned
  }

  function OnLoan(loans: map<int, Loan>, bookId: int): nat {
    |OutstandingIds(loans, bookId)|
  }

  /** Every stored book's available count is its total minus its copies still
      out on loan, and never negative; loans only name books already created. */
  ghost predicate LedgerConsistent(t: Tables) {
    && (forall b :: b in t.books ==> t.books[b].availableCopies == t.books[b].totalCopies - OnLoan(t.loans, b))
    && (forall b :: b in t.books ==> t.books[b].availableCopies >= 0)
    && (forall k :: k in t.loans ==> t.loans[k].bookId < t.nextBookId)
  }

  lemma OutstandingAfterPut(loans: map<int, Loan>, k: int, l: Loan, bookId: int)
    ensures OutstandingIds(loans[k := l], bookId) ==
      (OutstandingIds(loans, bookId) - {k}) + (if l.bookId == bookId && l.status != Returned then {k} else {})
  {
  }

  /** Taking one outstanding loan away leaves one fewer on loan. */
  lemma OnLoanWithout(loans: map<int, Loan>, k: int, bookId: int)
    requires k in OutstandingIds(loans, bookId)
    ensures |OutstandingIds(loans, bookId) - {k}| == OnLoan(loans, bookId) - 1
  {
  }

  /** Adding a loan under a fresh id puts one more copy of its book on loan,
      if it is outstanding. */
  lemma OnLoanAfterAdd(loans: map<int, Loan>, k: int, l: Loan, bookId: int)
    requires k !in loans
    ensures OnLoan(loans[k := l], bookId) ==
      OnLoan(loans, bookId) + (if l.bookId == bookId && l.status != Returned then 1 else 0)
  {
    OutstandingAfterPut(loans, k, l, bookId);
    assert k !in OutstandingIds(loans, bookId);
    assert OutstandingIds(loans, bookId) - {k} == OutstandingIds(loans, bookId);
  }

  /** A committed checkout keeps the ledger of each book. */
  lemma CheckoutKeepsBookLedger(t: Tables, bookId: int, memberId: int, checkoutDate: Day, dueDate: Day, clock: Day, b: int)
    requires t.Valid() && LedgerConsistent(t)
    requires Checkout(t, bookId, memberId, checkoutDate, dueDate, clock).Some?
    requires b in t.books
    ensures var t' := Checkout(t, bookId, memberId, checkoutDate, dueDate, clock).value;
      && b in t'.books
      && t'.books[b].availableCopies == t'.books[b].totalCopies - OnLoan(t'.loans, b)
      && t'.books[b].availableCopies >= 0
  {
    var t' := Checkout(t, bookId, memberId, checkoutDate, dueDate, clock).value;
    var id := t.nextLoanId;
    CheckoutAddsOneLoan(t, bookId, memberId, checkoutDate, dueDate, clock);
    OnLoanAfterAdd(t.loans, id, t'.loans[id], b);
    assert t.books[b].availableCopies == t.books[b].totalCopies - OnLoan(t.loans, b);
  }

  /** A committed checkout keeps the ledger. */
  lemma {:induction false} CheckoutKeepsLedger(t: Tables, bookId: int, memberId: int, checkoutDate: Day, dueDate: Day, clock: Day)
    requires t.Valid() && LedgerConsistent(t)
    requires Checkout(t, bookId, memberId, checkoutDate, dueDate, clock).Some?
    ensures LedgerConsistent(Checkout(t, bookId, memberId, checkoutDate, dueDate, clock).value)
  {
    var t' := Checkout(t, bookId, memberId, checkoutDate, dueDate, clock).value;
    CheckoutAddsOneLoan(t, bookId, memberId, checkoutDate, dueDate, clock);
    forall b | b in t'.books
      ensures t'.books[b].availableCopies == t'.books[b].totalCopies - OnLoan(t'.loans, b)
      ensures t'.books[b].availableCopies >= 0
    {
      CheckoutKeepsBookLedger(t, bookId, memberId, checkoutDate, dueDate, clock, b);
    }
    assert bookId in t.books;
  }

  /** A committed return keeps the ledger. */
  lemma {:induction false} ReturnKeepsLedger(t: Tables, loanId: int, returnDate: Option<Day>, now: Day)
    requires t.Valid() && LedgerConsistent(t)
    requires Return(t, loanId, returnDate, now).Some?
    ensures LedgerConsistent(Return(t, loanId, returnDate, now).value)
  {
    var t' := Return(t, loanId, returnDate, now).value;
    forall b | b in t'.books
      ensures t'.books[b].availableCopies == t'.books[b].totalCopies - OnLoan(t'.loans, b)
      ensures t'.books[b].availableCopies >= 0
    {
      ReturnKeepsBookLedger(t, loanId, returnDate, now, b);
    }
  }

  lemma ReturnKeepsBookLedger(t: Tables, loanId: int, returnDate: Option<Day>, now: Day, b: int)
    requires t.Valid() && LedgerConsistent(t)
    requires Return(t, loanId, returnDate, now).Some?
    requires b in t.books
    ensures var t' := Return(t, loanId, returnDate, now).value;
      && t'.books[b].availableCopies == t'.books[b].totalCopies - OnLoan(t'.loans, b)
      && t'.books[b].availableCopies >= 0
  {
    var t' := Return(t, loanId, returnDate, now).value;
    var l := t.loans[loanId];
    ReturnClosesLoan(t, loanId, returnDate, now);
    OutstandingAfterPut(t.loans, loanId, t'.loans[loanId], b);
    assert t'.loans[loanId].status == Returned;
    assert OutstandingIds(t'.loans, b) == OutstandingIds(t.loans, b) - {loanId};
    if b == l.bookId {
      assert loanId in OutstandingIds(t.loans, b);
      OnLoanWithout(t.loans, loanId, b);
    } else {
      assert OutstandingIds(t'.loans, b) == OutstandingIds(t.loans, b);
    }
  }

  /** The sweep keeps the ledger: it never turns a loan into `returned`. */
  lemma MarkOverdueKeepsLedger(t: Tables, today: Day)
    requires LedgerConsistent(t)
    ensures LedgerConsistent(t.(loans := MarkOverdue(t.loans, today)))
  {
    var swept := MarkOverdue(t.loans, today);
    forall b ensures OutstandingIds(swept, b) == OutstandingIds(t.loans, b) {
      forall k | k in t.loans
        ensures swept[k].bookId == t.loans[k].bookId
        ensures swept[k].status == Returned <==> t.loans[k].status == Returned
      {
      }
    }
  }

  /** While the ledger holds, the uncapped increment of a return can never
      take a book's available count above its total. */
  lemma {:induction false} ReturnStaysWithinTotal(t: Tables, loanId: int, returnDate: Option<Day>, now: Day)
    requires t.Valid() && LedgerConsistent(t)
    requires Return(t, loanId, returnDate, now).Some?
    ensures forall b :: b in t.books ==>
      0 <= Return(t, loanId, returnDate, now).value.books[b].availableCopies <= t.books[b].totalCopies
  {
    ReturnKeepsLedger(t, loanId, returnDate, now);
  }

  // ---------------------------------------------------------------------------
  // Listings
  // ---------------------------------------------------------------------------

  /** A loan row with the joined `book_title` (NULL when the book is gone). */
  datatype TitledLoan = TitledLoan(loan: Loan, bookTitle: Option<string>)

  /** A loan row with the joined `book_title` and `member_name`. */
  datatype LoanView = LoanView(loan: Loan, bookTitle: Option<string>, memberName: Option<string>)

  /** `LEFT JOIN books b ON l.book_id = b.id`, column `b.title`. */
  function TitleOf(books: map<int, Book>, bookId: int): Option<string> {
    if bookId in books then Some(books[bookId].title) else None
  }

  /** `LEFT JOIN members m`, column `CONCAT(m.first_name, ' ', m.last_name)`. */
  function NameOf(members: map<int, Member>, memberId: int): Option<string> {
    if memberId in members then Some(members[memberId].firstName + " " + members[memberId].lastName) else None
  }

  function TitledIn(t: Tables): Loan -> TitledLoan {
    (l: Loan) => TitledLoan(l, TitleOf(t.books, l.bookId))
  }

  function ViewedIn(t: Tables): Loan -> LoanView {
    (l: Loan) => LoanView(l, TitleOf(t.books, l.bookId), NameOf(t.members, l.memberId))
  }

  function CheckoutDate(l: Loan): int { l.checkoutDate }
  function DueDate(l: Loan): int { l.dueDate }

  function AnyLoan(): Loan -> bool { l => true }

  function ActiveOf(memberId: int): Loan -> bool {
    (l: Loan) => l.memberId == memberId && l.status == CheckedOut
  }

  function HeldBy(memberId: int): Loan -> bool {
    (l: Loan) => l.memberId == memberId
  }

  function DueBeforeOn(today: Day): Loan -> bool {
    (l: Loan) => DueBefore(l, today)
  }

  /** `SELECT ... WHERE p ORDER BY le`. */
  function Select(loans: map<int, Loan>, p: Loan -> bool, le: (Loan, Loan) -> bool): seq<Loan> {
    SortBy(Filter(Rows(loans), p), le)
  }

  /** `readAll($page, $records_per_page)`: newest checkout first, paged. */
  function ReadAll(t: Tables, page: int, recordsPerPage: int): Option<seq<LoanView>> {
    Paginate(NewestFirst(t), page, recordsPerPage)
  }

  /** Every loan with its book and member, newest checkout first. */
  function NewestFirst(t: Tables): seq<LoanView> {
    MapSeq(Select(t.loans, AnyLoan(), ByIntDesc(CheckoutDate)), ViewedIn(t))
  }

  /** `getMemberActiveLoans($member_id)`: that member's `checked_out` loans, soonest due first. */
  function MemberActiveLoans(t: Tables, memberId: int): seq<TitledLoan> {
    MapSeq(Select(t.loans, ActiveOf(memberId), ByIntAsc(DueDate)), TitledIn(t))
  }

  /** `getMemberLoanHistory($member_id)`: all of that member's loans, newest checkout first. */
  function MemberLoanHistory(t: Tables, memberId: int): seq<TitledLoan> {
    MapSeq(Select(t.loans, HeldBy(memberId), ByIntDesc(CheckoutDate)), TitledIn(t))
  }

  /** `getOverdueLoans()`: `checked_out` loans due before today, soonest due first. */
  function OverdueLoans(t: Tables, today: Day): seq<LoanView> {
    MapSeq(Select(t.loans, DueBeforeOn(today), ByIntAsc(DueDate)), ViewedIn(t))
  }

  function CountAll(loans: map<int, Loan>): nat {
    |loans|
  }

  // ---------------------------------------------------------------------------
  // Listing properties
  // ---------------------------------------------------------------------------

  lemma SelectIsExact(loans: map<int, Loan>, p: Loan -> bool, le: (Loan, Loan) -> bool)
    requires TotalPreorder(le)
    ensures forall l :: l in Select(loans, p, le) <==> l in loans.Values && p(l)
    ensures SortedBy(Select(loans, p, le), le)
  {
    var matching := Filter(Rows(loans), p);
    forall l ensures l in Select(loans, p, le) <==> l in loans.Values && p(l) {
      SortByMembers(matching, le, l);
    }
    SortBySorted(matching, le);
  }

  /** A selection joined row by row with display columns holds the joined row
      of every matching loan and nothing else. */
  lemma JoinedSelectionRows<U>(loans: map<int, Loan>, p: Loan -> bool, le: (Loan, Loan) -> bool,
                               join: Loan -> U, loanOf: U -> Loan)
    requires TotalPreorder(le)
    requires forall l :: loanOf(join(l)) == l
    ensures var r := MapSeq(Select(loans, p, le), join);
      && (forall l :: join(l) in r <==> l in loans.Values && p(l))
      && (forall v :: v in r ==> v == join(loanOf(v)))
  {
    var s := Select(loans, p, le);
    var r := MapSeq(s, join);
    SelectIsExact(loans, p, le);
    forall l ensures join(l) in r <==> l in loans.Values && p(l) {
      if l in loans.Values && p(l) {
        var i :| 0 <= i < |s| && s[i] == l;
        assert r[i] == join(l);
      }
      if join(l) in r {
        var i :| 0 <= i < |r| && r[i] == join(l);
        assert loanOf(r[i]) == s[i] == l;
        assert s[i] in s;
      }
    }
    forall v | v in r ensures v == join(loanOf(v)) {
      var i :| 0 <= i < |r| && r[i] == v;
      assert loanOf(v) == s[i];
    }
  }

  /** The active-loan listing holds exactly the member's `checked_out` loans
      (an `overdue` one is not listed), each with its book's title, soonest
      due first. */
  lemma MemberActiveLoansAreExact(t: Tables, memberId: int)
    ensures forall l :: TitledIn(t)(l) in MemberActiveLoans(t, memberId) <==>
      l in t.loans.Values && l.memberId == memberId && l.status == CheckedOut
    ensures forall v :: v in MemberActiveLoans(t, memberId) ==> v == TitledIn(t)(v.loan)
    ensures var r := MemberActiveLoans(t, memberId);
      forall i, j :: 0 <= i < j < |r| ==> r[i].loan.dueDate <= r[j].loan.dueDate
  {
    var s := Select(t.loans, ActiveOf(memberId), ByIntAsc(DueDate));
    var r := MapSeq(s, TitledIn(t));
    ByIntPreorders(DueDate);
    SelectIsExact(t.loans, ActiveOf(memberId), ByIntAsc(DueDate));
    forall i, j | 0 <= i < j < |r| ensures r[i].loan.dueDate <= r[j].loan.dueDate {
      assert r[i].loan == s[i] && r[j].loan == s[j];
      assert ByIntAsc(DueDate)(s[i], s[j]);
      assert DueDate(s[i]) <= DueDate(s[j]);
    }
    JoinedSelectionRows(t.loans, ActiveOf(memberId), ByIntAsc(DueDate), TitledIn(t), (v: TitledLoan) => v.loan);
  }

  /** The history holds every loan of the member and no other, newest
      checkout first. */
  lemma MemberLoanHistoryIsExact(t: Tables, memberId: int)
    ensures var r := MemberLoanHistory(t, memberId);
      && (forall l :: TitledIn(t)(l) in r <==> l in t.loans.Values && l.memberId == memberId)
      && (forall v :: v in r ==> v == TitledIn(t)(v.loan))
      && (forall i, j :: 0 <= i < j < |r| ==> r[i].loan.checkoutDate >= r[j].loan.checkoutDate)
  {
    var s := Select(t.loans, HeldBy(memberId), ByIntDesc(CheckoutDate));
    var r := MapSeq(s, TitledIn(t));
    ByIntPreorders(CheckoutDate);
    SelectIsExact(t.loans, HeldBy(memberId), ByIntDesc(CheckoutDate));
    forall i, j | 0 <= i < j < |r| ensures r[i].loan.checkoutDate >= r[j].loan.checkoutDate {
      assert r[i].loan == s[i] && r[j].loan == s[j];
      assert ByIntDesc(CheckoutDate)(s[i], s[j]);
      assert CheckoutDate(s[i]) >= CheckoutDate(s[j]);
    }
    JoinedSelectionRows(t.loans, HeldBy(memberId), ByIntDesc(CheckoutDate), TitledIn(t), (v: TitledLoan) => v.loan);
  }

  /** The overdue listing holds exactly the `checked_out` loans due before
      today (already-swept `overdue` loans are not listed), soonest due first. */
  lemma OverdueLoansAreExact(t: Tables, today: Day)
    ensures var r := OverdueLoans(t, today);
      && (forall l :: ViewedIn(t)(l) in r <==> l in t.loans.Values && l.status == CheckedOut && l.dueDate < today)
      && (forall v :: v in r ==> v == ViewedIn(t)(v.loan))
      && (forall i, j :: 0 <= i < j < |r| ==> r[i].loan.dueDate <= r[j].loan.dueDate)
  {
    var s := Select(t.loans, DueBeforeOn(today), ByIntAsc(DueDate));
    var r := MapSeq(s, ViewedIn(t));
    ByIntPreorders(DueDate);
    SelectIsExact(t.loans, DueBeforeOn(today), ByIntAsc(DueDate));
    forall i, j | 0 <= i < j < |r| ensures r[i].loan.dueDate <= r[j].loan.dueDate {
      assert r[i].loan == s[i] && r[j].loan == s[j];
      assert ByIntAsc(DueDate)(s[i], s[j]);
      assert DueDate(s[i]) <= DueDate(s[j]);
    }
    JoinedSelectionRows(t.loans, DueBeforeOn(today), ByIntAsc(DueDate), ViewedIn(t), (v: LoanView) => v.loan);
  }

  /** After the sweep, the overdue listing is empty. */
  lemma OverdueLoansEmptyAfterSweep(t: Tables, today: Day)
    ensures OverdueLoans(t.(loans := MarkOverdue(t.loans, today)), today) == []
  {
    var t' := t.(loans := MarkOverdue(t.loans, today));
    NothingDueAfterSweep(t.loans, today);
    forall l | l in Rows(t'.loans) ensures !DueBeforeOn(today)(l) {
    }
    FilterNone(Rows(t'.loans), DueBeforeOn(today));
  }

  lemma NothingDueAfterSweep(loans: map<int, Loan>, today: Day)
    ensures forall l :: l in MarkOverdue(loans, today).Values ==> !DueBefore(l, today)
  {
  }

  /** A page of all loans holds at most `recordsPerPage` rows, newest checkout
      first, each a stored loan joined with its book title and member name. */
  lemma ReadAllIsNewestFirstPage(t: Tables, page: int, recordsPerPage: int)
    requires recordsPerPage > 0
    ensures ReadAll(t, page, recordsPerPage).Some? <==> page >= 1
    ensures ReadAll(t, page, recordsPerPage).Some? ==>
      var r := ReadAll(t, page, recordsPerPage).value;
      && |r| <= recordsPerPage
      && (forall v :: v in r ==> v.loan in t.loans.Values && v == ViewedIn(t)(v.loan))
      && (forall i, j :: 0 <= i < j < |r| ==> r[i].loan.checkoutDate >= r[j].loan.checkoutDate)
      && (forall i :: 0 <= i < |r| ==> r[i] == NewestFirst(t)[(page - 1) * recordsPerPage + i])
  {
    if page >= 1 {
      assert (page - 1) * recordsPerPage >= 0;
      NewestFirstIsExact(t);
      PageOfJoinedListing(t, NewestFirst(t), page, recordsPerPage);
    } else {
      assert (page - 1) * recordsPerPage < 0;
    }
  }

  /** A page of a newest-first listing of joined loans is newest first and
      holds only joined loans. */
  lemma PageOfJoinedListing(t: Tables, all: seq<LoanView>, page: int, recordsPerPage: int)
    requires forall v :: v in all ==> v.loan in t.loans.Values && v == ViewedIn(t)(v.loan)
    requires forall i, j :: 0 <= i < j < |all| ==> all[i].loan.checkoutDate >= all[j].loan.checkoutDate
    requires Paginate(all, page, recordsPerPage).Some?
    ensures var r := Paginate(all, page, recordsPerPage).value;
      && (forall v :: v in r ==> v.loan in t.loans.Values && v == ViewedIn(t)(v.loan))
      && (forall i, j :: 0 <= i < j < |r| ==> r[i].loan.checkoutDate >= r[j].loan.checkoutDate)
  {
    var r := Paginate(all, page, recordsPerPage).value;
    var offset := (page - 1) * recordsPerPage;
    forall v | v in r ensures v.loan in t.loans.Values && v == ViewedIn(t)(v.loan) {
      var i :| 0 <= i < |r| && r[i] == v;
      assert all[offset + i] in all;
    }
    forall i, j | 0 <= i < j < |r| ensures r[i].loan.checkoutDate >= r[j].loan.checkoutDate {
      assert r[i] == all[offset + i] && r[j] == all[offset + j];
    }
  }


  /** The full listing holds every loan once with its book and member, newest
      checkout first. */
  lemma NewestFirstIsExact(t: Tables)
    ensures var all := NewestFirst(t);
      && (forall l :: ViewedIn(t)(l) in all <==> l in t.loans.Values)
      && (forall v :: v in all ==> v == ViewedIn(t)(v.loan))
      && (forall i, j :: 0 <= i < j < |all| ==> all[i].loan.checkoutDate >= all[j].loan.checkoutDate)
  {
    var s := Select(t.loans, AnyLoan(), ByIntDesc(CheckoutDate));
    var all := NewestFirst(t);
    ByIntPreorders(CheckoutDate);
    SelectIsExact(t.loans, AnyLoan(), ByIntDesc(CheckoutDate));
    forall i, j | 0 <= i < j < |all| ensures all[i].loan.checkoutDate >= all[j].loan.checkoutDate {
      assert all[i].loan == s[i] && all[j].loan == s[j];
      assert ByIntDesc(CheckoutDate)(s[i], s[j]);
      assert CheckoutDate(s[i]) >= CheckoutDate(s[j]);
    }
    JoinedSelectionRows(t.loans, AnyLoan(), ByIntDesc(CheckoutDate), ViewedIn(t), (v: LoanView) => v.loan);
  }


  // ---------------------------------------------------------------------------
  // The model object
  // ---------------------------------------------------------------------------

  /** A `Loan` object: its public column properties, the two joined display
      columns, and the connection. */
  class LoanRecord {
    const db: Database
    var id: int
    var bookId: int
    var memberId: int
    var checkoutDate: Day
    var dueDate: Day
    var returnDate: Option<Day>
    var status: LoanStatus
    var fine: Cents
    var createdAt: Day
    var bookTitle: Option<string>
    var memberName: Option<string>

    constructor (db: Database)
      ensures this.db == db && id == 0 && bookId == 0 && memberId == 0 && returnDate == None
    {
      this.db := db;
      id, bookId, memberId, checkoutDate, dueDate := 0, 0, 0, 0, 0;
      returnDate, status, fine, createdAt, bookTitle, memberName := None, CheckedOut, 0, 0, None, None;
    }

    /** `checkoutBook()`: two guarded reads, then a two-statement transaction
        (insert the loan, decrement the copies); a storage fault in either
        statement rolls both back. */
    method CheckoutBook(fault: Fault) returns (ok: bool)
      requires db.Valid()
      modifies db
      ensures db.Valid()
      ensures var r := Checkout(old(db.Snapshot()), bookId, memberId, checkoutDate, dueDate, db.clock);
        && ok == (r.Some? && !FailsBefore(fault, 2))
        && db.Snapshot() == if ok then r.value else old(db.Snapshot())
    {
      if bookId !in db.books || db.books[bookId].availableCopies <= 0 {
        return false;
      }
      if memberId !in db.members || db.members[memberId].membershipStatus != Active {
        return false;
      }
      var before := db.Snapshot();
      if fault == FailAt(0) {
        db.Restore(before);
        return false;
      }
      var loanId := db.nextLoanId;
      db.loans := db.loans[loanId := Loan(loanId, bookId, memberId, checkoutDate, dueDate, None, CheckedOut, 0, db.clock)];
      db.nextLoanId := loanId + 1;
      if fault == FailAt(1) {
        db.Restore(before);
        return false;
      }
      var b := db.books[bookId];
      db.books := db.books[bookId := b.(availableCopies := b.availableCopies - 1)];
      ok := true;
    }

    /** `returnBook()`: accepts only a `checked_out` loan, computes the fine,
        then a three-statement transaction (close the loan, look up its book,
        increment the copies); a storage fault in any of them rolls back. */
    method ReturnBook(fault: Fault) returns (ok: bool)
      requires db.Valid()
      modifies db
      ensures db.Valid()
      ensures var r := Return(old(db.Snapshot()), id, returnDate, db.clock);
        && ok == (r.Some? && !FailsBefore(fault, 3))
        && db.Snapshot() == if ok then r.value else old(db.Snapshot())
    {
      if id !in db.loans || db.loans[id].status != CheckedOut {
        return false;
      }
      var dueOn := db.loans[id].dueDate;
      var charged := Fine(dueOn, ReturnDay(returnDate, db.clock));
      var before := db.Snapshot();
      if fault == FailAt(0) {
        db.Restore(before);
        return false;
      }
      var l := db.loans[id];
      db.loans := db.loans[id := l.(returnDate := returnDate, status := Returned, fine := charged)];
      if fault == FailAt(1) {
        db.Restore(before);
        return false;
      }
      var ofBook := db.loans[id].bookId;
      if fault == FailAt(2) {
        db.Restore(before);
        return false;
      }
      if ofBook in db.books {
        var b := db.books[ofBook];
        db.books := db.books[ofBook := b.(availableCopies := b.availableCopies + 1)];
      }
      ok := true;
    }

    /** `updateOverdueStatus()`, with today's date as a parameter. */
    method UpdateOverdueStatus(today: Day) returns (ok: bool)
      requires db.Valid()
      modifies db
      ensures db.Valid() && ok
      ensures db.Snapshot() == old(db.Snapshot()).(loans := MarkOverdue(old(db.loans), today))
    {
      db.loans := MarkOverdue(db.loans, today);
      ok := true;
    }

    /** `readOne()`: loads the loan with this object's id and its two joined
        display columns. */
    method ReadOne() returns (found: bool)
      modifies this
      ensures found == (old(id) in db.loans)
      ensures !found ==> unchanged(this)
      ensures found ==> db.loans[old(id)] == Loan(id, bookId, memberId, checkoutDate, dueDate, returnDate, status, fine, createdAt)
      ensures found ==> bookTitle == TitleOf(db.books, bookId) && memberName == NameOf(db.members, memberId)
    {
      if id !in db.loans {
        return false;
      }
      var row := db.loans[id];
      id := row.id;
      bookId, memberId, checkoutDate, dueDate := row.bookId, row.memberId, row.checkoutDate, row.dueDate;
      returnDate, status, fine, createdAt := row.returnDate, row.status, row.fine, row.createdAt;
      bookTitle, memberName := TitleOf(db.books, row.bookId), NameOf(db.members, row.memberId);
      found := true;
    }
  }
}
