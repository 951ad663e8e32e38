/** The reports page (`reports.php`): the six reports over a window of
    recent days, and the summaries shown under them. */
module Reports {
  import opened Common
  import opened Store
  import opened Auth
  import opened Aggregates
  import Loans

  /** The inclusive date range `BETWEEN start AND end`. */
  datatype Window = Window(start: Day, end: Day)

  /** `date('Y-m-d', strtotime("-{$period} days"))` to today. */
  function PeriodWindow(today: Day, period: int): Window {
    Window(today - period, today)
  }

  predicate InWindow(d: Day, w: Window) {
    w.start <= d <= w.end
  }

  const TopLimit: nat := 10
  const DefaultReport: string := "popular_books"
  const DefaultPeriod: int := 30

  // ---------------------------------------------------------------------------
  // popular_books and active_members: loans per row in the window, top ten
  // ---------------------------------------------------------------------------

  /** A book or member with its `COUNT(l.id)` over the window. */
  datatype Counted<R> = Counted(row: R, loanCount: int)

  function LoanCountOf<R>(c: Counted<R>): int { c.loanCount }

  function CountIn<R>(loans: seq<Loan>, lentTo: R -> Loan -> bool): R -> Counted<R> {
    (r: R) => Counted(r, CountWhere(loans, lentTo(r)))
  }

  function Borrowed<R>(): Counted<R> -> bool {
    (c: Counted<R>) => c.loanCount > 0
  }

  /** `JOIN ... GROUP BY id ORDER BY loan_count DESC LIMIT 10`: the inner join
      keeps only rows with at least one loan in the window. */
  function MostLoaned<R(!new)>(rows: seq<R>, loans: seq<Loan>, lentTo: R -> Loan -> bool): seq<Counted<R>> {
    TopN(Filter(MapSeq(rows, CountIn(loans, lentTo)), Borrowed()), LoanCountOf, TopLimit)
  }

  function BookBorrowedIn(w: Window): Book -> Loan -> bool {
    (b: Book) => (l: Loan) => l.bookId == b.id && InWindow(l.checkoutDate, w)
  }

  function MemberBorrowedIn(w: Window): Member -> Loan -> bool {
    (m: Member) => (l: Loan) => l.memberId == m.id && InWindow(l.checkoutDate, w)
  }

  function PopularBooks(t: Tables, w: Window): seq<Counted<Book>> {
    MostLoaned(Rows(t.books), Rows(t.loans), BookBorrowedIn(w))
  }

  function ActiveMembers(t: Tables, w: Window): seq<Counted<Member>> {
    MostLoaned(Rows(t.members), Rows(t.loans), MemberBorrowedIn(w))
  }

  /** At most ten rows, each a stored row with its true positive count, in
      non-increasing count order; a row with loans in the window that is
      left out means the list is full of rows with at least as many. */
  lemma MostLoanedIsTopTen<R(!new)>(rows: seq<R>, loans: seq<Loan>, lentTo: R -> Loan -> bool)
    ensures var top := MostLoaned(rows, loans, lentTo);
      && |top| <= TopLimit
      && (forall c :: c in top ==> c.row in rows && c.loanCount == CountWhere(loans, lentTo(c.row)) && c.loanCount > 0)
      && (forall i, j :: 0 <= i < j < |top| ==> top[i].loanCount >= top[j].loanCount)
      && (forall r :: r in rows && CountWhere(loans, lentTo(r)) > 0 && Counted(r, CountWhere(loans, lentTo(r))) !in top ==>
            |top| == TopLimit && forall c :: c in top ==> c.loanCount >= CountWhere(loans, lentTo(r)))
  {
    var counted := MapSeq(rows, CountIn(loans, lentTo));
    var groups := Filter(counted, Borrowed());
    var top := MostLoaned(rows, loans, lentTo);
    TopNIsTop(groups, LoanCountOf, TopLimit);
    MapSeqMembers(rows, CountIn(loans, lentTo));
    forall i, j | 0 <= i < j < |top| ensures top[i].loanCount >= top[j].loanCount {
      assert LoanCountOf(top[i]) >= LoanCountOf(top[j]);
    }
    forall r | r in rows && CountWhere(loans, lentTo(r)) > 0 && Counted(r, CountWhere(loans, lentTo(r))) !in top
      ensures |top| == TopLimit && forall c :: c in top ==> c.loanCount >= CountWhere(loans, lentTo(r))
    {
      var x := CountIn(loans, lentTo)(r);
      assert x in counted && x in groups;
      forall c | c in top ensures c.loanCount >= CountWhere(loans, lentTo(r)) {
        assert LoanCountOf(c) >= LoanCountOf(x);
      }
    }
  }

  // ---------------------------------------------------------------------------
  // overdue_books
  // ---------------------------------------------------------------------------

  datatype OverdueRow = OverdueRow(
    loan: Loan,
    title: string,
    author: string,
    firstName: string,
    lastName: string,
    email: string,
    daysOverdue: int)

  /** Status `checked_out` or `overdue`, due before today, with its book
      and its member both stored (the two inner joins). */
  function LateOn(t: Tables, today: Day): Loan -> bool {
    (l: Loan) => (l.status == CheckedOut || l.status == Overdue) && l.dueDate < today
                 && l.bookId in t.books && l.memberId in t.members
  }

  /** The joined row, with `DATEDIFF(CURRENT_DATE, due_date)`. */
  function OverdueRowIn(t: Tables, today: Day): Loan -> OverdueRow {
    (l: Loan) =>
      if l.bookId in t.books && l.memberId in t.members then
        OverdueRow(l, t.books[l.bookId].title, t.books[l.bookId].author,
                   t.members[l.memberId].firstName, t.members[l.memberId].lastName, t.members[l.memberId].email,
                   today - l.dueDate)
      else OverdueRow(l, "", "", "", "", "", today - l.dueDate)
  }

  function DaysOverdue(r: OverdueRow): int { r.daysOverdue }

  function OverdueBooks(t: Tables, today: Day): seq<OverdueRow> {
    SortBy(MapSeq(Filter(Rows(t.loans), LateOn(t, today)), OverdueRowIn(t, today)), ByIntDesc(DaysOverdue))
  }

  /** Every late loan with a stored book and member is listed once, with
      its book's and member's columns and a positive day count, longest
      overdue first. */
  lemma OverdueBooksAreExact(t: Tables, today: Day)
    ensures var rows := OverdueBooks(t, today);
      && (forall r :: r in rows ==>
            && r.loan in t.loans.Values && LateOn(t, today)(r.loan)
            && r.daysOverdue == today - r.loan.dueDate > 0
            && r.title == t.books[r.loan.bookId].title
            && r.lastName == t.members[r.loan.memberId].lastName)
      && (forall k :: k in t.loans && LateOn(t, today)(t.loans[k]) ==> OverdueRowIn(t, today)(t.loans[k]) in rows)
      && (forall i, j :: 0 <= i < j < |rows| ==> rows[i].daysOverdue >= rows[j].daysOverdue)
  {
    var late := Filter(Rows(t.loans), LateOn(t, today));
    var mapped := MapSeq(late, OverdueRowIn(t, today));
    var rows := OverdueBooks(t, today);
    ByIntPreorders(DaysOverdue);
    SortBySorted(mapped, ByIntDesc(DaysOverdue));
    forall i, j | 0 <= i < j < |rows| ensures rows[i].daysOverdue >= rows[j].daysOverdue {
      assert ByIntDesc(DaysOverdue)(rows[i], rows[j]);
      assert DaysOverdue(rows[i]) >= DaysOverdue(rows[j]);
    }
    MapSeqMembers(late, OverdueRowIn(t, today));
    forall r | r in rows ensures r in mapped {
      SortByMembers(mapped, ByIntDesc(DaysOverdue), r);
    }
    forall k | k in t.loans && LateOn(t, today)(t.loans[k]) ensures OverdueRowIn(t, today)(t.loans[k]) in rows {
      assert t.loans[k] in late;
      SortByMembers(mapped, ByIntDesc(DaysOverdue), OverdueRowIn(t, today)(t.loans[k]));
    }
  }

  /** The overdue sweep does not change which loans this report lists (it
      accepts `overdue` as well as `checked_out`), while the circulation
      desk's own overdue list is empty right after the sweep. */
  lemma SweepKeepsOverdueReport(t: Tables, today: Day)
    requires t.Valid()
    ensures var swept := t.(loans := Loans.MarkOverdue(t.loans, today));
      && (forall k :: k in t.loans ==> (LateOn(swept, today)(swept.loans[k]) <==> LateOn(t, today)(t.loans[k])))
      && Loans.OverdueLoans(swept, today) == []
  {
    Loans.OverdueLoansEmptyAfterSweep(t, today);
  }

  // ---------------------------------------------------------------------------
  // fines_collected
  // ---------------------------------------------------------------------------

  /** A loan with a fine, returned inside the window (a NULL return date is
      never `BETWEEN`), of a stored member. */
  function ChargedIn(t: Tables, w: Window): Loan -> bool {
    (l: Loan) => l.fine > 0 && l.returnDate.Some? && InWindow(l.returnDate.value, w) && l.memberId in t.members
  }

  function ChargedLoans(t: Tables, w: Window): seq<Loan> {
    Filter(Rows(t.loans), ChargedIn(t, w))
  }

  function LoanMember(l: Loan): int { l.memberId }
  function LoanFine(l: Loan): int { l.fine }
  function MemberId(m: Member): int { m.id }

  /** `SUM(l.fine) as total_fine, COUNT(l.id) as overdue_count` per member. */
  datatype FineRow = FineRow(member: Member, totalFine: int, overdueCount: nat)

  function TotalFineOf(r: FineRow): int { r.totalFine }

  function FineRowIn(charged: seq<Loan>): Member -> FineRow {
    (m: Member) => FineRow(m, GroupTotal(charged, LoanMember, LoanFine)(m.id), |Filter(charged, GroupOf(LoanMember, m.id))|)
  }

  function WasCharged(): FineRow -> bool {
    (r: FineRow) => r.overdueCount > 0
  }

  /** `JOIN members ... GROUP BY m.id ORDER BY total_fine DESC`. */
  function FinesCollected(t: Tables, w: Window): seq<FineRow> {
    SortBy(Filter(MapSeq(Rows(t.members), FineRowIn(ChargedLoans(t, w))), WasCharged()), ByIntDesc(TotalFineOf))
  }

  /** Under the store's key discipline the member rows have distinct ids,
      and every stored member is among them. */
  lemma MemberRowsDistinct(t: Tables)
    requires t.Valid()
    ensures var members := Rows(t.members);
      && (forall i, j :: 0 <= i < j < |members| ==> members[i].id != members[j].id)
      && (forall k :: k in t.members ==> t.members[k] in members && t.members[k].id == k)
  {
    RowsInKeyOrder(t.members);
    var ks := KeysAsc(t.members.Keys);
    var members := Rows(t.members);
    forall i, j | 0 <= i < j < |members| ensures members[i].id != members[j].id {
      assert members[i].id == ks[i] && members[j].id == ks[j];
    }
  }

  /** Before the rows without fines are dropped, the per-member totals add
      up to the fines of the covered loans, provided each such loan's member
      is listed exactly once. */
  lemma FineRowsTotal(charged: seq<Loan>, members: seq<Member>)
    requires forall i, j :: 0 <= i < j < |members| ==> members[i].id != members[j].id
    requires forall l :: l in charged ==> LoanMember(l) in MapSeq(members, MemberId)
    ensures SumOf(MapSeq(members, FineRowIn(charged)), TotalFineOf) == SumOf(charged, LoanFine)
  {
    var rows := MapSeq(members, FineRowIn(charged));
    var ids := MapSeq(members, MemberId);
    var perMember := GroupTotal(charged, LoanMember, LoanFine);
    forall i | 0 <= i < |rows| ensures TotalFineOf(rows[i]) == perMember(ids[i]) {
      assert rows[i] == FineRowIn(charged)(members[i]);
      assert ids[i] == members[i].id;
    }
    SumOfPointwise(rows, ids, TotalFineOf, perMember);
    forall i, j | 0 <= i < j < |ids| ensures ids[i] != ids[j] {
      assert ids[i] == members[i].id && ids[j] == members[j].id;
    }
    GroupTotalsAddUp(charged, ids, LoanMember, LoanFine);
  }

  /** Dropping the members without a covered loan drops only zeros. */
  lemma UnchargedRowsWeighNothing(charged: seq<Loan>, members: seq<Member>)
    ensures var rows := MapSeq(members, FineRowIn(charged));
      SumOf(Filter(rows, WasCharged()), TotalFineOf) == SumOf(rows, TotalFineOf)
  {
    var rows := MapSeq(members, FineRowIn(charged));
    forall r | r in rows && !WasCharged()(r) ensures TotalFineOf(r) == 0 {
      var i :| 0 <= i < |rows| && rows[i] == r;
      var group := Filter(charged, GroupOf(LoanMember, members[i].id));
      assert r == FineRowIn(charged)(members[i]);
      assert GroupTotal(charged, LoanMember, LoanFine)(members[i].id) == SumOf(group, LoanFine);
      assert r == FineRow(members[i], SumOf(group, LoanFine), |group|);
      assert |group| == 0;
    }
    SumOfFilterZero(rows, WasCharged(), TotalFineOf);
  }

  /** The fines in the report add up to the fines of all the loans it
      covers: every fine counted once, in its member's row. */
  lemma FinesReportAddsUp(t: Tables, w: Window)
    requires t.Valid()
    ensures SumOf(FinesCollected(t, w), TotalFineOf) == SumOf(ChargedLoans(t, w), LoanFine)
  {
    var charged := ChargedLoans(t, w);
    var members := Rows(t.members);
    var kept := Filter(MapSeq(members, FineRowIn(charged)), WasCharged());
    SumOfSortBy(kept, ByIntDesc(TotalFineOf), TotalFineOf);
    UnchargedRowsWeighNothing(charged, members);
    MemberRowsDistinct(t);
    MapSeqMembers(members, MemberId);
    forall l | l in charged ensures LoanMember(l) in MapSeq(members, MemberId) {
      assert ChargedIn(t, w)(l);
      assert t.members[l.memberId] in members;
      assert MemberId(t.members[l.memberId]) == l.memberId;
    }
    FineRowsTotal(charged, members);
  }

  // ---------------------------------------------------------------------------
  // inventory
  // ---------------------------------------------------------------------------

  /** A book with `(total_copies - available_copies) as checked_out`. */
  datatype InventoryRow = InventoryRow(book: Book, checkedOut: int)

  function Category(b: Book): string { b.category }
  function Title(b: Book): string { b.title }

  function InventoryRowOf(b: Book): InventoryRow {
    InventoryRow(b, b.totalCopies - b.availableCopies)
  }

  /** Every book `ORDER BY category, title`. */
  function Inventory(t: Tables): seq<InventoryRow> {
    MapSeq(SortBy(Rows(t.books), ByKeys(Category, Title)), InventoryRowOf)
  }

  function RowTotal(r: InventoryRow): int { r.book.totalCopies }
  function RowAvailable(r: InventoryRow): int { r.book.availableCopies }
  function RowCheckedOut(r: InventoryRow): int { r.checkedOut }

  /** The four figures of the inventory summary (`count` and three
      `array_sum`s). */
  datatype InventorySummary = InventorySummary(totalBooks: nat, totalCopies: int, availableCopies: int, checkedOutCopies: int)

  function Summarize(rows: seq<InventoryRow>): InventorySummary {
    InventorySummary(|rows|, SumOf(rows, RowTotal), SumOf(rows, RowAvailable), SumOf(rows, RowCheckedOut))
  }

  lemma {:induction false} CheckedOutSumIsDifference(rows: seq<InventoryRow>)
    requires forall r :: r in rows ==> r.checkedOut == r.book.totalCopies - r.book.availableCopies
    ensures SumOf(rows, RowCheckedOut) == SumOf(rows, RowTotal) - SumOf(rows, RowAvailable)
  {
    if rows != [] {
      assert rows[0] in rows;
      assert forall r :: r in rows[1..] ==> r in rows;
      CheckedOutSumIsDifference(rows[1..]);
    }
  }

  lemma {:induction false} CheckedOutSumNonNegative(rows: seq<InventoryRow>)
    requires forall r :: r in rows ==> r.checkedOut >= 0
    ensures SumOf(rows, RowCheckedOut) >= 0
  {
    if rows != [] {
      assert rows[0] in rows;
      assert forall r :: r in rows[1..] ==> r in rows;
      CheckedOutSumNonNegative(rows[1..]);
    }
  }

  function InventoryBook(r: InventoryRow): Book {
    r.book
  }

  /** The inventory lists every book once, grouped by category and by
      title within it. */
  lemma InventoryIsOrdered(t: Tables)
    ensures var rows := Inventory(t);
      && |rows| == |t.books|
      && multiset(MapSeq(rows, InventoryBook)) == multiset(Rows(t.books))
      && (forall i, j :: 0 <= i < j < |rows| ==> ByKeys(Category, Title)(rows[i].book, rows[j].book))
      && (forall r :: r in rows ==> r.book in t.books.Values && r == InventoryRowOf(r.book))
  {
    var sorted := SortBy(Rows(t.books), ByKeys(Category, Title));
    var rows := Inventory(t);
    ByKeysPreorder(Category, Title);
    SortBySorted(Rows(t.books), ByKeys(Category, Title));
    forall i, j | 0 <= i < j < |rows| ensures ByKeys(Category, Title)(rows[i].book, rows[j].book) {
      assert rows[i].book == sorted[i] && rows[j].book == sorted[j];
    }
    forall r | r in rows ensures r.book in t.books.Values && r == InventoryRowOf(r.book) {
      var i :| 0 <= i < |rows| && rows[i] == r;
      SortByMembers(Rows(t.books), ByKeys(Category, Title), sorted[i]);
    }
    InventoryBooksAreRows(t);
  }

  /** The books of the inventory are the stored books, each as often as it
      is stored. */
  lemma InventoryBooksAreRows(t: Tables)
    ensures multiset(MapSeq(Inventory(t), InventoryBook)) == multiset(Rows(t.books))
  {
    assert MapSeq(Inventory(t), InventoryBook) == SortBy(Rows(t.books), ByKeys(Category, Title));
  }

  lemma StoredUnderOwnId(t: Tables, b: Book)
    requires t.Valid() && b in t.books.Values
    ensures b.id in t.books && t.books[b.id] == b
  {
    var rows := Rows(t.books);
    assert b in rows;
    var i :| 0 <= i < |rows| && rows[i] == b;
    RowsInKeyOrder(t.books);
    var k := KeysAsc(t.books.Keys)[i];
    assert t.books[k] == b;
    assert t.books[k].id == k;
  }

  /** Rows of stored books show, under the ledger, the copies out on loan. */
  lemma LedgerRows(t: Tables, rows: seq<InventoryRow>)
    requires t.Valid() && Loans.LedgerConsistent(t)
    requires forall r :: r in rows ==> r.book in t.books.Values && r == InventoryRowOf(r.book)
    ensures forall r :: r in rows ==> r.checkedOut == Loans.OnLoan(t.loans, r.book.id) >= 0
  {
    forall r | r in rows ensures r.checkedOut == Loans.OnLoan(t.loans, r.book.id) >= 0 {
      StoredUnderOwnId(t, r.book);
    }
  }

  /** When the ledger holds, each row's `checked_out` is the number of its
      copies still out on loan, and the summary's checked-out figure is the
      total less the available copies, never negative. */
  lemma InventoryMatchesLedger(t: Tables)
    requires t.Valid() && Loans.LedgerConsistent(t)
    ensures var rows := Inventory(t);
      && (forall r :: r in rows ==> r.checkedOut == Loans.OnLoan(t.loans, r.book.id) >= 0)
      && Summarize(rows).checkedOutCopies == Summarize(rows).totalCopies - Summarize(rows).availableCopies
      && Summarize(rows).checkedOutCopies >= 0
  {
    var rows := Inventory(t);
    InventoryIsOrdered(t);
    LedgerRows(t, rows);
    CheckedOutSumIsDifference(rows);
    CheckedOutSumNonNegative(rows);
  }

  // ---------------------------------------------------------------------------
  // loan_stats (also the fallback for an unknown type)
  // ---------------------------------------------------------------------------

  function BorrowedWithin(w: Window): Loan -> bool {
    (l: Loan) => InWindow(l.checkoutDate, w)
  }

  function LentLoans(t: Tables, w: Window): seq<Loan> {
    Filter(Rows(t.loans), BorrowedWithin(w))
  }

  function CheckoutDay(l: Loan): Day { l.checkoutDate }

  /** The distinct checkout days of the window, ascending (`GROUP BY
      DATE(checkout_date) ORDER BY loan_date`). */
  function LoanDays(t: Tables, w: Window): seq<Day> {
    KeysAsc(set l | l in LentLoans(t, w) :: l.checkoutDate)
  }

  datatype DayCount = DayCount(day: Day, loanCount: int)

  function DayLoanCount(r: DayCount): int { r.loanCount }

  function DayCountIn(lent: seq<Loan>): Day -> DayCount {
    (d: Day) => DayCount(d, GroupTotal(lent, CheckoutDay, One())(d))
  }

  function LoanStats(t: Tables, w: Window): seq<DayCount> {
    MapSeq(LoanDays(t, w), DayCountIn(LentLoans(t, w)))
  }

  /** A day on which some lent loan was checked out has a positive count. */
  lemma DayCountsPositive(lent: seq<Loan>, days: seq<Day>, w: Window)
    requires forall l :: l in lent ==> InWindow(l.checkoutDate, w)
    requires forall d :: d in days ==> exists l :: l in lent && l.checkoutDate == d
    ensures forall r :: r in MapSeq(days, DayCountIn(lent)) ==> InWindow(r.day, w) && r.loanCount > 0
  {
    var rows := MapSeq(days, DayCountIn(lent));
    forall r | r in rows ensures InWindow(r.day, w) && r.loanCount > 0 {
      var i :| 0 <= i < |rows| && rows[i] == r;
      var d := days[i];
      assert d in days;
      var l :| l in lent && l.checkoutDate == d;
      var group := Filter(lent, GroupOf(CheckoutDay, d));
      assert GroupOf(CheckoutDay, d)(l);
      assert l in group;
      SumOfOnes(group);
      assert r == DayCountIn(lent)(d);
      assert GroupTotal(lent, CheckoutDay, One())(d) == SumOf(group, One());
      assert r == DayCount(d, SumOf(group, One()));
    }
  }

  /** One row per day with loans, days strictly ascending, each inside
      the window with a positive count. */
  lemma LoanStatsRows(t: Tables, w: Window)
    ensures var rows := LoanStats(t, w);
      && (forall i, j :: 0 <= i < j < |rows| ==> rows[i].day < rows[j].day)
      && (forall r :: r in rows ==> InWindow(r.day, w) && r.loanCount > 0)
  {
    var lent := LentLoans(t, w);
    var days := LoanDays(t, w);
    forall l | l in lent ensures InWindow(l.checkoutDate, w) {
      assert BorrowedWithin(w)(l);
    }
    forall d | d in days ensures exists l :: l in lent && l.checkoutDate == d {
      assert d in (set l | l in lent :: l.checkoutDate);
    }
    DayCountsPositive(lent, days, w);
  }

  /** With the days listed once each and covering every lent loan, the
      daily counts add up to the number of lent loans. */
  lemma DayCountsAddUp(lent: seq<Loan>, days: seq<Day>)
    requires forall i, j :: 0 <= i < j < |days| ==> days[i] != days[j]
    requires forall l :: l in lent ==> l.checkoutDate in days
    ensures SumOf(MapSeq(days, DayCountIn(lent)), DayLoanCount) == |lent|
  {
    var perDay := GroupTotal(lent, CheckoutDay, One());
    SumOfPointwise(MapSeq(days, DayCountIn(lent)), days, DayLoanCount, perDay);
    GroupTotalsAddUp(lent, days, CheckoutDay, One());
    SumOfOnes(lent);
  }

  /** The daily counts add up to the number of loans of the window. */
  lemma LoanStatsAddUp(t: Tables, w: Window)
    ensures SumOf(LoanStats(t, w), DayLoanCount) == |LentLoans(t, w)|
  {
    var lent := LentLoans(t, w);
    var days := LoanDays(t, w);
    forall l | l in lent ensures l.checkoutDate in days {
      assert l.checkoutDate in (set l | l in lent :: l.checkoutDate);
    }
    DayCountsAddUp(lent, days);
  }

  // ---------------------------------------------------------------------------
  // The summaries computed by the page's loops
  // ---------------------------------------------------------------------------

  /** The loop adding up `total_fine` over the fines report. */
  method TotalFines(rows: seq<FineRow>) returns (total: int)
    ensures total == SumOf(rows, TotalFineOf)
  {
    total := 0;
    for i := 0 to |rows|
      invariant total == SumOf(rows[..i], TotalFineOf)
    {
      assert rows[..i + 1] == rows[..i] + [rows[i]];
      SumOfConcat(rows[..i], [rows[i]], TotalFineOf);
      total := total + rows[i].totalFine;
    }
    assert rows[..|rows|] == rows;
  }

  /** The loop adding up `loan_count` over the daily statistics. */
  method TotalLoans(rows: seq<DayCount>) returns (total: int)
    ensures total == SumOf(rows, DayLoanCount)
  {
    total := 0;
    for i := 0 to |rows|
      invariant total == SumOf(rows[..i], DayLoanCount)
    {
      assert rows[..i + 1] == rows[..i] + [rows[i]];
      SumOfConcat(rows[..i], [rows[i]], DayLoanCount);
      total := total + rows[i].loanCount;
    }
    assert rows[..|rows|] == rows;
  }

  // ---------------------------------------------------------------------------
  // The page
  // ---------------------------------------------------------------------------

  datatype Report =
    | PopularBooksReport(books: seq<Counted<Book>>)
    | ActiveMembersReport(members: seq<Counted<Member>>)
    | OverdueBooksReport(overdue: seq<OverdueRow>)
    | FinesReport(fines: seq<FineRow>, totalFines: int)
    | InventoryReport(inventory: seq<InventoryRow>, summary: InventorySummary)
    | LoanStatsReport(days: seq<DayCount>, totalLoans: int)

  datatype ReportsPage = RedirectHome | ReportView(report: Report)

  /** The `switch` on the report type over the period's window. */
  function ReportFor(t: Tables, today: Day, reportType: string, period: int): Report {
    var w := PeriodWindow(today, period);
    if reportType == "popular_books" then PopularBooksReport(PopularBooks(t, w))
    else if reportType == "active_members" then ActiveMembersReport(ActiveMembers(t, w))
    else if reportType == "overdue_books" then OverdueBooksReport(OverdueBooks(t, today))
    else if reportType == "fines_collected" then FinesReport(FinesCollected(t, w), SumOf(FinesCollected(t, w), TotalFineOf))
    else if reportType == "inventory" then InventoryReport(Inventory(t), Summarize(Inventory(t)))
    else LoanStatsReport(LoanStats(t, w), SumOf(LoanStats(t, w), DayLoanCount))
  }

  /** The fines summary is the sum of the fines the report covers. */
  lemma FinesSummaryAddsUp(t: Tables, today: Day, period: int)
    requires t.Valid()
    ensures ReportFor(t, today, "fines_collected", period).totalFines
      == SumOf(ChargedLoans(t, PeriodWindow(today, period)), LoanFine)
  {
    FinesReportAddsUp(t, PeriodWindow(today, period));
  }

  /** Any other report type falls back to the loan statistics, whose total
      is the number of loans of the window. */
  lemma LoanStatsSummaryAddsUp(t: Tables, today: Day, reportType: string, period: int)
    requires reportType !in {"popular_books", "active_members", "overdue_books", "fines_collected", "inventory"}
    ensures ReportFor(t, today, reportType, period).LoanStatsReport?
    ensures ReportFor(t, today, reportType, period).totalLoans == |LentLoans(t, PeriodWindow(today, period))|
  {
    LoanStatsAddUp(t, PeriodWindow(today, period));
  }

  /** `reports.php`: librarians only; `type` and `period` default to the
      most popular books over 30 days. Nothing is written. */
  method ReportsPageFor(db: Database, today: Day, s: Session, reportType: Option<string>, period: Option<int>)
    returns (page: ReportsPage)
    ensures !IsLibrarian(s) ==> page == RedirectHome
    ensures IsLibrarian(s) ==>
      page == ReportView(ReportFor(db.Snapshot(), today,
                                   if reportType.Some? then reportType.value else DefaultReport,
                                   if period.Some? then period.value else DefaultPeriod))
  {
    if !IsLibrarian(s) {
      return RedirectHome;
    }
    var kind := if reportType.Some? then reportType.value else DefaultReport;
    var days := if period.Some? then period.value else DefaultPeriod;
    var t := db.Snapshot();
    var w := PeriodWindow(today, days);
    var report;
    if kind == "popular_books" {
      report := PopularBooksReport(PopularBooks(t, w));
    } else if kind == "active_members" {
      report := ActiveMembersReport(ActiveMembers(t, w));
    } else if kind == "overdue_books" {
      report := OverdueBooksReport(OverdueBooks(t, today));
    } else if kind == "fines_collected" {
      var rows := FinesCollected(t, w);
      var total := TotalFines(rows);
      report := FinesReport(rows, total);
    } else if kind == "inventory" {
      report := InventoryReport(Inventory(t), Summarize(Inventory(t)));
    } else {
      var rows := LoanStats(t, w);
      var total := TotalLoans(rows);
      report := LoanStatsReport(rows, total);
    }
    page := ReportView(report);
  }
}
