/** The member page for librarians (`member_detail.php`): the member's
    profile with its edit form, the loans still out with their due-date
    badges, the full loan history newest first, and the loan statistics. */
module MemberDetail {
  import opened Common
  import opened Store
  import opened Auth
  import opened Aggregates
  import Members
  import Loans

  /** The posted edit form (`update_member`); the status comes from a
      select box with the three enum values. */
  datatype MemberForm = MemberForm(
    firstName: string,
    lastName: string,
    email: string,
    phone: string,
    address: string,
    membershipStatus: MembershipStatus)

  datatype DetailNotice =
    | NoDetailNotice
    | NamesAndEmailRequired   // "First name, last name and email are required."
    | MemberUpdated           // "Member updated successfully."
    | MemberUpdateFailed      // "Unable to update member. Please try again."

  /** The badge in the "Due" column of the active loans. */
  datatype DueBadge = OverdueBy(days: int) | DueSoon(daysLeft: int) | DueLater(daysLeft: int)

  /** The four counters and the fines total above the loan tables. */
  datatype LoanFigures = LoanFigures(totalLoans: nat, activeLoans: nat, returnedLoans: nat, overdueLoans: nat, totalFines: int)

  datatype DetailPage =
    | RedirectHome
    | RedirectToMembers
    | DetailView(notice: DetailNotice, profile: Members.MemberFields, active: seq<Loans.TitledLoan>,
                 badges: seq<DueBadge>, history: seq<Loans.TitledLoan>, figures: LoanFigures)

  const SecondsPerDay: int := 86400

  // ---------------------------------------------------------------------------
  // The edit form
  // ---------------------------------------------------------------------------

  /** The object's properties after the form is copied in: the membership
      date and the linked login stay as loaded. */
  function Posted(loaded: Members.MemberFields, f: MemberForm): Members.MemberFields {
    loaded.(firstName := f.firstName, lastName := f.lastName, email := f.email, phone := f.phone,
            address := f.address, membershipStatus := f.membershipStatus)
  }

  /** Validation, then `update()`. */
  function UpdateOutcome(t: Tables, id: int, f: Members.MemberFields): (DetailNotice, Tables)
    requires t.Valid()
  {
    if Blank(f.firstName) || Blank(f.lastName) || Blank(f.email) then (NamesAndEmailRequired, t)
    else
      var r := Members.Updated(t, id, f);
      if r.Some? then (MemberUpdated, r.value) else (MemberUpdateFailed, t)
  }

  // ---------------------------------------------------------------------------
  // Loan figures
  // ---------------------------------------------------------------------------

  function StatusIs(st: LoanStatus): Loans.TitledLoan -> bool {
    (v: Loans.TitledLoan) => v.loan.status == st
  }

  function FineOf(v: Loans.TitledLoan): int { v.loan.fine }

  function CheckoutOf(v: Loans.TitledLoan): int { v.loan.checkoutDate }

  /** `count()` of the two listings and of the history filtered by status,
      and the sum of the history's fines. */
  function Figures(active: seq<Loans.TitledLoan>, history: seq<Loans.TitledLoan>): LoanFigures {
    LoanFigures(|history|, |active|, |Filter(history, StatusIs(Returned))|,
                |Filter(history, StatusIs(Overdue))|, SumOf(history, FineOf))
  }

  /** The `foreach` adding up the fines of the history. */
  method TotalFines(history: seq<Loans.TitledLoan>) returns (total: int)
    ensures total == SumOf(history, FineOf)
  {
    total := 0;
    for i := 0 to |history|
      invariant total == SumOf(history[..i], FineOf)
    {
      assert history[..i + 1] == history[..i] + [history[i]];
      SumOfConcat(history[..i], [history[i]], FineOf);
      total := total + history[i].loan.fine;
    }
    assert history[..|history|] == history;
  }

  /** The `usort` of the history, newest checkout first. */
  function NewestFirst(history: seq<Loans.TitledLoan>): seq<Loans.TitledLoan> {
    SortBy(history, ByIntDesc(CheckoutOf))
  }

  // ---------------------------------------------------------------------------
  // Due-date badges
  // ---------------------------------------------------------------------------

  /** `$today->diff($due_date)->format("%r%a")`: the current time is
      `secondsIntoDay` past midnight of `today`, the due date is midnight of
      `due`; the result is the sign of the gap and its whole days. */
  function DaysLeft(due: Day, today: Day, secondsIntoDay: int): int
    requires 0 <= secondsIntoDay < SecondsPerDay
  {
    var gap := (due - today) * 86400 - secondsIntoDay;
    if gap < 0 then -((-gap) / 86400) else gap / 86400
  }

  function BadgeFor(daysLeft: int): DueBadge {
    if daysLeft < 0 then OverdueBy(-daysLeft)
    else if daysLeft <= 3 then DueSoon(daysLeft)
    else DueLater(daysLeft)
  }

  function BadgeOn(today: Day, secondsIntoDay: int): Loans.TitledLoan -> DueBadge
    requires 0 <= secondsIntoDay < SecondsPerDay
  {
    (v: Loans.TitledLoan) => BadgeFor(DaysLeft(v.loan.dueDate, today, secondsIntoDay))
  }

  /** A loan is shown overdue exactly when its due date is before today, by
      the number of days since; otherwise the days left are the days until
      the due date, less one once the day has started (the part of today
      already gone is not a whole day). */
  lemma BadgeMeansDue(due: Day, today: Day, secondsIntoDay: int)
    requires 0 <= secondsIntoDay < SecondsPerDay
    ensures var b := BadgeFor(DaysLeft(due, today, secondsIntoDay));
      && (b.OverdueBy? <==> due < today)
      && (b.OverdueBy? ==> b.days == today - due)
      && (!b.OverdueBy? ==> b.daysLeft == if due == today || secondsIntoDay == 0 then due - today else due - today - 1)
      && (b.DueSoon? ==> 0 <= b.daysLeft <= 3)
      && (b.DueLater? ==> b.daysLeft > 3)
  {
    var gap := (due - today) * SecondsPerDay - secondsIntoDay;
    if due < today {
      var late := today - due;
      assert -gap == late * SecondsPerDay + secondsIntoDay;
      assert (-gap) / SecondsPerDay == late;
    } else if due == today {
      assert gap == -secondsIntoDay;
    } else if secondsIntoDay == 0 {
      assert gap == (due - today) * SecondsPerDay;
    } else {
      var ahead := due - today - 1;
      assert gap == ahead * SecondsPerDay + (SecondsPerDay - secondsIntoDay);
      assert gap / SecondsPerDay == ahead;
    }
  }

  // ---------------------------------------------------------------------------
  // The page, as a function of the store
  // ---------------------------------------------------------------------------

  /** Loads, the optional update, then the listings and the figures read
      after it. */
  function Detail(t: Tables, today: Day, secondsIntoDay: int, s: Session, memberId: int, post: Option<MemberForm>)
    : (DetailPage, Tables)
    requires t.Valid() && 0 <= secondsIntoDay < SecondsPerDay
  {
    if !IsLibrarian(s) then (RedirectHome, t)
    else if memberId <= 0 || memberId !in t.members then (RedirectToMembers, t)
    else
      var loaded := Members.FieldsOf(t.members[memberId]);
      var shown := if post.Some? then Posted(loaded, post.value) else loaded;
      var (notice, t') := if post.Some? then UpdateOutcome(t, memberId, shown) else (NoDetailNotice, t);
      (View(t', today, secondsIntoDay, memberId, notice, shown), t')
  }

  /** What the page shows after the optional update. */
  function View(t: Tables, today: Day, secondsIntoDay: int, memberId: int, notice: DetailNotice,
                shown: Members.MemberFields): DetailPage
    requires 0 <= secondsIntoDay < SecondsPerDay
  {
    var active := Loans.MemberActiveLoans(t, memberId);
    var history := Loans.MemberLoanHistory(t, memberId);
    DetailView(notice, shown, active, MapSeq(active, BadgeOn(today, secondsIntoDay)),
               NewestFirst(history), Figures(active, history))
  }

  // ---------------------------------------------------------------------------
  // Properties
  // ---------------------------------------------------------------------------

  /** Only librarians see the page; a missing or non-positive id, or one with
      no member, sends them back to the member list; neither redirect writes. */
  lemma DetailGuards(t: Tables, today: Day, secondsIntoDay: int, s: Session, memberId: int, post: Option<MemberForm>)
    requires t.Valid() && 0 <= secondsIntoDay < SecondsPerDay
    ensures var (page, t') := Detail(t, today, secondsIntoDay, s, memberId, post);
      && (page == RedirectHome <==> !IsLibrarian(s))
      && (page == RedirectToMembers <==> IsLibrarian(s) && (memberId <= 0 || memberId !in t.members))
      && (!page.DetailView? ==> t' == t)
  {
  }

  /** An update needs first name, last name and e-mail; when it succeeds the
      member's row holds the posted columns with its membership date and
      login kept, and nothing else in the store changes; otherwise nothing
      is written. The profile shown is the posted one either way. */
  lemma DetailUpdateIsExact(t: Tables, today: Day, secondsIntoDay: int, s: Session, memberId: int, f: MemberForm)
    requires t.Valid() && 0 <= secondsIntoDay < SecondsPerDay
    requires IsLibrarian(s) && memberId > 0 && memberId in t.members
    ensures var (page, t') := Detail(t, today, secondsIntoDay, s, memberId, Some(f));
      var m := t.members[memberId];
      && page.DetailView?
      && page.profile == Posted(Members.FieldsOf(m), f)
      && (page.notice == NamesAndEmailRequired <==> Blank(f.firstName) || Blank(f.lastName) || Blank(f.email))
      && (page.notice != MemberUpdated ==> t' == t)
      && (page.notice == MemberUpdated ==>
            && t'.members.Keys == t.members.Keys
            && Members.FieldsOf(t'.members[memberId]) == Posted(Members.FieldsOf(m), f)
            && (forall k :: k in t.members && k != memberId ==> t'.members[k] == t.members[k])
            && t'.(members := t.members) == t)
  {
    var shown := Posted(Members.FieldsOf(t.members[memberId]), f);
    Members.UpdatedKeepsMembershipDate(t, memberId, shown);
  }

  /** Every loan of the history is returned, overdue or still checked out,
      and the still-checked-out ones are exactly the active list. */
  lemma {:induction false} StatusesPartition(history: seq<Loans.TitledLoan>)
    ensures |history| == |Filter(history, StatusIs(Returned))| + |Filter(history, StatusIs(Overdue))|
                         + |Filter(history, StatusIs(CheckedOut))|
  {
    if history != [] {
      StatusesPartition(history[1..]);
      assert Filter(history, StatusIs(Returned)) ==
        (if StatusIs(Returned)(history[0]) then [history[0]] else []) + Filter(history[1..], StatusIs(Returned));
      assert Filter(history, StatusIs(Overdue)) ==
        (if StatusIs(Overdue)(history[0]) then [history[0]] else []) + Filter(history[1..], StatusIs(Overdue));
      assert Filter(history, StatusIs(CheckedOut)) ==
        (if StatusIs(CheckedOut)(history[0]) then [history[0]] else []) + Filter(history[1..], StatusIs(CheckedOut));
    }
  }

  /** The active listing has as many loans as the history has
      `checked_out` ones. */
  lemma ActiveAreCheckedOutHistory(t: Tables, memberId: int)
    ensures |Loans.MemberActiveLoans(t, memberId)|
      == |Filter(Loans.MemberLoanHistory(t, memberId), StatusIs(CheckedOut))|
  {
    var rows := Rows(t.loans);
    var held := Filter(rows, Loans.HeldBy(memberId));
    var sorted := SortBy(held, ByIntDesc(Loans.CheckoutDate));
    OutCountOfTitled(t, sorted, Loans.MemberLoanHistory(t, memberId));
    SumOfSortBy(held, ByIntDesc(Loans.CheckoutDate), Indicator(IsCheckedOut));
    CountIsSum(held, IsCheckedOut);
    FilterThenFilter(rows, Loans.HeldBy(memberId), IsCheckedOut, Loans.ActiveOf(memberId));
  }

  function IsCheckedOut(l: Loan): bool {
    l.status == CheckedOut
  }

  /** Titling loans keeps the number of checked-out ones. */
  lemma OutCountOfTitled(t: Tables, loans: seq<Loan>, titled: seq<Loans.TitledLoan>)
    requires titled == MapSeq(loans, Loans.TitledIn(t))
    ensures |Filter(titled, StatusIs(CheckedOut))| == SumOf(loans, Indicator(IsCheckedOut))
  {
    CountIsSum(titled, StatusIs(CheckedOut));
    forall i | 0 <= i < |titled|
      ensures Indicator(StatusIs(CheckedOut))(titled[i]) == Indicator(IsCheckedOut)(loans[i])
    {
      assert titled[i] == Loans.TitledIn(t)(loans[i]);
      assert titled[i].loan == loans[i];
      assert StatusIs(CheckedOut)(titled[i]) == IsCheckedOut(loans[i]);
    }
    SumOfPointwise(titled, loans, Indicator(StatusIs(CheckedOut)), Indicator(IsCheckedOut));
  }


  /** The page's figures add up: every loan of the member is counted once,
      as returned, overdue or active. */
  lemma FiguresAddUp(t: Tables, today: Day, secondsIntoDay: int, s: Session, memberId: int, post: Option<MemberForm>)
    requires t.Valid() && 0 <= secondsIntoDay < SecondsPerDay
    ensures var (page, t') := Detail(t, today, secondsIntoDay, s, memberId, post);
      page.DetailView? ==>
        page.figures.totalLoans == page.figures.returnedLoans + page.figures.overdueLoans + page.figures.activeLoans
  {
    var (page, t') := Detail(t, today, secondsIntoDay, s, memberId, post);
    if page.DetailView? {
      StatusesPartition(Loans.MemberLoanHistory(t', memberId));
      ActiveAreCheckedOutHistory(t', memberId);
    }
  }

  /** The history table lists the same loans, newest checkout first. */
  lemma NewestFirstIsSorted(history: seq<Loans.TitledLoan>)
    ensures multiset(NewestFirst(history)) == multiset(history)
    ensures forall i, j :: 0 <= i < j < |NewestFirst(history)| ==>
      NewestFirst(history)[i].loan.checkoutDate >= NewestFirst(history)[j].loan.checkoutDate
  {
    var h := NewestFirst(history);
    ByIntPreorders(CheckoutOf);
    SortBySorted(history, ByIntDesc(CheckoutOf));
    forall i, j | 0 <= i < j < |h| ensures h[i].loan.checkoutDate >= h[j].loan.checkoutDate {
      assert ByIntDesc(CheckoutOf)(h[i], h[j]);
      assert CheckoutOf(h[i]) >= CheckoutOf(h[j]);
    }
  }

  // ---------------------------------------------------------------------------
  // The page
  // ---------------------------------------------------------------------------

  /** The update branch on a loaded `Member` object. */
  method UpdateMember(member: Members.MemberRecord, f: MemberForm) returns (notice: DetailNotice)
    requires member.db.Valid()
    modifies member, member.db
    ensures member.db.Valid()
    ensures member.id == old(member.id)
    ensures member.Fields() == Posted(old(member.Fields()), f)
    ensures (notice, member.db.Snapshot()) == UpdateOutcome(old(member.db.Snapshot()), member.id, member.Fields())
  {
    member.firstName, member.lastName, member.email := f.firstName, f.lastName, f.email;
    member.phone, member.address, member.membershipStatus := f.phone, f.address, f.membershipStatus;
    if Blank(member.firstName) || Blank(member.lastName) || Blank(member.email) {
      return NamesAndEmailRequired;
    }
    var ok := member.Update();
    notice := if ok then MemberUpdated else MemberUpdateFailed;
  }

  /** `member_detail.php?id=`, with the current day and time of day. */
  method MemberDetailPage(db: Database, today: Day, secondsIntoDay: int, s: Session, memberId: int, post: Option<MemberForm>)
    returns (page: DetailPage)
    requires db.Valid() && 0 <= secondsIntoDay < SecondsPerDay
    modifies db
    ensures db.Valid()
    ensures (page, db.Snapshot()) == Detail(old(db.Snapshot()), today, secondsIntoDay, s, memberId, post)
  {
    if !IsLibrarian(s) {
      return RedirectHome;
    }
    if memberId <= 0 {
      return RedirectToMembers;
    }
    ghost var t0 := db.Snapshot();
    var member := new Members.MemberRecord(db);
    member.id := memberId;
    var found := member.ReadOne();
    if !found {
      return RedirectToMembers;
    }
    assert member.Fields() == Members.FieldsOf(t0.members[memberId]);
    var notice := NoDetailNotice;
    if post.Some? {
      notice := UpdateMember(member, post.value);
    }
    assert db.Snapshot() == Detail(t0, today, secondsIntoDay, s, memberId, post).1;
    page := Show(db.Snapshot(), today, secondsIntoDay, memberId, notice, member.Fields());
  }

  /** The listings and figures read after the optional update. */
  method Show(t: Tables, today: Day, secondsIntoDay: int, memberId: int, notice: DetailNotice,
              shown: Members.MemberFields) returns (page: DetailPage)
    requires 0 <= secondsIntoDay < SecondsPerDay
    ensures page == View(t, today, secondsIntoDay, memberId, notice, shown)
  {
    var active := Loans.MemberActiveLoans(t, memberId);
    var history := Loans.MemberLoanHistory(t, memberId);
    var fines := TotalFines(history);
    var figures := LoanFigures(|history|, |active|, |Filter(history, StatusIs(Returned))|,
                               |Filter(history, StatusIs(Overdue))|, fines);
    page := DetailView(notice, shown, active, MapSeq(active, BadgeOn(today, secondsIntoDay)),
                       NewestFirst(history), figures);
  }
}
