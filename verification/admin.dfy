/** The administration page (`admin.php`): account creation, role change
    and deletion, the fine reset, the overdue sweep, the account list and
    the system statistics. */
module Admin {
  import opened Common
  import opened Store
  import opened Auth
  import opened Aggregates
  import Loans

  datatype NewUser = NewUser(username: string, password: string, role: string)
  datatype RoleChange = RoleChange(userId: int, role: string)

  /** The request: each POST part is present when its button was pressed,
      `action` is the query-string action. The five blocks run one after the
      other, so several can apply to one request. */
  datatype AdminRequest = AdminRequest(
    createUser: Option<NewUser>,
    updateUser: Option<RoleChange>,
    deleteUser: Option<int>,
    action: string)

  datatype AdminMessage =
    | AllFieldsRequired
    | UserCreated
    | CreateUserFailed
    | IdAndRoleRequired
    | RoleChanged
    | UserIdRequired
    | CannotDeleteSelf
    | LinkedToMember
    | UserRemoved
    | FinesCleared
    | OverdueMarked

  /** `$error` and `$success`: each block overwrites one of them. */
  datatype Notes = Notes(error: Option<AdminMessage>, success: Option<AdminMessage>)

  datatype AdminPage = RedirectHome | AdminView(notes: Notes, stats: Stats)

  // ---------------------------------------------------------------------------
  // Writes
  // ---------------------------------------------------------------------------

  /** `UPDATE users SET role = ? WHERE id = ?`. */
  function RoleSet(t: Tables, userId: int, role: string): (r: Tables)
    requires t.Valid()
    ensures r.Valid()
  {
    if userId in t.users then t.(users := t.users[userId := t.users[userId].(role := role)]) else t
  }

  /** `DELETE FROM users WHERE id = ?`. */
  function UserDropped(t: Tables, userId: int): (r: Tables)
    requires t.Valid()
    ensures r.Valid()
  {
    t.(users := t.users - {userId})
  }

  /** `UPDATE loan_history SET fine = 0 WHERE status = 'returned'`. */
  function FinesReset(loans: map<int, Loan>): (r: map<int, Loan>)
    ensures r.Keys == loans.Keys
  {
    map k | k in loans :: if loans[k].status == Returned then loans[k].(fine := 0) else loans[k]
  }

  /** `SELECT id FROM members WHERE user_id = ?` finds a row. */
  predicate HasMemberProfile(members: map<int, Member>, userId: int) {
    exists k :: k in members && members[k].userId == Some(userId)
  }

  /** Whether the deletion of `userId` is refused, and why. */
  function DeleteRefusal(t: Tables, s: Session, userId: int): Option<AdminMessage> {
    if userId == 0 then Some(UserIdRequired)
    else if CurrentUserId(s) == Some(IntValue(userId)) then Some(CannotDeleteSelf)
    else if HasMemberProfile(t.members, userId) then Some(LinkedToMember)
    else None
  }

  // ---------------------------------------------------------------------------
  // The five blocks, in page order
  // ---------------------------------------------------------------------------

  function CreateBlock(t: Tables, clock: Day, n: Notes, u: Option<NewUser>, hash: string -> string): (r: (Notes, Tables))
    requires t.Valid()
    ensures r.1.Valid()
    ensures r.1.books == t.books && r.1.members == t.members && r.1.loans == t.loans
  {
    match u
    case None => (n, t)
    case Some(nu) =>
      if Blank(nu.username) || Blank(nu.password) || Blank(nu.role) then (n.(error := Some(AllFieldsRequired)), t)
      else
        match Registered(t, nu.username, hash(nu.password), nu.role, clock)
        case Some(t') => (n.(success := Some(UserCreated)), t')
        case None => (n.(error := Some(CreateUserFailed)), t)
  }

  function UpdateBlock(t: Tables, n: Notes, c: Option<RoleChange>): (r: (Notes, Tables))
    requires t.Valid()
    ensures r.1.Valid()
    ensures r.1.books == t.books && r.1.members == t.members && r.1.loans == t.loans
  {
    match c
    case None => (n, t)
    case Some(rc) =>
      if rc.userId == 0 || Blank(rc.role) then (n.(error := Some(IdAndRoleRequired)), t)
      else (n.(success := Some(RoleChanged)), RoleSet(t, rc.userId, rc.role))
  }

  function DeleteBlock(t: Tables, s: Session, n: Notes, d: Option<int>): (r: (Notes, Tables))
    requires t.Valid()
    ensures r.1.Valid()
    ensures r.1.books == t.books && r.1.members == t.members && r.1.loans == t.loans
  {
    match d
    case None => (n, t)
    case Some(userId) =>
      match DeleteRefusal(t, s, userId)
      case Some(why) => (n.(error := Some(why)), t)
      case None => (n.(success := Some(UserRemoved)), UserDropped(t, userId))
  }

  function ActionBlocks(t: Tables, today: Day, n: Notes, action: string): (r: (Notes, Tables))
    requires t.Valid()
    ensures r.1.Valid()
    ensures r.1.books == t.books && r.1.members == t.members && r.1.loans.Keys == t.loans.Keys
    ensures r.1.users == t.users
  {
    if action == "reset_fines" then (n.(success := Some(FinesCleared)), t.(loans := FinesReset(t.loans)))
    else if action == "update_overdue" then (n.(success := Some(OverdueMarked)), t.(loans := Loans.MarkOverdue(t.loans, today)))
    else (n, t)
  }

  /** One request to `admin.php` by an administrator: the five blocks in
      order, each starting from the store the previous one left. The page
      never creates, changes or removes a book or a member, and never adds
      or removes a loan. */
  function Administered(t: Tables, clock: Day, today: Day, s: Session, req: AdminRequest, hash: string -> string): (r: (Notes, Tables))
    requires t.Valid()
    ensures r.1.Valid()
    ensures r.1.books == t.books && r.1.members == t.members && r.1.loans.Keys == t.loans.Keys
  {
    var (n1, t1) := CreateBlock(t, clock, Notes(None, None), req.createUser, hash);
    var (n2, t2) := UpdateBlock(t1, n1, req.updateUser);
    var (n3, t3) := DeleteBlock(t2, s, n2, req.deleteUser);
    ActionBlocks(t3, today, n3, req.action)
  }

  // ---------------------------------------------------------------------------
  // Reads: the account list and the statistics
  // ---------------------------------------------------------------------------

  function Username(u: User): string { u.username }

  /** One line of the account list, with `has_member_profile`. */
  datatype AccountLine = AccountLine(user: User, memberProfiles: nat)

  function OwnedBy(userId: int): Member -> bool {
    (m: Member) => m.userId == Some(userId)
  }

  function LineIn(members: map<int, Member>): User -> AccountLine {
    (u: User) => AccountLine(u, CountWhere(Rows(members), OwnedBy(u.id)))
  }

  /** Every account `ORDER BY username`, each with its number of member rows. */
  function Accounts(t: Tables): seq<AccountLine> {
    MapSeq(SortBy(Rows(t.users), ByKey(Username)), LineIn(t.members))
  }

  /** The figures on the statistics cards; each `SUM` is `None` (SQL NULL)
      when its table is empty. */
  datatype Stats = Stats(
    totalBooks: nat,
    totalCopies: Option<int>,
    availableCopies: Option<int>,
    totalMembers: nat,
    activeMembers: Option<int>,
    totalLoans: nat,
    activeLoans: Option<int>,
    overdueBooks: Option<int>,
    totalFines: Option<int>)

  function TotalCopies(b: Book): int { b.totalCopies }
  function AvailableCopies(b: Book): int { b.availableCopies }
  function FineOf(l: Loan): int { l.fine }

  /** `SUM(CASE WHEN <p> THEN 1 ELSE 0 END)`. */
  function MemberIsActive(): Member -> bool { (m: Member) => m.membershipStatus == Active }
  function LoanHasStatus(st: LoanStatus): Loan -> bool { (l: Loan) => l.status == st }

  function Statistics(t: Tables): Stats {
    var books := Rows(t.books);
    var members := Rows(t.members);
    var loans := Rows(t.loans);
    Stats(
      |t.books|,
      SqlSum(MapSeq(books, TotalCopies)),
      SqlSum(MapSeq(books, AvailableCopies)),
      |t.members|,
      SqlSum(MapSeq(members, Indicator(MemberIsActive()))),
      |t.loans|,
      SqlSum(MapSeq(loans, Indicator(LoanHasStatus(CheckedOut)))),
      SqlSum(MapSeq(loans, Indicator(LoanHasStatus(Overdue)))),
      SqlSum(MapSeq(loans, FineOf)))
  }

  // ---------------------------------------------------------------------------
  // Properties
  // ---------------------------------------------------------------------------

  /** The fine reset clears the fine of every returned loan and leaves every
      other loan, and every other column, as it was; a second reset changes
      nothing; the copy-count ledger survives it. */
  lemma FinesResetIsExact(t: Tables)
    requires Loans.LedgerConsistent(t)
    ensures forall k :: k in t.loans && t.loans[k].status != Returned ==> FinesReset(t.loans)[k] == t.loans[k]
    ensures forall k :: k in t.loans && t.loans[k].status == Returned ==>
      FinesReset(t.loans)[k].fine == 0 && FinesReset(t.loans)[k].(fine := t.loans[k].fine) == t.loans[k]
    ensures FinesReset(FinesReset(t.loans)) == FinesReset(t.loans)
    ensures Loans.LedgerConsistent(t.(loans := FinesReset(t.loans)))
  {
    var reset := FinesReset(t.loans);
    forall b ensures Loans.OutstandingIds(reset, b) == Loans.OutstandingIds(t.loans, b) {
      forall k | k in t.loans
        ensures reset[k].bookId == t.loans[k].bookId && reset[k].status == t.loans[k].status
      {
      }
    }
  }

  /** Deletion is refused for an empty id, for the administrator's own
      account and for an account a member row points at; otherwise exactly
      that account row goes, and no member row is left pointing at it. */
  lemma DeleteBlockGuards(t: Tables, s: Session, n: Notes, userId: int)
    requires t.Valid()
    ensures DeleteRefusal(t, s, userId).None? <==>
      userId != 0 && CurrentUserId(s) != Some(IntValue(userId)) && !HasMemberProfile(t.members, userId)
    ensures var (n', t') := DeleteBlock(t, s, n, Some(userId));
      && (DeleteRefusal(t, s, userId).Some? ==> n' == n.(error := DeleteRefusal(t, s, userId)) && t' == t)
      && (DeleteRefusal(t, s, userId).None? ==>
            && n' == n.(success := Some(UserRemoved))
            && t'.users == t.users - {userId} && t'.(users := t.users) == t
            && (forall k :: k in t'.members ==> t'.members[k].userId != Some(userId)))
  {
  }

  /** A role change touches only the role of that one account. */
  lemma RoleSetTouchesOneAccount(t: Tables, userId: int, role: string)
    requires t.Valid()
    ensures var t' := RoleSet(t, userId, role);
      && t'.users.Keys == t.users.Keys
      && (userId in t.users ==> t'.users[userId] == t.users[userId].(role := role))
      && (forall k :: k in t.users && k != userId ==> t'.users[k] == t.users[k])
      && t'.(users := t.users) == t
  {
  }

  function AccountUser(a: AccountLine): User {
    a.user
  }

  /** Account creation needs a username, a password and a role: a blank one
      refuses it with nothing written; a taken username fails it with nothing
      written; otherwise one login is added under a fresh id with the hashed
      password and the chosen role, and no other row changes. */
  lemma CreateBlockOutcomes(t: Tables, clock: Day, n: Notes, nu: NewUser, hash: string -> string)
    requires t.Valid()
    ensures var (n', t') := CreateBlock(t, clock, n, Some(nu), hash);
      var blank := Blank(nu.username) || Blank(nu.password) || Blank(nu.role);
      && (blank ==> n' == n.(error := Some(AllFieldsRequired)) && t' == t)
      && (!blank && UsernameTaken(t.users, nu.username) ==> n' == n.(error := Some(CreateUserFailed)) && t' == t)
      && (!blank && !UsernameTaken(t.users, nu.username) ==>
            && n' == n.(success := Some(UserCreated))
            && t'.users.Keys == t.users.Keys + {t.nextUserId}
            && t'.users[t.nextUserId] == User(t.nextUserId, nu.username, hash(nu.password), nu.role, clock)
            && (forall k :: k in t.users ==> t'.users[k] == t.users[k])
            && t'.(users := t.users, nextUserId := t.nextUserId) == t)
  {
    RegisteredAddsOneUser(t, nu.username, hash(nu.password), nu.role, clock);
  }

  /** The accounts listed are the stored logins, each as often as it is
      stored. */
  lemma AccountUsersAreRows(t: Tables)
    ensures multiset(MapSeq(Accounts(t), AccountUser)) == multiset(Rows(t.users))
  {
    assert MapSeq(Accounts(t), AccountUser) == SortBy(Rows(t.users), ByKey(Username));
  }

  /** The account list shows every account once per row, sorted by name. */
  lemma AccountsAreSortedUsers(t: Tables)
    ensures |Accounts(t)| == |t.users|
    ensures multiset(MapSeq(Accounts(t), AccountUser)) == multiset(Rows(t.users))
    ensures forall i :: 0 <= i < |Accounts(t)| ==> Accounts(t)[i].user in t.users.Values
    ensures forall i, j :: 0 <= i < j < |Accounts(t)| ==> StrLe(Accounts(t)[i].user.username, Accounts(t)[j].user.username)
  {
    var sorted := SortBy(Rows(t.users), ByKey(Username));
    AccountUsersAreRows(t);
    ByKeyPreorder(Username);
    SortBySorted(Rows(t.users), ByKey(Username));
    forall i, j | 0 <= i < j < |Accounts(t)|
      ensures StrLe(Accounts(t)[i].user.username, Accounts(t)[j].user.username)
    {
      assert ByKey(Username)(sorted[i], sorted[j]);
      assert StrLe(Username(sorted[i]), Username(sorted[j]));
    }
    forall i | 0 <= i < |Accounts(t)| ensures Accounts(t)[i].user in t.users.Values {
      SortByMembers(Rows(t.users), ByKey(Username), sorted[i]);
    }
  }

  /** A line's member count is non-zero exactly when deleting that account
      would be refused for a linked member. */
  lemma AccountLineCountsProfiles(members: map<int, Member>, u: User)
    ensures LineIn(members)(u).memberProfiles > 0 <==> HasMemberProfile(members, u.id)
  {
    var owned := Filter(Rows(members), OwnedBy(u.id));
    if HasMemberProfile(members, u.id) {
      var k :| k in members && members[k].userId == Some(u.id);
      assert members[k] in owned;
    }
    if |owned| > 0 {
      assert owned[0] in owned;
    }
  }

  /** Counting by status: the `checked_out`, `overdue` and `returned` rows
      add up to all the loans. */
  lemma {:induction false} StatusCountsAddUp(loans: seq<Loan>)
    ensures Sum(MapSeq(loans, Indicator(LoanHasStatus(CheckedOut))))
          + Sum(MapSeq(loans, Indicator(LoanHasStatus(Overdue))))
          + Sum(MapSeq(loans, Indicator(LoanHasStatus(Returned)))) == |loans|
  {
    if loans != [] {
      StatusCountsAddUp(loans[1..]);
      assert MapSeq(loans, Indicator(LoanHasStatus(CheckedOut)))[1..] == MapSeq(loans[1..], Indicator(LoanHasStatus(CheckedOut)));
      assert MapSeq(loans, Indicator(LoanHasStatus(Overdue)))[1..] == MapSeq(loans[1..], Indicator(LoanHasStatus(Overdue)));
      assert MapSeq(loans, Indicator(LoanHasStatus(Returned)))[1..] == MapSeq(loans[1..], Indicator(LoanHasStatus(Returned)));
    }
  }

  /** Summing a column that is pointwise no larger gives no larger a sum. */
  lemma {:induction false} AvailableSumWithinTotal(books: seq<Book>)
    requires forall b :: b in books ==> 0 <= b.availableCopies <= b.totalCopies
    ensures 0 <= Sum(MapSeq(books, AvailableCopies)) <= Sum(MapSeq(books, TotalCopies))
  {
    if books != [] {
      assert forall b :: b in books[1..] ==> b in books;
      AvailableSumWithinTotal(books[1..]);
      assert MapSeq(books, AvailableCopies)[1..] == MapSeq(books[1..], AvailableCopies);
      assert MapSeq(books, TotalCopies)[1..] == MapSeq(books[1..], TotalCopies);
      assert books[0] in books;
    }
  }

  /** On a store whose ledger holds, the statistics are coherent: the two
      `SUM`s are NULL exactly on an empty catalog, and otherwise no more
      copies are available than exist; the active and overdue counts never
      exceed the number of loans. */
  lemma StatisticsAreCoherent(t: Tables)
    requires Loans.LedgerConsistent(t)
    ensures var st := Statistics(t);
      && (st.totalCopies.None? <==> st.totalBooks == 0)
      && (st.availableCopies.None? <==> st.totalBooks == 0)
      && (st.totalBooks > 0 ==> 0 <= st.availableCopies.value <= st.totalCopies.value)
      && (st.totalLoans > 0 ==> st.activeLoans.value + st.overdueBooks.value <= st.totalLoans)
  {
    var books := Rows(t.books);
    forall b | b in books ensures 0 <= b.availableCopies <= b.totalCopies {
      var k :| k in t.books && t.books[k] == b;
    }
    AvailableSumWithinTotal(books);
    var loans := Rows(t.loans);
    StatusCountsAddUp(loans);
    IndicatorSumNonNegative(loans, LoanHasStatus(Returned));
  }

  lemma {:induction false} IndicatorSumNonNegative<T>(s: seq<T>, p: T -> bool)
    ensures Sum(MapSeq(s, Indicator(p))) >= 0
  {
    if s != [] {
      IndicatorSumNonNegative(s[1..], p);
      assert MapSeq(s, Indicator(p))[1..] == MapSeq(s[1..], Indicator(p));
    }
  }

  // ---------------------------------------------------------------------------
  // The page
  // ---------------------------------------------------------------------------

  method DeleteUser(db: Database, s: Session, n: Notes, d: Option<int>) returns (n': Notes)
    requires db.Valid()
    modifies db
    ensures db.Valid()
    ensures (n', db.Snapshot()) == DeleteBlock(old(db.Snapshot()), s, n, d)
  {
    n' := n;
    if d.None? {
      return;
    }
    var userId := d.value;
    if userId == 0 {
      n' := n.(error := Some(UserIdRequired));
    } else if CurrentUserId(s) == Some(IntValue(userId)) {
      n' := n.(error := Some(CannotDeleteSelf));
    } else if HasMemberProfile(db.members, userId) {
      n' := n.(error := Some(LinkedToMember));
    } else {
      db.users := db.users - {userId};
      n' := n.(success := Some(UserRemoved));
    }
  }

  method RunActions(db: Database, today: Day, n: Notes, action: string) returns (n': Notes)
    requires db.Valid()
    modifies db
    ensures db.Valid()
    ensures (n', db.Snapshot()) == ActionBlocks(old(db.Snapshot()), today, n, action)
  {
    n' := n;
    if action == "reset_fines" {
      db.loans := FinesReset(db.loans);
      n' := n'.(success := Some(FinesCleared));
    }
    if action == "update_overdue" {
      var loan := new Loans.LoanRecord(db);
      var ok := loan.UpdateOverdueStatus(today);
      n' := n'.(success := Some(OverdueMarked));
    }
  }

  method CreateUser(db: Database, s: Session, n: Notes, u: Option<NewUser>, hash: string -> string) returns (n': Notes)
    requires db.Valid()
    modifies db
    ensures db.Valid()
    ensures (n', db.Snapshot()) == CreateBlock(old(db.Snapshot()), db.clock, n, u, hash)
  {
    n' := n;
    if u.None? {
      return;
    }
    var nu := u.value;
    if Blank(nu.username) || Blank(nu.password) || Blank(nu.role) {
      n' := n.(error := Some(AllFieldsRequired));
    } else {
      var auth := new Authenticator(db, s);
      var ok := auth.Register(nu.username, nu.password, nu.role, hash);
      n' := if ok then n.(success := Some(UserCreated)) else n.(error := Some(CreateUserFailed));
    }
  }

  method UpdateUser(db: Database, n: Notes, c: Option<RoleChange>) returns (n': Notes)
    requires db.Valid()
    modifies db
    ensures db.Valid()
    ensures (n', db.Snapshot()) == UpdateBlock(old(db.Snapshot()), n, c)
  {
    n' := n;
    if c.None? {
      return;
    }
    var rc := c.value;
    if rc.userId == 0 || Blank(rc.role) {
      n' := n.(error := Some(IdAndRoleRequired));
    } else {
      if rc.userId in db.users {
        db.users := db.users[rc.userId := db.users[rc.userId].(role := rc.role)];
      }
      n' := n.(success := Some(RoleChanged));
    }
  }

  /** `admin.php`: `hash` stands for `password_hash`, `today` for the
      server's date. */
  method AdminPanel(db: Database, today: Day, s: Session, req: AdminRequest, hash: string -> string)
    returns (page: AdminPage)
    requires db.Valid()
    modifies db
    ensures db.Valid()
    ensures !IsAdmin(s) ==> page == RedirectHome && db.Snapshot() == old(db.Snapshot())
    ensures IsAdmin(s) ==>
      var (n, t') := Administered(old(db.Snapshot()), db.clock, today, s, req, hash);
      page == AdminView(n, Statistics(t')) && db.Snapshot() == t'
  {
    if !IsAdmin(s) {
      return RedirectHome;
    }
    var n := CreateUser(db, s, Notes(None, None), req.createUser, hash);
    n := UpdateUser(db, n, req.updateUser);
    n := DeleteUser(db, s, n, req.deleteUser);
    n := RunActions(db, today, n, req.action);
    page := AdminView(n, Statistics(db.Snapshot()));
  }
}
