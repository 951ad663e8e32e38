# Library management system — a verified model

This project models the library management system: a PHP web application
that runs on MySQL. The system keeps four tables:

- a catalog of books, each with a total and an available number of copies;
- library members, each with a membership status of active, expired or
  suspended;
- the loan history, where each loan is `checked_out`, `overdue` or
  `returned` and may carry a fine;
- login accounts with roles `user`, `librarian` and `admin`.

On top of these tables the application offers:

- the `Book`, `Member` and `Loan` model objects;
- authentication over a session;
- the catalog and member listings with their page bar;
- a book detail page;
- a circulation desk for checkout and return;
- catalog management;
- an administration panel;
- reports;
- the member page librarians see;
- self-registration;
- the user's own profile page.

The centre of the model is the copy-count ledger. While it holds, every
book's available count equals its total minus its copies still out on
loan. The model also covers:

- the loan state machine: `checked_out` becomes `overdue` or `returned`,
  and `returned` is final;
- the fine of 50 cents per whole day late;
- the idempotent overdue sweep;
- the role gates and validation chains of every page.

## How the model is built

The model has four layers:

- **Store** (`store.dfy`):
  - `Store.Tables` is one value that holds the four tables as
    `map<int, Row>` keyed by primary key, plus the auto-increment
    counters.
  - `Store.Database` is the class whose fields the model objects update
    in place. `Snapshot()` reads its tables as a `Tables` value.
- **Model objects** (`books.dfy`, `members.dfy`, `loans.dfy`):
  - `Books.BookRecord`, `Members.MemberRecord` and `Loans.LoanRecord` are
    classes whose public column properties are fields.
  - Their methods change the shared `Database`.
  - Each method is proved against a function on `Tables`, for example
    `Loans.Checkout` or `Books.Updated`.
  - The properties of the model objects are lemmas about those functions.
- **Auth** (`auth.dfy`):
  - The session is a `map<string, SessionValue>`.
  - `Auth.Authenticator` holds it together with the connection.
- **Pages**:
  - The pages that change the store are modelled as methods. Each one has
    a specification function that returns the page shown and the store
    left behind:
    - `books_manage.php` → `books_manage.dfy`
    - `loans.php` → `loan_desk.dfy`
    - `admin.php` → `admin.dfy`
    - `member_detail.php` → `member_detail.dfy`
    - `register.php` → `register.dfy`
    - `profile.php` → `profile.dfy`
  - The pages that only read are functions with lemmas:
    - `books.php` → `book_catalog.dfy`
    - `members.php` → `member_roster.dfy`
    - `book_detail.php` → `book_detail.dfy`
    - `reports.php` → `reports.dfy` (its accumulator loops are methods)
  - The page bar shared by the two listings is in `pagination.dfy`.
  - `common.dfy` and `aggregates.dfy` hold the generic query machinery:
    - rows in primary-key order;
    - filtering;
    - a stable insertion sort for `ORDER BY`;
    - `LIMIT`/`OFFSET` paging;
    - `LIKE '%kw%'` as substring search;
    - sums, counts and top-n lists.

The model writes the following conventions out explicitly:

- Dates are integer day numbers. Today's date, the time of day and the
  database clock are parameters.
- Money is integer cents.
- PHP `empty()` is `Common.Blank`: the empty string or `"0"`.
- A `LIMIT … OFFSET` query with a negative offset, such as page 0, is a
  failed statement: `None`.
- `password_hash` and `password_verify` are function parameters (`hash`,
  `verify`).
- A storage fault inside a transaction is a `Common.Fault` parameter. The
  rollback is `Store.Database.Restore`.

## Model

| member | source | states |
|---|---|---|
| Store.Database.constructor | config/database.php:19-34 | the connection works on the given store and clock; it requires and keeps the key discipline: rows under their own ids, counters above every id |
| Store.Database.Restore | models/Loan.php:73-76 | a rollback puts every table and counter back exactly as they were before the transaction |
| Auth.RolePredicates | includes/auth.php:58-68 | `isLibrarian` holds exactly for the role `librarian` or `admin`; `isAdmin` exactly for `admin`, so an admin is always a librarian; `isLoggedIn` exactly when `user_id` is set; no role means neither predicate |
| Auth.SignedInReflectsUser | includes/auth.php:25-29 | after a login the session is logged in as that user, and the two role predicates follow that user's stored role |
| Auth.LoggedOutSessionIsEmpty | includes/auth.php:70-82 | in an emptied session nobody is logged in, no role predicate holds and both getters return null |
| Auth.Registered | includes/auth.php:35-56 | a registration leaves a store that keeps the key discipline; its effect is stated by `Auth.RegisteredAddsOneUser` |
| Auth.UserByNameFinds | includes/auth.php:13-20 | the lookup by username finds a user exactly when one has that name, and what it finds is a stored user with that name |
| Auth.UserByNameUnique | includes/auth.php:13-20 | when one row has the name, the lookup returns exactly that row |
| Auth.RegisteredAddsOneUser | includes/auth.php:35-56 | registration fails exactly on a taken username and then inserts nothing; otherwise its only change is one new user row under a fresh id |
| Auth.RegisteredIsFound | includes/auth.php:35-56 | after a successful registration the lookup by that username finds the new row, with the given hash and role |
| Auth.FoundAfterAdding | includes/auth.php:13-20 | adding a row under a new id whose username no row has makes the lookup by that name find exactly that row |
| Auth.Authenticator.constructor | includes/auth.php:7-9 | the object holds the connection and the request's session |
| Auth.Authenticator.Login | includes/auth.php:11-33 | succeeds exactly when a user has the name and the stored hash verifies the password; on success it records id, username and role in the session, otherwise the session is unchanged |
| Auth.Authenticator.Register | includes/auth.php:35-56 | returns true exactly when the registration inserts, and the store becomes the registered store; on false nothing changes |
| Auth.Authenticator.Logout | includes/auth.php:70-74 | the session becomes empty and the call returns true |
| Auth.RegisterThenLogin | includes/auth.php:11-56 | a user who registers and then logs in with the same password is let in with the role they registered, provided the hash verifies its own password |
| Books.RowOf | models/Book.php:23-56 | a row built from form columns carries that id, those eight columns and that creation date |
| Books.Inserted | models/Book.php:23-56 | an insert keeps the store's key discipline; its effect is stated by `Books.InsertedAddsOneRow` |
| Books.Updated | models/Book.php:99-135 | an update keeps the key discipline; its effect is stated by `Books.UpdatedOverwritesOneRow` |
| Books.Deleted | models/Book.php:138-150 | a delete keeps the key discipline; its effect is stated by `Books.DeletedRemovesOneRow` |
| Books.AvailabilityUpdated | models/Book.php:182-197 | the availability update keeps the key discipline; its bounds are stated by the two lemmas below |
| Books.InsertedAddsOneRow | models/Book.php:23-56 | an insert fails exactly on a duplicate ISBN; otherwise it adds one row under a fresh id with the given columns, created at the store's clock, and nothing else changes |
| Books.UpdatedOverwritesOneRow | models/Book.php:99-135 | an update of an unknown id matches no row, writes nothing and succeeds; an update of a stored book fails exactly when another row has the ISBN, and otherwise overwrites the eight columns of that row, keeps its id and creation date, and leaves every other row and table unchanged |
| Books.DeletedRemovesOneRow | models/Book.php:138-179 | a delete removes only the row with that id, leaves the other tables unchanged, and the count drops by one exactly when the id existed |
| Books.CountAllIsRowCount | models/Book.php:173-179 | `countAll` equals the number of rows a full listing returns, and the listing holds exactly the stored books |
| Books.CheckoutAvailabilityNeverNegative | models/Book.php:183-186 | a `checkout` decrements only while copies remain, so the available count never goes below zero |
| Books.ReturnAvailabilityNeverExceedsTotal | models/Book.php:187-191 | any other operation increments only below the total, so from a count within the total the available count never exceeds it; the total is unchanged |
| Books.SearchIsExact | models/Book.php:153-170 | the search returns exactly the stored books whose title or author contains the keyword, in title order, and never more than `countAll` |
| Books.ReadAllIsTitleOrderedPage | models/Book.php:59-70 | a page exists exactly for a page number of at least 1; it holds at most `records_per_page` stored books in title order, namely those at offset `(page-1)*records_per_page` of the full title-ordered listing |
| Books.BookRecord.constructor | models/Book.php:18-20 | a new object holds the connection and id 0 |
| Books.BookRecord.Create | models/Book.php:23-56 | `create()` returns true exactly when the insert succeeds, and the store becomes the inserted store; on false nothing changes |
| Books.BookRecord.ReadOne | models/Book.php:73-96 | returns true exactly when a row has the object's id, and then copies every column into the object; otherwise the object is unchanged |
| Books.BookRecord.Update | models/Book.php:99-135 | `update()` returns true exactly when the update succeeds, and the store becomes the updated store; on false nothing changes |
| Books.BookRecord.Delete | models/Book.php:138-150 | `delete()` returns true and the store becomes the store with that row removed |
| Books.BookRecord.UpdateAvailability | models/Book.php:182-197 | the store becomes the store with the capped availability update applied |
| Members.Inserted | models/Member.php:23-55 | an insert keeps the key discipline; its effect is stated by `Members.InsertedAddsOneRow` |
| Members.Updated | models/Member.php:98-131 | an update keeps the key discipline; its effect is stated by `Members.UpdatedKeepsMembershipDate` |
| Members.Deleted | models/Member.php:134-146 | a delete keeps the key discipline; its effect is stated by `Members.DeletedRemovesOneRow` |
| Members.InsertedAddsOneRow | models/Member.php:23-55 | an insert fails exactly on a duplicate e-mail; otherwise it adds one row under a fresh id with the given names, contact data, membership date, status and `user_id`, created at the store's clock, and nothing else changes |
| Members.UpdatedKeepsMembershipDate | models/Member.php:98-131 | an update of a stored member fails exactly when another row has the e-mail; otherwise it writes names, e-mail, phone, address, status and `user_id` of the row with that id, never its membership date, and leaves every other row unchanged |
| Members.DeletedRemovesOneRow | models/Member.php:134-146 | a delete removes only the row with that id, and the count drops by one exactly when the id existed |
| Members.SearchIsExact | models/Member.php:149-167 | the search returns exactly the stored members whose first name, last name or e-mail contains the keyword, in last-name order |
| Members.ReadAllIsLastNameOrderedPage | models/Member.php:58-69 | a page exists exactly for a page number of at least 1; it holds at most `records_per_page` stored members, in last-name order, and its i-th row is row (page − 1) × `records_per_page` + i of the whole roster |
| Members.ByUserIdFindsOwner | models/Member.php:179-203 | the lookup by `user_id` finds a member exactly when some stored member belongs to that login, and what it finds is such a member |
| Members.MemberRecord.constructor | models/Member.php:18-20 | a new object holds the connection, id 0 and no loaded columns |
| Members.MemberRecord.Create | models/Member.php:23-55 | `create()` returns true exactly when the insert succeeds, and the store becomes the inserted store |
| Members.MemberRecord.ReadOne | models/Member.php:72-95 | returns false, leaving the object unchanged, when no member has the id; otherwise it copies every column into the object |
| Members.MemberRecord.Update | models/Member.php:98-131 | `update()` returns true exactly when the update succeeds, and the store becomes the updated store |
| Members.MemberRecord.Delete | models/Member.php:134-146 | `delete()` returns true and the store becomes the store with that row removed |
| Members.MemberRecord.GetByUserId | models/Member.php:179-203 | returns true exactly when a member belongs to the login, and then loads its id and every column; otherwise the object is unchanged |
| Members.MemberRecord.Load | models/Member.php:187-199 | copies the fetched row's id and columns into the object |
| Loans.Fine | models/Loan.php:93-102 | the fine is never negative; it is 0 when the book comes back on or before the due day, and 50 cents per day late otherwise |
| Loans.FineMonotone | models/Loan.php:93-102 | returning later never costs less, and each extra day costs at most 50 cents more |
| Loans.Checkout | models/Loan.php:26-77 | a checkout is refused exactly when the book is missing or has no copies, or the member is missing or not active; otherwise the store keeps its key discipline |
| Loans.Return | models/Loan.php:80-139 | a return is refused exactly when the loan is missing or not `checked_out`; otherwise the store keeps its key discipline |
| Loans.MarkOverdue | models/Loan.php:245-256 | the sweep keeps every loan id; its effect is stated by `Loans.MarkOverdueIsExact` |
| Loans.CheckoutRefusalReasons | models/Loan.php:28-47 | a refused checkout names the first failed check: the book is checked before the member |
| Loans.CheckoutAddsOneLoan | models/Loan.php:50-72 | a committed checkout adds exactly one loan, under a fresh id, carrying the given book, member and dates, `checked_out` and no fine; that book's available count drops by exactly one and stays non-negative; no other book, loan, member or user changes |
| Loans.ReturnClosesLoan | models/Loan.php:104-133 | a committed return stamps the loan `returned`, stores the given return date (NULL when none) and charges the fine for that day (the clock's day when none); the book's available count rises by exactly one with no cap; nothing else changes |
| Loans.ReturnRejectsClosedAndOverdue | models/Loan.php:80-91 | a loan already `returned`, or swept to `overdue`, cannot be returned |
| Loans.MarkOverdueIsExact | models/Loan.php:245-256 | the sweep marks `overdue` exactly the `checked_out` loans due before today, and changes nothing else in any loan |
| Loans.MarkOverdueIdempotent | models/Loan.php:245-256 | a second sweep on the same day changes nothing |
| Loans.StatusMachine | models/Loan.php:26-256 | a loan that is not `checked_out` is never changed by a checkout, a return of any loan or the sweep |
| Loans.OnLoanWithout | models/Loan.php:119-128 | taking one outstanding loan away leaves one fewer copy out on loan |
| Loans.OnLoanAfterAdd | models/Loan.php:53-66 | adding a loan under a fresh id puts one more copy of its book on loan if the loan is outstanding |
| Loans.CheckoutKeepsBookLedger | models/Loan.php:50-72 | after a committed checkout, each book's available count is still its total minus its copies out on loan |
| Loans.CheckoutKeepsLedger | models/Loan.php:50-72 | a committed checkout keeps the copy-count ledger |
| Loans.ReturnKeepsBookLedger | models/Loan.php:104-133 | after a committed return, each book's available count is still its total minus its copies out on loan |
| Loans.ReturnKeepsLedger | models/Loan.php:104-133 | a committed return keeps the copy-count ledger |
| Loans.MarkOverdueKeepsLedger | models/Loan.php:245-256 | the sweep keeps the ledger, because it never turns a loan into `returned` |
| Loans.ReturnStaysWithinTotal | models/Loan.php:124-128 | while the ledger holds, the uncapped increment of a return never takes a book above its total |
| Loans.SelectIsExact | models/Loan.php:162-242 | a filtered, ordered loan query holds exactly the stored loans that satisfy the filter, in order |
| Loans.MemberActiveLoansAreExact | models/Loan.php:162-174 | the active listing holds exactly the member's `checked_out` loans, with the joined title, soonest due first |
| Loans.MemberLoanHistoryIsExact | models/Loan.php:177-189 | the history holds every loan of the member and no other, with the joined title, newest checkout first |
| Loans.OverdueLoansAreExact | models/Loan.php:226-242 | the overdue listing holds exactly the `checked_out` loans due before today, joined, soonest due first |
| Loans.OverdueLoansEmptyAfterSweep | models/Loan.php:226-256 | right after the sweep the overdue listing is empty |
| Loans.NothingDueAfterSweep | models/Loan.php:245-256 | after the sweep no loan is both `checked_out` and due before today |
| Loans.ReadAllIsNewestFirstPage | models/Loan.php:142-159 | a page exists exactly for a page number of at least 1; it holds at most `records_per_page` stored loans with their joined title and member name, newest checkout first, and its i-th row is row (page − 1) × `records_per_page` + i of the whole listing |
| Loans.NewestFirstIsExact | models/Loan.php:142-159 | the unpaged listing holds exactly the stored loans, each with its joined title and member name, newest checkout first |
| Loans.PageOfJoinedListing | models/Loan.php:142-159 | a `LIMIT`/`OFFSET` page of a newest-first listing of joined loans is newest first and holds only joined stored loans |
| Loans.LoanRecord.constructor | models/Loan.php:21-23 | a new object holds the connection and no loaded loan |
| Loans.LoanRecord.CheckoutBook | models/Loan.php:26-77 | returns true exactly when the checkout is allowed and its two statements succeed; the store is then the checked-out store, and otherwise exactly as before, the rollback included |
| Loans.LoanRecord.ReturnBook | models/Loan.php:80-139 | returns true exactly when the return is allowed and its three statements succeed; the store is then the returned store, and otherwise exactly as before |
| Loans.LoanRecord.UpdateOverdueStatus | models/Loan.php:245-256 | the loans table becomes the swept table; nothing else changes |
| Loans.LoanRecord.ReadOne | models/Loan.php:192-223 | returns true exactly when a loan has the id, and then loads every column and the joined book title and member name; otherwise no field of the object changes |
| BooksManage.AvailableAfterEditExamples | books_manage.php:89-95 | 5→3 total with 4 available gives 2; 5→8 gives 7; 5→2 with 1 available is floored to 0 |
| BooksManage.AvailableAfterEditUnchangedTotal | books_manage.php:93-94 | an unchanged total keeps the available count |
| BooksManage.AvailableAfterEditInRange | books_manage.php:89-92 | from 0 ≤ available ≤ total and a non-negative new total, the new available count lies between 0 and the new total |
| BooksManage.AvailableAfterEditKeepsOnLoan | books_manage.php:89-92 | unless the floor at zero applies, the copies on loan (total − available) are the same after the edit; when it applies, the new total is below the copies on loan |
| BooksManage.NewBookFields | books_manage.php:80-82 | a new book's available count equals its total, as entered |
| BooksManage.EditKeepsLedger | books_manage.php:84-95 | an edit of a stored book that does not hit the floor at zero keeps the copy-count ledger |
| BooksManage.ClampedEditThenReturnsExceedTotal | books_manage.php:89-92 | shrinking a book with both copies out to one copy floors its available count at 0; returning both loans then gives 2 available of 1 total |
| BooksManage.Submitted | books_manage.php:98-121 | the submission keeps the key discipline; its outcomes are stated by `BooksManage.ManagedGuards`, `BooksManage.ManagedAddStartsFullyAvailable`, `BooksManage.ManagedEditKeepsLedger` and the `Books` lemmas |
| BooksManage.Managed | books_manage.php:6-134 | a request keeps the key discipline; its outcomes are stated by `BooksManage.ManagedGuards`, `BooksManage.ManagedTouchesOnlyBooks`, `BooksManage.ManagedAddStartsFullyAvailable` and `BooksManage.ManagedEditKeepsLedger` |
| BooksManage.ManagedGuards | books_manage.php:6-121 | non-librarians are redirected with nothing written; editing an unknown positive id redirects to the catalog with nothing written; a GET other than delete writes nothing; a blank ISBN, title or author writes nothing; an edit with no positive id writes nothing and reports success |
| BooksManage.ManagedTouchesOnlyBooks | books_manage.php:38-134 | members, loans and users, and their counters, are never changed |
| BooksManage.ManagedAddStartsFullyAvailable | books_manage.php:80-111 | a successful add stores one new row whose available count equals its total; the copy-count ledger survives it exactly when the posted total is not negative |
| BooksManage.AddedBookLedger | books_manage.php:80-111 | adding a book no loan names keeps the ledger exactly when its available count is not negative |
| BooksManage.ManagedEditKeepsLedger | books_manage.php:84-120 | a successful edit that does not hit the floor at zero keeps the copy-count ledger |
| BooksManage.Submit | books_manage.php:70-134 | the object's create or update gives the notice and store the submission function gives |
| BooksManage.ManageBooks | books_manage.php:6-134 | the page and the store it leaves are those of `BooksManage.Managed` on the store before the request |
| LoanDesk.CheckoutStep | loans.php:48-73 | the checkout step keeps the key discipline; its outcomes are stated by `LoanDesk.CheckoutStepOutcomes` |
| LoanDesk.CheckoutStepOutcomes | loans.php:48-73 | a missing book or one with no copy on the shelf gives "not available" with nothing written; a librarian with no member is asked to choose one, with nothing written; otherwise, when the transaction commits, one loan from today for fourteen days is added and one copy leaves the shelf, and any other outcome writes nothing |
| LoanDesk.ReturnStep | loans.php:76-86 | the return step keeps the key discipline |
| LoanDesk.DeskAction | loans.php:27-86 | a request that is not redirected keeps the key discipline |
| LoanDesk.DeskGate | loans.php:29-41 | a request is redirected exactly when a logged-in non-librarian asks for anything but a checkout, or has no member row |
| LoanDesk.ReadersBorrowOnlyForThemselves | loans.php:29-41 | a non-librarian never changes an existing loan and adds at most one loan; a logged-in reader's new loan is for their own member row |
| LoanDesk.DeskLoanRunsFourteenDays | loans.php:58-66 | a loan made at the desk is new, `checked_out`, without a fine, from today and due 14 days later |
| LoanDesk.CheckoutStepKeepsLedger | loans.php:48-73 | the checkout step keeps the copy-count ledger, whatever its outcome |
| LoanDesk.ReturnStepKeepsLedger | loans.php:76-86 | the return step keeps the copy-count ledger, whatever its outcome |
| LoanDesk.DeskKeepsLedger | loans.php:27-86 | whatever the request, the copy-count ledger survives it |
| LoanDesk.ReaderSeesOwnHistory | loans.php:99-106 | a reader's listing holds exactly their own loans, every one of them |
| LoanDesk.ReturnButtonMeansReturnable | loans.php:365 | the return button shows exactly on the loans a librarian's `returnBook()` accepts |
| LoanDesk.CheckoutAtDesk | loans.php:48-73 | the checkout step on the `Book` and `Loan` objects gives the notice and store of `LoanDesk.CheckoutStep` |
| LoanDesk.ReturnAtDesk | loans.php:76-86 | the return step on the `Loan` object gives the notice and store of `LoanDesk.ReturnStep` |
| LoanDesk.DeskMemberFor | loans.php:27-41 | the member a checkout is for, and the reader's own member id, are those of the gate functions |
| LoanDesk.LoanDeskPage | loans.php:20-107 | the page redirects exactly when the gate says so and then writes nothing; otherwise the store and notice are those of `LoanDesk.DeskAction`, with the listing read afterwards |
| Admin.RoleSet | admin.php:41-59 | a role change keeps the key discipline; its effect is stated by `Admin.RoleSetTouchesOneAccount` |
| Admin.UserDropped | admin.php:80-89 | an account deletion keeps the key discipline |
| Admin.FinesReset | admin.php:93-102 | the fine reset keeps every loan id; its effect is stated by `Admin.FinesResetIsExact` |
| Admin.CreateBlock | admin.php:24-38 | account creation keeps the key discipline and never touches books, members or loans; its outcomes are stated by `Admin.CreateBlockOutcomes` |
| Admin.CreateBlockOutcomes | admin.php:24-38 | a blank username, password or role gives "All fields are required" with nothing written; a taken username gives the failure message with nothing written; otherwise exactly one login is added under a fresh id with the hashed password and chosen role |
| Admin.UpdateBlock | admin.php:41-59 | the role change block keeps the key discipline and never touches books, members or loans |
| Admin.DeleteBlock | admin.php:62-90 | the delete block keeps the key discipline and never touches books, members or loans |
| Admin.ActionBlocks | admin.php:93-114 | the fine reset and the overdue sweep keep the key discipline, the loan ids, the users, books and members |
| Admin.Administered | admin.php:24-114 | the five blocks together never create, change or remove a book or member, and never add or remove a loan |
| Admin.FinesResetIsExact | admin.php:93-95 | the reset sets the fine of every `returned` loan to 0 and changes no other column of it, and leaves every other loan as it was; a second reset changes nothing; the ledger survives |
| Admin.DeleteBlockGuards | admin.php:62-90 | deletion is refused for an empty id, for the admin's own account, and for an account a member row points at; otherwise exactly that account row goes, and no member row points at it |
| Admin.RoleSetTouchesOneAccount | admin.php:41-59 | a role change touches only the role of that one account |
| Admin.AccountsAreSortedUsers | admin.php:117-123 | the account list shows every stored account exactly as often as it is stored (a permutation of the users table), sorted by username |
| Admin.AccountUsersAreRows | admin.php:117-123 | the accounts listed are a permutation of the users table |
| Admin.AccountLineCountsProfiles | admin.php:117-123 | a line's member count is non-zero exactly when deleting that account would be refused for a linked member |
| Admin.StatisticsAreCoherent | admin.php:126-166 | on a store whose ledger holds: the copy sums are NULL exactly on an empty catalog; otherwise 0 ≤ available ≤ total copies; active plus overdue loans never exceed all loans |
| Admin.StatusCountsAddUp | admin.php:155-166 | the `checked_out`, `overdue` and `returned` counts add up to all loans |
| Admin.AvailableSumWithinTotal | admin.php:155-166 | when every book has 0 ≤ available ≤ total, the same holds of the sums |
| Admin.DeleteUser | admin.php:62-90 | the delete block on the connection gives the notes and store of `Admin.DeleteBlock` |
| Admin.RunActions | admin.php:93-114 | the two actions on the connection give the notes and store of `Admin.ActionBlocks` |
| Admin.CreateUser | admin.php:24-38 | account creation through `Auth` gives the notes and store of `Admin.CreateBlock` |
| Admin.UpdateUser | admin.php:41-59 | the role update gives the notes and store of `Admin.UpdateBlock` |
| Admin.AdminPanel | admin.php:6-166 | non-admins are redirected with nothing written; otherwise the store becomes that of `Admin.Administered` and the statistics are read from it |
| Reports.MostLoanedIsTopTen | reports.php:32-62 | at most ten rows; each is one of the given books or members with its true positive loan count in the window, in non-increasing count order; any row left out means the list is full of rows counting at least as much |
| Reports.OverdueBooksAreExact | reports.php:64-78 | every late loan (`checked_out` or `overdue`, due before today) with a stored book and member is listed, with its title, member and days overdue, most overdue first; nothing else is listed |
| Reports.SweepKeepsOverdueReport | reports.php:64-78 | the overdue sweep does not change which loans this report lists, while it empties `getOverdueLoans` |
| Reports.MemberRowsDistinct | reports.php:82-88 | the members' rows have distinct ids, and every stored member is among them |
| Reports.FineRowsTotal | reports.php:82-88 | the per-member `SUM(l.fine)` totals add up to the sum of the covered fines |
| Reports.UnchargedRowsWeighNothing | reports.php:82-88 | the members the join drops carry no fine |
| Reports.FinesReportAddsUp | reports.php:80-94 | the report's totals add up to the fines of all loans with a fine returned in the window |
| Reports.InventoryIsOrdered | reports.php:96-106 | the inventory lists every book exactly as often as it is stored (a permutation of the books table), ordered by category and then title, each with `checked_out` = total − available |
| Reports.InventoryBooksAreRows | reports.php:96-106 | the books of the inventory are a permutation of the books table |
| Reports.StoredUnderOwnId | reports.php:98-102 | a listed book is the row stored under its own id |
| Reports.LedgerRows | reports.php:98-102 | under the ledger, a row's `checked_out` is the number of its copies out on loan |
| Reports.CheckedOutSumIsDifference | reports.php:368-375 | the checked-out sum is the total sum minus the available sum |
| Reports.CheckedOutSumNonNegative | reports.php:368-375 | rows with non-negative `checked_out` sum to a non-negative total |
| Reports.InventoryMatchesLedger | reports.php:368-373 | under the ledger each row's `checked_out` counts its copies out on loan, and the checked-out sum is the total sum minus the available sum, never negative |
| Reports.DayCountsPositive | reports.php:108-122 | every listed day lies in the window and has a positive count |
| Reports.LoanStatsRows | reports.php:108-122 | one row per day with checkouts, days strictly ascending, each in the window with a positive count |
| Reports.DayCountsAddUp | reports.php:112-116 | with each day listed once and every checkout covered, the daily counts add up to the checkouts |
| Reports.LoanStatsAddUp | reports.php:108-122 | the daily counts add up to the number of loans checked out in the window |
| Reports.TotalFines | reports.php:307-310 | the accumulator loop gives the sum of the report's `total_fine` column |
| Reports.TotalLoans | reports.php:413-417 | the accumulator loop gives the sum of the `loan_count` column |
| Reports.FinesSummaryAddsUp | reports.php:305-311 | the fines summary equals the fines of all the loans the report covers |
| Reports.LoanStatsSummaryAddsUp | reports.php:108-122 | an unknown report type falls back to the loan statistics, whose total is the number of loans of the window |
| Reports.ReportsPageFor | reports.php:5-122 | non-librarians are redirected; otherwise the report is the one chosen by type (default `popular_books`) over the period (default 30 days) |
| MemberDetail.TotalFines | member_detail.php:87-90 | the loop gives the sum of the fines over the member's whole history |
| MemberDetail.BadgeMeansDue | member_detail.php:280-290 | a loan shows overdue exactly when it was due before today, by the days elapsed; otherwise the days left are those PHP's `diff` reports (one less after midnight, except on the due day); warning exactly at 0 to 3, ok above |
| MemberDetail.DetailGuards | member_detail.php:5-39 | non-librarians go home and a non-positive or unknown id goes to the roster; a redirect writes nothing |
| MemberDetail.DetailUpdateIsExact | member_detail.php:45-64 | an update needs first name, last name and e-mail; on success only that member's editable columns change, to the posted values |
| MemberDetail.StatusesPartition | member_detail.php:75-85 | every loan of a history is returned, overdue or checked out, so the three counts add up to its length |
| MemberDetail.ActiveAreCheckedOutHistory | member_detail.php:67-76 | the active listing has as many loans as the history has `checked_out` ones |
| MemberDetail.OutCountOfTitled | member_detail.php:67-76 | titling loans with their book keeps the number of `checked_out` loans |
| MemberDetail.FiguresAddUp | member_detail.php:75-85 | total loans = returned + overdue + active on the page |
| MemberDetail.NewestFirstIsSorted | member_detail.php:331-333 | the history table lists the same loans, newest checkout first |
| MemberDetail.UpdateMember | member_detail.php:45-64 | the form is copied into the object, then validated and written as `MemberDetail.UpdateOutcome` says |
| MemberDetail.MemberDetailPage | member_detail.php:5-90 | the page and the store it leaves are those of `MemberDetail.Detail` |
| MemberDetail.Show | member_detail.php:66-90 | the listings and figures shown are those of `MemberDetail.View` |
| MemberRoster.RosterSelectsBySearch | members.php:5-38 | only librarians see the roster; a search lists and counts every match; otherwise the requested ten members in last-name order, counted over the whole table; a page below 1 fails the statement |
| MemberRoster.RosterRowsAreStoredMembers | members.php:102-118 | every row is a stored member; the badge is green exactly for active, red exactly for expired, yellow exactly for suspended |
| MemberRoster.RowsOfStoredMembers | members.php:102-118 | rows drawn from stored members are stored members, each with the badge colour of its status |
| MemberRoster.RosterNavIsGated | members.php:138-171 | the page bar appears exactly when there is no search, more than one page and the page is one of them, and then it is the full bar |
| MemberRoster.RosterNavLeadsToMembers | members.php:138-171 | following any link of the bar shows a page that lists members |
| BookCatalog.CatalogSelectsBySearch | books.php:17-37 | a search lists and counts every match; otherwise the requested ten books in title order, counted over the whole catalog; a page below 1 fails the statement; the add link is for librarians |
| BookCatalog.CatalogRowsAreGated | books.php:95-113 | every row is a stored book; copies are shown exactly when some are available; edit and delete exactly for librarians; checkout exactly for a logged-in visitor when a copy is available |
| BookCatalog.CatalogNavIsGated | books.php:126-159 | the page bar appears exactly when there is no search, more than one page and the page is one of them, and then it is the full bar |
| BookCatalog.CatalogNavLeadsToBooks | books.php:126-159 | following any link of the bar shows a page that lists books |
| Pagination.Span | books.php:139-147 | the window's numbers are consecutive from the lower bound, as many as the bounds allow |
| Pagination.TotalPagesIsCeiling | books.php:31 | the page count is the ceiling of rows over page size: enough pages for every row, no page more, zero exactly for no rows |
| Pagination.WindowIsNeighbourhood | books.php:139-147 | the window holds exactly the pages from 1 to the last that lie within two of the current one, ascending, at most five, and holds the current page exactly when it is a real page |
| Pagination.NavEdgeLinksAreGated | books.php:129-156 | First and Previous appear exactly when page > 1, Next and Last exactly when page < total pages, each leading where its name says |
| Pagination.NavMembership | books.php:126-159 | a link is on the bar exactly when it is First or Previous past page 1, a numbered link of the window, or Next or Last before the last page |
| Pagination.NavForListing | books.php:126-159 | for an unsearched listing, the bar is shown exactly when there is more than one page and the requested page is one of them, and it is then the full bar for that page |
| Pagination.NavNumberedLinksAreInRange | books.php:139-147 | every numbered link leads to a page from 1 to the page count and is active exactly on the current page |
| Pagination.NumberedPagesHaveRows | books.php:17-31 | a page from 1 up to the page count holds rows, and no page after it does |
| Pagination.NavTargetsHaveRows | books.php:126-159 | once a page holds rows, every link of its bar leads to a page that holds rows |
| Pagination.NumberedSpanGrows | books.php:139-147 | one more turn of the loop appends the link to one more page |
| Pagination.NavLinks | books.php:126-159 | the bar printed link by link is `Pagination.Nav`, the bar the lemmas above describe |
| Pagination.NumberedLinks | books.php:139-147 | the `for` loop prints one numbered link per page of the window, in order |
| BookDetail.BookDetailIsGated | book_detail.php:15-173 | non-positive or unknown ids redirect; otherwise the stored book; checkout link exactly for a logged-in visitor with a copy available; disabled button exactly when none is; edit/delete and the history panel exactly for librarians, the panel only when there is history |
| BookDetail.RecentHistoryIsThisBooks | book_detail.php:36-45 | at most five loans, each a stored loan of this book by an existing member with that member's full name, newest checkout first |
| BookDetail.RecentHistoryIsNewest | book_detail.php:36-45 | a qualifying loan left out means the history is full of loans checked out no earlier |
| BookDetail.LeftOutIsOlder | book_detail.php:36-45 | the newest-first cut of at most five leaves out only loans no newer than every one it keeps, and only when it is full |
| BookDetail.SimilarBooksAreSimilar | book_detail.php:182-194 | at most five; each a stored book other than this one sharing its author or category; when fewer than five, every such book is listed |
| Register.UserRemoved | register.php:70-73 | the compensating delete keeps the key discipline |
| Register.ValidationOrder | register.php:32-39 | an empty required field, then mismatched passwords, then a password under 6 characters; each refusal writes nothing and keeps the entered values |
| Register.LoggedInIsRedirected | register.php:5-9 | a logged-in visitor is redirected and nothing is written |
| Register.EnrolledCreatesLinkedMember | register.php:41-65 | a success adds exactly one login with role `user` and the hashed password, and one member row linked to it, `active`, with the form's data and the current date as membership date; books and loans are unchanged |
| Register.EnrolledOutcomes | register.php:41-77 | the registration is refused exactly for a taken username, the profile fails exactly on a taken e-mail, and it succeeds otherwise |
| Register.FailedEnrolmentRollsBack | register.php:66-77 | a refused registration writes nothing; when the profile fails, the new login is deleted again, and only the spent user id remains |
| Register.RemovingNewLogin | register.php:66-77 | deleting the login that registration just added restores the store as it was, except for the spent user id |
| Register.ProfileAddsOneMember | register.php:52-65 | a successful profile step adds exactly one member row, under a fresh id, filled from the form and linked to the new login; logins, books, loans and the other members are unchanged |
| Register.RegisteredCanLogIn | register.php:41-65 | after a successful registration the new login can sign in with its password, as a `user` |
| Register.Enroll | register.php:41-77 | registering the login and then its profile gives the notice and store of `Register.Enrolled` |
| Register.CreateProfile | register.php:52-74 | creating the profile, or rolling back the login, gives the notice and store of `Register.Profiled` |
| Register.DeleteUser | register.php:70-73 | the store becomes that of `Register.UserRemoved` |
| Register.RegisterPageFor | register.php:5-77 | the page and the store it leaves are those of `Register.Registration` |
| Profile.ProfileUpdate | profile.php:49-56 | the profile update keeps the key discipline |
| Profile.PasswordSet | profile.php:88-93 | the password update keeps the key discipline |
| Profile.PasswordChange | profile.php:61-101 | the password block keeps the key discipline |
| Profile.Blocks | profile.php:40-101 | the two blocks together keep the key discipline |
| Profile.ProfileGuards | profile.php:5-9 | only a logged-in visitor sees the page; a redirect writes nothing; a request without a form writes nothing and shows no alert |
| Profile.OwnMemberIsLinked | profile.php:21-22 | a profile is shown exactly when a member row carries the session's user id, and it is such a row, stored under its own id |
| Profile.StoredUnderOwnId | profile.php:21-22 | a member found in the table is the row stored under its own id |
| Profile.ProfileUpdateIsExact | profile.php:40-58 | the form needs first name, last name and e-mail, and fails on an e-mail another member has; on a stored profile, success writes the loaded profile with the posted names, e-mail, phone and address, keeping the stored membership date; a refusal, or no stored profile, writes nothing |
| Profile.PasswordChecksInOrder | profile.php:61-101 | an empty field, then the mismatch, then a new password under 6 characters, then a wrong current password; each refusal writes nothing |
| Profile.FirstAfterMapping | profile.php:77-83 | the lookup by name finds the same row after a change that keeps names |
| Profile.RowsAfterRehash | profile.php:88-93 | after one login is rehashed, the logins in key order are the old ones with that one rehashed |
| Profile.RehashKeepsLookup | profile.php:77-93 | rehashing one login leaves every lookup by name finding the same login, rehashed if it is that one |
| Profile.LookupAfterMapping | profile.php:77-93 | when the logins change by a map that keeps every username, the lookup by name finds the mapped image of what it found before, and nothing when it found nothing |
| Profile.FirstNamedAfterMapping | profile.php:77-83 | the first row with a name, in a listing mapped by a username-preserving map, is the mapped first row with that name before |
| Profile.PasswordChangeTakesEffect | profile.php:61-101 | for a user's own session, the change succeeds exactly when the checks pass and the current password verifies, and then writes the new hash into that login only; otherwise nothing is written |
| Profile.PasswordSetWritesOneLogin | profile.php:88-93 | the update writes the new hash into that one login and changes nothing else |
| Profile.NewPasswordLogsIn | profile.php:83-94 | after a change, the lookup finds the login with the new hash, which verifies the new password |
| Profile.ActivePanelIsExact | profile.php:241-290 | the active table holds exactly the member's `checked_out` loans, each with its due badge |
| Profile.ReturnedPanelIsExact | profile.php:296-337 | the history table holds exactly the member's `returned` loans |
| Profile.ReturnedOfHistory | profile.php:32-33 | the `returned` rows picked from a member's loan history are exactly that member's returned loans, each with its book's title |
| Profile.UpdateProfile | profile.php:40-58 | the form is copied into the object, then validated and written as `Profile.ProfileUpdate` says |
| Profile.ChangePassword | profile.php:61-101 | the password block gives the notice and store of `Profile.PasswordChange` |
| Profile.SetPassword | profile.php:88-93 | the store becomes that of `Profile.PasswordSet` |
| Profile.ProfilePageFor | profile.php:5-101 | the page and the store it leaves are those of `Profile.ProfileOf` |
| Profile.LoadOwnMember | profile.php:21-22 | a new `Member` object is loaded with the login's profile exactly when there is one |
| Profile.ShowLoans | profile.php:24-34 | the two loan tables are those of `Profile.Panels`, read only when there is a profile |
| Profile.RunBlocks | profile.php:40-101 | the profile block and then the password block give the alerts, object and store of `Profile.Blocks` |
| Common.Filter | models/Book.php:153-170 | a `WHERE` keeps exactly the rows that satisfy it, never more than it is given |
| Common.ContainsIff | models/Book.php:153-170 | `LIKE '%kw%'` holds exactly when the keyword occurs in the value |
| Common.SortBy | models/Book.php:59-70 | `ORDER BY` returns the same rows, a permutation of its input |
| Common.SortBySorted | models/Book.php:59-70 | under a total preorder the result of `ORDER BY` is sorted |
| Common.Rows | models/Book.php:59-70 | a table read holds every stored row once |
| Common.RowsInKeyOrder | models/Book.php:59-70 | a table read lists the rows in increasing primary-key order |
| Common.StrLeTotal | models/Book.php:59-70 | any two strings are ordered one way or the other |
| Common.StrLeTrans | models/Book.php:59-70 | string order is transitive |
| Common.StrLeAntisym | models/Book.php:59-70 | two strings ordered both ways are equal |
| Common.EmptyKeywordMatches | models/Book.php:153-170 | the empty keyword (`'%%'`) matches every value |
| Common.Paginate | models/Book.php:59-70 | `LIMIT n OFFSET (page-1)*n` fails exactly on a negative offset or limit; otherwise it returns at most n rows, those at that offset |
| Common.PageOfSortedListing | models/Book.php:59-70 | a page of a sorted listing is sorted and holds only rows of the listing |
| Common.PagesAreConsecutive | models/Book.php:59-70 | consecutive pages tile the listing without overlap |
| Common.SqlSum | admin.php:126-166 | `SUM` is NULL exactly over no rows |
| Aggregates.TopNIsTop | reports.php:34-40 | `ORDER BY score DESC LIMIT n` keeps at most n input rows in non-increasing order, and leaves a row out only when full of rows scoring at least as much |

## Left out

- HTML, CSS and JavaScript rendering is not modelled. This includes
  `number_format`, date formatting, `ucfirst`, the ApexCharts script of
  `reports.php`, and the floating-point `availability_rate` and
  loans-per-day figures. Pages return the data they show.
- `htmlspecialchars(strip_tags(...))` in the model objects, and `trim` on
  form input, are not modelled. Form values reach the model already
  sanitised.
- `password_hash` and `password_verify` are foreign. They are the
  parameters `hash` and `verify`, and nothing is assumed about them
  beyond what a lemma's `requires` states.
- MySQL collation is not modelled. Comparisons and `LIKE` are exact and
  case-sensitive, and `ORDER BY` on strings is code-point order. Rows
  that tie under `ORDER BY` keep primary-key order, where MySQL leaves
  their order open. The similar-books query has no `ORDER BY`; it is
  modelled in primary-key order.
- PHP's loose comparisons and `(int)` casts are taken as already applied:
  query parameters are `int`. A session `user_id` that is not an integer
  matches no row. `strlen` counts characters, not bytes.
- The connection's `ERRMODE_EXCEPTION` (config/database.php:28) is not
  modelled. Outside the two loan transactions no page catches a
  `PDOException`, so a statement the database refuses ends the request
  with an uncaught exception. The model instead gives such a statement
  the `false` result the code tests for, and follows the code's failure
  branch. This covers a duplicate ISBN in `Book::create` or
  `Book::update`, a duplicate e-mail in `Member::create` or
  `Member::update`, and a paged query with page < 1, whose negative
  `OFFSET` gives `StatementFailed`. So the "ISBN may already exist",
  "Unable to update member", "Unable to update profile" and "Error creating member profile" messages
  are shown where the real page stops with an error. The store is the
  same either way except at registration: the model runs `register.php`'s
  compensating `DELETE` of the new login, which the exception skips.
- Plain `UPDATE` and `DELETE` statements outside transactions are
  modelled as always succeeding. Storage faults are modelled only inside
  the checkout and return transactions, through the `Fault` parameter.
- Concurrency is not modelled: requests run one at a time. The
  availability check that `checkoutBook` makes before its transaction
  cannot race in this model.
- Auto-increment ids are a counter. The model does not capture that a
  rolled-back insert may still consume an id, and it does not give the
  rows the database clock.
- `loans.php` always passes the page's `date('Y-m-d')` as return date.
  When a caller gives none, `returnBook` stores NULL and computes the
  fine against the current time, the store's clock parameter.
- The reports' window `strtotime("-{$period} days")` is today minus the
  period in whole days. A `period` that is not a number is not modelled.
- `membership_status` has exactly three values, so the status `switch` on
  `members.php` always matches a case.
- A login without a member profile makes `profile.php` update a `Member`
  object with id 0. No row has that id, and the page reports success
  without writing, as the code does.
- index.php, login.php, logout.php, includes/header.php,
  helpers/S3Helper.php, helpers/GeminiHelper.php and the connection
  set-up in config/database.php are not part of this model. They hold
  rendering, thin wrappers, or calls to external services.
- MemberDetail.BadgeMeansDue: `DateTime::diff` is modelled on whole days
  plus the seconds elapsed today. Time zones and daylight saving are not
  modelled.
- Pagination.NavLinks: the page-bar loop is modelled once, for
  `books.php`. `members.php` prints the same bar and is proved through
  the same functions.
