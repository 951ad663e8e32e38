/** The persistent store: the rows of the `books`, `members`,
    `loan_history` and `users` tables, and the connection object that holds
    them. Every table is keyed by its auto-increment primary key. */
module Store {
  import opened Common

  datatype Book = Book(
    id: int,
    isbn: string,
    title: string,
    author: string,
    category: string,
    publicationYear: int,
    publisher: string,
    totalCopies: int,
    availableCopies: int,
    createdAt: Day)

  datatype MembershipStatus = Active | Expired | Suspended

  datatype Member = Member(
    id: int,
    firstName: string,
    lastName: string,
    email: string,
    phone: string,
    address: string,
    membershipDate: Day,
    membershipStatus: MembershipStatus,
    userId: Option<int>,
    createdAt: Day)

  /** `loan_history.status`; a row is created `checked_out`. */
  datatype LoanStatus = CheckedOut | Overdue | Returned

  datatype Loan = Loan(
    id: int,
    bookId: int,
    memberId: int,
    checkoutDate: Day,
    dueDate: Day,
    returnDate: Option<Day>,
    status: LoanStatus,
    fine: Cents,
    createdAt: Day)

  /** A login account; `passwordHash` is what `password_hash` produced. */
  datatype User = User(
    id: int,
    username: string,
    passwordHash: string,
    role: string,
    createdAt: Day)

  /** The contents of the whole store at one moment, with the next value of
      each table's auto-increment counter. */
  datatype Tables = Tables(
    books: map<int, Book>,
    members: map<int, Member>,
    loans: map<int, Loan>,
    users: map<int, User>,
    nextBookId: int,
    nextMemberId: int,
    nextLoanId: int,
    nextUserId: int)
  {
    /** Every row is stored under its own id, and every id is positive and
        below the table's counter (so the counter is always a fresh id). */
    ghost predicate Valid() {
      && (forall k :: k in books ==> books[k].id == k && 0 < k < nextBookId)
      && (forall k :: k in members ==> members[k].id == k && 0 < k < nextMemberId)
      && (forall k :: k in loans ==> loans[k].id == k && 0 < k < nextLoanId)
      && (forall k :: k in users ==> users[k].id == k && 0 < k < nextUserId)
      && nextBookId > 0 && nextMemberId > 0 && nextLoanId > 0 && nextUserId > 0
    }
  }

  /** The database connection shared by the model objects of one request. */
  class Database {
    var books: map<int, Book>
    var members: map<int, Member>
    var loans: map<int, Loan>
    var users: map<int, User>
    var nextBookId: int
    var nextMemberId: int
    var nextLoanId: int
    var nextUserId: int
    /** The server date that fills `created_at` columns by default. */
    const clock: Day

    function Snapshot(): Tables
      reads this
    {
      Tables(books, members, loans, users, nextBookId, nextMemberId, nextLoanId, nextUserId)
    }

    ghost predicate Valid()
      reads this
    {
      Snapshot().Valid()
    }

    constructor (t: Tables, clock: Day)
      requires t.Valid()
      ensures Valid() && Snapshot() == t && this.clock == clock
    {
      books, members, loans, users := t.books, t.members, t.loans, t.users;
      nextBookId, nextMemberId, nextLoanId, nextUserId := t.nextBookId, t.nextMemberId, t.nextLoanId, t.nextUserId;
      this.clock := clock;
    }

    /** Puts every table back as it was in `t` (a transaction rollback). */
    method Restore(t: Tables)
      modifies this
      ensures Snapshot() == t
    {
      books, members, loans, users := t.books, t.members, t.loans, t.users;
      nextBookId, nextMemberId, nextLoanId, nextUserId := t.nextBookId, t.nextMemberId, t.nextLoanId, t.nextUserId;
    }
  }
}
