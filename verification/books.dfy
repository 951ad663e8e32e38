/** The catalog store (the `Book` model object over the `books` table):
    insert, read, update, delete, keyword search, paged listing, count and
    the guarded copy-count update. */
module Books {
  import opened Common
  import opened Store

  /** The eight columns a form writes (everything except `id` and `created_at`). */
  datatype BookFields = BookFields(
    isbn: string,
    title: string,
    author: string,
    category: string,
    publicationYear: int,
    publisher: string,
    totalCopies: int,
    availableCopies: int)

  function FieldsOf(b: Book): BookFields {
    BookFields(b.isbn, b.title, b.author, b.category, b.publicationYear, b.publisher,
               b.totalCopies, b.availableCopies)
  }

  function RowOf(id: int, f: BookFields, createdAt: Day): (b: Book)
    ensures b.id == id && FieldsOf(b) == f && b.createdAt == createdAt
  {
    Book(id, f.isbn, f.title, f.author, f.category, f.publicationYear, f.publisher,
         f.totalCopies, f.availableCopies, createdAt)
  }

  function Title(b: Book): string { b.title }

  /** The unique key on `isbn`: some row other than `except` already has it. */
  predicate IsbnTaken(books: map<int, Book>, isbn: string, except: int) {
    exists k :: k in books && k != except && books[k].isbn == isbn
  }

  // ---------------------------------------------------------------------------
  // Writes, as functions of the store
  // ---------------------------------------------------------------------------

  /** `INSERT INTO books (...)`; `None` when the ISBN is already used. */
  function Inserted(t: Tables, f: BookFields, clock: Day): (r: Option<Tables>)
    requires t.Valid()
    ensures r.Some? ==> r.value.Valid()
  {
    if IsbnTaken(t.books, f.isbn, 0) then None
    else Some(t.(books := t.books[t.nextBookId := RowOf(t.nextBookId, f, clock)],
                 nextBookId := t.nextBookId + 1))
  }

  /** `UPDATE books SET <eight columns> WHERE id = ?`: an unknown id matches
      no row, so nothing is written and no unique key can clash; a known id
      fails on an ISBN another row holds. */
  function Updated(t: Tables, id: int, f: BookFields): (r: Option<Tables>)
    requires t.Valid()
    ensures r.Some? ==> r.value.Valid()
  {
    if id !in t.books then Some(t)
    else if IsbnTaken(t.books, f.isbn, id) then None
    else Some(t.(books := t.books[id := RowOf(id, f, t.books[id].createdAt)]))
  }

  /** `DELETE FROM books WHERE id = ?`. */
  function Deleted(t: Tables, id: int): (r: Tables)
    requires t.Valid()
    ensures r.Valid()
  {
    t.(books := t.books - {id})
  }

  /** `updateAvailability`: a checkout decrements only while copies remain;
      anything else is a return and increments only below the total. */
  function AvailabilityUpdated(t: Tables, id: int, operation: string): (r: Tables)
    requires t.Valid()
    ensures r.Valid()
  {
    if id !in t.books then t
    else
      var b := t.books[id];
      if operation == "checkout" then
        if b.availableCopies > 0 then t.(books := t.books[id := b.(availableCopies := b.availableCopies - 1)]) else t
      else
        if b.availableCopies < b.totalCopies then t.(books := t.books[id := b.(availableCopies := b.availableCopies + 1)]) else t
  }

  // ---------------------------------------------------------------------------
  // Reads
  // ---------------------------------------------------------------------------

  /** Every book, `ORDER BY title`. */
  function Catalog(books: map<int, Book>): seq<Book> {
    SortBy(Rows(books), ByKey(Title))
  }

  predicate MatchesKeyword(b: Book, keyword: string) {
    Contains(b.title, keyword) || Contains(b.author, keyword)
  }

  /** `WHERE title LIKE '%kw%' OR author LIKE '%kw%' ORDER BY title`. */
  function Search(books: map<int, Book>, keyword: string): seq<Book> {
    SortBy(Filter(Rows(books), b => MatchesKeyword(b, keyword)), ByKey(Title))
  }

  /** `ORDER BY title LIMIT :limit OFFSET (page - 1) * limit`. */
  function ReadAll(books: map<int, Book>, page: int, recordsPerPage: int): Option<seq<Book>> {
    Paginate(Catalog(books), page, recordsPerPage)
  }

  /** `SELECT COUNT(*) FROM books`. */
  function CountAll(books: map<int, Book>): nat {
    |books|
  }

  // ---------------------------------------------------------------------------
  // Properties
  // ---------------------------------------------------------------------------

  /** An insert fails exactly on a duplicate ISBN; otherwise it adds one row,
      under a fresh id, holding the given columns, and changes nothing else. */
  lemma InsertedAddsOneRow(t: Tables, f: BookFields, clock: Day)
    requires t.Valid()
    ensures Inserted(t, f, clock).None? <==> IsbnTaken(t.books, f.isbn, 0)
    ensures Inserted(t, f, clock).Some? ==>
      var t' := Inserted(t, f, clock).value;
      var id := t.nextBookId;
      && id !in t.books
      && t'.books.Keys == t.books.Keys + {id}
      && FieldsOf(t'.books[id]) == f && t'.books[id].createdAt == clock
      && (forall k :: k in t.books ==> t'.books[k] == t.books[k])
      && t'.(books := t.books, nextBookId := t.nextBookId) == t
  {
  }

  /** An update of an unknown id writes nothing and succeeds; an update of a
      stored book fails exactly on an ISBN another row holds, and otherwise
      overwrites the eight columns of that one row, keeps its id and creation
      date, and leaves every other row alone. */
  lemma UpdatedOverwritesOneRow(t: Tables, id: int, f: BookFields)
    requires t.Valid()
    ensures id !in t.books ==> Updated(t, id, f) == Some(t)
    ensures Updated(t, id, f).None? <==> id in t.books && IsbnTaken(t.books, f.isbn, id)
    ensures Updated(t, id, f).Some? ==>
      var t' := Updated(t, id, f).value;
      && t'.books.Keys == t.books.Keys
      && (id in t.books ==> FieldsOf(t'.books[id]) == f && t'.books[id].id == id
                            && t'.books[id].createdAt == t.books[id].createdAt)
      && (forall k :: k in t.books && k != id ==> t'.books[k] == t.books[k])
      && t'.(books := t.books) == t
  {
  }

  /** A delete removes only the row with that id, and the count drops by one
      exactly when that row existed. */
  lemma DeletedRemovesOneRow(t: Tables, id: int)
    requires t.Valid()
    ensures Deleted(t, id).books.Keys == t.books.Keys - {id}
    ensures forall k :: k in t.books && k != id ==> Deleted(t, id).books[k] == t.books[k]
    ensures CountAll(Deleted(t, id).books) == if id in t.books then CountAll(t.books) - 1 else CountAll(t.books)
    ensures Deleted(t, id).(books := t.books) == t
  {
    var m := t.books - {id};
    if id in t.books {
      assert t.books.Keys == m.Keys + {id};
      assert |t.books.Keys| == |m.Keys| + 1;
    } else {
      assert m.Keys == t.books.Keys;
    }
  }

  /** The count is the number of rows a full listing returns. */
  lemma CountAllIsRowCount(books: map<int, Book>)
    ensures CountAll(books) == |Catalog(books)|
    ensures forall b :: b in Catalog(books) <==> b in books.Values
  {
    forall b ensures b in Catalog(books) <==> b in books.Values {
      SortByMembers(Rows(books), ByKey(Title), b);
    }
  }

  /** A checkout never takes the copy count below zero, and it only moves
      when a copy is available. */
  lemma CheckoutAvailabilityNeverNegative(t: Tables, id: int)
    requires t.Valid() && id in t.books && t.books[id].availableCopies >= 0
    ensures var b := AvailabilityUpdated(t, id, "checkout").books[id];
      && b.availableCopies >= 0
      && b.availableCopies == (if t.books[id].availableCopies > 0 then t.books[id].availableCopies - 1
                               else t.books[id].availableCopies)
  {
  }

  /** A return never takes the copy count above the total, and it only moves
      when the count is below the total. */
  lemma ReturnAvailabilityNeverExceedsTotal(t: Tables, id: int, operation: string)
    requires t.Valid() && id in t.books && operation != "checkout"
    requires t.books[id].availableCopies <= t.books[id].totalCopies
    ensures var b := AvailabilityUpdated(t, id, operation).books[id];
      && b.availableCopies <= b.totalCopies == t.books[id].totalCopies
      && b.availableCopies == (if t.books[id].availableCopies < t.books[id].totalCopies
                               then t.books[id].availableCopies + 1 else t.books[id].availableCopies)
  {
  }

  /** The search returns exactly the books whose title or author contains the
      keyword, ordered by title. */
  lemma SearchIsExact(books: map<int, Book>, keyword: string)
    ensures forall b :: b in Search(books, keyword) <==> b in books.Values && MatchesKeyword(b, keyword)
    ensures SortedBy(Search(books, keyword), ByKey(Title))
    ensures |Search(books, keyword)| <= CountAll(books)
  {
    var matching := Filter(Rows(books), b => MatchesKeyword(b, keyword));
    forall b ensures b in Search(books, keyword) <==> b in books.Values && MatchesKeyword(b, keyword) {
      SortByMembers(matching, ByKey(Title), b);
    }
    ByKeyPreorder(Title);
    SortBySorted(matching, ByKey(Title));
  }

  /** A page holds at most `recordsPerPage` books, the ones that follow the
      first `(page - 1) * recordsPerPage` in title order; page numbers below 1
      make the statement fail. */
  lemma ReadAllIsTitleOrderedPage(books: map<int, Book>, page: int, recordsPerPage: int)
    requires recordsPerPage > 0
    ensures ReadAll(books, page, recordsPerPage).Some? <==> page >= 1
    ensures ReadAll(books, page, recordsPerPage).Some? ==>
      var r := ReadAll(books, page, recordsPerPage).value;
      && |r| <= recordsPerPage
      && SortedBy(r, ByKey(Title))
      && (forall b :: b in r ==> b in books.Values)
      && (forall i :: 0 <= i < |r| ==> r[i] == Catalog(books)[(page - 1) * recordsPerPage + i])
  {
    if page >= 1 {
      assert (page - 1) * recordsPerPage >= 0;
      ByKeyPreorder(Title);
      SortBySorted(Rows(books), ByKey(Title));
      PageOfSortedListing(Catalog(books), page, recordsPerPage, ByKey(Title));
      CountAllIsRowCount(books);
    } else {
      assert (page - 1) * recordsPerPage < 0;
    }
  }

  // ---------------------------------------------------------------------------
  // The model object
  // ---------------------------------------------------------------------------

  /** A `Book` object: its public column properties and the connection. */
  class BookRecord {
    const db: Database
    var id: int
    var isbn: string
    var title: string
    var author: string
    var category: string
    var publicationYear: int
    var publisher: string
    var totalCopies: int
    var availableCopies: int
    var createdAt: Day

    function Fields(): BookFields
      reads this
    {
      BookFields(isbn, title, author, category, publicationYear, publisher, totalCopies, availableCopies)
    }

    constructor (db: Database)
      ensures this.db == db && id == 0
    {
      this.db := db;
      id, isbn, title, author, category := 0, "", "", "", "";
      publicationYear, publisher, totalCopies, availableCopies, createdAt := 0, "", 0, 0, 0;
    }

    /** `create()`: inserts the object's columns as a new row. */
    method Create() returns (ok: bool)
      requires db.Valid()
      modifies db
      ensures db.Valid()
      ensures var r := Inserted(old(db.Snapshot()), Fields(), db.clock);
        ok == r.Some? && db.Snapshot() == if ok then r.value else old(db.Snapshot())
    {
      if IsbnTaken(db.books, isbn, 0) {
        return false;
      }
      var newId := db.nextBookId;
      db.books := db.books[newId := Book(newId, isbn, title, author, category, publicationYear, publisher,
                                         totalCopies, availableCopies, db.clock)];
      db.nextBookId := newId + 1;
      ok := true;
    }

    /** `readOne()`: loads the row with this object's id, if there is one. */
    method ReadOne() returns (found: bool)
      modifies this
      ensures found == (id in db.books) && id == old(id)
      ensures found ==> Fields() == FieldsOf(db.books[id]) && createdAt == db.books[id].createdAt
      ensures !found ==> Fields() == old(Fields()) && createdAt == old(createdAt)
    {
      if id !in db.books {
        return false;
      }
      var row := db.books[id];
      isbn, title, author, category := row.isbn, row.title, row.author, row.category;
      publicationYear, publisher := row.publicationYear, row.publisher;
      totalCopies, availableCopies, createdAt := row.totalCopies, row.availableCopies, row.createdAt;
      found := true;
    }

    /** `update()`: writes the object's columns into the row with its id. */
    method Update() returns (ok: bool)
      requires db.Valid()
      modifies db
      ensures db.Valid()
      ensures var r := Updated(old(db.Snapshot()), id, Fields());
        ok == r.Some? && db.Snapshot() == if ok then r.value else old(db.Snapshot())
    {
      if id !in db.books {
        return true;
      }
      if IsbnTaken(db.books, isbn, id) {
        return false;
      }
      db.books := db.books[id := Book(id, isbn, title, author, category, publicationYear, publisher,
                                      totalCopies, availableCopies, db.books[id].createdAt)];
      ok := true;
    }

    /** `delete()`: removes the row with this object's id. */
    method Delete() returns (ok: bool)
      requires db.Valid()
      modifies db
      ensures db.Valid() && ok
      ensures db.Snapshot() == Deleted(old(db.Snapshot()), id)
    {
      db.books := db.books - {id};
      ok := true;
    }

    /** `updateAvailability($operation)`. */
    method UpdateAvailability(operation: string) returns (ok: bool)
      requires db.Valid()
      modifies db
      ensures db.Valid() && ok
      ensures db.Snapshot() == AvailabilityUpdated(old(db.Snapshot()), id, operation)
    {
      if id in db.books {
        var b := db.books[id];
        if operation == "checkout" {
          if b.availableCopies > 0 {
            db.books := db.books[id := b.(availableCopies := b.availableCopies - 1)];
          }
        } else if b.availableCopies < b.totalCopies {
          db.books := db.books[id := b.(availableCopies := b.availableCopies + 1)];
        }
      }
      ok := true;
    }
  }
}
