/** The membership store (the `Member` model object over the `members`
    table): insert, read, update, delete, keyword search, paged listing,
    count, and the lookup of the member record that belongs to a login. */
module Members {
  import opened Common
  import opened Store

  /** The columns `create()` writes (everything except `id` and `created_at`). */
  datatype MemberFields = MemberFields(
    firstName: string,
    lastName: string,
    email: string,
    phone: string,
    address: string,
    membershipDate: Day,
    membershipStatus: MembershipStatus,
    userId: Option<int>)

  function FieldsOf(m: Member): MemberFields {
    MemberFields(m.firstName, m.lastName, m.email, m.phone, m.address, m.membershipDate,
                 m.membershipStatus, m.userId)
  }

  function LastName(m: Member): string { m.lastName }

  /** The properties of a `Member` object nothing has been loaded into. */
  const Unloaded: MemberFields := MemberFields("", "", "", "", "", 0, Active, None)

  /** The unique key on `email`: some row other than `except` already has it. */
  predicate EmailTaken(members: map<int, Member>, email: string, except: int) {
    exists k :: k in members && k != except && members[k].email == email
  }

  // ---------------------------------------------------------------------------
  // Writes, as functions of the store
  // ---------------------------------------------------------------------------

  /** `INSERT INTO members (...)`; `None` when the e-mail is already used. */
  function Inserted(t: Tables, f: MemberFields, clock: Day): (r: Option<Tables>)
    requires t.Valid()
    ensures r.Some? ==> r.value.Valid()
  {
    if EmailTaken(t.members, f.email, 0) then None
    else
      var id := t.nextMemberId;
      Some(t.(members := t.members[id := Member(id, f.firstName, f.lastName, f.email, f.phone, f.address,
                                                f.membershipDate, f.membershipStatus, f.userId, clock)],
              nextMemberId := id + 1))
  }

  /** `UPDATE members SET first_name, last_name, email, phone, address,
      membership_status, user_id WHERE id = ?`: the membership date is not
      among the columns written. An id with no row matches nothing, so
      nothing is written and the unique key on `email` cannot clash. */
  function Updated(t: Tables, id: int, f: MemberFields): (r: Option<Tables>)
    requires t.Valid()
    ensures r.Some? ==> r.value.Valid()
  {
    if id !in t.members then Some(t)
    else if EmailTaken(t.members, f.email, id) then None
    else
      var m := t.members[id];
      Some(t.(members := t.members[id := m.(firstName := f.firstName, lastName := f.lastName, email := f.email,
                                            phone := f.phone, address := f.address,
                                            membershipStatus := f.membershipStatus, userId := f.userId)]))
  }

  /** `DELETE FROM members WHERE id = ?`. */
  function Deleted(t: Tables, id: int): (r: Tables)
    requires t.Valid()
    ensures r.Valid()
  {
    t.(members := t.members - {id})
  }

  // ---------------------------------------------------------------------------
  // Reads
  // ---------------------------------------------------------------------------

  /** Every member, `ORDER BY last_name`. */
  function Roster(members: map<int, Member>): seq<Member> {
    SortBy(Rows(members), ByKey(LastName))
  }

  predicate MatchesKeyword(m: Member, keyword: string) {
    Contains(m.firstName, keyword) || Contains(m.lastName, keyword) || Contains(m.email, keyword)
  }

  /** `WHERE first_name LIKE ? OR last_name LIKE ? OR email LIKE ? ORDER BY last_name`. */
  function Search(members: map<int, Member>, keyword: string): seq<Member> {
    SortBy(Filter(Rows(members), m => MatchesKeyword(m, keyword)), ByKey(LastName))
  }

  /** `ORDER BY last_name LIMIT :limit OFFSET (page - 1) * limit`. */
  function ReadAll(members: map<int, Member>, page: int, recordsPerPage: int): Option<seq<Member>> {
    Paginate(Roster(members), page, recordsPerPage)
  }

  function CountAll(members: map<int, Member>): nat {
    |members|
  }

  /** `WHERE user_id = ? LIMIT 1`: the first such row in primary-key order. */
  function ByUserId(members: map<int, Member>, userId: int): Option<Member> {
    var owned := Filter(Rows(members), (m: Member) => m.userId == Some(userId));
    if owned == [] then None else Some(owned[0])
  }

  // ---------------------------------------------------------------------------
  // Properties
  // ---------------------------------------------------------------------------

  /** An insert fails exactly on a duplicate e-mail; otherwise it adds one row
      under a fresh id holding the given columns and changes nothing else. */
  lemma InsertedAddsOneRow(t: Tables, f: MemberFields, clock: Day)
    requires t.Valid()
    ensures Inserted(t, f, clock).None? <==> EmailTaken(t.members, f.email, 0)
    ensures Inserted(t, f, clock).Some? ==>
      var t' := Inserted(t, f, clock).value;
      var id := t.nextMemberId;
      && id !in t.members
      && t'.members.Keys == t.members.Keys + {id}
      && FieldsOf(t'.members[id]) == f && t'.members[id].createdAt == clock
      && (forall k :: k in t.members ==> t'.members[k] == t.members[k])
      && t'.(members := t.members, nextMemberId := t.nextMemberId) == t
  {
  }

  /** An update writes the editable columns of the one row with that id and
      keeps its id, its membership date and its creation date; every other
      row is untouched. */
  lemma UpdatedKeepsMembershipDate(t: Tables, id: int, f: MemberFields)
    requires t.Valid()
    ensures Updated(t, id, f).None? <==> id in t.members && EmailTaken(t.members, f.email, id)
    ensures Updated(t, id, f).Some? ==>
      var t' := Updated(t, id, f).value;
      && t'.members.Keys == t.members.Keys
      && (id in t.members ==>
            var m, m' := t.members[id], t'.members[id];
            && FieldsOf(m') == f.(membershipDate := m.membershipDate)
            && m'.id == id && m'.createdAt == m.createdAt)
      && (forall k :: k in t.members && k != id ==> t'.members[k] == t.members[k])
      && t'.(members := t.members) == t
  {
  }

  /** A delete removes only the row with that id. */
  lemma DeletedRemovesOneRow(t: Tables, id: int)
    requires t.Valid()
    ensures Deleted(t, id).members.Keys == t.members.Keys - {id}
    ensures forall k :: k in t.members && k != id ==> Deleted(t, id).members[k] == t.members[k]
    ensures CountAll(Deleted(t, id).members) == if id in t.members then CountAll(t.members) - 1 else CountAll(t.members)
    ensures Deleted(t, id).(members := t.members) == t
  {
    var m := t.members - {id};
    if id in t.members {
      assert t.members.Keys == m.Keys + {id};
      assert |t.members.Keys| == |m.Keys| + 1;
    } else {
      assert m.Keys == t.members.Keys;
    }
  }

  /** The search returns exactly the members whose first name, last name or
      e-mail contains the keyword, ordered by last name. */
  lemma SearchIsExact(members: map<int, Member>, keyword: string)
    ensures forall m :: m in Search(members, keyword) <==> m in members.Values && MatchesKeyword(m, keyword)
    ensures SortedBy(Search(members, keyword), ByKey(LastName))
    ensures |Search(members, keyword)| <= CountAll(members)
  {
    var matching := Filter(Rows(members), m => MatchesKeyword(m, keyword));
    forall m ensures m in Search(members, keyword) <==> m in members.Values && MatchesKeyword(m, keyword) {
      SortByMembers(matching, ByKey(LastName), m);
    }
    ByKeyPreorder(LastName);
    SortBySorted(matching, ByKey(LastName));
  }

  /** A page holds at most `recordsPerPage` members in last-name order, all
      of them stored rows; page numbers below 1 make the statement fail. */
  lemma ReadAllIsLastNameOrderedPage(members: map<int, Member>, page: int, recordsPerPage: int)
    requires recordsPerPage > 0
    ensures ReadAll(members, page, recordsPerPage).Some? <==> page >= 1
    ensures ReadAll(members, page, recordsPerPage).Some? ==>
      var r := ReadAll(members, page, recordsPerPage).value;
      && |r| <= recordsPerPage
      && SortedBy(r, ByKey(LastName))
      && (forall m :: m in r ==> m in members.Values)
      && (forall i :: 0 <= i < |r| ==> r[i] == Roster(members)[(page - 1) * recordsPerPage + i])
  {
    if page >= 1 {
      assert (page - 1) * recordsPerPage >= 0;
      ByKeyPreorder(LastName);
      SortBySorted(Rows(members), ByKey(LastName));
      PageOfSortedListing(Roster(members), page, recordsPerPage, ByKey(LastName));
      forall m | m in Roster(members) ensures m in members.Values {
        SortByMembers(Rows(members), ByKey(LastName), m);
      }
    } else {
      assert (page - 1) * recordsPerPage < 0;
    }
  }

  /** The lookup by login finds a member exactly when some member belongs to
      that login, and what it finds is a stored member of that login. */
  lemma ByUserIdFindsOwner(members: map<int, Member>, userId: int)
    ensures ByUserId(members, userId).Some? <==> exists m :: m in members.Values && m.userId == Some(userId)
    ensures ByUserId(members, userId).Some? ==>
      ByUserId(members, userId).value in members.Values && ByUserId(members, userId).value.userId == Some(userId)
  {
    var owned := Filter(Rows(members), (m: Member) => m.userId == Some(userId));
    if owned != [] {
      assert owned[0] in owned;
    }
  }

  // ---------------------------------------------------------------------------
  // The model object
  // ---------------------------------------------------------------------------

  /** A `Member` object: its public column properties and the connection. */
  class MemberRecord {
    const db: Database
    var id: int
    var firstName: string
    var lastName: string
    var email: string
    var phone: string
    var address: string
    var membershipDate: Day
    var membershipStatus: MembershipStatus
    var userId: Option<int>
    var createdAt: Day

    function Fields(): MemberFields
      reads this
    {
      MemberFields(firstName, lastName, email, phone, address, membershipDate, membershipStatus, userId)
    }

    constructor (db: Database)
      ensures this.db == db && id == 0 && Fields() == Unloaded
    {
      this.db := db;
      id, firstName, lastName, email, phone, address := 0, "", "", "", "", "";
      membershipDate, membershipStatus, userId, createdAt := 0, Active, None, 0;
    }

    /** `create()`. */
    method Create() returns (ok: bool)
      requires db.Valid()
      modifies db
      ensures db.Valid()
      ensures var r := Inserted(old(db.Snapshot()), Fields(), db.clock);
        ok == r.Some? && db.Snapshot() == if ok then r.value else old(db.Snapshot())
    {
      if EmailTaken(db.members, email, 0) {
        return false;
      }
      var newId := db.nextMemberId;
      db.members := db.members[newId := Member(newId, firstName, lastName, email, phone, address,
                                               membershipDate, membershipStatus, userId, db.clock)];
      db.nextMemberId := newId + 1;
      ok := true;
    }

    /** `readOne()`: loads the row with this object's id, if there is one. */
    method ReadOne() returns (found: bool)
      modifies this
      ensures found == (id in db.members) && id == old(id)
      ensures found ==> Fields() == FieldsOf(db.members[id]) && createdAt == db.members[id].createdAt
      ensures !found ==> Fields() == old(Fields()) && createdAt == old(createdAt)
    {
      if id !in db.members {
        return false;
      }
      var row := db.members[id];
      firstName, lastName, email, phone, address := row.firstName, row.lastName, row.email, row.phone, row.address;
      membershipDate, membershipStatus, userId, createdAt := row.membershipDate, row.membershipStatus, row.userId, row.createdAt;
      found := true;
    }

    /** `update()`. */
    method Update() returns (ok: bool)
      requires db.Valid()
      modifies db
      ensures db.Valid()
      ensures var r := Updated(old(db.Snapshot()), id, Fields());
        ok == r.Some? && db.Snapshot() == if ok then r.value else old(db.Snapshot())
    {
      if id !in db.members {
        return true;
      }
      if EmailTaken(db.members, email, id) {
        return false;
      }
      var m := db.members[id];
      db.members := db.members[id := m.(firstName := firstName, lastName := lastName, email := email,
                                        phone := phone, address := address,
                                        membershipStatus := membershipStatus, userId := userId)];
      ok := true;
    }

    /** `delete()`. */
    method Delete() returns (ok: bool)
      requires db.Valid()
      modifies db
      ensures db.Valid() && ok
      ensures db.Snapshot() == Deleted(old(db.Snapshot()), id)
    {
      db.members := db.members - {id};
      ok := true;
    }

    /** `getByUserId($user_id)`: loads the member that belongs to a login,
        its id included. */
    method GetByUserId(user: int) returns (found: bool)
      modifies this
      ensures found == ByUserId(db.members, user).Some?
      ensures found ==> id == ByUserId(db.members, user).value.id
      ensures found ==> Fields() == FieldsOf(ByUserId(db.members, user).value)
      ensures found ==> createdAt == ByUserId(db.members, user).value.createdAt
      ensures !found ==> id == old(id) && Fields() == old(Fields()) && createdAt == old(createdAt)
    {
      var r := ByUserId(db.members, user);
      if r.None? {
        return false;
      }
      Load(r.value);
      found := true;
    }

    /** Copies a fetched row into the object's properties. */
    method Load(row: Member)
      modifies this
      ensures id == row.id && Fields() == FieldsOf(row) && createdAt == row.createdAt
    {
      id := row.id;
      firstName, lastName, email, phone, address := row.firstName, row.lastName, row.email, row.phone, row.address;
      membershipDate, membershipStatus, userId, createdAt := row.membershipDate, row.membershipStatus, row.userId, row.createdAt;
    }
  }
}
