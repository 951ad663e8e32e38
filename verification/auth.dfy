/** Accounts and the login session (`includes/auth.php`): the role
    predicates over the session map, login, registration and logout. The
    password hash and its check are parameters: `hash` stands for
    `password_hash` and `verify` for `password_verify`. */
module Auth {
  import opened Common
  import opened Store

  /** A value stored in `$_SESSION`. */
  datatype SessionValue = IntValue(i: int) | StrValue(s: string)

  type Session = map<string, SessionValue>

  const UserIdKey: string := "user_id"
  const UsernameKey: string := "username"
  const RoleKey: string := "role"

  // ---------------------------------------------------------------------------
  // Reads of the session
  // ---------------------------------------------------------------------------

  predicate IsLoggedIn(s: Session) {
    UserIdKey in s
  }

  predicate IsAdmin(s: Session) {
    RoleKey in s && s[RoleKey] == StrValue("admin")
  }

  /** Librarians and administrators both count as librarians. */
  predicate IsLibrarian(s: Session) {
    RoleKey in s && (s[RoleKey] == StrValue("librarian") || s[RoleKey] == StrValue("admin"))
  }

  function CurrentUserId(s: Session): Option<SessionValue> {
    if UserIdKey in s then Some(s[UserIdKey]) else None
  }

  function CurrentUserRole(s: Session): Option<SessionValue> {
    if RoleKey in s then Some(s[RoleKey]) else None
  }

  /** What a successful login writes into the session. */
  function SignedIn(s: Session, u: User): Session {
    s[UserIdKey := IntValue(u.id)][UsernameKey := StrValue(u.username)][RoleKey := StrValue(u.role)]
  }

  /** The role predicates read the stored role and nothing else; an
      administrator is always a librarian; the getters are `None` exactly
      when the key is unset. */
  lemma RolePredicates(s: Session)
    ensures IsLibrarian(s) <==> CurrentUserRole(s) == Some(StrValue("librarian")) || CurrentUserRole(s) == Some(StrValue("admin"))
    ensures IsAdmin(s) <==> CurrentUserRole(s) == Some(StrValue("admin"))
    ensures IsAdmin(s) ==> IsLibrarian(s)
    ensures IsLoggedIn(s) <==> CurrentUserId(s).Some?
    ensures CurrentUserRole(s).None? ==> !IsLibrarian(s) && !IsAdmin(s)
  {
  }

  /** After a successful login the visitor is logged in as that user, with
      that user's role deciding the two role predicates. */
  lemma SignedInReflectsUser(s: Session, u: User)
    ensures IsLoggedIn(SignedIn(s, u))
    ensures CurrentUserId(SignedIn(s, u)) == Some(IntValue(u.id))
    ensures CurrentUserRole(SignedIn(s, u)) == Some(StrValue(u.role))
    ensures IsAdmin(SignedIn(s, u)) <==> u.role == "admin"
    ensures IsLibrarian(SignedIn(s, u)) <==> u.role == "librarian" || u.role == "admin"
  {
  }

  /** After logout nothing is set. */
  lemma LoggedOutSessionIsEmpty()
    ensures !IsLoggedIn(map[]) && !IsAdmin(map[]) && !IsLibrarian(map[])
    ensures CurrentUserId(map[]) == None && CurrentUserRole(map[]) == None
  {
  }

  // ---------------------------------------------------------------------------
  // The users table
  // ---------------------------------------------------------------------------

  /** `SELECT ... FROM users WHERE username = ?`, first row in primary-key order. */
  function HasName(username: string): User -> bool {
    (u: User) => u.username == username
  }

  function UserByName(users: map<int, User>, username: string): Option<User> {
    FirstNamed(Rows(users), username)
  }

  /** The first of the rows, in the order given, that has the name. */
  function FirstNamed(rows: seq<User>, username: string): Option<User> {
    var named := Filter(rows, HasName(username));
    if named == [] then None else Some(named[0])
  }

  predicate UsernameTaken(users: map<int, User>, username: string) {
    exists k :: k in users && users[k].username == username
  }

  /** `register()` when it inserts: a new user under a fresh id; `None` when
      the name is taken. */
  function Registered(t: Tables, username: string, hashed: string, role: string, clock: Day): (r: Option<Tables>)
    requires t.Valid()
    ensures r.Some? ==> r.value.Valid()
  {
    if UsernameTaken(t.users, username) then None
    else
      var id := t.nextUserId;
      Some(t.(users := t.users[id := User(id, username, hashed, role, clock)], nextUserId := id + 1))
  }

  /** The lookup by name finds a user exactly when one has that name. */
  lemma UserByNameFinds(users: map<int, User>, username: string)
    ensures UserByName(users, username).Some? <==> UsernameTaken(users, username)
    ensures UserByName(users, username).Some? ==>
      UserByName(users, username).value in users.Values && UserByName(users, username).value.username == username
  {
    var named := Filter(Rows(users), HasName(username));
    if UsernameTaken(users, username) {
      var k :| k in users && users[k].username == username;
      assert users[k] in users.Values;
      assert users[k] in named;
    }
    if named != [] {
      assert named[0] in named;
    }
  }

  /** When exactly one row has the name, the lookup returns that row. */
  lemma UserByNameUnique(users: map<int, User>, username: string, k0: int)
    requires k0 in users && users[k0].username == username
    requires forall j :: j in users && users[j].username == username ==> j == k0
    ensures UserByName(users, username) == Some(users[k0])
  {
    UserByNameFinds(users, username);
    var found := UserByName(users, username).value;
    var k :| k in users && users[k] == found;
  }

  /** Registration fails exactly on a taken name; otherwise the only change
      is one new user row, and looking the name up afterwards finds that row. */
  lemma RegisteredAddsOneUser(t: Tables, username: string, hashed: string, role: string, clock: Day)
    requires t.Valid()
    ensures Registered(t, username, hashed, role, clock).None? <==> UsernameTaken(t.users, username)
    ensures Registered(t, username, hashed, role, clock).Some? ==>
      var t' := Registered(t, username, hashed, role, clock).value;
      && t'.(users := t.users, nextUserId := t.nextUserId) == t
      && t'.users.Keys == t.users.Keys + {t.nextUserId}
  {
  }

  /** After a registration, looking the name up finds the new user. */
  lemma RegisteredIsFound(t: Tables, username: string, hashed: string, role: string, clock: Day)
    requires t.Valid() && !UsernameTaken(t.users, username)
    ensures UserByName(Registered(t, username, hashed, role, clock).value.users, username)
      == Some(User(t.nextUserId, username, hashed, role, clock))
  {
    FoundAfterAdding(t.users, User(t.nextUserId, username, hashed, role, clock));
  }

  /** A user added under a fresh key, with a name nobody else has, is what
      the lookup by that name finds afterwards. */
  lemma FoundAfterAdding(users: map<int, User>, u: User)
    requires u.id !in users && !UsernameTaken(users, u.username)
    ensures UserByName(users[u.id := u], u.username) == Some(u)
  {
    var users' := users[u.id := u];
    assert forall j :: j in users ==> users[j].username != u.username;
    assert forall j :: j in users' && users'[j].username == u.username ==> j == u.id;
    UserByNameUnique(users', u.username, u.id);
  }

  // ---------------------------------------------------------------------------
  // The Auth object
  // ---------------------------------------------------------------------------

  /** An `Auth` object: the connection and the request's session. */
  class Authenticator {
    const db: Database
    var session: Session

    constructor (db: Database, session: Session)
      ensures this.db == db && this.session == session
    {
      this.db := db;
      this.session := session;
    }

    /** `login($username, $password)`: on a matching user whose stored hash
        verifies, records the user in the session; otherwise changes nothing. */
    method Login(username: string, password: string, verify: (string, string) -> bool) returns (ok: bool)
      modifies this
      ensures var u := UserByName(db.users, username);
        && ok == (u.Some? && verify(password, u.value.passwordHash))
        && session == (if ok then SignedIn(old(session), u.value) else old(session))
    {
      var u := UserByName(db.users, username);
      if u.Some? && verify(password, u.value.passwordHash) {
        session := session[UserIdKey := IntValue(u.value.id)];
        session := session[UsernameKey := StrValue(u.value.username)];
        session := session[RoleKey := StrValue(u.value.role)];
        return true;
      }
      return false;
    }

    /** `register($username, $password, $role)`. */
    method Register(username: string, password: string, role: string, hash: string -> string) returns (ok: bool)
      requires db.Valid()
      modifies db
      ensures db.Valid()
      ensures var r := Registered(old(db.Snapshot()), username, hash(password), role, db.clock);
        ok == r.Some? && db.Snapshot() == if ok then r.value else old(db.Snapshot())
    {
      if UsernameTaken(db.users, username) {
        return false;
      }
      var id := db.nextUserId;
      db.users := db.users[id := User(id, username, hash(password), role, db.clock)];
      db.nextUserId := id + 1;
      ok := true;
    }

    /** `logout()`: the session is emptied. */
    method Logout() returns (ok: bool)
      modifies this
      ensures ok && session == map[]
    {
      session := map[];
      ok := true;
    }
  }

  /** A user who registers and then logs in with the same password is let in,
      provided the hash of a password verifies against that password. */
  lemma RegisterThenLogin(t: Tables, username: string, password: string, role: string, clock: Day,
                          hash: string -> string, verify: (string, string) -> bool)
    requires t.Valid() && !UsernameTaken(t.users, username)
    requires verify(password, hash(password))
    ensures var t' := Registered(t, username, hash(password), role, clock).value;
      && UserByName(t'.users, username).Some?
      && verify(password, UserByName(t'.users, username).value.passwordHash)
      && UserByName(t'.users, username).value.role == role
  {
    RegisteredIsFound(t, username, hash(password), role, clock);
  }
}
