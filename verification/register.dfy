/** Self-registration (`register.php`): a visitor who is not logged in
    creates a login with the `user` role and the member profile linked to
    it; when the profile cannot be stored the new login is deleted again. */
module Register {
  import opened Common
  import opened Store
  import opened Auth
  import Members

  /** The posted form. */
  datatype RegisterForm = RegisterForm(
    username: string,
    password: string,
    confirmPassword: string,
    firstName: string,
    lastName: string,
    email: string,
    phone: string,
    address: string)

  datatype RegisterNotice =
    | NoRegisterNotice
    | FillRequired          // "Please fill all required fields."
    | PasswordsDiffer       // "Passwords do not match."
    | PasswordTooShort      // "Password must be at least 6 characters long."
    | RegisteredNotice      // "Registration successful! You can now login."
    | ProfileFailed         // "Error creating member profile."
    | UsernameUnavailable   // "Username already exists or error registering user."

  /** The values written back into the form's inputs. */
  datatype Prefill = Prefill(username: string, firstName: string, lastName: string, email: string,
                             phone: string, address: string)

  datatype RegisterPage = RedirectHome | RegisterView(notice: RegisterNotice, prefill: Prefill)

  const MinPasswordLength: nat := 6

  /** The role every self-registered login gets. */
  const SelfRegisteredRole: string := "user"

  const EmptyPrefill: Prefill := Prefill("", "", "", "", "", "")

  function PrefillOf(f: RegisterForm): Prefill {
    Prefill(f.username, f.firstName, f.lastName, f.email, f.phone, f.address)
  }

  /** The first failed check, in the page's order, if any. */
  function Invalid(f: RegisterForm): Option<RegisterNotice> {
    if Blank(f.username) || Blank(f.password) || Blank(f.confirmPassword)
       || Blank(f.firstName) || Blank(f.lastName) || Blank(f.email) then Some(FillRequired)
    else if f.password != f.confirmPassword then Some(PasswordsDiffer)
    else if |f.password| < MinPasswordLength then Some(PasswordTooShort)
    else None
  }

  /** The member profile created for the new login `userId`: active from
      today. */
  function ProfileFields(f: RegisterForm, today: Day, userId: Option<int>): Members.MemberFields {
    Members.MemberFields(f.firstName, f.lastName, f.email, f.phone, f.address, today, Active, userId)
  }

  /** `SELECT id FROM users WHERE username = ?` after the insert; a missing
      row gives a NULL id. */
  function NewUserId(users: map<int, User>, username: string): Option<int> {
    var u := UserByName(users, username);
    if u.Some? then Some(u.value.id) else None
  }

  /** `DELETE FROM users WHERE id = ?` (a NULL id matches no row). */
  function UserRemoved(t: Tables, userId: Option<int>): (r: Tables)
    requires t.Valid()
    ensures r.Valid()
  {
    if userId.Some? then t.(users := t.users - {userId.value}) else t
  }

  /** After the login is stored: create the profile linked to `userId`, or
      delete the login again. */
  function Profiled(t: Tables, clock: Day, f: RegisterForm, userId: Option<int>): (RegisterNotice, Tables)
    requires t.Valid()
  {
    var m := Members.Inserted(t, ProfileFields(f, clock, userId), clock);
    if m.Some? then (RegisteredNotice, m.value)
    else (ProfileFailed, UserRemoved(t, userId))
  }

  /** The valid form's path: register the login, then its profile. */
  function Enrolled(t: Tables, clock: Day, f: RegisterForm, hash: string -> string): (RegisterNotice, Tables)
    requires t.Valid()
  {
    var r := Registered(t, f.username, hash(f.password), SelfRegisteredRole, clock);
    if r.None? then (UsernameUnavailable, t)
    else Profiled(r.value, clock, f, NewUserId(r.value.users, f.username))
  }

  /** The whole page as a function of the store. */
  function Registration(t: Tables, clock: Day, s: Session, post: Option<RegisterForm>, hash: string -> string)
    : (RegisterPage, Tables)
    requires t.Valid()
  {
    if IsLoggedIn(s) then (RedirectHome, t)
    else if post.None? then (RegisterView(NoRegisterNotice, EmptyPrefill), t)
    else
      var f := post.value;
      if Invalid(f).Some? then (RegisterView(Invalid(f).value, PrefillOf(f)), t)
      else
        var (notice, t') := Enrolled(t, clock, f, hash);
        (RegisterView(notice, if notice == RegisteredNotice then EmptyPrefill else PrefillOf(f)), t')
  }

  // ---------------------------------------------------------------------------
  // Properties
  // ---------------------------------------------------------------------------

  /** The checks run in order: any empty required field first, then the
      mismatch, then the length; a form refused by them, and a visitor who
      is already logged in, write nothing. */
  lemma ValidationOrder(t: Tables, clock: Day, s: Session, f: RegisterForm, hash: string -> string)
    requires t.Valid() && !IsLoggedIn(s)
    ensures var (page, t') := Registration(t, clock, s, Some(f), hash);
      var blank := Blank(f.username) || Blank(f.password) || Blank(f.confirmPassword)
                   || Blank(f.firstName) || Blank(f.lastName) || Blank(f.email);
      && page.RegisterView?
      && (page.notice == FillRequired <==> blank)
      && (page.notice == PasswordsDiffer <==> !blank && f.password != f.confirmPassword)
      && (page.notice == PasswordTooShort <==> !blank && f.password == f.confirmPassword && |f.password| < MinPasswordLength)
      && (page.notice in {FillRequired, PasswordsDiffer, PasswordTooShort} ==> t' == t && page.prefill == PrefillOf(f))
  {
  }

  lemma LoggedInIsRedirected(t: Tables, clock: Day, s: Session, post: Option<RegisterForm>, hash: string -> string)
    requires t.Valid() && IsLoggedIn(s)
    ensures Registration(t, clock, s, post, hash) == (RedirectHome, t)
  {
  }

  /** A successful registration adds exactly one login, with the `user` role
      and the hashed password, and exactly one active member profile from
      today linked to that login; nothing else changes. The form is cleared. */
  lemma EnrolledCreatesLinkedMember(t: Tables, clock: Day, f: RegisterForm, hash: string -> string)
    requires t.Valid()
    ensures var (notice, t') := Enrolled(t, clock, f, hash);
      var uid := t.nextUserId;
      var mid := t.nextMemberId;
      notice == RegisteredNotice ==>
        && t'.users.Keys == t.users.Keys + {uid}
        && t'.users[uid] == User(uid, f.username, hash(f.password), SelfRegisteredRole, clock)
        && (forall k :: k in t.users ==> t'.users[k] == t.users[k])
        && t'.members.Keys == t.members.Keys + {mid}
        && Members.FieldsOf(t'.members[mid]) == ProfileFields(f, clock, Some(uid))
        && (forall k :: k in t.members ==> t'.members[k] == t.members[k])
        && t'.books == t.books && t'.loans == t.loans
  {
    var r := Registered(t, f.username, hash(f.password), SelfRegisteredRole, clock);
    RegisteredAddsOneUser(t, f.username, hash(f.password), SelfRegisteredRole, clock);
    if r.Some? {
      RegisteredIsFound(t, f.username, hash(f.password), SelfRegisteredRole, clock);
      assert NewUserId(r.value.users, f.username) == Some(t.nextUserId);
      assert Enrolled(t, clock, f, hash) == Profiled(r.value, clock, f, Some(t.nextUserId));
      ProfileAddsOneMember(t, r.value, clock, f, t.nextUserId);
    }
  }

  /** A profile created after the login adds one member row linked to it and
      leaves the logins as they are. */
  lemma ProfileAddsOneMember(t: Tables, r: Tables, clock: Day, f: RegisterForm, uid: int)
    requires t.Valid() && r.Valid()
    requires r.members == t.members && r.nextMemberId == t.nextMemberId && r.books == t.books && r.loans == t.loans
    ensures var (notice, t') := Profiled(r, clock, f, Some(uid));
      notice == RegisteredNotice ==>
        && t'.users == r.users
        && t'.members.Keys == t.members.Keys + {t.nextMemberId}
        && Members.FieldsOf(t'.members[t.nextMemberId]) == ProfileFields(f, clock, Some(uid))
        && (forall k :: k in t.members ==> t'.members[k] == t.members[k])
        && t'.books == t.books && t'.loans == t.loans
  {
    Members.InsertedAddsOneRow(r, ProfileFields(f, clock, Some(uid)), clock);
  }

  /** A registration is turned down for a taken username, and its profile
      fails for an e-mail already on file. */
  lemma EnrolledOutcomes(t: Tables, clock: Day, f: RegisterForm, hash: string -> string)
    requires t.Valid()
    ensures var notice := Enrolled(t, clock, f, hash).0;
      && (notice == UsernameUnavailable <==> UsernameTaken(t.users, f.username))
      && (notice == ProfileFailed <==> !UsernameTaken(t.users, f.username) && Members.EmailTaken(t.members, f.email, 0))
      && (notice == RegisteredNotice <==> !UsernameTaken(t.users, f.username) && !Members.EmailTaken(t.members, f.email, 0))
  {
    var r := Registered(t, f.username, hash(f.password), SelfRegisteredRole, clock);
    RegisteredAddsOneUser(t, f.username, hash(f.password), SelfRegisteredRole, clock);
    if r.Some? {
      var userId := NewUserId(r.value.users, f.username);
      Members.InsertedAddsOneRow(r.value, ProfileFields(f, clock, userId), clock);
      assert r.value.members == t.members;
    }
  }

  /** A turned-down registration writes nothing; when the profile fails the
      new login is deleted again, so the tables hold what they held before
      and only the users' auto-increment counter has moved on. */
  lemma FailedEnrolmentRollsBack(t: Tables, clock: Day, f: RegisterForm, hash: string -> string)
    requires t.Valid()
    ensures var (notice, t') := Enrolled(t, clock, f, hash);
      && (notice == UsernameUnavailable ==> t' == t)
      && (notice == ProfileFailed ==> t' == t.(nextUserId := t.nextUserId + 1))
  {
    var r := Registered(t, f.username, hash(f.password), SelfRegisteredRole, clock);
    if r.Some? {
      RegisteredIsFound(t, f.username, hash(f.password), SelfRegisteredRole, clock);
      var uid := NewUserId(r.value.users, f.username);
      assert uid == Some(t.nextUserId);
      var u := User(t.nextUserId, f.username, hash(f.password), SelfRegisteredRole, clock);
      RemovingNewLogin(t, u, r.value);
      var (notice, t') := Profiled(r.value, clock, f, uid);
      assert notice == ProfileFailed ==> t' == UserRemoved(r.value, uid);
    }
  }

  /** Deleting the login a registration just stored leaves the store as
      before, with only the users' counter moved on. */
  lemma RemovingNewLogin(t: Tables, u: User, r: Tables)
    requires t.Valid() && u.id == t.nextUserId
    requires r == t.(users := t.users[u.id := u], nextUserId := t.nextUserId + 1)
    requires r.Valid()
    ensures UserRemoved(r, Some(u.id)) == t.(nextUserId := t.nextUserId + 1)
  {
    assert u.id !in t.users;
    WithoutNewKey(t.users, u.id, u);
  }

  /** Deleting a key just added to a map gives the map back. */
  lemma WithoutNewKey<V>(m: map<int, V>, k: int, v: V)
    requires k !in m
    ensures m[k := v] - {k} == m
  {
  }

  /** The new login can sign in with the password it registered, when the
      hash of a password verifies against that password. */
  lemma RegisteredCanLogIn(t: Tables, clock: Day, f: RegisterForm, hash: string -> string,
                           verify: (string, string) -> bool)
    requires t.Valid() && verify(f.password, hash(f.password))
    requires Enrolled(t, clock, f, hash).0 == RegisteredNotice
    ensures var t' := Enrolled(t, clock, f, hash).1;
      && UserByName(t'.users, f.username).Some?
      && verify(f.password, UserByName(t'.users, f.username).value.passwordHash)
      && UserByName(t'.users, f.username).value.role == SelfRegisteredRole
  {
    var r := Registered(t, f.username, hash(f.password), SelfRegisteredRole, clock);
    RegisteredAddsOneUser(t, f.username, hash(f.password), SelfRegisteredRole, clock);
    RegisteredIsFound(t, f.username, hash(f.password), SelfRegisteredRole, clock);
    var userId := NewUserId(r.value.users, f.username);
    Members.InsertedAddsOneRow(r.value, ProfileFields(f, clock, userId), clock);
  }

  // ---------------------------------------------------------------------------
  // The page
  // ---------------------------------------------------------------------------

  /** Registration of the login, then its profile. */
  method Enroll(auth: Authenticator, f: RegisterForm, hash: string -> string) returns (notice: RegisterNotice)
    requires auth.db.Valid()
    modifies auth.db
    ensures auth.db.Valid()
    ensures (notice, auth.db.Snapshot()) == Enrolled(old(auth.db.Snapshot()), auth.db.clock, f, hash)
  {
    var db := auth.db;
    var registered := auth.Register(f.username, f.password, SelfRegisteredRole, hash);
    if !registered {
      return UsernameUnavailable;
    }
    var userId := NewUserId(db.users, f.username);
    notice := CreateProfile(db, f, userId);
  }

  /** Profile creation for the new login, and the rollback of the login. */
  method CreateProfile(db: Database, f: RegisterForm, userId: Option<int>) returns (notice: RegisterNotice)
    requires db.Valid()
    modifies db
    ensures db.Valid()
    ensures (notice, db.Snapshot()) == Profiled(old(db.Snapshot()), db.clock, f, userId)
  {
    var member := new Members.MemberRecord(db);
    member.firstName, member.lastName, member.email := f.firstName, f.lastName, f.email;
    member.phone, member.address := f.phone, f.address;
    member.membershipDate, member.membershipStatus, member.userId := db.clock, Active, userId;
    assert member.Fields() == ProfileFields(f, db.clock, userId);
    var created := member.Create();
    if created {
      return RegisteredNotice;
    }
    DeleteUser(db, userId);
    notice := ProfileFailed;
  }

  /** `DELETE FROM users WHERE id = ?`. */
  method DeleteUser(db: Database, userId: Option<int>)
    requires db.Valid()
    modifies db
    ensures db.Valid()
    ensures db.Snapshot() == UserRemoved(old(db.Snapshot()), userId)
  {
    if userId.Some? {
      db.users := db.users - {userId.value};
    }
  }

  /** `register.php`. */
  method RegisterPageFor(auth: Authenticator, post: Option<RegisterForm>, hash: string -> string)
    returns (page: RegisterPage)
    requires auth.db.Valid()
    modifies auth.db
    ensures auth.db.Valid()
    ensures (page, auth.db.Snapshot()) == Registration(old(auth.db.Snapshot()), auth.db.clock, auth.session, post, hash)
  {
    if IsLoggedIn(auth.session) {
      return RedirectHome;
    }
    if post.None? {
      return RegisterView(NoRegisterNotice, EmptyPrefill);
    }
    var f := post.value;
    var refused := Invalid(f);
    if refused.Some? {
      return RegisterView(refused.value, PrefillOf(f));
    }
    var notice := Enroll(auth, f, hash);
    page := RegisterView(notice, if notice == RegisteredNotice then EmptyPrefill else PrefillOf(f));
  }
}
