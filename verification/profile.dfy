/** A logged-in user's own page (`profile.php`): the member profile linked
    to the login with its edit form, the loans still out with their
    due-date badges, the returned loans, and the password change. */
module Profile {
  import opened Common
  import opened Store
  import opened Auth
  import Members
  import Loans
  import MemberDetail

  /** The posted `update_profile` form. */
  datatype ProfileForm = ProfileForm(firstName: string, lastName: string, email: string, phone: string, address: string)

  /** The posted `change_password` form. */
  datatype PasswordForm = PasswordForm(currentPassword: string, newPassword: string, confirmPassword: string)

  /** The two forms a request may carry (a GET carries neither). */
  datatype ProfilePost = ProfilePost(update: Option<ProfileForm>, password: Option<PasswordForm>)

  datatype ProfileError =
    | NamesAndEmailRequired     // "First name, last name and email are required."
    | ProfileUpdateFailed       // "Unable to update profile. Please try again."
    | PasswordFieldsRequired    // "All password fields are required."
    | NewPasswordsDiffer        // "New passwords do not match."
    | NewPasswordTooShort       // "New password must be at least 6 characters long."
    | CurrentPasswordIncorrect  // "Current password is incorrect."

  datatype ProfileSuccess =
    | ProfileUpdated            // "Profile updated successfully."
    | PasswordChanged           // "Password changed successfully."

  /** What one of the two form blocks reports: it sets `$error` or `$success`. */
  datatype Notice = Failed(error: ProfileError) | Succeeded(success: ProfileSuccess)

  /** The two alerts of the page; a later block overwrites what an earlier
      one set in the same variable. */
  datatype Alerts = Alerts(error: Option<ProfileError>, success: Option<ProfileSuccess>)

  /** The two loan tables: the loans still out, each with its due-date
      badge, and the returned loans of the history. */
  datatype LoanPanels = LoanPanels(active: seq<Loans.TitledLoan>, badges: seq<MemberDetail.DueBadge>,
                                   returned: seq<Loans.TitledLoan>)

  datatype ProfilePage =
    | RedirectLogin
    | ProfileView(alerts: Alerts, profile: Option<Members.MemberFields>, form: Members.MemberFields,
                  loans: LoanPanels)

  const MinPasswordLength: nat := 6

  const NoAlerts: Alerts := Alerts(None, None)

  // ---------------------------------------------------------------------------
  // The session
  // ---------------------------------------------------------------------------

  /** `$_SESSION['user_id']` as a row id; anything else matches no row. */
  function SessionUserId(s: Session): Option<int> {
    if UserIdKey in s && s[UserIdKey].IntValue? then Some(s[UserIdKey].i) else None
  }

  /** `$_SESSION['username']`; anything else matches no row. */
  function SessionUsername(s: Session): Option<string> {
    if UsernameKey in s && s[UsernameKey].StrValue? then Some(s[UsernameKey].s) else None
  }

  /** `getByUserId(getCurrentUserId())`: the member profile of the login. */
  function OwnMember(t: Tables, s: Session): Option<Member> {
    var uid := SessionUserId(s);
    if uid.None? then None else Members.ByUserId(t.members, uid.value)
  }

  // ---------------------------------------------------------------------------
  // The two form blocks
  // ---------------------------------------------------------------------------

  function Noted(a: Alerts, n: Option<Notice>): Alerts {
    match n
    case None => a
    case Some(Failed(e)) => a.(error := Some(e))
    case Some(Succeeded(s)) => a.(success := Some(s))
  }

  /** A block that ran, with the notice it set. */
  function Handled(r: (Notice, Tables)): (Option<Notice>, Tables) {
    (Some(r.0), r.1)
  }

  /** The object's properties after the profile form is copied in. */
  function Edited(loaded: Members.MemberFields, f: ProfileForm): Members.MemberFields {
    loaded.(firstName := f.firstName, lastName := f.lastName, email := f.email, phone := f.phone, address := f.address)
  }

  /** Validation, then `update()` of the row `id`. */
  function ProfileUpdate(t: Tables, id: int, fields: Members.MemberFields): (r: (Notice, Tables))
    requires t.Valid()
    ensures r.1.Valid()
  {
    if Blank(fields.firstName) || Blank(fields.lastName) || Blank(fields.email) then (Failed(NamesAndEmailRequired), t)
    else
      var r := Members.Updated(t, id, fields);
      if r.Some? then (Succeeded(ProfileUpdated), r.value) else (Failed(ProfileUpdateFailed), t)
  }

  /** The first failed check of the password form, in the page's order. */
  function PasswordRefusal(f: PasswordForm): Option<ProfileError> {
    if Blank(f.currentPassword) || Blank(f.newPassword) || Blank(f.confirmPassword) then Some(PasswordFieldsRequired)
    else if f.newPassword != f.confirmPassword then Some(NewPasswordsDiffer)
    else if |f.newPassword| < MinPasswordLength then Some(NewPasswordTooShort)
    else None
  }

  /** `SELECT password FROM users WHERE username = ?` for the session's
      username, and `password_verify` against what it finds. */
  predicate CurrentPasswordVerifies(users: map<int, User>, s: Session, password: string,
                                    verify: (string, string) -> bool) {
    var name := SessionUsername(s);
    var row := if name.Some? then UserByName(users, name.value) else None;
    row.Some? && verify(password, row.value.passwordHash)
  }

  /** `UPDATE users SET password = ? WHERE id = ?`. */
  function PasswordSet(t: Tables, userId: Option<int>, hashed: string): (r: Tables)
    requires t.Valid()
    ensures r.Valid()
  {
    if userId.Some? && userId.value in t.users then
      t.(users := t.users[userId.value := t.users[userId.value].(passwordHash := hashed)])
    else t
  }

  /** The password block: the checks, the current password verified against
      the row named by the session's username, the new hash written to the
      row with the session's user id. */
  function PasswordChange(t: Tables, s: Session, f: PasswordForm, hash: string -> string,
                          verify: (string, string) -> bool): (r: (Notice, Tables))
    requires t.Valid()
    ensures r.1.Valid()
  {
    if PasswordRefusal(f).Some? then (Failed(PasswordRefusal(f).value), t)
    else
      if CurrentPasswordVerifies(t.users, s, f.currentPassword, verify) then
        (Succeeded(PasswordChanged), PasswordSet(t, SessionUserId(s), hash(f.newPassword)))
      else (Failed(CurrentPasswordIncorrect), t)
  }

  // ---------------------------------------------------------------------------
  // The page, as a function of the store
  // ---------------------------------------------------------------------------

  /** The loans of the member `memberId`, if the login has a profile. */
  function Panels(t: Tables, memberId: Option<int>, today: Day, secondsIntoDay: int): LoanPanels
    requires 0 <= secondsIntoDay < MemberDetail.SecondsPerDay
  {
    if memberId.None? then LoanPanels([], [], [])
    else
      var active := Loans.MemberActiveLoans(t, memberId.value);
      LoanPanels(active, MapSeq(active, MemberDetail.BadgeOn(today, secondsIntoDay)),
                 Filter(Loans.MemberLoanHistory(t, memberId.value), MemberDetail.StatusIs(Returned)))
  }

  /** The profile block, then the password block, on the `Member` object
      with id `id` and properties `loaded`: the alerts, the object's
      properties and the store afterwards. */
  function Blocks(t: Tables, s: Session, id: int, loaded: Members.MemberFields, post: ProfilePost,
                  hash: string -> string, verify: (string, string) -> bool): (r: (Alerts, Members.MemberFields, Tables))
    requires t.Valid()
    ensures r.2.Valid()
  {
    var shown := if post.update.Some? then Edited(loaded, post.update.value) else loaded;
    var (n1, t1) := if post.update.Some? then Handled(ProfileUpdate(t, id, shown)) else (None, t);
    var (n2, t2) := if post.password.Some? then Handled(PasswordChange(t1, s, post.password.value, hash, verify))
                    else (None, t1);
    (Noted(Noted(NoAlerts, n1), n2), shown, t2)
  }

  /** The loans are read first (with the member's id, or not at all without
      a profile); then the two form blocks run. A login without a profile
      works on an unloaded object, whose id matches no row. */
  function ProfileOf(t: Tables, today: Day, secondsIntoDay: int, s: Session, post: ProfilePost,
                     hash: string -> string, verify: (string, string) -> bool): (ProfilePage, Tables)
    requires t.Valid() && 0 <= secondsIntoDay < MemberDetail.SecondsPerDay
  {
    if !IsLoggedIn(s) then (RedirectLogin, t)
    else
      var owner := OwnMember(t, s);
      var id := if owner.Some? then owner.value.id else 0;
      var loaded := if owner.Some? then Members.FieldsOf(owner.value) else Members.Unloaded;
      var (alerts, shown, t') := Blocks(t, s, id, loaded, post, hash, verify);
      (ProfileView(alerts, if owner.Some? then Some(shown) else None, shown,
                   Panels(t, if owner.Some? then Some(id) else None, today, secondsIntoDay)), t')
  }

  // ---------------------------------------------------------------------------
  // Properties
  // ---------------------------------------------------------------------------

  /** Only a logged-in visitor sees the page, and a redirect writes
      nothing; a visit without a form writes nothing and shows no alert. */
  lemma ProfileGuards(t: Tables, today: Day, secondsIntoDay: int, s: Session, post: ProfilePost,
                      hash: string -> string, verify: (string, string) -> bool)
    requires t.Valid() && 0 <= secondsIntoDay < MemberDetail.SecondsPerDay
    ensures var (page, t') := ProfileOf(t, today, secondsIntoDay, s, post, hash, verify);
      && (page == RedirectLogin <==> !IsLoggedIn(s))
      && (page == RedirectLogin ==> t' == t)
      && (page.ProfileView? && post == ProfilePost(None, None) ==> t' == t && page.alerts == NoAlerts)
  {
  }

  /** The profile shown is the member linked to the login: there is one
      exactly when some member row carries the session's user id, and it is
      such a row, stored under its own id. */
  lemma OwnMemberIsLinked(t: Tables, s: Session)
    requires t.Valid()
    ensures OwnMember(t, s).Some? <==>
      SessionUserId(s).Some? && exists m :: m in t.members.Values && m.userId == SessionUserId(s)
    ensures OwnMember(t, s).Some? ==>
      var m := OwnMember(t, s).value;
      m.userId == SessionUserId(s) && m.id in t.members && t.members[m.id] == m
  {
    var uid := SessionUserId(s);
    if uid.Some? {
      Members.ByUserIdFindsOwner(t.members, uid.value);
      if OwnMember(t, s).Some? {
        StoredUnderOwnId(t, OwnMember(t, s).value);
      }
    }
  }

  /** A member found in the table is the row stored under its own id. */
  lemma StoredUnderOwnId(t: Tables, m: Member)
    requires t.Valid() && m in t.members.Values
    ensures m.id in t.members && t.members[m.id] == m
  {
    var rows := Rows(t.members);
    assert m in rows;
    var i :| 0 <= i < |rows| && rows[i] == m;
    RowsInKeyOrder(t.members);
    var k := KeysAsc(t.members.Keys)[i];
    assert t.members[k] == m;
  }

  /** The profile form needs first name, last name and e-mail. On a stored
      member, a successful update writes the five posted columns into that
      member's row (its membership date stays) and nothing else; it fails
      on an e-mail another member has, and then writes nothing. On an id
      with no row (a login without a profile) nothing is written, yet the
      update is reported as a success. The form shows the posted values
      either way. */
  lemma ProfileUpdateIsExact(t: Tables, s: Session, id: int, loaded: Members.MemberFields, f: ProfileForm,
                             hash: string -> string, verify: (string, string) -> bool)
    requires t.Valid()
    ensures var (alerts, shown, t') := Blocks(t, s, id, loaded, ProfilePost(Some(f), None), hash, verify);
      var blank := Blank(f.firstName) || Blank(f.lastName) || Blank(f.email);
      && shown == Edited(loaded, f)
      && (alerts.error == Some(NamesAndEmailRequired) <==> blank)
      && (alerts.error == Some(ProfileUpdateFailed) <==>
            !blank && id in t.members && Members.EmailTaken(t.members, f.email, id))
      && (alerts.success == Some(ProfileUpdated) <==> alerts.error.None?)
      && (alerts.success.None? || id !in t.members ==> t' == t)
      && (alerts.success.Some? && id in t.members ==>
            && t'.members.Keys == t.members.Keys
            && Members.FieldsOf(t'.members[id]) == Edited(loaded, f).(membershipDate := t.members[id].membershipDate)
            && (forall k :: k in t.members && k != id ==> t'.members[k] == t.members[k])
            && t'.(members := t.members) == t)
  {
    Members.UpdatedKeepsMembershipDate(t, id, Edited(loaded, f));
  }

  /** The password checks run in order: an empty field, then the mismatch,
      then the length, then the current password against the stored hash
      of the session's username; any refusal writes nothing. */
  lemma PasswordChecksInOrder(t: Tables, s: Session, id: int, loaded: Members.MemberFields, f: PasswordForm,
                              hash: string -> string, verify: (string, string) -> bool)
    requires t.Valid()
    ensures var (alerts, shown, t') := Blocks(t, s, id, loaded, ProfilePost(None, Some(f)), hash, verify);
      var blank := Blank(f.currentPassword) || Blank(f.newPassword) || Blank(f.confirmPassword);
      var passes := !blank && f.newPassword == f.confirmPassword && |f.newPassword| >= MinPasswordLength;
      && shown == loaded
      && (alerts.error == Some(PasswordFieldsRequired) <==> blank)
      && (alerts.error == Some(NewPasswordsDiffer) <==> !blank && f.newPassword != f.confirmPassword)
      && (alerts.error == Some(NewPasswordTooShort) <==>
            !blank && f.newPassword == f.confirmPassword && |f.newPassword| < MinPasswordLength)
      && (alerts.error == Some(CurrentPasswordIncorrect) <==>
            passes && !CurrentPasswordVerifies(t.users, s, f.currentPassword, verify))
      && (alerts.success == Some(PasswordChanged) <==> alerts.error.None?)
      && (alerts.error.Some? ==> t' == t)
  {
  }

  /** The first row a filter keeps, after a mapping that does not change the
      filter's verdict, is the image of the first row it kept before. */
  lemma FirstAfterMapping<T(!new)>(s: seq<T>, g: T -> T, p: T -> bool)
    requires forall x :: x in s ==> p(g(x)) == p(x)
    ensures |Filter(MapSeq(s, g), p)| == |Filter(s, p)|
    ensures Filter(s, p) != [] ==> Filter(MapSeq(s, g), p)[0] == g(Filter(s, p)[0])
  {
    FilterMapSeq(s, g, p);
  }

  /** The row a password change writes, given any row of the table. */
  function Rehashed(userId: int, hashed: string): User -> User {
    (u: User) => if u.id == userId then u.(passwordHash := hashed) else u
  }

  /** After one login is rehashed, the logins in key order are the old ones
      with that row rehashed. */
  lemma RowsAfterRehash(users: map<int, User>, userId: int, hashed: string)
    requires userId in users && forall k :: k in users ==> users[k].id == k
    ensures Rows(users[userId := users[userId].(passwordHash := hashed)]) == MapSeq(Rows(users), Rehashed(userId, hashed))
  {
    RowsAfterPut(users, userId, users[userId].(passwordHash := hashed), Rehashed(userId, hashed));
  }

  /** Rehashing one login leaves every lookup by name finding the same
      login, now with the new hash if it is the rehashed one. */
  lemma RehashKeepsLookup(users: map<int, User>, userId: int, hashed: string, name: string)
    requires userId in users && forall k :: k in users ==> users[k].id == k
    ensures var before := UserByName(users, name);
      UserByName(users[userId := users[userId].(passwordHash := hashed)], name)
        == if before.Some? then Some(Rehashed(userId, hashed)(before.value)) else None
  {
    var users' := users[userId := users[userId].(passwordHash := hashed)];
    var g := Rehashed(userId, hashed);
    assert Rows(users') == MapSeq(Rows(users), g) by {
      RowsAfterRehash(users, userId, hashed);
    }
    LookupAfterMapping(users, users', g, name);
  }

  /** A table whose rows are another's changed without touching names finds,
      by name, what the other finds, changed the same way. */
  lemma LookupAfterMapping(users: map<int, User>, users': map<int, User>, g: User -> User, name: string)
    requires Rows(users') == MapSeq(Rows(users), g)
    requires forall x: User :: g(x).username == x.username
    ensures var before := UserByName(users, name);
      UserByName(users', name) == if before.Some? then Some(g(before.value)) else None
  {
    FirstNamedAfterMapping(Rows(users), g, name);
  }

  /** Changing rows without changing their names keeps the first row with a
      name the first, changed the same way. */
  lemma FirstNamedAfterMapping(rows: seq<User>, g: User -> User, name: string)
    requires forall x: User :: g(x).username == x.username
    ensures var before := FirstNamed(rows, name);
      FirstNamed(MapSeq(rows, g), name) == if before.Some? then Some(g(before.value)) else None
  {
    FirstAfterMapping(rows, g, HasName(name));
  }

  /** A change by a user whose session names their own login (as a login
      leaves it) succeeds exactly when the form passes its checks and the
      current password verifies against the stored hash, and then the new
      hash is written to that login; otherwise nothing is written. */
  lemma PasswordChangeTakesEffect(t: Tables, s: Session, u: User, f: PasswordForm,
                                  hash: string -> string, verify: (string, string) -> bool)
    requires t.Valid() && u.id in t.users && t.users[u.id] == u && UserByName(t.users, u.username) == Some(u)
    requires SessionUserId(s) == Some(u.id) && SessionUsername(s) == Some(u.username)
    ensures var (notice, t') := PasswordChange(t, s, f, hash, verify);
      && (notice == Succeeded(PasswordChanged) <==>
            PasswordRefusal(f).None? && verify(f.currentPassword, u.passwordHash))
      && (notice == Succeeded(PasswordChanged) ==> t' == PasswordSet(t, Some(u.id), hash(f.newPassword)))
      && (notice != Succeeded(PasswordChanged) ==> t' == t)
  {
    assert CurrentPasswordVerifies(t.users, s, f.currentPassword, verify) <==> verify(f.currentPassword, u.passwordHash);
  }

  /** The password update writes the new hash into that one login and
      nothing else. */
  lemma PasswordSetWritesOneLogin(t: Tables, userId: int, hashed: string)
    requires t.Valid() && userId in t.users
    ensures var t' := PasswordSet(t, Some(userId), hashed);
      && t'.users.Keys == t.users.Keys
      && t'.users[userId] == t.users[userId].(passwordHash := hashed)
      && (forall k :: k in t.users && k != userId ==> t'.users[k] == t.users[k])
      && t'.(users := t.users) == t
  {
  }

  /** After the change, logging in with the new password is let in as that
      user (when the hash of a password verifies against it). */
  lemma NewPasswordLogsIn(t: Tables, s: Session, u: User, f: PasswordForm,
                          hash: string -> string, verify: (string, string) -> bool)
    requires t.Valid() && u.id in t.users && t.users[u.id] == u && UserByName(t.users, u.username) == Some(u)
    requires SessionUserId(s) == Some(u.id) && SessionUsername(s) == Some(u.username)
    requires verify(f.newPassword, hash(f.newPassword))
    requires PasswordChange(t, s, f, hash, verify).0 == Succeeded(PasswordChanged)
    ensures var users' := PasswordChange(t, s, f, hash, verify).1.users;
      && UserByName(users', u.username) == Some(u.(passwordHash := hash(f.newPassword)))
      && verify(f.newPassword, UserByName(users', u.username).value.passwordHash)
  {
    assert PasswordChange(t, s, f, hash, verify).1.users == t.users[u.id := u.(passwordHash := hash(f.newPassword))];
    RehashKeepsLookup(t.users, u.id, hash(f.newPassword), u.username);
  }

  /** The active table holds exactly the member's checked-out loans, each
      with the badge of its due date. */
  lemma ActivePanelIsExact(t: Tables, memberId: int, today: Day, secondsIntoDay: int)
    requires 0 <= secondsIntoDay < MemberDetail.SecondsPerDay
    ensures var p := Panels(t, Some(memberId), today, secondsIntoDay);
      && |p.badges| == |p.active|
      && (forall i :: 0 <= i < |p.active| ==>
            p.badges[i] == MemberDetail.BadgeFor(MemberDetail.DaysLeft(p.active[i].loan.dueDate, today, secondsIntoDay)))
      && (forall l :: Loans.TitledIn(t)(l) in p.active <==>
            l in t.loans.Values && l.memberId == memberId && l.status == CheckedOut)
  {
    var p := Panels(t, Some(memberId), today, secondsIntoDay);
    assert p.active == Loans.MemberActiveLoans(t, memberId);
    Loans.MemberActiveLoansAreExact(t, memberId);
  }

  /** The history table holds exactly the member's returned loans. */
  lemma ReturnedPanelIsExact(t: Tables, memberId: int, today: Day, secondsIntoDay: int)
    requires 0 <= secondsIntoDay < MemberDetail.SecondsPerDay
    ensures var p := Panels(t, Some(memberId), today, secondsIntoDay);
      && (forall l :: Loans.TitledIn(t)(l) in p.returned <==>
            l in t.loans.Values && l.memberId == memberId && l.status == Returned)
      && (forall v :: v in p.returned ==> v == Loans.TitledIn(t)(v.loan))
  {
    ReturnedOfHistory(t, memberId, Panels(t, Some(memberId), today, secondsIntoDay).returned);
  }

  /** The returned loans picked out of a member's history are their
      returned loans, each with its title. */
  lemma ReturnedOfHistory(t: Tables, memberId: int, returned: seq<Loans.TitledLoan>)
    requires returned == Filter(Loans.MemberLoanHistory(t, memberId), MemberDetail.StatusIs(Returned))
    ensures forall l :: Loans.TitledIn(t)(l) in returned <==>
      l in t.loans.Values && l.memberId == memberId && l.status == Returned
    ensures forall v :: v in returned ==> v == Loans.TitledIn(t)(v.loan)
  {
    Loans.MemberLoanHistoryIsExact(t, memberId);
  }

  // ---------------------------------------------------------------------------
  // The page
  // ---------------------------------------------------------------------------

  /** The profile block on the `Member` object (loaded or not). */
  method UpdateProfile(member: Members.MemberRecord, f: ProfileForm) returns (notice: Notice)
    requires member.db.Valid()
    modifies member, member.db
    ensures member.db.Valid()
    ensures member.id == old(member.id)
    ensures member.Fields() == Edited(old(member.Fields()), f)
    ensures (notice, member.db.Snapshot()) == ProfileUpdate(old(member.db.Snapshot()), member.id, member.Fields())
  {
    member.firstName, member.lastName, member.email := f.firstName, f.lastName, f.email;
    member.phone, member.address := f.phone, f.address;
    if Blank(member.firstName) || Blank(member.lastName) || Blank(member.email) {
      return Failed(NamesAndEmailRequired);
    }
    var ok := member.Update();
    notice := if ok then Succeeded(ProfileUpdated) else Failed(ProfileUpdateFailed);
  }

  /** The password block. */
  method ChangePassword(auth: Authenticator, f: PasswordForm, hash: string -> string,
                        verify: (string, string) -> bool) returns (notice: Notice)
    requires auth.db.Valid()
    modifies auth.db
    ensures auth.db.Valid()
    ensures (notice, auth.db.Snapshot()) == PasswordChange(old(auth.db.Snapshot()), auth.session, f, hash, verify)
  {
    var refusal := PasswordRefusal(f);
    if refusal.Some? {
      return Failed(refusal.value);
    }
    var db := auth.db;
    if !CurrentPasswordVerifies(db.users, auth.session, f.currentPassword, verify) {
      return Failed(CurrentPasswordIncorrect);
    }
    SetPassword(db, SessionUserId(auth.session), hash(f.newPassword));
    notice := Succeeded(PasswordChanged);
  }

  /** `UPDATE users SET password = ? WHERE id = ?`. */
  method SetPassword(db: Database, userId: Option<int>, hashed: string)
    requires db.Valid()
    modifies db
    ensures db.Valid()
    ensures db.Snapshot() == PasswordSet(old(db.Snapshot()), userId, hashed)
  {
    if userId.Some? && userId.value in db.users {
      db.users := db.users[userId.value := db.users[userId.value].(passwordHash := hashed)];
    }
  }

  /** `profile.php`, with the current day and time of day. */
  method ProfilePageFor(auth: Authenticator, today: Day, secondsIntoDay: int, post: ProfilePost,
                        hash: string -> string, verify: (string, string) -> bool) returns (page: ProfilePage)
    requires auth.db.Valid() && 0 <= secondsIntoDay < MemberDetail.SecondsPerDay
    modifies auth.db
    ensures auth.db.Valid()
    ensures (page, auth.db.Snapshot()) == ProfileOf(old(auth.db.Snapshot()), today, secondsIntoDay, auth.session, post, hash, verify)
  {
    if !IsLoggedIn(auth.session) {
      return RedirectLogin;
    }
    var db := auth.db;
    var member, hasProfile := LoadOwnMember(db, auth.session);
    var loans := ShowLoans(db, if hasProfile then Some(member.id) else None, today, secondsIntoDay);
    var alerts := RunBlocks(auth, member, post, hash, verify);
    page := ProfileView(alerts, if hasProfile then Some(member.Fields()) else None, member.Fields(), loans);
  }

  /** `getByUserId(getCurrentUserId())` on a new `Member` object. */
  method LoadOwnMember(db: Database, s: Session) returns (member: Members.MemberRecord, hasProfile: bool)
    ensures fresh(member) && member.db == db
    ensures var owner := OwnMember(db.Snapshot(), s);
      && hasProfile == owner.Some?
      && member.id == (if owner.Some? then owner.value.id else 0)
      && member.Fields() == if owner.Some? then Members.FieldsOf(owner.value) else Members.Unloaded
  {
    member := new Members.MemberRecord(db);
    hasProfile := false;
    var uid := SessionUserId(s);
    if uid.Some? {
      hasProfile := member.GetByUserId(uid.value);
    }
  }

  /** The two loan queries and the badges. */
  method ShowLoans(db: Database, memberId: Option<int>, today: Day, secondsIntoDay: int) returns (loans: LoanPanels)
    requires 0 <= secondsIntoDay < MemberDetail.SecondsPerDay
    ensures loans == Panels(db.Snapshot(), memberId, today, secondsIntoDay)
  {
    if memberId.None? {
      return LoanPanels([], [], []);
    }
    var active := Loans.MemberActiveLoans(db.Snapshot(), memberId.value);
    var history := Loans.MemberLoanHistory(db.Snapshot(), memberId.value);
    loans := LoanPanels(active, MapSeq(active, MemberDetail.BadgeOn(today, secondsIntoDay)),
                        Filter(history, MemberDetail.StatusIs(Returned)));
  }

  /** The profile block, then the password block. */
  method RunBlocks(auth: Authenticator, member: Members.MemberRecord, post: ProfilePost,
                   hash: string -> string, verify: (string, string) -> bool) returns (alerts: Alerts)
    requires member.db == auth.db && auth.db.Valid()
    modifies member, auth.db
    ensures auth.db.Valid() && member.id == old(member.id)
    ensures (alerts, member.Fields(), auth.db.Snapshot())
      == Blocks(old(auth.db.Snapshot()), auth.session, old(member.id), old(member.Fields()), post, hash, verify)
  {
    alerts := NoAlerts;
    if post.update.Some? {
      var n := UpdateProfile(member, post.update.value);
      alerts := Noted(alerts, Some(n));
    }
    if post.password.Some? {
      var n := ChangePassword(auth, post.password.value, hash, verify);
      alerts := Noted(alerts, Some(n));
    }
  }
}
