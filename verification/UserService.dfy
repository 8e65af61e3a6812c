/** How users are created and updated: the rows `createUser` and `updateUser` of
    apps/auth/src/lib/services/user.service.ts write, and what they keep of the user table. */
module UserService {
  import opened JsText
  import opened UserTable
  import opened SignIn
  import PasswordHash

  // ---------------------------------------------------------------- what the service writes

  datatype UserForm = UserForm(
    username: string, password: string, isAdmin: bool,
    name: Option<string>, email: Option<string>, isTestUser: bool)

  function Hashed(host: Host, password: string): PasswordHash.Hashed {
    PasswordHash.HashPassword(password, host.hashing, host.hasher, host.md5)
  }

  /** The row `createUser` inserts; None when it throws. A test user is given the empty hash without
      asking the hasher. */
  function NewUser(host: Host, rows: seq<User>, id: string, form: UserForm): Option<User> {
    var username := Trim(form.username);
    if username == "" || (form.isTestUser && form.isAdmin) || FindByUsername(rows, username).Some? then None
    else
      var hashed := if form.isTestUser then PasswordHash.Hash("") else Hashed(host, form.password);
      match hashed
      case HashFailed => None
      case Hash(h) =>
        var email := Normalized(form.email);
        Some(User(id, username, Normalized(form.name), email,
                  if form.isAdmin && email.Some? then Some(host.now) else None, None, h,
                  if form.isTestUser then None else Some(host.now), form.isAdmin, form.isTestUser))
  }

  /** The table after `createUser`: the row is added unless a constraint rejects it. */
  function AfterCreate(host: Host, rows: seq<User>, id: string, form: UserForm): seq<User> {
    match NewUser(host, rows, id, form)
    case None => rows
    case Some(u) => if ValidUsers(rows + [u]) then rows + [u] else rows
  }

  /** `UpdateUserInput`, without the environments, which are replaced by a call of their own. */
  datatype UserUpdate = UserUpdate(
    username: Option<string>,
    name: Option<Option<string>>,
    email: Option<Option<string>>,
    password: Option<string>,
    isAdmin: Option<bool>,
    avatarKey: Option<Option<string>>,
    emailVerifiedAt: Option<Option<int>>)

  const KEEP_ALL := UserUpdate(None, None, None, None, None, None, None)

  /** `resolveUser` */
  function Resolved(rows: seq<User>, idOrUsername: string): Option<User> {
    var byId := FindById(rows, idOrUsername);
    if byId.Some? then byId else FindByUsername(rows, idOrUsername)
  }

  function Admins(rows: seq<User>): nat {
    if rows == [] then 0 else Admins(rows[1..]) + if rows[0].isAdmin then 1 else 0
  }

  function FoldedEmail(host: Host, email: Option<string>): Option<string> {
    if email.Some? then Some(host.lower(Trim(email.value))) else None
  }

  /** The update is one the service refuses with an exception. */
  predicate Refuses(host: Host, rows: seq<User>, current: User, u: UserUpdate, actor: string) {
    || (u.username.Some? && Trim(u.username.value) == "")
    || (u.password.Some? && Trim(u.password.value) != ""
        && (current.isTestUser || Hashed(host, u.password.value).HashFailed?))
    || (u.isAdmin == Some(true) && current.isTestUser)
    || (u.isAdmin == Some(false) && (current.id == actor || (current.isAdmin && Admins(rows) <= 1)))
  }

  function VerifiedPatch(host: Host, current: User, u: UserUpdate): Option<Option<int>> {
    if u.emailVerifiedAt.Some? then u.emailVerifiedAt
    else if u.email.Some? && !current.isAdmin
            && FoldedEmail(host, current.email) != FoldedEmail(host, Normalized(u.email.value)) then Some(None)
    else None
  }

  /** The patch `updateUser` hands to the repository. */
  function PatchFor(host: Host, current: User, u: UserUpdate): Patch {
    var newPassword := u.password.Some? && Trim(u.password.value) != "" && Hashed(host, u.password.value).Hash?;
    Patch(if u.username.Some? then Some(Trim(u.username.value)) else None,
          if u.name.Some? then Some(Normalized(u.name.value)) else None,
          if u.email.Some? then Some(Normalized(u.email.value)) else None,
          VerifiedPatch(host, current, u),
          u.avatarKey,
          if newPassword then Some(Hashed(host, u.password.value).stored) else None,
          if newPassword then Some(Some(host.now)) else None,
          u.isAdmin)
  }

  function AfterUserUpdate(host: Host, rows: seq<User>, target: string, u: UserUpdate, actor: string): seq<User> {
    match Resolved(rows, target)
    case None => rows
    case Some(current) =>
      if Refuses(host, rows, current, u, actor) then rows else AfterUpdate(rows, current.id, PatchFor(host, current, u))
  }

  /** `completePasswordReset`: hash and date of the user the link was mailed to. */
  function AfterReset(host: Host, rows: seq<User>, id: string, password: string): seq<User> {
    match Hashed(host, password)
    case HashFailed => rows
    case Hash(h) =>
      AfterUpdate(rows, id, NO_CHANGE.(passwordHash := Some(h), passwordUpdatedAt := Some(Some(host.now))))
  }

  // ---------------------------------------------------------------- what it keeps

  predicate Tidy(u: User) {
    u.username != "" && Trim(u.username) == u.username && (u.isTestUser ==> u.passwordHash == "")
  }

  /** Beside the constraints: names are trimmed and not empty, and a test user has the empty hash. */
  predicate WellKept(rows: seq<User>) {
    ValidUsers(rows) && forall i | 0 <= i < |rows| :: Tidy(rows[i])
  }

  lemma TidyRow(rows: seq<User>, u: User)
    requires WellKept(rows) && u in rows
    ensures Tidy(u)
  {
    hide Tidy, ValidUsers;
    var i :| 0 <= i < |rows| && rows[i] == u;
    assert Tidy(rows[i]);
  }

  lemma ValidWhenWellKept(rows: seq<User>)
    requires WellKept(rows)
    ensures ValidUsers(rows)
  {
  }

  /** A patch that leaves a tidy row tidy. */
  predicate TidyPatch(u: User, p: Patch) {
    && (p.username.Some? ==> p.username.value != "" && Trim(p.username.value) == p.username.value)
    && (p.passwordHash.Some? ==> !u.isTestUser)
  }

  lemma PatchedTidy(u: User, p: Patch)
    requires Tidy(u) && TidyPatch(u, p)
    ensures Tidy(Patched(u, p))
  {
    hide Trim;
  }

  lemma UpdateWellKept(rows: seq<User>, id: string, p: Patch)
    requires WellKept(rows) && forall i | 0 <= i < |rows| && rows[i].id == id :: TidyPatch(rows[i], p)
    ensures WellKept(AfterUpdate(rows, id, p))
  {
    hide Tidy, TidyPatch, ValidUsers;
    forall i | 0 <= i < |rows| && rows[i].id == id ensures Tidy(Patched(rows[i], p)) { PatchedTidy(rows[i], p); }
  }

  /** A row with the id of a given row is that row. */
  lemma OnlyRow(rows: seq<User>, u: User, i: nat)
    requires DistinctIds(rows) && u in rows && i < |rows| && rows[i].id == u.id
    ensures rows[i] == u
  {
    var j :| 0 <= j < |rows| && rows[j] == u;
  }

  lemma PatchOfRow(rows: seq<User>, u: User, p: Patch)
    requires WellKept(rows) && u in rows && TidyPatch(u, p)
    ensures WellKept(AfterUpdate(rows, u.id, p))
  {
    hide TidyPatch, Tidy;
    forall i | 0 <= i < |rows| && rows[i].id == u.id ensures TidyPatch(rows[i], p) { OnlyRow(rows, u, i); }
    UpdateWellKept(rows, u.id, p);
  }

  /** Creating a user keeps the table well kept. */
  lemma CreateWellKept(host: Host, rows: seq<User>, id: string, form: UserForm)
    requires WellKept(rows)
    ensures WellKept(AfterCreate(host, rows, id, form))
  {
    hide ValidUsers, FindByUsername, Hashed;
    TrimIdempotent(form.username);
    hide Trim;
  }

  /** Updating one does. */
  lemma UserUpdateWellKept(host: Host, rows: seq<User>, target: string, u: UserUpdate, actor: string)
    requires WellKept(rows)
    ensures WellKept(AfterUserUpdate(host, rows, target, u, actor))
  {
    hide WellKept, AfterUpdate, Hashed, FindById, FindByUsername, Admins;
    if u.username.Some? { TrimIdempotent(u.username.value); }
    hide Trim;
    var found := Resolved(rows, target);
    if found.Some? && !Refuses(host, rows, found.value, u, actor) {
      PatchOfRow(rows, found.value, PatchFor(host, found.value, u));
    }
  }

  /** A reset of a password that is not a test user's does. */
  lemma ResetWellKept(host: Host, rows: seq<User>, id: string, password: string)
    requires WellKept(rows) && forall u :: u in rows && u.id == id ==> !u.isTestUser
    ensures WellKept(AfterReset(host, rows, id, password))
  {
    hide Tidy, ValidUsers, AfterUpdate, Hashed;
    var h := Hashed(host, password);
    if h.Hash? {
      UpdateWellKept(rows, id, NO_CHANGE.(passwordHash := Some(h.stored), passwordUpdatedAt := Some(Some(host.now))));
    }
  }

  /** What the change of password at sign-in writes is an update of the password alone. */
  lemma PasswordAlone(host: Host, rows: seq<User>, user: User, password: string, actor: string)
    requires ValidUsers(rows) && FindById(rows, user.id) == Some(user)
    ensures var written := WithPassword(host, rows, user, password);
      var after := AfterUserUpdate(host, rows, user.id, KEEP_ALL.(password := Some(password)), actor);
      if written.Some? then after == written.value else after == rows
  {
    hide ValidUsers, Trim, FindById, PasswordHash.HashPassword;
    NothingUpdated(rows, user.id);
  }

  lemma NothingUpdated(rows: seq<User>, id: string)
    ensures AfterUpdate(rows, id, NO_CHANGE) == rows
  {
    hide ValidUsers;
    assert Updated(rows, id, NO_CHANGE) == rows;
  }

  // ---------------------------------------------------------------- what it writes, field by field

  /** An optional text as it is stored: trimmed, and blank is none. */
  predicate StoredAs(given: Option<string>, stored: Option<string>) {
    match stored
    case Some(s) => s != "" && given.Some? && s == Trim(given.value)
    case None => given.Some? ==> Trim(given.value) == ""
  }

  /** Exactly which row is created, if one is. */
  lemma NewUserIff(host: Host, rows: seq<User>, id: string, form: UserForm, u: User)
    ensures NewUser(host, rows, id, form) == Some(u) <==>
      && Trim(form.username) != "" && !(form.isTestUser && form.isAdmin)
      && (forall r :: r in rows ==> r.username != Trim(form.username))
      && u.id == id && u.username == Trim(form.username) && StoredAs(form.name, u.name) && StoredAs(form.email, u.email)
      && u.emailVerifiedAt == (if form.isAdmin && u.email.Some? then Some(host.now) else None)
      && u.avatarKey.None? && u.isAdmin == form.isAdmin && u.isTestUser == form.isTestUser
      && (if form.isTestUser then u.passwordHash == "" && u.passwordUpdatedAt.None?
          else u.passwordUpdatedAt == Some(host.now)
               && PasswordHash.HashPassword(form.password, host.hashing, host.hasher, host.md5)
                  == PasswordHash.Hash(u.passwordHash))
  {
    hide Trim, FindByUsername, PasswordHash.HashPassword;
  }

  /** Under a fresh id the row is stored and found by its name, and the password given opens it. */
  lemma CreatedOpens(host: Host, rows: seq<User>, id: string, form: UserForm, origin: string -> Option<string>)
    requires ValidUsers(rows) && forall r :: r in rows ==> r.id != id
    requires NewUser(host, rows, id, form).Some? && !form.isTestUser
    requires PasswordHash.Ideal(host.hashing, host.hasher, origin, host.md5)
    ensures var u := NewUser(host, rows, id, form).value;
      && AfterCreate(host, rows, id, form) == rows + [u]
      && FindByUsername(AfterCreate(host, rows, id, form), Trim(form.username)) == Some(u)
      && PasswordHash.VerifyPassword(form.password, u.passwordHash, host.hashing, host.hasher, host.md5).Accepted?
  {
    hide Trim, PasswordHash.HashPassword, PasswordHash.VerifyPassword, FindByUsername;
    var u := NewUser(host, rows, id, form).value;
    assert forall i :: 0 <= i < |rows| ==> rows[i] in rows;
    FindAppended(rows, u);
    PasswordHash.HashThenVerify(form.password, form.password, host.hashing, host.hasher, origin, host.md5);
  }

  lemma {:induction false} FindAppended(rows: seq<User>, u: User)
    requires forall r :: r in rows ==> r.username != u.username
    ensures FindByUsername(rows + [u], u.username) == Some(u)
  {
    if rows != [] {
      assert (rows + [u])[1..] == rows[1..] + [u];
      FindAppended(rows[1..], u);
    }
  }

  /** The two addresses are the same, space around them and case aside. */
  predicate SameAddress(host: Host, a: Option<string>, b: Option<string>) {
    match (a, b)
    case (Some(x), Some(y)) => host.lower(Trim(x)) == host.lower(Trim(y))
    case (None, None) => true
    case _ => false
  }

  /** The row after an update that was not refused. */
  lemma UpdatedFields(host: Host, current: User, u: UserUpdate)
    ensures var row := Patched(current, PatchFor(host, current, u));
      && row.id == current.id && row.isTestUser == current.isTestUser
      && row.username == (if u.username.Some? then Trim(u.username.value) else current.username)
      && (if u.name.Some? then StoredAs(u.name.value, row.name) else row.name == current.name)
      && (if u.email.Some? then StoredAs(u.email.value, row.email) else row.email == current.email)
      && row.avatarKey == u.avatarKey.GetOr(current.avatarKey) && row.isAdmin == u.isAdmin.GetOr(current.isAdmin)
      && (u.emailVerifiedAt.Some? ==> row.emailVerifiedAt == u.emailVerifiedAt.value)
      && (u.emailVerifiedAt.None? ==>
            row.emailVerifiedAt
            == if u.email.Some? && !current.isAdmin && !SameAddress(host, current.email, row.email) then None
               else current.emailVerifiedAt)
      && (u.password.None? || Trim(u.password.value) == "" ==>
            row.passwordHash == current.passwordHash && row.passwordUpdatedAt == current.passwordUpdatedAt)
      && (u.password.Some? && Trim(u.password.value) != "" ==>
            var h := PasswordHash.HashPassword(u.password.value, host.hashing, host.hasher, host.md5);
            h.Hash? ==> row.passwordHash == h.stored && row.passwordUpdatedAt == Some(host.now))
  {
    hide Trim, PasswordHash.HashPassword;
  }

  /** Exactly when an update is refused: a blank name, a password for a test user or one that cannot be
      hashed, rights for a test user, and giving up rights that are one's own or the last. */
  lemma RefusedIff(host: Host, rows: seq<User>, current: User, u: UserUpdate, actor: string)
    requires ValidUsers(rows) && current in rows
    ensures Refuses(host, rows, current, u, actor) <==>
      || (u.username.Some? && Trim(u.username.value) == "")
      || (u.password.Some? && Trim(u.password.value) != ""
          && (current.isTestUser
              || PasswordHash.HashPassword(u.password.value, host.hashing, host.hasher, host.md5).HashFailed?))
      || (u.isAdmin == Some(true) && current.isTestUser)
      || (u.isAdmin == Some(false)
          && (current.id == actor
              || (current.isAdmin && forall r :: r in rows && r.isAdmin ==> r == current)))
  {
    hide Trim, PasswordHash.HashPassword;
    if current.isAdmin { OneAdmin(rows, current); }
  }

  lemma {:induction false} NoAdmins(rows: seq<User>)
    ensures Admins(rows) == 0 <==> forall r :: r in rows ==> !r.isAdmin
  {
    if rows != [] {
      NoAdmins(rows[1..]);
      assert rows == [rows[0]] + rows[1..];
    }
  }

  lemma {:induction false} OneAdmin(rows: seq<User>, u: User)
    requires DistinctIds(rows) && u in rows && u.isAdmin
    ensures Admins(rows) <= 1 <==> forall r :: r in rows && r.isAdmin ==> r == u
  {
    assert rows == [rows[0]] + rows[1..];
    NoAdmins(rows[1..]);
    if rows[0] == u {
      forall r | r in rows[1..] ensures r != u {
        var j :| 0 <= j < |rows[1..]| && rows[1..][j] == r;
        assert rows[j + 1].id != rows[0].id;
      }
    } else {
      OneAdmin(rows[1..], u);
    }
  }

  /** The row an update means: by its id, or else by its name. */
  predicate Targets(rows: seq<User>, target: string, u: User) {
    && u in rows
    && (u.id == target || (u.username == target && forall r :: r in rows ==> r.id != target))
  }

  /** What an update leaves of the row with id `x`: the patch on the one it means, unless it is refused
      or the new name is another's; and nothing on any other. */
  lemma UserUpdateWrites(host: Host, rows: seq<User>, target: string, u: UserUpdate, actor: string, current: User,
                         x: string)
    requires ValidUsers(rows) && Targets(rows, target, current)
    ensures FindById(AfterUserUpdate(host, rows, target, u, actor), x)
         == if x == current.id && !Refuses(host, rows, current, u, actor)
               && (u.username.Some? ==>
                     forall r :: r in rows && r.username == Trim(u.username.value) ==> r == current)
            then Some(Patched(current, PatchFor(host, current, u))) else FindById(rows, x)
  {
    hide Trim, Refuses, ValidUsers, FindById, FindByUsername;
    ValidIsDistinct(rows);
    TargetIsResolved(rows, target, current);
    var p := PatchFor(host, current, u);
    if !Refuses(host, rows, current, u, actor) {
      NotRefused(host, rows, current, u, actor);
      UpdateAllowedIff(rows, current, p);
      FindInUpdated(rows, current.id, p, x);
      FoundById(rows, current);
      if u.username.Some? { NamesApart(rows, current, u); }
      if Updated(rows, current.id, p) == rows { Unchanged(rows, current, p); }
    }
  }

  lemma TargetIsResolved(rows: seq<User>, target: string, u: User)
    requires ValidUsers(rows) && Targets(rows, target, u)
    ensures Resolved(rows, target) == Some(u)
  {
    hide FindById, FindByUsername;
    if u.id == target { FoundById(rows, u); } else { FoundByName(rows, u); }
  }

  lemma FoundByName(rows: seq<User>, u: User)
    requires DistinctNames(rows) && u in rows
    ensures FindByUsername(rows, u.username) == Some(u)
  {
    var found := FindByUsername(rows, u.username).value;
    var i :| 0 <= i < |rows| && rows[i] == u;
    var j :| 0 <= j < |rows| && rows[j] == found;
    assert i == j;
  }

  lemma NotRefused(host: Host, rows: seq<User>, current: User, u: UserUpdate, actor: string)
    requires !Refuses(host, rows, current, u, actor)
    ensures !(current.isTestUser && PatchFor(host, current, u).isAdmin == Some(true))
  {
    hide Trim, Hashed, Admins;
  }

  /** The new name is another row's, by place or by row. */
  lemma NamesApart(rows: seq<User>, current: User, u: UserUpdate)
    requires DistinctIds(rows) && current in rows && u.username.Some?
    ensures (forall i :: 0 <= i < |rows| && rows[i].id != current.id ==> rows[i].username != Trim(u.username.value))
       <==> forall r :: r in rows && r.username == Trim(u.username.value) ==> r == current
  {
    hide Trim;
    forall r | r in rows && r.id == current.id ensures r == current {
      var i :| 0 <= i < |rows| && rows[i] == r;
      OnlyRow(rows, current, i);
    }
  }

  lemma Unchanged(rows: seq<User>, current: User, p: Patch)
    requires current in rows && Updated(rows, current.id, p) == rows
    ensures Patched(current, p) == current
  {
    var i :| 0 <= i < |rows| && rows[i] == current;
    assert Updated(rows, current.id, p)[i] == Patched(current, p);
  }

  /** What a completed reset leaves of the row with id `x`. */
  lemma ResetWrites(host: Host, rows: seq<User>, id: string, password: string, x: string)
    requires ValidUsers(rows)
    ensures var hashed := PasswordHash.HashPassword(password, host.hashing, host.hasher, host.md5);
      FindById(AfterReset(host, rows, id, password), x)
      == match FindById(rows, x)
         case None => None
         case Some(u) =>
           Some(if x == id && hashed.Hash?
                then u.(passwordHash := hashed.stored, passwordUpdatedAt := Some(host.now)) else u)
  {
    hide ValidUsers, FindById, PasswordHash.HashPassword;
    var hashed := Hashed(host, password);
    if hashed.Hash? {
      var p := NO_CHANGE.(passwordHash := Some(hashed.stored), passwordUpdatedAt := Some(Some(host.now)));
      HarmlessPatch(rows, id, p);
      FindInUpdated(rows, id, p, x);
    }
  }

  lemma ValidIsDistinct(rows: seq<User>)
    requires ValidUsers(rows)
    ensures DistinctIds(rows)
  {
  }

  lemma PatchAdmin(host: Host, current: User, u: UserUpdate)
    ensures Patched(current, PatchFor(host, current, u)).isAdmin == u.isAdmin.GetOr(current.isAdmin)
  {
    hide Trim, Hashed;
  }

  /** The last admin stays: no update through the service leaves a table that had one without any. */
  lemma AnAdminStays(host: Host, rows: seq<User>, target: string, u: UserUpdate, actor: string)
    requires ValidUsers(rows) && exists r :: r in rows && r.isAdmin
    ensures exists r :: r in AfterUserUpdate(host, rows, target, u, actor) && r.isAdmin
  {
    hide Trim, FindById, FindByUsername, Refuses, PatchFor, ValidUsers;
    var after := AfterUserUpdate(host, rows, target, u, actor);
    var found := Resolved(rows, target);
    ValidIsDistinct(rows);
    if after != rows && !(u.isAdmin == Some(false)) {
      var n :| 0 <= n < |rows| && rows[n].isAdmin;
      PatchAdmin(host, found.value, u);
      if rows[n].id == found.value.id { OnlyRow(rows, found.value, n); }
      assert after[n].isAdmin;
    } else if after != rows {
      RefusedIff(host, rows, found.value, u, actor);
      var r: User;
      if found.value.isAdmin {
        r :| r in rows && r.isAdmin && r != found.value;
      } else {
        r :| r in rows && r.isAdmin;
      }
      var n :| 0 <= n < |rows| && rows[n] == r;
      if r.id == found.value.id { OnlyRow(rows, found.value, n); }
      assert after[n] == r;
    }
  }

  // ---------------------------------------------------------------- deleting a user

  /** The table after `deleteUser`; None when it throws. */
  function AfterUserDelete(rows: seq<User>, target: string, actor: string): Option<seq<User>> {
    if target == actor then None
    else
      match Resolved(rows, target)
      case None => None
      case Some(current) =>
        if current.id == actor || (current.isAdmin && Admins(rows) <= 1) then None else Some(Removed(rows, current.id))
  }

  /** Exactly who can be deleted, by whom, and what is left: the row goes and every other stays. */
  lemma DeleteIff(rows: seq<User>, target: string, actor: string, current: User)
    requires ValidUsers(rows) && Targets(rows, target, current)
    ensures var after := AfterUserDelete(rows, target, actor);
      && (after.Some? <==>
            target != actor && current.id != actor
            && (current.isAdmin ==> exists r :: r in rows && r.isAdmin && r != current))
      && (after.Some? ==> ValidUsers(after.value) && forall r :: r in after.value <==> r in rows && r != current)
  {
    hide ValidUsers, FindById, FindByUsername;
    ValidIsDistinct(rows);
    TargetIsResolved(rows, target, current);
    if current.isAdmin { OneAdmin(rows, current); }
    RemovedKeepsValid(rows, current.id);
    forall r | r in rows && r.id == current.id ensures r == current {
      var i :| 0 <= i < |rows| && rows[i] == r;
      OnlyRow(rows, current, i);
    }
  }

  /** The last admin stays, and nobody deletes themselves. */
  lemma AnAdminSurvives(rows: seq<User>, target: string, actor: string)
    requires ValidUsers(rows) && AfterUserDelete(rows, target, actor).Some?
    ensures var after := AfterUserDelete(rows, target, actor).value;
      && ((exists r :: r in rows && r.isAdmin) ==> exists r :: r in after && r.isAdmin)
      && forall r :: r in rows && r.id == actor ==> r in after
  {
    hide ValidUsers, FindById, FindByUsername;
    var current := Resolved(rows, target).value;
    ResolvedIsTarget(rows, target);
    DeleteIff(rows, target, actor, current);
    if !current.isAdmin && exists r :: r in rows && r.isAdmin {
      var r :| r in rows && r.isAdmin;
      assert r in AfterUserDelete(rows, target, actor).value;
    }
  }

  lemma ResolvedIsTarget(rows: seq<User>, target: string)
    requires Resolved(rows, target).Some?
    ensures Targets(rows, target, Resolved(rows, target).value)
  {
    hide FindById, FindByUsername;
  }
}
