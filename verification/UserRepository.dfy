/** The tables `users` and `users_environments` of db/schema.sql, as rows in table order, and what
    the statements of apps/auth/src/lib/repositories/admin.repository.d1.ts mean on them.
    Moments are milliseconds. */
module UserTable {
  import opened JsText

  datatype User = User(
    id: string,
    username: string,
    name: Option<string>,
    email: Option<string>,
    emailVerifiedAt: Option<int>,
    avatarKey: Option<string>,
    passwordHash: string,
    passwordUpdatedAt: Option<int>,
    isAdmin: bool,
    isTestUser: bool)

  datatype Grant = Grant(userId: string, environmentId: string)

  // ---------------------------------------------------------------- constraints

  /** The CHECK on the table: a test user is never an admin. */
  predicate RowOk(u: User) { !(u.isTestUser && u.isAdmin) }

  predicate DistinctIds(rows: seq<User>) {
    forall i, j | 0 <= i < j < |rows| :: rows[i].id != rows[j].id
  }

  predicate DistinctNames(rows: seq<User>) {
    forall i, j | 0 <= i < j < |rows| :: rows[i].username != rows[j].username
  }

  predicate ValidUsers(rows: seq<User>) {
    DistinctIds(rows) && DistinctNames(rows) && forall i | 0 <= i < |rows| :: RowOk(rows[i])
  }

  predicate Distinct<T(==)>(s: seq<T>) {
    forall i, j | 0 <= i < j < |s| :: s[i] != s[j]
  }

  predicate HasId(rows: seq<User>, id: string) { exists u :: u in rows && u.id == id }

  predicate ValidGrants(rows: seq<User>, grants: seq<Grant>, environments: set<string>) {
    && Distinct(grants)
    && forall g :: g in grants ==> HasId(rows, g.userId) && g.environmentId in environments
  }

  // ---------------------------------------------------------------- SELECT

  function FindById(rows: seq<User>, id: string): (found: Option<User>)
    ensures found.Some? ==> found.value in rows && found.value.id == id
    ensures found.None? ==> forall u :: u in rows ==> u.id != id
  {
    if rows == [] then None
    else if rows[0].id == id then Some(rows[0])
    else FindById(rows[1..], id)
  }

  function FindByUsername(rows: seq<User>, username: string): (found: Option<User>)
    ensures found.Some? ==> found.value in rows && found.value.username == username
    ensures found.None? ==> forall u :: u in rows ==> u.username != username
  {
    if rows == [] then None
    else if rows[0].username == username then Some(rows[0])
    else FindByUsername(rows[1..], username)
  }

  /** In a table with distinct ids the row asked for is the only candidate. */
  lemma FoundById(rows: seq<User>, u: User)
    requires DistinctIds(rows) && u in rows
    ensures FindById(rows, u.id) == Some(u)
  {
    var found := FindById(rows, u.id).value;
    var i :| 0 <= i < |rows| && rows[i] == u;
    var j :| 0 <= j < |rows| && rows[j] == found;
    assert i == j;
  }

  /** `SELECT environment_id ... WHERE user_id = ?`, rows in the order given. */
  function EnvironmentsOf(grants: seq<Grant>, userId: string): (environments: seq<string>)
    ensures forall e :: e in environments <==> Grant(userId, e) in grants
  {
    if grants == [] then []
    else
      var last := grants[|grants| - 1];
      var before := EnvironmentsOf(grants[..|grants| - 1], userId);
      assert grants == grants[..|grants| - 1] + [last];
      if last.userId == userId then before + [last.environmentId] else before
  }

  /** The answer holds each environment as often as the grant stands in the table, so the order
      in which a SELECT happens to return rows decides only the order of the answer. */
  lemma {:induction false} EnvironmentsCounted(grants: seq<Grant>, userId: string, e: string)
    ensures multiset(EnvironmentsOf(grants, userId))[e] == multiset(grants)[Grant(userId, e)]
  {
    if grants != [] {
      EnvironmentsCounted(grants[..|grants| - 1], userId, e);
      assert grants == grants[..|grants| - 1] + [grants[|grants| - 1]];
    }
  }

  lemma EnvironmentsUpToOrder(a: seq<Grant>, b: seq<Grant>, userId: string)
    requires multiset(a) == multiset(b)
    ensures multiset(EnvironmentsOf(a, userId)) == multiset(EnvironmentsOf(b, userId))
  {
    forall e ensures multiset(EnvironmentsOf(a, userId))[e] == multiset(EnvironmentsOf(b, userId))[e] {
      EnvironmentsCounted(a, userId, e);
      EnvironmentsCounted(b, userId, e);
    }
  }

  lemma {:induction false} EnvironmentsConcat(a: seq<Grant>, b: seq<Grant>, userId: string)
    ensures EnvironmentsOf(a + b, userId) == EnvironmentsOf(a, userId) + EnvironmentsOf(b, userId)
  {
    if b == [] {
      assert a + b == a;
    } else {
      assert (a + b)[..|a + b| - 1] == a + b[..|b| - 1];
      EnvironmentsConcat(a, b[..|b| - 1], userId);
    }
  }

  // ---------------------------------------------------------------- UPDATE

  /** `UserUpdateInput`: None is `undefined`, and for a nullable column Some(None) is `null`. */
  datatype Patch = Patch(
    username: Option<string>,
    name: Option<Option<string>>,
    email: Option<Option<string>>,
    emailVerifiedAt: Option<Option<int>>,
    avatarKey: Option<Option<string>>,
    passwordHash: Option<string>,
    passwordUpdatedAt: Option<Option<int>>,
    isAdmin: Option<bool>)

  const NO_CHANGE := Patch(None, None, None, None, None, None, None, None)

  /** The row with exactly the defined fields replaced. */
  function Patched(u: User, p: Patch): User {
    u.(username := p.username.GetOr(u.username),
       name := p.name.GetOr(u.name),
       email := p.email.GetOr(u.email),
       emailVerifiedAt := p.emailVerifiedAt.GetOr(u.emailVerifiedAt),
       avatarKey := p.avatarKey.GetOr(u.avatarKey),
       passwordHash := p.passwordHash.GetOr(u.passwordHash),
       passwordUpdatedAt := p.passwordUpdatedAt.GetOr(u.passwordUpdatedAt),
       isAdmin := p.isAdmin.GetOr(u.isAdmin))
  }

  /** The table with the row `id` patched and every other row as it was. */
  function Updated(rows: seq<User>, id: string, p: Patch): (after: seq<User>)
    ensures |after| == |rows|
  {
    seq(|rows|, i requires 0 <= i < |rows| => if rows[i].id == id then Patched(rows[i], p) else rows[i])
  }

  /** What the statement leaves: nothing changes when a constraint aborts it. */
  function AfterUpdate(rows: seq<User>, id: string, p: Patch): seq<User> {
    if ValidUsers(Updated(rows, id, p)) then Updated(rows, id, p) else rows
  }

  /** Exactly when no constraint aborts the update of a stored row: its new name is not another row's,
      and a test user does not become an admin. */
  lemma UpdateAllowedIff(rows: seq<User>, u: User, p: Patch)
    requires ValidUsers(rows) && u in rows
    ensures AfterUpdate(rows, u.id, p) == Updated(rows, u.id, p) <==>
      || Updated(rows, u.id, p) == rows
      || ((p.username.Some? ==>
             forall i :: 0 <= i < |rows| && rows[i].id != u.id ==> rows[i].username != p.username.value)
          && !(u.isTestUser && p.isAdmin == Some(true)))
  {
    var n :| 0 <= n < |rows| && rows[n] == u;
    var after := Updated(rows, u.id, p);
    assert after[n] == Patched(u, p) && RowOk(u);
    assert forall i :: 0 <= i < |rows| && i != n ==> rows[i].id != u.id && after[i] == rows[i];
    if exists i :: 0 <= i < |rows| && rows[i].id != u.id && p.username == Some(rows[i].username) {
      var i :| 0 <= i < |rows| && rows[i].id != u.id && p.username == Some(rows[i].username);
      assert after[i].username == after[n].username;
      assert !DistinctNames(after);
    } else if u.isTestUser && p.isAdmin == Some(true) {
      assert !RowOk(after[n]);
    } else {
      assert DistinctIds(after) && DistinctNames(after);
      assert forall i :: 0 <= i < |rows| ==> RowOk(rows[i]);
    }
  }

  lemma {:induction false} FindInUpdated(rows: seq<User>, id: string, p: Patch, x: string)
    ensures FindById(Updated(rows, id, p), x)
         == match FindById(rows, x)
            case None => None
            case Some(u) => Some(if x == id then Patched(u, p) else u)
  {
    if rows != [] {
      assert Updated(rows, id, p)[1..] == Updated(rows[1..], id, p);
      FindInUpdated(rows[1..], id, p, x);
    }
  }

  /** A patch that leaves names and admin flags alone never runs into a constraint. */
  lemma HarmlessPatch(rows: seq<User>, id: string, p: Patch)
    requires ValidUsers(rows) && p.username.None? && p.isAdmin.None?
    ensures ValidUsers(Updated(rows, id, p))
  {
    var after := Updated(rows, id, p);
    forall u | u in after ensures RowOk(u) {
      var i :| 0 <= i < |after| && after[i] == u;
      assert rows[i] in rows;
    }
  }

  // ---------------------------------------------------------------- DELETE

  function Without(grants: seq<Grant>, userId: string): (after: seq<Grant>)
    ensures forall g :: g in after <==> g in grants && g.userId != userId
    ensures EnvironmentsOf(after, userId) == []
  {
    if grants == [] then []
    else
      var last := grants[|grants| - 1];
      var before := Without(grants[..|grants| - 1], userId);
      assert grants == grants[..|grants| - 1] + [last];
      if last.userId == userId then before
      else
        assert (before + [last])[..|before + [last]| - 1] == before;
        before + [last]
  }

  lemma {:induction false} WithoutKeepsOthers(grants: seq<Grant>, userId: string, other: string)
    requires other != userId
    ensures EnvironmentsOf(Without(grants, userId), other) == EnvironmentsOf(grants, other)
  {
    if grants != [] {
      var before := Without(grants[..|grants| - 1], userId);
      var last := grants[|grants| - 1];
      WithoutKeepsOthers(grants[..|grants| - 1], userId, other);
      assert (before + [last])[..|before + [last]| - 1] == before;
    }
  }

  lemma {:induction false} WithoutKeepsDistinct(grants: seq<Grant>, userId: string)
    requires Distinct(grants)
    ensures Distinct(Without(grants, userId))
  {
    if grants != [] {
      var before := Without(grants[..|grants| - 1], userId);
      var last := grants[|grants| - 1];
      WithoutKeepsDistinct(grants[..|grants| - 1], userId);
      assert last !in grants[..|grants| - 1];
    }
  }

  function Removed(rows: seq<User>, id: string): (after: seq<User>)
    ensures forall u :: u in after <==> u in rows && u.id != id
  {
    if rows == [] then []
    else
      assert rows == [rows[0]] + rows[1..];
      (if rows[0].id == id then [] else [rows[0]]) + Removed(rows[1..], id)
  }

  lemma DistinctCons(u: User, rows: seq<User>)
    requires DistinctIds(rows) && DistinctNames(rows)
    requires forall i | 0 <= i < |rows| :: rows[i].id != u.id && rows[i].username != u.username
    ensures DistinctIds([u] + rows) && DistinctNames([u] + rows)
  {
  }

  lemma {:induction false} RemovedKeepsDistinct(rows: seq<User>, id: string)
    requires DistinctIds(rows) && DistinctNames(rows)
    ensures DistinctIds(Removed(rows, id)) && DistinctNames(Removed(rows, id))
  {
    if rows != [] {
      var rest := Removed(rows[1..], id);
      RemovedKeepsDistinct(rows[1..], id);
      forall i | 0 <= i < |rest| ensures rest[i].id != rows[0].id && rest[i].username != rows[0].username {
        assert rest[i] in rows[1..];
      }
      hide DistinctIds, DistinctNames;
      if rows[0].id != id { DistinctCons(rows[0], rest); }
    }
  }

  lemma RemovedKeepsValid(rows: seq<User>, id: string)
    requires ValidUsers(rows)
    ensures ValidUsers(Removed(rows, id))
  {
    RemovedKeepsDistinct(rows, id);
  }

  lemma FindInCons(u: User, rows: seq<User>, x: string)
    ensures FindById([u] + rows, x) == if u.id == x then Some(u) else FindById(rows, x)
  {
    assert ([u] + rows)[1..] == rows;
  }

  lemma {:induction false} FindInRemoved(rows: seq<User>, id: string, x: string)
    ensures FindById(Removed(rows, id), x) == if x == id then None else FindById(rows, x)
  {
    if rows != [] {
      hide FindById;
      var rest := Removed(rows[1..], id);
      FindInRemoved(rows[1..], id, x);
      if rows[0].id == id {
        assert Removed(rows, id) == rest;
      } else {
        assert Removed(rows, id) == [rows[0]] + rest;
        FindInCons(rows[0], rest, x);
      }
      FindInCons(rows[0], rows[1..], x);
      assert rows == [rows[0]] + rows[1..];
    }
  }
}

/** apps/auth/src/lib/repositories/admin.repository.d1.ts over the two tables. A statement that
    breaks a constraint, and a batch holding one, leaves the tables as they were. */
module UserRepository {
  import opened JsText
  import opened UserTable

  // ---------------------------------------------------------------- the UPDATE statement

  datatype Column =
    | Username | Name | Email | EmailVerifiedAt | AvatarKey | PasswordHash | PasswordUpdatedAt | IsAdmin

  datatype Value = Null | Text(text: string) | Moment(at: int) | Integer(n: int)

  /** The column can hold the value; `username`, `password_hash` and `is_admin` are NOT NULL. */
  predicate Fits(c: Column, v: Value) {
    match c
    case Username => v.Text?
    case Name => v.Text? || v.Null?
    case Email => v.Text? || v.Null?
    case EmailVerifiedAt => v.Moment? || v.Null?
    case AvatarKey => v.Text? || v.Null?
    case PasswordHash => v.Text?
    case PasswordUpdatedAt => v.Moment? || v.Null?
    case IsAdmin => v.Integer?
  }

  function TextOrNull(v: Value): Option<string>
    requires v.Text? || v.Null?
  {
    if v.Text? then Some(v.text) else None
  }

  function MomentOrNull(v: Value): Option<int>
    requires v.Moment? || v.Null?
  {
    if v.Moment? then Some(v.at) else None
  }

  /** `SET c = v` on one row. */
  function Store(u: User, c: Column, v: Value): User
    requires Fits(c, v)
  {
    match c
    case Username => u.(username := v.text)
    case Name => u.(name := TextOrNull(v))
    case Email => u.(email := TextOrNull(v))
    case EmailVerifiedAt => u.(emailVerifiedAt := MomentOrNull(v))
    case AvatarKey => u.(avatarKey := TextOrNull(v))
    case PasswordHash => u.(passwordHash := v.text)
    case PasswordUpdatedAt => u.(passwordUpdatedAt := MomentOrNull(v))
    case IsAdmin => u.(isAdmin := v.n != 0)
  }

  predicate AllFit(sets: seq<Column>, binds: seq<Value>) {
    |sets| == |binds| && forall i :: 0 <= i < |sets| ==> Fits(sets[i], binds[i])
  }

  /** The assignments from left to right, the i-th placeholder taking the i-th bound value. */
  function Assigned(u: User, sets: seq<Column>, binds: seq<Value>): User
    requires AllFit(sets, binds)
  {
    if sets == [] then u
    else
      var n := |sets| - 1;
      Store(Assigned(u, sets[..n], binds[..n]), sets[n], binds[n])
  }

  function AssignedIn(rows: seq<User>, id: string, sets: seq<Column>, binds: seq<Value>): seq<User>
    requires AllFit(sets, binds)
  {
    if rows == [] then []
    else [if rows[0].id == id then Assigned(rows[0], sets, binds) else rows[0]]
         + AssignedIn(rows[1..], id, sets, binds)
  }

  /** The statement built so far does to any row what the patch says. */
  ghost predicate Means(sets: seq<Column>, binds: seq<Value>, p: Patch) {
    AllFit(sets, binds) && forall u: User :: Assigned(u, sets, binds) == Patched(u, p)
  }

  /** The patch that also stores `v` in column `c`. */
  function WithColumn(p: Patch, c: Column, v: Value): Patch
    requires Fits(c, v)
  {
    match c
    case Username => p.(username := Some(v.text))
    case Name => p.(name := Some(TextOrNull(v)))
    case Email => p.(email := Some(TextOrNull(v)))
    case EmailVerifiedAt => p.(emailVerifiedAt := Some(MomentOrNull(v)))
    case AvatarKey => p.(avatarKey := Some(TextOrNull(v)))
    case PasswordHash => p.(passwordHash := Some(v.text))
    case PasswordUpdatedAt => p.(passwordUpdatedAt := Some(MomentOrNull(v)))
    case IsAdmin => p.(isAdmin := Some(v.n != 0))
  }

  lemma EmptyMeansNothing()
    ensures Means([], [], NO_CHANGE)
  {
  }

  lemma Pushed(sets: seq<Column>, binds: seq<Value>, p: Patch, c: Column, v: Value)
    requires Means(sets, binds, p) && Fits(c, v)
    ensures Means(sets + [c], binds + [v], WithColumn(p, c, v))
  {
    var n := |sets|;
    assert (sets + [c])[..n] == sets && (binds + [v])[..n] == binds;
    forall u: User ensures Assigned(u, sets + [c], binds + [v]) == Patched(u, WithColumn(p, c, v)) {
      assert Assigned(u, sets + [c], binds + [v]) == Store(Patched(u, p), c, v);
    }
  }

  lemma {:induction false} AssignedIsUpdated(rows: seq<User>, id: string, sets: seq<Column>, binds: seq<Value>,
                                             p: Patch)
    requires Means(sets, binds, p)
    ensures AssignedIn(rows, id, sets, binds) == Updated(rows, id, p)
  {
    if rows != [] { AssignedIsUpdated(rows[1..], id, sets, binds, p); }
  }

  function TextValue(text: Option<string>): Value { if text.Some? then Text(text.value) else Null }

  function MomentValue(at: Option<int>): Value { if at.Some? then Moment(at.value) else Null }

  // ---------------------------------------------------------------- list

  datatype UserRecord = UserRecord(
    id: string,
    username: string,
    name: Option<string>,
    email: Option<string>,
    emailVerifiedAt: Option<int>,
    avatarKey: Option<string>,
    isAdmin: bool,
    isTestUser: bool,
    environmentIds: seq<string>)

  function RecordOf(u: User, environmentIds: seq<string>): UserRecord {
    UserRecord(u.id, u.username, u.name, u.email, u.emailVerifiedAt, u.avatarKey, u.isAdmin, u.isTestUser,
               environmentIds)
  }

  /** `envByUser.get(id) ?? []` */
  function Listed(byUser: map<string, seq<string>>, id: string): seq<string> {
    if id in byUser then byUser[id] else []
  }

  // ---------------------------------------------------------------- setUserEnvironments

  /** `[...new Set(ids)]`: each element where it first appears. */
  function Deduped(ids: seq<string>): (unique: seq<string>)
    ensures Distinct(unique)
    ensures forall e :: e in unique <==> e in ids
  {
    if ids == [] then []
    else
      var last := ids[|ids| - 1];
      var before := Deduped(ids[..|ids| - 1]);
      assert ids == ids[..|ids| - 1] + [last];
      if last in before then before else before + [last]
  }

  function GrantsFor(userId: string, ids: seq<string>): (grants: seq<Grant>)
    ensures |grants| == |ids| && forall i :: 0 <= i < |ids| ==> grants[i] == Grant(userId, ids[i])
    ensures forall g :: g in grants <==> g.userId == userId && g.environmentId in ids
  {
    seq(|ids|, i requires 0 <= i < |ids| => Grant(userId, ids[i]))
  }

  lemma OneGrantMore(grants: seq<Grant>, g: Grant, userId: string)
    ensures EnvironmentsOf(grants + [g], userId)
         == EnvironmentsOf(grants, userId) + if g.userId == userId then [g.environmentId] else []
  {
    assert (grants + [g])[..|grants + [g]| - 1] == grants;
  }

  lemma {:induction false} EnvironmentsOfGrantsFor(userId: string, ids: seq<string>, other: string)
    ensures EnvironmentsOf(GrantsFor(userId, ids), other) == if other == userId then ids else []
  {
    if ids != [] {
      var n := |ids| - 1;
      hide EnvironmentsOf;
      EnvironmentsOfGrantsFor(userId, ids[..n], other);
      OneGrantMore(GrantsFor(userId, ids[..n]), Grant(userId, ids[n]), other);
      assert GrantsFor(userId, ids) == GrantsFor(userId, ids[..n]) + [Grant(userId, ids[n])];
      assert ids[..n] + [ids[n]] == ids;
    }
  }

  /** The grants once `ids` replaces what `userId` had. */
  function Replaced(grants: seq<Grant>, userId: string, ids: seq<string>): seq<Grant> {
    Without(grants, userId) + GrantsFor(userId, Deduped(ids))
  }

  /** The user holds exactly the requested environments, each once and in order of first mention,
      and nobody else's grants move. */
  lemma ReplacedEnvironments(grants: seq<Grant>, userId: string, ids: seq<string>, other: string)
    ensures EnvironmentsOf(Replaced(grants, userId, ids), userId) == Deduped(ids)
    ensures other != userId
        ==> EnvironmentsOf(Replaced(grants, userId, ids), other) == EnvironmentsOf(grants, other)
  {
    hide Without, GrantsFor, EnvironmentsOf, Deduped;
    var kept, added := Without(grants, userId), GrantsFor(userId, Deduped(ids));
    EnvironmentsConcat(kept, added, userId);
    EnvironmentsOfGrantsFor(userId, Deduped(ids), userId);
    if other != userId {
      EnvironmentsConcat(kept, added, other);
      EnvironmentsOfGrantsFor(userId, Deduped(ids), other);
      WithoutKeepsOthers(grants, userId, other);
    }
  }

  /** Every id names an environment, and the user exists unless there is nothing to insert. */
  predicate References(rows: seq<User>, environments: set<string>, userId: string, ids: seq<string>) {
    forall e :: e in ids ==> e in environments && HasId(rows, userId)
  }

  lemma ReplacedValid(rows: seq<User>, grants: seq<Grant>, environments: set<string>, userId: string, ids: seq<string>)
    requires ValidGrants(rows, grants, environments) && References(rows, environments, userId, ids)
    ensures ValidGrants(rows, Replaced(grants, userId, ids), environments)
  {
    WithoutKeepsDistinct(grants, userId);
    var kept, added := Without(grants, userId), GrantsFor(userId, Deduped(ids));
    assert Distinct(added);
    assert forall g :: g in kept ==> g !in added;
    DistinctConcat(kept, added);
  }

  lemma DistinctConcat(a: seq<Grant>, b: seq<Grant>)
    requires Distinct(a) && Distinct(b) && forall g :: g in a ==> g !in b
    ensures Distinct(a + b)
  {
    forall i, j | 0 <= i < j < |a + b| ensures (a + b)[i] != (a + b)[j] {
      if i < |a| <= j { assert a[i] in a && b[j - |a|] in b; }
    }
  }

  /** One INSERT of the batch: the row is new, and the foreign keys hold as far as it is concerned. */
  lemma InsertStep(rows: seq<User>, grants: seq<Grant>, environments: set<string>, userId: string,
                   unique: seq<string>, k: nat)
    requires Distinct(unique) && k < |unique|
    ensures var row, table := Grant(userId, unique[k]), Without(grants, userId) + GrantsFor(userId, unique[..k]);
      && row !in table
      && table + [row] == Without(grants, userId) + GrantsFor(userId, unique[..k + 1])
    ensures References(rows, environments, userId, unique[..k + 1])
       <==> References(rows, environments, userId, unique[..k])
            && HasId(rows, userId) && unique[k] in environments
  {
    assert unique[..k + 1] == unique[..k] + [unique[k]];
    assert unique[k] !in unique[..k];
    assert GrantsFor(userId, unique[..k + 1]) == GrantsFor(userId, unique[..k]) + [Grant(userId, unique[k])];
  }

  lemma NothingInserted(rows: seq<User>, environments: set<string>, userId: string, unique: seq<string>)
    ensures GrantsFor(userId, unique[..0]) == [] && References(rows, environments, userId, unique[..0])
  {
  }

  lemma ReferencesDeduped(rows: seq<User>, environments: set<string>, userId: string, ids: seq<string>)
    ensures References(rows, environments, userId, Deduped(ids)) <==> References(rows, environments, userId, ids)
  {
  }

  // ---------------------------------------------------------------- listTestUsersByEnvironment

  /** The join of one user with the grants: the row once for every matching grant. */
  function Joined(u: User, grants: seq<Grant>, environmentId: string): seq<User> {
    if grants == [] then []
    else
      var n := |grants| - 1;
      Joined(u, grants[..n], environmentId) + if grants[n] == Grant(u.id, environmentId) then [u] else []
  }

  /** `... WHERE is_test_user = 1 AND is_admin = 0 AND environment_id = ?` over the join. */
  function TestUsersJoined(rows: seq<User>, grants: seq<Grant>, environmentId: string): seq<User> {
    if rows == [] then []
    else
      (if rows[0].isTestUser && !rows[0].isAdmin then Joined(rows[0], grants, environmentId) else [])
      + TestUsersJoined(rows[1..], grants, environmentId)
  }

  /** The test users of an environment, in table order. */
  function TestUsersOf(rows: seq<User>, grants: seq<Grant>, environmentId: string): seq<User> {
    if rows == [] then []
    else
      (if rows[0].isTestUser && Grant(rows[0].id, environmentId) in grants then [rows[0]] else [])
      + TestUsersOf(rows[1..], grants, environmentId)
  }

  lemma {:induction false} JoinedOnce(u: User, grants: seq<Grant>, environmentId: string)
    requires Distinct(grants)
    ensures Joined(u, grants, environmentId) == if Grant(u.id, environmentId) in grants then [u] else []
  {
    if grants != [] {
      var n := |grants| - 1;
      JoinedOnce(u, grants[..n], environmentId);
      assert grants == grants[..n] + [grants[n]];
      assert grants[n] !in grants[..n];
    }
  }

  /** The constraints make the join and the `is_admin = 0` guard harmless: each test user granted
      the environment is offered once, whatever other grants the table holds. */
  lemma {:induction false} JoinIsSelection(rows: seq<User>, grants: seq<Grant>, environmentId: string)
    requires Distinct(grants) && forall u :: u in rows ==> RowOk(u)
    ensures TestUsersJoined(rows, grants, environmentId) == TestUsersOf(rows, grants, environmentId)
  {
    if rows != [] {
      assert rows[0] in rows && forall u :: u in rows[1..] ==> u in rows;
      JoinedOnce(rows[0], grants, environmentId);
      JoinIsSelection(rows[1..], grants, environmentId);
    }
  }

  lemma UsernamePushed(sets: seq<Column>, binds: seq<Value>, p: Patch, username: string)
    requires Means(sets, binds, p)
    ensures Means(sets + [Username], binds + [Text(username)], p.(username := Some(username)))
  {
    Pushed(sets, binds, p, Username, Text(username));
  }

  lemma NamePushed(sets: seq<Column>, binds: seq<Value>, p: Patch, name: Option<string>)
    requires Means(sets, binds, p)
    ensures Means(sets + [Name], binds + [TextValue(name)], p.(name := Some(name)))
  {
    Pushed(sets, binds, p, Name, TextValue(name));
  }

  lemma EmailPushed(sets: seq<Column>, binds: seq<Value>, p: Patch, email: Option<string>)
    requires Means(sets, binds, p)
    ensures Means(sets + [Email], binds + [TextValue(email)], p.(email := Some(email)))
  {
    Pushed(sets, binds, p, Email, TextValue(email));
  }

  lemma EmailVerifiedAtPushed(sets: seq<Column>, binds: seq<Value>, p: Patch, emailVerifiedAt: Option<int>)
    requires Means(sets, binds, p)
    ensures Means(sets + [EmailVerifiedAt], binds + [MomentValue(emailVerifiedAt)],
                  p.(emailVerifiedAt := Some(emailVerifiedAt)))
  {
    Pushed(sets, binds, p, EmailVerifiedAt, MomentValue(emailVerifiedAt));
  }

  lemma AvatarKeyPushed(sets: seq<Column>, binds: seq<Value>, p: Patch, avatarKey: Option<string>)
    requires Means(sets, binds, p)
    ensures Means(sets + [AvatarKey], binds + [TextValue(avatarKey)], p.(avatarKey := Some(avatarKey)))
  {
    Pushed(sets, binds, p, AvatarKey, TextValue(avatarKey));
  }

  lemma PasswordHashPushed(sets: seq<Column>, binds: seq<Value>, p: Patch, passwordHash: string)
    requires Means(sets, binds, p)
    ensures Means(sets + [PasswordHash], binds + [Text(passwordHash)], p.(passwordHash := Some(passwordHash)))
  {
    Pushed(sets, binds, p, PasswordHash, Text(passwordHash));
  }

  lemma PasswordUpdatedAtPushed(sets: seq<Column>, binds: seq<Value>, p: Patch, passwordUpdatedAt: Option<int>)
    requires Means(sets, binds, p)
    ensures Means(sets + [PasswordUpdatedAt], binds + [MomentValue(passwordUpdatedAt)],
                  p.(passwordUpdatedAt := Some(passwordUpdatedAt)))
  {
    Pushed(sets, binds, p, PasswordUpdatedAt, MomentValue(passwordUpdatedAt));
  }

  lemma IsAdminPushed(sets: seq<Column>, binds: seq<Value>, p: Patch, isAdmin: bool)
    requires Means(sets, binds, p)
    ensures Means(sets + [IsAdmin], binds + [Integer(if isAdmin then 1 else 0)], p.(isAdmin := Some(isAdmin)))
  {
    Pushed(sets, binds, p, IsAdmin, Integer(if isAdmin then 1 else 0));
  }

  /** The assignments reach the rows with the id and no other. */
  lemma {:induction false} AssignedAt(rows: seq<User>, id: string, sets: seq<Column>, binds: seq<Value>)
    requires AllFit(sets, binds)
    ensures |AssignedIn(rows, id, sets, binds)| == |rows|
    ensures forall i :: 0 <= i < |rows| ==>
      AssignedIn(rows, id, sets, binds)[i] == if rows[i].id == id then Assigned(rows[i], sets, binds) else rows[i]
  {
    hide Assigned;
    if rows != [] { AssignedAt(rows[1..], id, sets, binds); }
  }

  /** No column of an UPDATE is the id. */
  lemma {:induction false} AssignedKeepsId(u: User, sets: seq<Column>, binds: seq<Value>)
    requires AllFit(sets, binds)
    ensures Assigned(u, sets, binds).id == u.id && Assigned(u, sets, binds).isTestUser == u.isTestUser
  {
    if sets != [] { AssignedKeepsId(u, sets[..|sets| - 1], binds[..|sets| - 1]); }
  }

  lemma AssignedKeepsGrants(rows: seq<User>, grants: seq<Grant>, environments: set<string>, id: string,
                            sets: seq<Column>, binds: seq<Value>)
    requires AllFit(sets, binds) && ValidGrants(rows, grants, environments)
    ensures ValidGrants(AssignedIn(rows, id, sets, binds), grants, environments)
  {
    hide AssignedIn, Assigned, AllFit;
    var after := AssignedIn(rows, id, sets, binds);
    AssignedAt(rows, id, sets, binds);
    forall g | g in grants ensures HasId(after, g.userId) {
      var i :| 0 <= i < |rows| && rows[i].id == g.userId;
      AssignedKeepsId(rows[i], sets, binds);
      assert after[i] in after;
    }
  }

  lemma {:induction false} DistinctCounts(grants: seq<Grant>)
    requires Distinct(grants)
    ensures forall g :: multiset(grants)[g] <= 1
  {
    if grants != [] {
      var n := |grants| - 1;
      DistinctCounts(grants[..n]);
      assert grants == grants[..n] + [grants[n]];
      assert grants[n] !in grants[..n];
      assert multiset(grants[..n])[grants[n]] == 0;
    }
  }

  lemma {:induction false} CountsDistinct(ids: seq<string>)
    requires forall e :: multiset(ids)[e] <= 1
    ensures Distinct(ids)
  {
    if ids != [] {
      var n := |ids| - 1;
      assert ids == ids[..n] + [ids[n]];
      assert multiset(ids) == multiset(ids[..n]) + multiset{ids[n]};
      forall e ensures multiset(ids[..n])[e] <= 1 - (if e == ids[n] then 1 else 0) {
        assert multiset(ids)[e] == multiset(ids[..n])[e] + if e == ids[n] then 1 else 0;
      }
      CountsDistinct(ids[..n]);
      assert multiset(ids[..n])[ids[n]] == 0;
      assert ids[n] !in ids[..n];
    }
  }

  lemma MeaningOfUpdate(rows: seq<User>, id: string, sets: seq<Column>, binds: seq<Value>, p: Patch)
    requires Means(sets, binds, p)
    ensures |binds| == |sets| && AllFit(sets, (binds + [Text(id)])[..|sets|])
    ensures AssignedIn(rows, id, sets, (binds + [Text(id)])[..|sets|]) == Updated(rows, id, p)
    ensures sets == [] ==> Updated(rows, id, p) == rows
  {
    assert (binds + [Text(id)])[..|sets|] == binds;
    AssignedIsUpdated(rows, id, sets, binds, p);
    if sets == [] {
      forall i | 0 <= i < |rows| ensures Updated(rows, id, p)[i] == rows[i] {
        assert Assigned(rows[i], sets, binds) == rows[i];
      }
    }
  }

  lemma RunUpdateIsUpdated(rows: seq<User>, after: seq<User>, id: string, sets: seq<Column>, binds: seq<Value>,
                           p: Patch, ok: bool)
    requires AllFit(sets, binds) && AssignedIn(rows, id, sets, binds) == Updated(rows, id, p)
    requires |after| == |rows|
    requires forall i :: 0 <= i < |after| && (!ok || rows[i].id != id) ==> after[i] == rows[i]
    requires forall i :: 0 <= i < |after| && ok && rows[i].id == id ==> after[i] == Assigned(rows[i], sets, binds)
    ensures after == if ok then Updated(rows, id, p) else rows
  {
    hide Updated, Assigned;
    AssignedAt(rows, id, sets, binds);
  }

  lemma {:induction false} UpdatedKeepsIds(rows: seq<User>, id: string, p: Patch, x: string)
    ensures HasId(Updated(rows, id, p), x) <==> HasId(rows, x)
  {
    var after := Updated(rows, id, p);
    if HasId(rows, x) {
      var i :| 0 <= i < |rows| && rows[i].id == x;
      assert after[i] in after;
    }
    if HasId(after, x) {
      var i :| 0 <= i < |rows| && after[i].id == x;
      assert rows[i] in rows;
    }
  }

  lemma UpdatedValid(rows: seq<User>, grants: seq<Grant>, environments: set<string>, id: string, p: Patch)
    requires ValidUsers(rows) && ValidGrants(rows, grants, environments)
    ensures ValidUsers(AfterUpdate(rows, id, p)) && ValidGrants(AfterUpdate(rows, id, p), grants, environments)
  {
    hide Updated, HasId, ValidUsers;
    forall g | g in grants ensures HasId(AfterUpdate(rows, id, p), g.userId) {
      UpdatedKeepsIds(rows, id, p, g.userId);
    }
  }

  lemma InsertValid(rows: seq<User>, grants: seq<Grant>, environments: set<string>, u: User)
    requires ValidUsers(rows) && ValidGrants(rows, grants, environments) && RowOk(u)
    requires forall v :: v in rows ==> v.id != u.id && v.username != u.username
    ensures ValidUsers(rows + [u]) && ValidGrants(rows + [u], grants, environments)
  {
    forall g | g in grants ensures HasId(rows + [u], g.userId) {
      var v :| v in rows && v.id == g.userId;
      assert v in rows + [u];
    }
  }

  lemma DeletedValid(rows: seq<User>, grants: seq<Grant>, environments: set<string>, id: string)
    requires ValidUsers(rows) && ValidGrants(rows, grants, environments)
    ensures ValidUsers(Removed(rows, id)) && ValidGrants(Removed(rows, id), Without(grants, id), environments)
  {
    RemovedKeepsValid(rows, id);
    WithoutKeepsDistinct(grants, id);
    forall g | g in Without(grants, id) ensures HasId(Removed(rows, id), g.userId) {
      var v :| v in rows && v.id == g.userId;
      assert v in Removed(rows, id);
    }
  }

  lemma {:induction false} TestUsersMembers(rows: seq<User>, grants: seq<Grant>, environmentId: string, u: User)
    requires forall v :: v in rows ==> RowOk(v)
    ensures u in TestUsersOf(rows, grants, environmentId)
       <==> u in rows && u.isTestUser && !u.isAdmin && Grant(u.id, environmentId) in grants
  {
    if rows != [] {
      var head, rest := rows[0], rows[1..];
      assert rows == [head] + rest;
      assert head in rows && forall v :: v in rest ==> v in rows;
      TestUsersMembers(rest, grants, environmentId, u);
      var first := if head.isTestUser && Grant(head.id, environmentId) in grants then [head] else [];
      assert TestUsersOf(rows, grants, environmentId) == first + TestUsersOf(rest, grants, environmentId);
      assert u in first <==> u == head && head.isTestUser && Grant(head.id, environmentId) in grants;
      assert RowOk(head);
    }
  }

  // ---------------------------------------------------------------- the repository

  class Repository {
    var rows: seq<User>
    var grants: seq<Grant>
    var environments: set<string>

    ghost predicate Valid()
      reads this
    {
      ValidUsers(rows) && ValidGrants(rows, grants, environments)
    }

    constructor (environments: set<string>)
      ensures Valid() && rows == [] && grants == [] && this.environments == environments
    {
      this.rows, this.grants, this.environments := [], [], environments;
    }

    method Create(id: string, username: string, name: Option<string>, email: Option<string>,
                  emailVerifiedAt: Option<int>, passwordHash: string, passwordUpdatedAt: Option<int>,
                  isAdmin: bool, isTestUser: bool)
      returns (ok: bool)
      requires Valid()
      modifies this`rows
      ensures Valid()
      ensures ok <==> !(isTestUser && isAdmin) && forall u :: u in old(rows) ==> u.id != id && u.username != username
      ensures rows == old(rows)
                    + if ok then [User(id, username, name, email, emailVerifiedAt, None, passwordHash,
                                       passwordUpdatedAt, isAdmin, isTestUser)]
                      else []
    {
      var sameId, sameName := FindById(rows, id), FindByUsername(rows, username);
      ok := sameId.None? && sameName.None? && !(isTestUser && isAdmin);
      if ok {
        var row := User(id, username, name, email, emailVerifiedAt, None, passwordHash, passwordUpdatedAt,
                        isAdmin, isTestUser);
        InsertValid(rows, grants, environments, row);
        rows := rows + [row];
      }
    }

    /** The UPDATE: rows whose id is the last bound value take the assignments, no other row changes,
        and a broken constraint undoes it all. */
    method RunUpdate(sets: seq<Column>, binds: seq<Value>) returns (ok: bool)
      requires Valid() && |binds| == |sets| + 1 && binds[|sets|].Text? && AllFit(sets, binds[..|sets|])
      modifies this`rows
      ensures |rows| == |old(rows)|
      ensures forall i :: 0 <= i < |rows| && (!ok || old(rows)[i].id != binds[|sets|].text) ==> rows[i] == old(rows)[i]
      ensures forall i :: 0 <= i < |rows| && ok && old(rows)[i].id == binds[|sets|].text ==>
                rows[i] == Assigned(old(rows)[i], sets, binds[..|sets|])
      ensures ok <==> ValidUsers(AssignedIn(old(rows), binds[|sets|].text, sets, binds[..|sets|]))
      ensures Valid()
    {
      var after := AssignedIn(rows, binds[|sets|].text, sets, binds[..|sets|]);
      AssignedAt(rows, binds[|sets|].text, sets, binds[..|sets|]);
      ok := ValidUsers(after);
      AssignedKeepsGrants(rows, grants, environments, binds[|sets|].text, sets, binds[..|sets|]);
      if ok { rows := after; }
    }

    /** The SET clauses of an update and the values bound to their placeholders. */
    static method SetClauses(p: Patch) returns (sets: seq<Column>, binds: seq<Value>)
      ensures Means(sets, binds, p)
    {
      hide Means, AllFit, Fits, TextValue, MomentValue;
      sets, binds := [], [];
      ghost var q := NO_CHANGE;
      EmptyMeansNothing();
      if p.username.Some? {
        UsernamePushed(sets, binds, q, p.username.value);
        sets, binds := sets + [Username], binds + [Text(p.username.value)];
      }
      q := q.(username := p.username);
      assert Means(sets, binds, q);
      if p.name.Some? {
        NamePushed(sets, binds, q, p.name.value);
        sets, binds := sets + [Name], binds + [TextValue(p.name.value)];
      }
      q := q.(name := p.name);
      assert Means(sets, binds, q);
      if p.email.Some? {
        EmailPushed(sets, binds, q, p.email.value);
        sets, binds := sets + [Email], binds + [TextValue(p.email.value)];
      }
      q := q.(email := p.email);
      assert Means(sets, binds, q);
      if p.emailVerifiedAt.Some? {
        EmailVerifiedAtPushed(sets, binds, q, p.emailVerifiedAt.value);
        sets, binds := sets + [EmailVerifiedAt], binds + [MomentValue(p.emailVerifiedAt.value)];
      }
      q := q.(emailVerifiedAt := p.emailVerifiedAt);
      assert Means(sets, binds, q);
      if p.avatarKey.Some? {
        AvatarKeyPushed(sets, binds, q, p.avatarKey.value);
        sets, binds := sets + [AvatarKey], binds + [TextValue(p.avatarKey.value)];
      }
      q := q.(avatarKey := p.avatarKey);
      assert Means(sets, binds, q);
      if p.passwordHash.Some? {
        PasswordHashPushed(sets, binds, q, p.passwordHash.value);
        sets, binds := sets + [PasswordHash], binds + [Text(p.passwordHash.value)];
      }
      q := q.(passwordHash := p.passwordHash);
      assert Means(sets, binds, q);
      if p.passwordUpdatedAt.Some? {
        PasswordUpdatedAtPushed(sets, binds, q, p.passwordUpdatedAt.value);
        sets, binds := sets + [PasswordUpdatedAt], binds + [MomentValue(p.passwordUpdatedAt.value)];
      }
      q := q.(passwordUpdatedAt := p.passwordUpdatedAt);
      assert Means(sets, binds, q);
      if p.isAdmin.Some? {
        IsAdminPushed(sets, binds, q, p.isAdmin.value);
        sets, binds := sets + [IsAdmin], binds + [Integer(if p.isAdmin.value then 1 else 0)];
      }
      q := q.(isAdmin := p.isAdmin);
      assert Means(sets, binds, q);
    }

    method Update(id: string, p: Patch) returns (ok: bool)
      requires Valid()
      modifies this`rows
      ensures Valid()
      ensures ok <==> ValidUsers(Updated(old(rows), id, p))
      ensures rows == AfterUpdate(old(rows), id, p)
    {
      hide Means, Updated, AssignedIn;
      var sets, binds := SetClauses(p);
      MeaningOfUpdate(rows, id, sets, binds, p);
      if |sets| == 0 {
        return true;
      }
      binds := binds + [Text(id)];
      ok := RunUpdate(sets, binds);
      RunUpdateIsUpdated(old(rows), rows, id, sets, binds[..|sets|], p, ok);
      UpdatedValid(old(rows), grants, environments, id, p);
    }

    method Delete(id: string)
      requires Valid()
      modifies this`rows, this`grants
      ensures Valid()
      ensures rows == Removed(old(rows), id) && grants == Without(old(grants), id)
    {
      DeletedValid(rows, grants, environments, id);
      rows := Removed(rows, id);
      grants := Without(grants, id);
    }

    /** `pairs` is the grant table in whatever order the database reads it. */
    method GetUserEnvironments(userId: string, pairs: seq<Grant>) returns (ids: seq<string>)
      requires multiset(pairs) == multiset(grants)
      ensures forall e :: e in ids <==> Grant(userId, e) in grants
      ensures forall e :: multiset(ids)[e] == multiset(grants)[Grant(userId, e)]
      ensures Distinct(grants) ==> Distinct(ids)
    {
      ids := EnvironmentsOf(pairs, userId);
      forall e ensures multiset(ids)[e] == multiset(grants)[Grant(userId, e)] {
        EnvironmentsCounted(pairs, userId, e);
      }
      forall e ensures e in ids <==> Grant(userId, e) in grants {
        assert e in ids <==> multiset(ids)[e] > 0;
        assert Grant(userId, e) in grants <==> multiset(grants)[Grant(userId, e)] > 0;
      }
      if Distinct(grants) {
        DistinctCounts(grants);
        CountsDistinct(ids);
      }
    }

    /** `users` and `pairs` are the two result sets, in whatever order the database returns rows. */
    method List(users: seq<User>, pairs: seq<Grant>) returns (records: seq<UserRecord>)
      requires multiset(users) == multiset(rows) && multiset(pairs) == multiset(grants)
      ensures |records| == |users|
      ensures forall i :: 0 <= i < |users| ==>
        && records[i] == RecordOf(users[i], EnvironmentsOf(pairs, users[i].id))
        && multiset(records[i].environmentIds) == multiset(EnvironmentsOf(grants, users[i].id))
    {
      var byUser: map<string, seq<string>> := map[];
      for k := 0 to |pairs|
        invariant forall id :: Listed(byUser, id) == EnvironmentsOf(pairs[..k], id)
      {
        var row := pairs[k];
        assert pairs[..k + 1][..k] == pairs[..k];
        var list := Listed(byUser, row.userId);
        list := list + [row.environmentId];
        byUser := byUser[row.userId := list];
      }
      assert pairs[..|pairs|] == pairs;
      forall id: string ensures multiset(EnvironmentsOf(pairs, id)) == multiset(EnvironmentsOf(grants, id)) {
        EnvironmentsUpToOrder(pairs, grants, id);
      }
      records := seq(|users|, i requires 0 <= i < |users| => RecordOf(users[i], Listed(byUser, users[i].id)));
    }

    method SetUserEnvironments(userId: string, ids: seq<string>) returns (ok: bool)
      requires Valid()
      modifies this`grants
      ensures Valid()
      ensures ok <==> References(rows, environments, userId, ids)
      ensures grants == if ok then Replaced(old(grants), userId, ids) else old(grants)
    {
      hide References, Without, GrantsFor, Deduped, ValidGrants, ValidUsers;
      var unique := Deduped(ids);
      ok := true;
      var table := Without(grants, userId);
      NothingInserted(rows, environments, userId, unique);
      for k := 0 to |unique|
        invariant grants == old(grants)
        invariant ok <==> References(rows, environments, userId, unique[..k])
        invariant ok ==> table == Without(grants, userId) + GrantsFor(userId, unique[..k])
      {
        InsertStep(rows, grants, environments, userId, unique, k);
        var row := Grant(userId, unique[k]);
        var user := FindById(rows, userId);
        ok := ok && user.Some? && unique[k] in environments && row !in table;
        if ok {
          table := table + [row];
        }
      }
      assert unique[..|unique|] == unique;
      ReferencesDeduped(rows, environments, userId, ids);
      if ok {
        ReplacedValid(rows, grants, environments, userId, ids);
        grants := table;
      }
    }

    method ListTestUsersByEnvironment(environmentId: string) returns (users: seq<User>)
      requires Valid()
      ensures users == TestUsersOf(rows, grants, environmentId)
      ensures forall u ::
        u in users <==> u in rows && u.isTestUser && !u.isAdmin && Grant(u.id, environmentId) in grants
    {
      users := TestUsersJoined(rows, grants, environmentId);
      JoinIsSelection(rows, grants, environmentId);
      forall u
        ensures u in users <==> u in rows && u.isTestUser && !u.isAdmin && Grant(u.id, environmentId) in grants
      {
        TestUsersMembers(rows, grants, environmentId, u);
      }
    }
  }
}
