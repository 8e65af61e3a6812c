/** Whole runs of the server: every sign-in path, the requests around them, the refresh of session
    claims and the administration of users, in any order and from any browser, with settings, clients
    and services free to change from one event to the next. Redeeming a mailed code and redeeming a
    passkey token take several events each, as the code awaits in between; other requests run at once. */
module SessionRuns {
  import opened JsText
  import opened UserTable
  import opened Challenges
  import opened SignIn
  import PasswordHash
  import PendingCookie
  import SessionRefresh
  import SignInGates
  import UserRepository
  import UserService

  // ---------------------------------------------------------------- the world

  datatype Provider = ByPassword | ByPasskey | ByTestUser

  /** What a session was opened with beside a password: a mailed code, with the event that read its
      challenge, or a passkey token. */
  datatype Ticket = NoTicket | MailedCode(challengeId: string, since: nat) | PasskeyToken(token: string)

  /** A session token in somebody's browser, with the number of the event that minted it. */
  datatype Session = Session(claims: SessionRefresh.Claims, provider: Provider, ticket: Ticket, step: nat)

  /** A request between two of its steps: a sign-in or a verification of an address that has read a
      challenge and has yet to write, one that has an exhausted challenge to delete, or a sign-in
      that has consumed a passkey token. `since` is the event of the first step. */
  datatype Flying =
    | Coding(user: User, challengeId: string, look: Look, rules: OtpRules, verify: bool, since: nat)
    | Verifying(userId: string, challengeId: string, look: Look, rules: OtpRules)
    | Deleting(challengeId: string)
    | Redeeming(token: string, userId: string, since: nat)

  /** `issued` are the pending authorizations signed so far; `born` every user id ever used, with the
      immutable kind of its user; `used` every id ever given to a challenge or an exchange token. */
  datatype World = World(
    db: Db,
    exchanges: map<string, Exchange>,
    flying: map<nat, Flying>,
    sessions: seq<Session>,
    issued: seq<PendingCookie.Issue>,
    born: map<string, bool>,
    used: set<string>,
    steps: nat)

  datatype Event =
    | Authorization(params: map<string, PendingCookie.Field>, now: int)
    | Preflight(host: Host, jar: Cookies, username: string, password: string)
    | CodeRequest(host: Host, jar: Cookies, username: string, password: string)
    | PasswordProof(host: Host, username: string, password: string)
    | PasswordChange(host: Host, jar: Cookies, username: string, current: string, next: string)
    | PasswordSignIn(call: nat, host: Host, jar: Cookies, credentials: Credentials)
    | Settles(call: nat, now: int)
    | PasskeySignIn(call: nat, host: Host, token: Option<string>)
    | Redeems(call: nat, host: Host)
    | TestSignIn(host: Host, jar: Cookies, chosen: Option<string>)
    | VerificationRequest(host: Host, userId: string)
    | VerificationTry(call: nat, host: Host, userId: string, challengeId: string, code: string)
    | Refresh(session: nat, now: int, works: bool)
    | PasskeyVerified(id: string, exchange: Exchange)
    | CreateUser(host: Host, id: string, form: UserService.UserForm)
    | UpdateUser(host: Host, target: string, update: UserService.UserUpdate, actor: string)
    | ResetPassword(host: Host, id: string, password: string)
    | DeleteUser(id: string)
    | SetEnvironments(userId: string, environmentIds: seq<string>)
    | InsertByHand(row: User)
    | UpdateByHand(id: string, patch: Patch)

  /** The JSON and the key behind the pending cookie; the key stays the same. */
  datatype Sealing = Sealing(codec: PendingCookie.Codec, mac: PendingCookie.Mac)

  // ---------------------------------------------------------------- what can happen

  /** A request reads the pending cookie with the one key, or reads nothing where none is configured;
      the cookie it presents, if any, was not forged. */
  ghost predicate Honest(w: World, sealing: Sealing, host: Host, jar: Cookies) {
    && (host.decodePending(jar.pending).Some? ==>
          host.decodePending(jar.pending)
          == PendingCookie.Presented(sealing.codec, Some(sealing.mac), jar.pending, host.now))
    && (jar.pending.Some? ==> PendingCookie.Unforged(sealing.codec, sealing.mac, jar.pending.value, w.issued))
  }

  /** Ids of users, challenges and tokens are random and never come twice; a reset link is mailed to
      no test user. */
  ghost predicate Possible(w: World, sealing: Sealing, e: Event) {
    match e
    case Authorization(_, _) => true
    case Preflight(host, jar, _, _) => Honest(w, sealing, host, jar) && host.seed.challengeId !in w.used
    case CodeRequest(host, jar, _, _) => Honest(w, sealing, host, jar) && host.seed.challengeId !in w.used
    case PasswordProof(_, _, _) => true
    case PasswordChange(host, jar, _, _, _) => Honest(w, sealing, host, jar)
    case PasswordSignIn(call, host, jar, _) => Honest(w, sealing, host, jar) && call !in w.flying
    case Settles(call, _) => call in w.flying && !w.flying[call].Redeeming?
    case PasskeySignIn(call, _, _) => call !in w.flying
    case Redeems(call, _) => call in w.flying && w.flying[call].Redeeming?
    case TestSignIn(host, jar, _) => Honest(w, sealing, host, jar)
    case VerificationRequest(host, _) => host.seed.challengeId !in w.used
    case VerificationTry(call, _, _, _, _) => call !in w.flying
    case Refresh(session, _, _) => session < |w.sessions|
    case PasskeyVerified(id, exchange) => id !in w.used && !exchange.used
    case CreateUser(_, id, _) => id !in w.born
    case UpdateUser(_, _, _, _) => true
    case ResetPassword(_, id, _) => !IsTestUser(w.db.rows, id)
    case DeleteUser(_) => true
    case SetEnvironments(_, _) => true
    case InsertByHand(row) => row.id !in w.born
    case UpdateByHand(_, _) => true
  }

  predicate IsTestUser(rows: seq<User>, id: string) {
    FindById(rows, id).Some? && FindById(rows, id).value.isTestUser
  }

  // ---------------------------------------------------------------- what happens

  function Opened(w: World, user: SessionUser, now: int, provider: Provider, ticket: Ticket): seq<Session> {
    w.sessions + [Session(SessionRefresh.SignedIn(user.id, user.isAdmin, now), provider, ticket, w.steps)]
  }

  /** The claims of a session after a request it comes with. */
  function Checked(w: World, s: Session, now: int, works: bool): Session {
    var lookup :=
      if works && s.claims.id.Some? then SessionRefresh.ReadFlag(w.db.rows, s.claims.id.value)
      else SessionRefresh.LookupFailed;
    s.(claims := SessionRefresh.Refreshed(s.claims, now, SessionRefresh.ADMIN_RECHECK_INTERVAL_MS, lookup))
  }

  /** The first step of a sign-in: up to reading the challenge if a mailed code is redeemed, all of it
      otherwise. */
  function SignInStarts(w: World, call: nat, host: Host, jar: Cookies, c: Credentials): World {
    match EntersCode(host, w.db, jar, c)
    case Some(e) =>
      var look := LookUp(w.db.challenges, MfaOtp, e.challengeId, e.user.id, e.otp, host.rules, host.now);
      w.(db := e.db,
         flying := if look.Turned? then w.flying
                   else w.flying[call := Coding(e.user, e.challengeId, look, host.rules,
                                                RequiresVerification(host, e.user), w.steps)])
    case None =>
      var r := Authorize(host, w.db, jar, c);
      w.(db := r.db,
         sessions := if r.verdict.Minted? then Opened(w, r.verdict.user, host.now, ByPassword, NoTicket)
                     else w.sessions)
  }

  /** What a write leaves to be done. */
  function After(flying: map<nat, Flying>, call: nat, s: Settled, challengeId: string): map<nat, Flying> {
    if s.drop then flying[call := Deleting(challengeId)] else flying - {call}
  }

  /** The write of a request that has read a challenge, and what it goes on to do. */
  function Wrote(w: World, call: nat, now: int): World
    requires call in w.flying
  {
    match w.flying[call]
    case Coding(user, c, look, rules, verify, since) =>
      var s := Settle(w.db.challenges, c, look, rules);
      var rows := if s.result == OtpOk && verify then MarkedVerified(w.db.rows, user.id, now) else w.db.rows;
      w.(db := w.db.(rows := rows, challenges := s.store),
         flying := After(w.flying, call, s, c),
         sessions := if s.result == OtpOk then Opened(w, SessionOf(user), now, ByPassword, MailedCode(c, since))
                     else w.sessions)
    case Verifying(userId, c, look, rules) =>
      var s := Settle(w.db.challenges, c, look, rules);
      var rows := if s.result == OtpOk then MarkedVerified(w.db.rows, userId, now) else w.db.rows;
      w.(db := w.db.(rows := rows, challenges := s.store), flying := After(w.flying, call, s, c))
    case Deleting(c) => w.(db := w.db.(challenges := w.db.challenges - {c}), flying := w.flying - {call})
    case Redeeming(_, _, _) => w
  }

  function PasskeyStarts(w: World, call: nat, host: Host, token: Option<string>): World {
    var r := ConsumeToken(host, w.exchanges, token);
    w.(exchanges := r.exchanges,
       flying := if r.userId.Some? then w.flying[call := Redeeming(Trim(token.GetOr("")), r.userId.value, w.steps)]
                 else w.flying)
  }

  function PasskeyFinishes(w: World, call: nat, host: Host): World
    requires call in w.flying && w.flying[call].Redeeming?
  {
    var f := w.flying[call];
    var session := PasskeySession(host, w.db.rows, f.userId);
    w.(flying := w.flying - {call},
       sessions := if session.Some? then Opened(w, session.value, host.now, ByPasskey, PasskeyToken(f.token))
                   else w.sessions)
  }

  function VerificationStarts(w: World, call: nat, host: Host, userId: string, challengeId: string, code: string)
    : World
  {
    var id := Trim(challengeId);
    var look := LookUp(w.db.challenges, EmailVerification, id, userId, Trim(code), host.rules, host.now);
    if id == "" || Trim(code) == "" || look.Turned? then w
    else w.(flying := w.flying[call := Verifying(userId, id, look, host.rules)])
  }

  /** The challenges left when a user goes. */
  function Dropped(store: Store, userId: string): Store {
    map id | id in store && store[id].userId != userId :: store[id]
  }

  function Deleted(w: World, id: string): World {
    w.(db := Db(Removed(w.db.rows, id), Without(w.db.grants, id), Dropped(w.db.challenges, id)),
       exchanges := map x | x in w.exchanges && w.exchanges[x].userId != id :: w.exchanges[x])
  }

  /** Nothing of a deleted user is left: no row, no grant, no challenge, no token. */
  lemma DeletionIsComplete(w: World, id: string)
    ensures var db := Deleted(w, id).db;
      && FindById(db.rows, id).None?
      && (forall g :: g in db.grants ==> g.userId != id)
      && (forall c :: c in db.challenges ==> db.challenges[c].userId != id)
      && (forall x :: x in Deleted(w, id).exchanges ==> Deleted(w, id).exchanges[x].userId != id)
  {
  }

  function Inserted(w: World, row: User): World {
    var rows := w.db.rows + [row];
    if ValidUsers(rows) then w.(db := w.db.(rows := rows), born := w.born[row.id := row.isTestUser]) else w
  }

  function Happened(w: World, e: Event): World {
    match e
    case Authorization(params, now) => w.(issued := w.issued + [PendingCookie.Issue(params, now)])
    case Preflight(host, jar, username, password) =>
      w.(db := Begin(host, w.db, jar, username, password).db, used := w.used + {host.seed.challengeId})
    case CodeRequest(host, jar, username, password) =>
      w.(db := RequestCode(host, w.db, jar, username, password).db, used := w.used + {host.seed.challengeId})
    case PasswordProof(host, username, password) =>
      var r := Identify(host, w.db.rows, username, password);
      if r.Known? then w.(db := w.db.(rows := r.rows)) else w
    case PasswordChange(host, jar, username, current, next) =>
      w.(db := ChangePassword(host, w.db, jar, username, current, next).db)
    case PasswordSignIn(call, host, jar, credentials) => SignInStarts(w, call, host, jar, credentials)
    case Settles(call, now) => if call in w.flying then Wrote(w, call, now) else w
    case PasskeySignIn(call, host, token) => PasskeyStarts(w, call, host, token)
    case Redeems(call, host) =>
      if call in w.flying && w.flying[call].Redeeming? then PasskeyFinishes(w, call, host) else w
    case TestSignIn(host, jar, chosen) =>
      var session := AuthorizeTestUser(host, w.db, jar, chosen);
      w.(sessions := if session.Some? then Opened(w, session.value, host.now, ByTestUser, NoTicket) else w.sessions)
    case VerificationRequest(host, userId) =>
      w.(db := RequestVerification(host, w.db, userId).db, used := w.used + {host.seed.challengeId})
    case VerificationTry(call, host, userId, challengeId, code) =>
      VerificationStarts(w, call, host, userId, challengeId, code)
    case Refresh(session, now, works) =>
      if session < |w.sessions| then w.(sessions := w.sessions[session := Checked(w, w.sessions[session], now, works)])
      else w
    case PasskeyVerified(id, exchange) => w.(exchanges := w.exchanges[id := exchange], used := w.used + {id})
    case CreateUser(host, id, form) =>
      var row := UserService.NewUser(host, w.db.rows, id, form);
      if row.Some? then Inserted(w, row.value) else w
    case UpdateUser(host, target, update, actor) =>
      w.(db := w.db.(rows := UserService.AfterUserUpdate(host, w.db.rows, target, update, actor)))
    case ResetPassword(host, id, password) =>
      w.(db := w.db.(rows := UserService.AfterReset(host, w.db.rows, id, password)))
    case DeleteUser(id) => Deleted(w, id)
    case SetEnvironments(userId, ids) =>
      w.(db := w.db.(grants := UserRepository.Replaced(w.db.grants, userId, ids)))
    case InsertByHand(row) => Inserted(w, row)
    case UpdateByHand(id, patch) => w.(db := w.db.(rows := AfterUpdate(w.db.rows, id, patch)))
  }

  function Next(w: World, e: Event): World {
    Happened(w, e).(steps := w.steps + 1)
  }

  /** The world before the k-th event. */
  function At(start: World, events: seq<Event>, k: nat): World
    requires k <= |events|
  {
    if k == 0 then start else Next(At(start, events, k - 1), events[k - 1])
  }

  /** Nobody has signed in yet; whatever users there are. */
  predicate Fresh(w: World) {
    && ValidUsers(w.db.rows)
    && w.db.challenges == map[] && w.exchanges == map[] && w.flying == map[] && w.sessions == [] && w.issued == []
    && w.steps == 0
    && (forall i | 0 <= i < |w.db.rows| ::
          w.db.rows[i].id in w.born && w.born[w.db.rows[i].id] == w.db.rows[i].isTestUser)
  }

  ghost predicate Run(start: World, sealing: Sealing, events: seq<Event>) {
    Fresh(start) && forall k | 0 <= k < |events| :: Possible(At(start, events, k), sealing, events[k])
  }

  // ---------------------------------------------------------------- rows keep their identity

  /** The same users, kind and all; only their other fields may differ. */
  predicate SameUsers(a: seq<User>, b: seq<User>) {
    && |a| == |b|
    && (ValidUsers(a) ==> ValidUsers(b))
    && forall i :: 0 <= i < |a| ==> b[i].id == a[i].id && b[i].isTestUser == a[i].isTestUser
  }

  lemma UpdateKeepsUsers(rows: seq<User>, id: string, p: Patch)
    ensures SameUsers(rows, AfterUpdate(rows, id, p))
  {
    hide ValidUsers;
  }

  lemma SameUsersTransitive(a: seq<User>, b: seq<User>, c: seq<User>)
    requires SameUsers(a, b) && SameUsers(b, c)
    ensures SameUsers(a, c)
  {
    hide ValidUsers;
  }

  lemma SameAsItself(a: seq<User>)
    ensures SameUsers(a, a)
  {
    hide ValidUsers;
  }

  lemma RehashKeepsUsers(rows: seq<User>, id: string, rehash: Option<string>)
    ensures SameUsers(rows, Rehashed(rows, id, rehash))
  {
    UpdateKeepsUsers(rows, id, NO_CHANGE.(passwordHash := rehash));
    SameAsItself(rows);
  }

  lemma IdentifyKeepsUsers(host: Host, rows: seq<User>, username: string, password: string)
    ensures var r := Identify(host, rows, username, password);
      r.Known? ==> SameUsers(rows, r.rows)
  {
    hide Verify, FindByUsername, AfterUpdate, Trim, SameUsers;
    if Identify(host, rows, username, password).Known? {
      var u := FindByUsername(rows, Trim(username)).value;
      RehashKeepsUsers(rows, u.id, Verify(host, password, u.passwordHash).rehash);
    }
  }

  lemma MarkKeepsUsers(rows: seq<User>, id: string, now: int)
    ensures SameUsers(rows, MarkedVerified(rows, id, now))
  {
    hide FindById, AfterUpdate, SameUsers, Filled;
    SameAsItself(rows);
    UpdateKeepsUsers(rows, id, NO_CHANGE.(emailVerifiedAt := Some(Some(now))));
  }

  // ---------------------------------------------------------------- challenges keep theirs

  /** The counter aside, the row never changes. */
  predicate SameDeal(a: Challenge, b: Challenge) { b == a.(otpFailedAttempts := b.otpFailedAttempts) }

  /** Challenges go, and at most one comes, under the id of this request; none changes hands. */
  predicate Kept(a: Store, b: Store, id: Option<string>) {
    && (forall c :: c in b ==> c in a || id == Some(c))
    && (forall c :: c in a && c in b && id != Some(c) ==> SameDeal(a[c], b[c]))
    && (TenMinutes(a) ==> TenMinutes(b))
  }

  lemma OtpKeeps(host: Host, store: Store, user: User, kind: Kind)
    ensures Kept(store, CreateOtp(host, store, user, kind).store, Some(host.seed.challengeId))
  {
    hide Filled;
  }

  lemma TryKeeps(store: Store, kind: Kind, id: string, userId: string, code: string, rules: OtpRules, now: int)
    ensures Kept(store, VerifyAndConsume(store, kind, id, userId, code, rules, now).store, None)
  {
    hide Matches;
  }

  /** The write of a try removes at most its own challenge, or counts a failure on it. */
  lemma SettleKeeps(store: Store, id: string, look: Look, rules: OtpRules)
    ensures Kept(store, Settle(store, id, look, rules).store, None)
    ensures Settle(store, id, look, rules).result == OtpOk && look != Turned(OtpOk)
        ==> look == Held(true) && id !in Settle(store, id, look, rules).store
  {
  }

  lemma DeleteKeeps(store: Store, id: string)
    ensures Kept(store, store - {id}, None)
  {
  }

  lemma RequestVerificationBounded(host: Host, db: Db, userId: string)
    ensures Bounded(db, RequestVerification(host, db, userId).db, Some(host.seed.challengeId))
  {
    hide Filled, CreateOtp, FindById, SameUsers, Kept;
    SameAsItself(db.rows);
    KeptAsIs(db.challenges, Some(host.seed.challengeId));
    var user := FindById(db.rows, userId);
    if user.Some? { OtpKeeps(host, db.challenges, user.value, EmailVerification); }
  }

  lemma KeptAsIs(store: Store, id: Option<string>)
    ensures Kept(store, store, id)
  {
  }

  /** What a request may do to the tables. */
  predicate Bounded(a: Db, b: Db, id: Option<string>) {
    SameUsers(a.rows, b.rows) && b.grants == a.grants && Kept(a.challenges, b.challenges, id)
  }

  lemma ChoiceBounded(host: Host, db: Db, jar: Cookies, user: User)
    ensures var r := ChooseChallenge(host, db, jar, user);
      && r.db.rows == db.rows && r.db.grants == db.grants
      && Kept(db.challenges, r.db.challenges, Some(host.seed.challengeId))
  {
    hide Filled, CreateOtp, SiteSettings, Kept;
    KeptAsIs(db.challenges, Some(host.seed.challengeId));
    OtpKeeps(host, db.challenges, user, MfaOtp);
    OtpKeeps(host, db.challenges, user, EmailVerification);
  }

  lemma BeginBounded(host: Host, db: Db, jar: Cookies, username: string, password: string)
    ensures Bounded(db, Begin(host, db, jar, username, password).db, Some(host.seed.challengeId))
  {
    hide Identify, ChooseChallenge, ComplexityOf, PendingClient, EnvironmentsOf, SameUsers, Kept;
    SameAsItself(db.rows);
    KeptAsIs(db.challenges, Some(host.seed.challengeId));
    IdentifyKeepsUsers(host, db.rows, username, password);
    var r := Identify(host, db.rows, username, password);
    if r.Known? { ChoiceBounded(host, db.(rows := r.rows), jar, r.user); }
  }

  lemma RequestBounded(host: Host, db: Db, jar: Cookies, username: string, password: string)
    ensures Bounded(db, RequestCode(host, db, jar, username, password).db, Some(host.seed.challengeId))
  {
    hide Identify, CreateOtp, SiteSettings, Filled, SameUsers, Kept;
    SameAsItself(db.rows);
    KeptAsIs(db.challenges, Some(host.seed.challengeId));
    IdentifyKeepsUsers(host, db.rows, username, password);
    var r := Identify(host, db.rows, username, password);
    if r.Known? { OtpKeeps(host, db.challenges, r.user, MfaOtp); }
  }

  lemma WrittenKeepsUsers(host: Host, rows: seq<User>, user: User, password: string)
    ensures var r := WithPassword(host, rows, user, password);
      r.Some? ==> SameUsers(rows, r.value)
  {
    hide Trim, AfterUpdate, SameUsers;
    SameAsItself(rows);
    var h := PasswordHash.HashPassword(password, host.hashing, host.hasher, host.md5);
    if h.Hash? {
      UpdateKeepsUsers(rows, user.id,
                       NO_CHANGE.(passwordHash := Some(h.stored), passwordUpdatedAt := Some(Some(host.now))));
    }
  }

  lemma ChangeBounded(host: Host, db: Db, jar: Cookies, username: string, current: string, next: string)
    ensures Bounded(db, ChangePassword(host, db, jar, username, current, next).db, None)
  {
    hide Identify, ComplexityOf, WithPassword, SameUsers, Kept;
    SameAsItself(db.rows);
    KeptAsIs(db.challenges, None);
    IdentifyKeepsUsers(host, db.rows, username, current);
    var first := Identify(host, db.rows, username, current);
    if first.Known? {
      IdentifyKeepsUsers(host, first.rows, username, next);
      WrittenKeepsUsers(host, first.rows, first.user, next);
      var second := Identify(host, first.rows, username, next);
      if second.Known? { SameUsersTransitive(db.rows, first.rows, second.rows); }
      var written := WithPassword(host, first.rows, first.user, next);
      if written.Some? { SameUsersTransitive(db.rows, first.rows, written.value); }
    }
  }

  lemma FactorBounded(host: Host, db: Db, jar: Cookies, user: User, otp: string, mfaMethod: string)
    ensures Bounded(db, SecondFactor(host, db, jar, user, otp, mfaMethod).db, None)
  {
    hide Filled, VerifyAndConsume, MarkedVerified, IsEmailMfaGloballyEnabled, SameUsers, Kept;
    SameAsItself(db.rows);
    KeptAsIs(db.challenges, None);
    MarkKeepsUsers(db.rows, user.id, host.now);
    TryKeeps(db.challenges, MfaOtp, jar.mfa.GetOr(""), user.id, otp, host.rules, host.now);
    TryKeeps(db.challenges, EmailVerification, jar.emailVerification.GetOr(""), user.id, otp, host.rules, host.now);
  }

  lemma AuthorizeBounded(host: Host, db: Db, jar: Cookies, c: Credentials)
    ensures Bounded(db, Authorize(host, db, jar, c).db, None)
  {
    hide SecondFactor, Verify, FindByUsername, AfterUpdate, ComplexityOf, SameUsers, Kept;
    SameAsItself(db.rows);
    KeptAsIs(db.challenges, None);
    var otp, mfaMethod := Trim(c.otp.GetOr("")), Trim(c.mfaMethod.GetOr(""));
    hide Trim;
    if c.username.Some? && c.password.Some? && FindByUsername(db.rows, c.username.value).Some? {
      var user := FindByUsername(db.rows, c.username.value).value;
      var v := Verify(host, c.password.value, user.passwordHash);
      if v.Accepted? {
        RehashKeepsUsers(db.rows, user.id, v.rehash);
        var middle := db.(rows := Rehashed(db.rows, user.id, v.rehash));
        FactorBounded(host, middle, jar, user, otp, mfaMethod);
        SameUsersTransitive(db.rows, middle.rows, SecondFactor(host, middle, jar, user, otp, mfaMethod).db.rows);
      }
    }
  }

  // ---------------------------------------------------------------- the steps make up the whole

  /** What entering says of the row and of the rest of `authorize`. */
  lemma EntersIsAuthorize(host: Host, db: Db, jar: Cookies, c: Credentials)
    ensures var entered := EntersCode(host, db, jar, c);
      if entered.Some? then
        && Authorize(host, db, jar, c)
           == RedeemEmailCode(host, entered.value.db, jar, entered.value.user, entered.value.otp)
        && Truthy(jar.mfa) && jar.mfa == Some(entered.value.challengeId)
        && !entered.value.user.isTestUser && entered.value.db == db.(rows := entered.value.db.rows)
        && c.username.Some? && FindByUsername(db.rows, c.username.value) == Some(entered.value.user)
        && SameUsers(db.rows, entered.value.db.rows)
      else
        Authorize(host, db, jar, c).verdict.Minted? ==> !Authorize(host, db, jar, c).verdict.used.WithEmailCode?
  {
    hide Verify, FindByUsername, AfterUpdate, ComplexityOf, Filled, RedeemEmailCode, RedeemVerification,
         IsEmailMfaGloballyEnabled, SameUsers, Trim;
    if c.username.Some? && FindByUsername(db.rows, c.username.value).Some? {
      var user := FindByUsername(db.rows, c.username.value).value;
      var v := Verify(host, c.password.GetOr(""), user.passwordHash);
      if v.Accepted? { RehashKeepsUsers(db.rows, user.id, v.rehash); }
      var middle := db.(rows := Rehashed(db.rows, user.id, if v.Accepted? then v.rehash else None));
      VerificationIsNoCode(host, middle, jar, user, Trim(c.otp.GetOr("")));
      NoCookieNoCode(host, middle, jar, user, Trim(c.otp.GetOr("")));
    }
  }

  lemma NoCookieNoCode(host: Host, db: Db, jar: Cookies, user: User, otp: string)
    ensures !Truthy(jar.mfa) ==> RedeemEmailCode(host, db, jar, user, otp) == Authorized(db, jar, Denied)
  {
  }

  lemma VerificationIsNoCode(host: Host, db: Db, jar: Cookies, user: User, otp: string)
    ensures RedeemVerification(host, db, jar, user, otp).verdict.Minted?
        ==> !RedeemVerification(host, db, jar, user, otp).verdict.used.WithEmailCode?
  {
    hide Filled, VerifyAndConsume, MarkedVerified;
  }

  /** Redeeming in the steps it awaits. */
  lemma RedeemBySteps(host: Host, db: Db, jar: Cookies, user: User, otp: string)
    requires Truthy(jar.mfa)
    ensures var id := jar.mfa.value;
      var look := LookUp(db.challenges, MfaOtp, id, user.id, otp, host.rules, host.now);
      var s := Settle(db.challenges, id, look, host.rules);
      var r := RedeemEmailCode(host, db, jar, user, otp);
      && look != Turned(OtpOk)
      && (r.verdict.Minted? <==> s.result == OtpOk)
      && r.db == db.(rows := if s.result == OtpOk && RequiresVerification(host, user)
                             then MarkedVerified(db.rows, user.id, host.now) else db.rows,
                     challenges := if s.drop then s.store - {id} else s.store)
  {
    hide Matches, MarkedVerified, RequiresVerification;
    StepsAreTheCall(db.challenges, MfaOtp, jar.mfa.value, user.id, otp, host.rules, host.now);
  }

  /** The steps of a sign-in with a mailed code, taken one after the other. */
  function AllSteps(w: World, call: nat, host: Host, jar: Cookies, c: Credentials): World {
    var started := SignInStarts(w, call, host, jar, c);
    var wrote := if call in started.flying then Wrote(started, call, host.now) else started;
    if call in wrote.flying then Wrote(wrote, call, host.now) else wrote
  }

  /** If nothing comes between them they are `authorize`. */
  lemma StepsAreAuthorize(w: World, call: nat, host: Host, jar: Cookies, c: Credentials)
    requires call !in w.flying && EntersCode(host, w.db, jar, c).Some?
    ensures AllSteps(w, call, host, jar, c).db == Authorize(host, w.db, jar, c).db
    ensures AllSteps(w, call, host, jar, c).flying == w.flying
    ensures Authorize(host, w.db, jar, c).verdict.Minted? <==> |AllSteps(w, call, host, jar, c).sessions| > |w.sessions|
  {
    hide EntersCode, Authorize, MarkedVerified, LookUp, SameUsers, RedeemEmailCode, RequiresVerification;
    EntersIsAuthorize(host, w.db, jar, c);
    var e := EntersCode(host, w.db, jar, c).value;
    RedeemBySteps(host, e.db, jar, e.user, e.otp);
    var started := SignInStarts(w, call, host, jar, c);
    if call in started.flying {
      var f := started.flying[call];
      var s := Settle(w.db.challenges, e.challengeId, f.look, host.rules);
      assert After(started.flying, call, s, e.challengeId) - {call} == w.flying;
    }
  }

  // ---------------------------------------------------------------- how a session comes about

  /** The signed parameters name a test client that has not expired, in an environment of the user. */
  predicate NamesTestClient(host: Host, params: map<string, PendingCookie.Field>, grants: seq<Grant>, userId: string) {
    var clean := PendingCookie.Sanitized(params);
    && "client_id" in clean
    && var client := host.clients(Trim(clean["client_id"]));
    && client.Some? && client.value.isTest
    && (client.value.expiresAt.Some? ==> host.now < client.value.expiresAt.value)
    && Grant(userId, client.value.environmentId) in grants
  }

  /** A pending authorization signed less than 300 seconds before does so. */
  predicate InFlight(w: World, host: Host, userId: string) {
    exists i | 0 <= i < |w.issued| ::
      host.now - w.issued[i].atMs < 300_000 && NamesTestClient(host, w.issued[i].params, w.db.grants, userId)
  }

  /** A live challenge of the user, less than ten minutes old. */
  predicate LiveCode(w: World, now: int, challengeId: string, userId: string) {
    && challengeId in w.db.challenges
    && w.db.challenges[challengeId].kind == MfaOtp
    && w.db.challenges[challengeId].userId == userId
    && now < w.db.challenges[challengeId].createdAt + 600_000
  }

  predicate LiveToken(w: World, now: int, token: string, userId: string) {
    && token in w.exchanges && !w.exchanges[token].used
    && w.exchanges[token].userId == userId && now < w.exchanges[token].expiresAt
  }

  /** The credentials open a session of user `id` and no mailed code is due: the user has neither an
      authenticator nor an address to mail to, or the authenticator has accepted the code given. */
  predicate WithoutMail(host: Host, db: Db, jar: Cookies, c: Credentials, id: string) {
    && c.username.Some?
    && var u := FindByUsername(db.rows, c.username.value);
    && u.Some? && u.value.id == id
    && (SignInGates.Entitled(host, db, jar, c, u.value, NoCode)
        || SignInGates.Entitled(host, db, jar, c, u.value, WithTotp))
  }

  /** What was the case when event `e`, in world `w`, was the first step of request `f`. */
  predicate StartedBy(w: World, e: Event, f: Flying) {
    match f
    case Coding(user, c, look, _, _, since) =>
      && e.PasswordSignIn? && since == w.steps
      && !user.isTestUser && FindById(w.db.rows, user.id).Some? && !IsTestUser(w.db.rows, user.id)
      && SignInGates.PastPassword(e.host, w.db, e.jar, e.credentials, user.id) && SignInGates.CodesMailed(e.host)
      && (look.Held? ==> LiveCode(w, e.host.now, c, user.id))
    case Redeeming(x, userId, since) => e.PasskeySignIn? && since == w.steps && LiveToken(w, e.host.now, x, userId)
    case _ => true
  }

  /** What was the case when event `e`, in world `w`, opened session `s`. */
  predicate OpenedBy(w: World, e: Event, s: Session) {
    && s.claims.id.Some?
    && match s.provider
       case ByTestUser =>
         e.TestSignIn? && IsTestUser(w.db.rows, s.claims.id.value) && InFlight(w, e.host, s.claims.id.value)
         && s.ticket == NoTicket
       case ByPassword =>
         if s.ticket == NoTicket then
           e.PasswordSignIn?
           && FindById(w.db.rows, s.claims.id.value).Some? && !IsTestUser(w.db.rows, s.claims.id.value)
           && WithoutMail(e.host, w.db, e.jar, e.credentials, s.claims.id.value)
         else
           && s.ticket.MailedCode? && e.Settles? && e.call in w.flying && w.flying[e.call].Coding?
           && var f := w.flying[e.call];
           && f.user.id == s.claims.id.value && f.challengeId == s.ticket.challengeId && f.since == s.ticket.since
           && f.look == Held(true)
       case ByPasskey =>
         && e.Redeems? && FindById(w.db.rows, s.claims.id.value).Some? && !IsTestUser(w.db.rows, s.claims.id.value)
         && !SignInGates.Unproved(e.host, FindById(w.db.rows, s.claims.id.value).value)
         && s.ticket.PasskeyToken? && e.call in w.flying && w.flying[e.call].Redeeming?
         && w.flying[e.call].userId == s.claims.id.value && w.flying[e.call].token == s.ticket.token
  }

  lemma TestSessionOpened(w: World, sealing: Sealing, host: Host, jar: Cookies, chosen: Option<string>)
    requires PendingCookie.Faithful(sealing.codec) && Honest(w, sealing, host, jar)
    ensures var session := AuthorizeTestUser(host, w.db, jar, chosen);
      session.Some? ==>
        && IsTestUser(w.db.rows, session.value.id) && !session.value.isAdmin
        && InFlight(w, host, session.value.id)
  {
    hide FindById, EnvironmentsOf, PendingCookie.Sanitized, PendingCookie.Faithful, Honest, Trim;
    var session := AuthorizeTestUser(host, w.db, jar, chosen);
    if session.Some? {
      PendingWasIssued(w, sealing, host, jar);
    }
  }

  lemma PendingWasIssued(w: World, sealing: Sealing, host: Host, jar: Cookies)
    requires PendingCookie.Faithful(sealing.codec) && Honest(w, sealing, host, jar)
    requires host.decodePending(jar.pending).Some?
    ensures exists i | 0 <= i < |w.issued| ::
      && host.now - w.issued[i].atMs < 300_000
      && host.decodePending(jar.pending) == Some(PendingCookie.Sanitized(w.issued[i].params))
  {
    hide PendingCookie.Sanitized, PendingCookie.Presented, PendingCookie.Unforged, PendingCookie.Faithful;
    PendingCookie.NoCookieReadsNothing(sealing.codec, Some(sealing.mac), host.now);
    PendingCookie.AcceptedWasIssued(sealing.codec, sealing.mac, jar.pending.value, w.issued, host.now);
  }
}
