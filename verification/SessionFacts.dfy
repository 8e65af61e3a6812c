/** What holds in every run of SessionRuns. */
module SessionFacts {
  import opened JsText
  import opened UserTable
  import opened Challenges
  import opened SignIn
  import opened SessionRuns
  import PasswordHash
  import PendingCookie
  import SessionRefresh
  import SignInFacts
  import SignInGates
  import UserRepository
  import UserService

  // ---------------------------------------------------------------- the invariant

  predicate KnownUsers(w: World) {
    forall i | 0 <= i < |w.db.rows| ::
      w.db.rows[i].id in w.born && w.born[w.db.rows[i].id] == w.db.rows[i].isTestUser
  }

  predicate KnownIds(w: World) {
    && (forall c :: c in w.db.challenges ==> c in w.used)
    && (forall x :: x in w.exchanges ==> x in w.used)
  }

  predicate Tables(w: World) {
    ValidUsers(w.db.rows) && KnownUsers(w) && TenMinutes(w.db.challenges) && KnownIds(w)
  }

  predicate TokenSpent(w: World, x: string) { x in w.used && (x in w.exchanges ==> w.exchanges[x].used) }

  predicate NoTestUser(w: World, id: string) { id in w.born && !w.born[id] }

  /** The challenge or token behind the session is gone or used. */
  predicate Spent(w: World, s: Session) {
    match s.ticket
    case NoTicket => true
    case MailedCode(c, since) => c in w.used && c !in w.db.challenges && since < s.step
    case PasskeyToken(x) => TokenSpent(w, x)
  }

  /** A session belongs to a user there was; it is a test user's exactly if the test-user provider
      opened it, and then it is no admin's. */
  predicate SessionOk(w: World, s: Session) {
    && s.claims.id.Some? && s.claims.id.value in w.born
    && (w.born[s.claims.id.value] <==> s.provider == ByTestUser)
    && (w.born[s.claims.id.value] ==> !s.claims.isAdmin)
    && s.step < w.steps
    && Spent(w, s)
  }

  /** A sign-in under way is no test user's, and a token it holds is spent. */
  predicate FlyingOk(w: World, f: Flying) {
    match f
    case Coding(user, c, look, _, _, since) =>
      NoTestUser(w, user.id) && since < w.steps && c in w.used && !look.Turned?
    case Redeeming(x, _, since) => TokenSpent(w, x) && since < w.steps
    case Verifying(_, _, look, _) => !look.Turned?
    case Deleting(_) => true
  }

  predicate EachOk(w: World) {
    && (forall s :: s in w.sessions ==> SessionOk(w, s))
    && (forall c :: c in w.flying ==> FlyingOk(w, w.flying[c]))
  }

  /** Every passkey token is held by one session or one request under way at most. */
  predicate TokensApart(sessions: seq<Session>, flying: map<nat, Flying>) {
    && (forall i, j | 0 <= i < j < |sessions| ::
          sessions[i].ticket.PasskeyToken? ==> sessions[i].ticket != sessions[j].ticket)
    && (forall c, d :: c in flying && d in flying && c != d && flying[c].Redeeming? && flying[d].Redeeming? ==>
          flying[c].token != flying[d].token)
    && (forall i, c :: 0 <= i < |sessions| && c in flying && flying[c].Redeeming? ==>
          sessions[i].ticket != PasskeyToken(flying[c].token))
  }

  predicate Inv(w: World) { Tables(w) && EachOk(w) && TokensApart(w.sessions, w.flying) }

  // ---------------------------------------------------------------- going on

  /** A later world: ids stay used and users known, nothing spent comes back. */
  predicate Onward(w: World, v: World) {
    && w.used <= v.used && w.steps <= v.steps
    && (forall id :: id in w.born ==> id in v.born && v.born[id] == w.born[id])
    && (forall c :: c in v.db.challenges && c in w.used ==> c in w.db.challenges)
    && (forall x :: x in v.exchanges && x in w.used ==>
          x in w.exchanges && (w.exchanges[x].used ==> v.exchanges[x].used))
  }

  lemma OnwardOk(w: World, v: World)
    requires Onward(w, v)
    ensures forall s :: SessionOk(w, s) ==> SessionOk(v, s)
    ensures forall f :: FlyingOk(w, f) ==> FlyingOk(v, f)
  {
  }

  /** The invariant carries over if what is new is in order. */
  lemma Carries(w: World, v: World)
    requires Inv(w) && Onward(w, v) && Tables(v) && TokensApart(v.sessions, v.flying)
    requires forall s :: s in v.sessions ==> s in w.sessions || SessionOk(v, s)
    requires forall c :: c in v.flying ==> (c in w.flying && v.flying[c] == w.flying[c]) || FlyingOk(v, v.flying[c])
    ensures Inv(v)
  {
    hide Onward, Tables, TokensApart, SessionOk, FlyingOk;
    OnwardOk(w, v);
  }

  /** Requests under way may end. */
  lemma FewerApart(sessions: seq<Session>, flying: map<nat, Flying>, fewer: map<nat, Flying>)
    requires TokensApart(sessions, flying)
    requires forall c :: c in fewer && fewer[c].Redeeming? ==> c in flying && fewer[c] == flying[c]
    ensures TokensApart(sessions, fewer)
  {
  }

  // ---------------------------------------------------------------- steps on the tables

  /** The tables move as a request may move them; ids already used stay used. */
  lemma TablesMove(w: World, v: World, id: Option<string>)
    requires Tables(w) && Bounded(w.db, v.db, id) && v.exchanges == w.exchanges && v.born == w.born
    requires w.used <= v.used && w.steps <= v.steps && (id.Some? ==> id.value !in w.used && id.value in v.used)
    ensures Tables(v) && Onward(w, v)
  {
    hide ValidUsers, TenMinutes, SameDeal;
  }

  /** Nothing but the tables and the step counter. */
  lemma TablesStep(w: World, v: World, id: Option<string>)
    requires Inv(w) && Bounded(w.db, v.db, id)
    requires v == w.(db := v.db, used := v.used, steps := w.steps + 1)
    requires w.used <= v.used && (id.Some? ==> id.value !in w.used && id.value in v.used)
    ensures Inv(v)
  {
    hide Bounded, Onward, Tables, TokensApart, SessionOk, FlyingOk;
    TablesMove(w, v, id);
    Carries(w, v);
  }

  lemma SameTables(w: World, v: World)
    requires Tables(w) && v.db.rows == w.db.rows && v.db.challenges == w.db.challenges
    requires v.exchanges == w.exchanges && v.born == w.born && v.used == w.used && w.steps <= v.steps
    ensures Tables(v) && Onward(w, v)
  {
    hide ValidUsers, TenMinutes;
  }

  /** Only what no table or request depends on. */
  lemma IdleStep(w: World, v: World)
    requires Inv(w) && v == w.(issued := v.issued, db := w.db.(grants := v.db.grants), steps := w.steps + 1)
    ensures Inv(v)
  {
    hide Onward, Tables, TokensApart, SessionOk, FlyingOk;
    SameTables(w, v);
    Carries(w, v);
  }

  lemma InsertMove(w: World, row: User)
    requires Tables(w) && row.id !in w.born && ValidUsers(w.db.rows + [row])
    ensures Tables(Inserted(w, row)) && Onward(w, Inserted(w, row))
  {
    hide ValidUsers, TenMinutes;
  }

  lemma InsertStep(w: World, row: User)
    requires Inv(w) && row.id !in w.born
    ensures Inv(Inserted(w, row).(steps := w.steps + 1))
  {
    hide Onward, Tables, TokensApart, SessionOk, FlyingOk, ValidUsers;
    var middle := Inserted(w, row);
    if ValidUsers(w.db.rows + [row]) {
      InsertMove(w, row);
      Carries(w, middle);
    }
    IdleStep(middle, middle.(steps := w.steps + 1));
  }

  lemma RemovedKnown(w: World, id: string)
    requires KnownUsers(w)
    ensures KnownUsers(Deleted(w, id))
  {
    var rows := Removed(w.db.rows, id);
    assert Deleted(w, id).db.rows == rows && Deleted(w, id).born == w.born;
    hide Deleted;
    forall i | 0 <= i < |rows| ensures rows[i].id in w.born && w.born[rows[i].id] == rows[i].isTestUser {
      assert rows[i] in w.db.rows;
    }
  }

  lemma DeleteMove(w: World, id: string)
    requires Tables(w)
    ensures Tables(Deleted(w, id)) && Onward(w, Deleted(w, id))
  {
    hide ValidUsers, Without, KnownUsers;
    RemovedKeepsValid(w.db.rows, id);
    RemovedKnown(w, id);
  }

  lemma DeletedParts(w: World, id: string)
    ensures Deleted(w, id).sessions == w.sessions && Deleted(w, id).flying == w.flying
    ensures Next(w, DeleteUser(id)) == Deleted(w, id).(steps := w.steps + 1) && Deleted(w, id).steps == w.steps
  {
    hide Dropped, Without;
  }

  lemma DeleteStep(w: World, id: string)
    requires Inv(w)
    ensures Inv(Next(w, DeleteUser(id)))
  {
    hide Onward, Tables, TokensApart, SessionOk, FlyingOk, Deleted, Next;
    DeletedParts(w, id);
    var middle := Deleted(w, id);
    DeleteMove(w, id);
    Carries(w, middle);
    IdleStep(middle, Next(w, DeleteUser(id)));
  }

  lemma PasskeyVerifiedStep(w: World, id: string, exchange: Exchange)
    requires Inv(w) && id !in w.used
    ensures Inv(Next(w, PasskeyVerified(id, exchange)))
  {
    hide ValidUsers, TenMinutes, TokensApart, SessionOk, FlyingOk;
    Carries(w, Next(w, PasskeyVerified(id, exchange)));
  }

  // ---------------------------------------------------------------- refreshing a session

  /** A test user's row never reads as an admin's. */
  lemma AdminsAreReal(rows: seq<User>, id: string)
    requires ValidUsers(rows)
    ensures FindById(rows, id).Some? && FindById(rows, id).value.isTestUser ==> !FindById(rows, id).value.isAdmin
  {
    if FindById(rows, id).Some? {
      var i :| 0 <= i < |rows| && rows[i] == FindById(rows, id).value;
      assert RowOk(rows[i]);
    }
  }

  lemma KnownRow(w: World, id: string)
    requires KnownUsers(w) && FindById(w.db.rows, id).Some?
    ensures id in w.born && w.born[id] == IsTestUser(w.db.rows, id)
  {
    var i :| 0 <= i < |w.db.rows| && w.db.rows[i] == FindById(w.db.rows, id).value;
  }

  lemma CheckedKeepsTicket(w: World, s: Session, now: int, works: bool)
    ensures var c := Checked(w, s, now, works);
      c.ticket == s.ticket && c.provider == s.provider && c.step == s.step && c.claims.id == s.claims.id
  {
  }

  lemma CheckedOk(w: World, s: Session, now: int, works: bool)
    requires Tables(w) && SessionOk(w, s)
    ensures SessionOk(w, Checked(w, s, now, works))
  {
    hide ValidUsers, KnownUsers, KnownIds, TenMinutes, FindById, TokenSpent;
    AdminsAreReal(w.db.rows, s.claims.id.value);
    if FindById(w.db.rows, s.claims.id.value).Some? { KnownRow(w, s.claims.id.value); }
  }

  lemma RefreshStep(w: World, session: nat, now: int, works: bool)
    requires Inv(w) && session < |w.sessions|
    ensures Inv(Next(w, Refresh(session, now, works)))
  {
    hide Checked, Tables, SessionOk, FlyingOk, Onward;
    var s := w.sessions[session];
    CheckedOk(w, s, now, works);
    CheckedKeepsTicket(w, s, now, works);
    var v := Next(w, Refresh(session, now, works));
    SameTables(w, v);
    OnwardOk(w, v);
    assert forall x :: x in v.sessions ==> x in w.sessions || x == Checked(w, s, now, works);
    Carries(w, v);
  }

  // ---------------------------------------------------------------- opening a session

  /** One session more, its token if any given up by the request that held it. */
  lemma OneMoreApart(sessions: seq<Session>, flying: map<nat, Flying>, s: Session)
    requires TokensApart(sessions, flying)
    requires s.ticket.PasskeyToken? ==>
      && (forall i :: 0 <= i < |sessions| ==> sessions[i].ticket != s.ticket)
      && forall c :: c in flying && flying[c].Redeeming? ==> PasskeyToken(flying[c].token) != s.ticket
    ensures TokensApart(sessions + [s], flying)
  {
  }

  /** Adding a session to a world that already is what the event leaves otherwise. */
  lemma MintStep(middle: World, s: Session)
    requires Inv(middle) && SessionOk(middle, s)
    requires TokensApart(middle.sessions + [s], middle.flying)
    ensures Inv(middle.(sessions := middle.sessions + [s]))
  {
    hide Tables, SessionOk, FlyingOk, TokensApart, Onward;
    var v := middle.(sessions := middle.sessions + [s]);
    SameTables(middle, v);
    OnwardOk(middle, v);
    Carries(middle, v);
  }

  lemma PlainMintOk(w: World, s: Session)
    requires Tables(w) && s.claims.id.Some? && FindById(w.db.rows, s.claims.id.value).Some?
    requires s.ticket == NoTicket && s.step < w.steps
    requires IsTestUser(w.db.rows, s.claims.id.value) <==> s.provider == ByTestUser
    requires s.provider == ByTestUser ==> !s.claims.isAdmin
    ensures SessionOk(w, s)
  {
    hide ValidUsers, KnownUsers, KnownIds, TenMinutes, FindById;
    KnownRow(w, s.claims.id.value);
  }

  lemma TestStep(w: World, sealing: Sealing, host: Host, jar: Cookies, chosen: Option<string>)
    requires Inv(w) && PendingCookie.Faithful(sealing.codec) && Honest(w, sealing, host, jar)
    ensures Inv(Next(w, TestSignIn(host, jar, chosen)))
  {
    hide AuthorizeTestUser, Tables, EachOk, TokensApart, SessionOk, InFlight, Honest, FindById, PendingCookie.Faithful;
    var session := AuthorizeTestUser(host, w.db, jar, chosen);
    var middle := w.(steps := w.steps + 1);
    IdleStep(w, middle);
    if session.Some? {
      TestSessionOpened(w, sealing, host, jar, chosen);
      var s := Session(SessionRefresh.SignedIn(session.value.id, session.value.isAdmin, host.now), ByTestUser,
                       NoTicket, w.steps);
      PlainMintOk(middle, s);
      OneMoreApart(middle.sessions, middle.flying, s);
      MintStep(middle, s);
    }
  }

  // ---------------------------------------------------------------- a password sign-in

  /** A row found by name is the row of its id. */
  lemma FoundRow(w: World, username: string)
    requires Tables(w) && FindByUsername(w.db.rows, username).Some?
    ensures FindById(w.db.rows, FindByUsername(w.db.rows, username).value.id) == FindByUsername(w.db.rows, username)
  {
    hide ValidUsers;
    SignInFacts.FoundIsStored(w.db.rows, username);
  }

  lemma LookHeld(store: Store, kind: Kind, id: string, userId: string, code: string, rules: OtpRules, now: int)
    ensures var look := LookUp(store, kind, id, userId, code, rules, now);
      && (!look.Turned? ==> id in store && store[id].kind == kind && store[id].userId == userId)
      && (look.Held? ==> now < store[id].expiresAt)
      && look != Turned(OtpOk)
  {
    hide Matches;
  }

  /** The first step of a sign-in with a mailed code. */
  lemma EntersStarted(w: World, call: nat, host: Host, jar: Cookies, c: Credentials)
    requires Tables(w) && EntersCode(host, w.db, jar, c).Some?
    ensures var e := EntersCode(host, w.db, jar, c).value;
      var look := LookUp(w.db.challenges, MfaOtp, e.challengeId, e.user.id, e.otp, host.rules, host.now);
      && SameUsers(w.db.rows, e.db.rows) && e.db == w.db.(rows := e.db.rows)
      && FindById(w.db.rows, e.user.id) == Some(e.user) && !e.user.isTestUser
      && (!look.Turned? ==>
            && e.challengeId in w.used
            && StartedBy(w, PasswordSignIn(call, host, jar, c),
                         Coding(e.user, e.challengeId, look, host.rules, RequiresVerification(host, e.user), w.steps)))
  {
    hide EntersCode, Authorize, RedeemEmailCode, FindById, FindByUsername, ValidUsers, LookUp, RequiresVerification,
         SameUsers;
    EntersIsAuthorize(host, w.db, jar, c);
    var e := EntersCode(host, w.db, jar, c).value;
    SignInGates.EntersIff(host, w.db, jar, c, e.user);
    hide SignInGates.PastPassword, SignInGates.CodesMailed;
    FoundRow(w, c.username.value);
    LookHeld(w.db.challenges, MfaOtp, e.challengeId, e.user.id, e.otp, host.rules, host.now);
  }

  lemma EntersStep(w: World, call: nat, host: Host, jar: Cookies, c: Credentials)
    requires Inv(w) && call !in w.flying && EntersCode(host, w.db, jar, c).Some?
    ensures Inv(Next(w, PasswordSignIn(call, host, jar, c)))
  {
    hide EntersCode, LookUp, RequiresVerification, FindById, EachOk, SameUsers, Onward, TokensApart, Kept, Tables;
    EntersStarted(w, call, host, jar, c);
    var e := EntersCode(host, w.db, jar, c).value;
    KeptAsIs(w.db.challenges, None);
    var middle := w.(db := e.db, steps := w.steps + 1);
    TablesStep(w, middle, None);
    TestKind(w, e.user);
    var look := LookUp(w.db.challenges, MfaOtp, e.challengeId, e.user.id, e.otp, host.rules, host.now);
    if !look.Turned? {
      FlyStep(middle, call,
              Coding(e.user, e.challengeId, look, host.rules, RequiresVerification(host, e.user), w.steps));
    }
  }

  lemma TestKind(w: World, u: User)
    requires Tables(w) && FindById(w.db.rows, u.id) == Some(u)
    ensures u.id in w.born && w.born[u.id] == u.isTestUser
  {
    hide ValidUsers, TenMinutes, KnownIds, KnownUsers, FindById;
    KnownRow(w, u.id);
  }

  /** A request under way is added. */
  lemma FlyStep(middle: World, call: nat, f: Flying)
    requires Inv(middle) && FlyingOk(middle, f) && !f.Redeeming?
    ensures Inv(middle.(flying := middle.flying[call := f]))
  {
    hide Tables, SessionOk, FlyingOk, Onward, TokensApart;
    var v := middle.(flying := middle.flying[call := f]);
    SameTables(middle, v);
    OnwardOk(middle, v);
    FewerApart(middle.sessions, middle.flying, v.flying);
    Carries(middle, v);
  }

  lemma PlainMint(w: World, call: nat, host: Host, jar: Cookies, c: Credentials)
    requires Tables(w) && EntersCode(host, w.db, jar, c).None? && Authorize(host, w.db, jar, c).verdict.Minted?
    ensures var r := Authorize(host, w.db, jar, c);
      var s := Session(SessionRefresh.SignedIn(r.verdict.user.id, r.verdict.user.isAdmin, host.now), ByPassword,
                       NoTicket, w.steps);
      OpenedBy(w, PasswordSignIn(call, host, jar, c), s)
  {
    hide Authorize, EntersCode, ValidUsers, FindById, FindByUsername, Verify, AfterUpdate, SecondFactor, Trim,
         SignInGates.Entitled;
    var user, middle := SignInFacts.MintedUser(host, w.db, jar, c);
    FoundRow(w, c.username.value);
    SignInGates.MintedEntitled(host, w.db, jar, c);
    NotMailed(host, w.db, jar, c, user);
  }

  lemma NotMailed(host: Host, db: Db, jar: Cookies, c: Credentials, u: User)
    requires EntersCode(host, db, jar, c).None? && Authorize(host, db, jar, c).verdict.Minted?
    requires SignInGates.Entitled(host, db, jar, c, u, Authorize(host, db, jar, c).verdict.used)
    ensures Authorize(host, db, jar, c).verdict.used == NoCode || Authorize(host, db, jar, c).verdict.used == WithTotp
  {
    hide EntersCode, Authorize, Trim, FindByUsername;
    EntersIsAuthorize(host, db, jar, c);
  }

  lemma {:induction false} SameFind(a: seq<User>, b: seq<User>, id: string)
    requires |a| == |b| && forall i :: 0 <= i < |a| ==> b[i].id == a[i].id && b[i].isTestUser == a[i].isTestUser
    ensures FindById(a, id).Some? <==> FindById(b, id).Some?
    ensures IsTestUser(a, id) <==> IsTestUser(b, id)
  {
    if a != [] { SameFind(a[1..], b[1..], id); }
  }

  lemma PlainStep(w: World, call: nat, host: Host, jar: Cookies, c: Credentials)
    requires Inv(w) && EntersCode(host, w.db, jar, c).None?
    ensures Inv(Next(w, PasswordSignIn(call, host, jar, c)))
  {
    hide Authorize, EntersCode, EachOk, TokensApart, SessionOk, Tables, FindById, Kept;
    var r := Authorize(host, w.db, jar, c);
    AuthorizeBounded(host, w.db, jar, c);
    var middle := w.(db := r.db, steps := w.steps + 1);
    TablesStep(w, middle, None);
    if r.verdict.Minted? {
      PlainMint(w, call, host, jar, c);
      var s := Session(SessionRefresh.SignedIn(r.verdict.user.id, r.verdict.user.isAdmin, host.now), ByPassword,
                       NoTicket, w.steps);
      SameFind(w.db.rows, r.db.rows, r.verdict.user.id);
      PlainMintOk(middle, s);
      OneMoreApart(middle.sessions, middle.flying, s);
      MintStep(middle, s);
    }
  }

  // ---------------------------------------------------------------- the write of a try

  lemma MarkBounded(db: Db, store: Store, id: string, now: int, mark: bool)
    requires Kept(db.challenges, store, None)
    ensures var rows := if mark then MarkedVerified(db.rows, id, now) else db.rows;
      Bounded(db, db.(rows := rows, challenges := store), None)
  {
    hide SameUsers, Kept, MarkedVerified;
    SameAsItself(db.rows);
    MarkKeepsUsers(db.rows, id, now);
  }

  /** Requests under way after a write. */
  lemma AfterApart(sessions: seq<Session>, flying: map<nat, Flying>, call: nat, s: Settled, c: string)
    requires TokensApart(sessions, flying) && call in flying && !flying[call].Redeeming?
    ensures TokensApart(sessions, After(flying, call, s, c))
    ensures forall d :: d in After(flying, call, s, c) ==>
      (d in flying && After(flying, call, s, c)[d] == flying[d]) || After(flying, call, s, c)[d].Deleting?
  {
    FewerApart(sessions, flying, After(flying, call, s, c));
  }

  /** The tables and the requests under way, before any session is opened. */
  lemma WriteMiddle(w: World, middle: World, call: nat, s: Settled, c: string)
    requires Inv(w) && call in w.flying && !w.flying[call].Redeeming? && Bounded(w.db, middle.db, None)
    requires middle == w.(db := middle.db, flying := After(w.flying, call, s, c), steps := w.steps + 1)
    ensures Inv(middle)
  {
    hide Bounded, Onward, Tables, TokensApart, SessionOk, After;
    TablesMove(w, middle, None);
    AfterApart(w.sessions, w.flying, call, s, c);
    Carries(w, middle);
  }

  lemma CodeMintOk(w: World, middle: World, f: Flying, s: Session)
    requires Inv(w) && f.Coding? && FlyingOk(w, f)
    requires middle.born == w.born && middle.used == w.used && middle.steps == w.steps + 1
    requires f.challengeId !in middle.db.challenges
    requires s.claims.id == Some(f.user.id) && s.provider == ByPassword && s.step == w.steps
    requires s.ticket == MailedCode(f.challengeId, f.since)
    ensures SessionOk(middle, s)
  {
    hide Inv;
  }

  lemma CodingStep(w: World, call: nat, now: int)
    requires Inv(w) && call in w.flying && w.flying[call].Coding?
    ensures Inv(Next(w, Settles(call, now)))
  {
    hide Settle, MarkedVerified, SameUsers, Kept, TokensApart, Tables, SessionOk, Bounded, After;
    var f := w.flying[call];
    assert FlyingOk(w, f);
    var s := Settle(w.db.challenges, f.challengeId, f.look, f.rules);
    SettleKeeps(w.db.challenges, f.challengeId, f.look, f.rules);
    var mark := s.result == OtpOk && f.verify;
    MarkBounded(w.db, s.store, f.user.id, now, mark);
    var rows := if mark then MarkedVerified(w.db.rows, f.user.id, now) else w.db.rows;
    var db := w.db.(rows := rows, challenges := s.store);
    var middle := w.(db := db, flying := After(w.flying, call, s, f.challengeId), steps := w.steps + 1);
    WriteMiddle(w, middle, call, s, f.challengeId);
    if s.result == OtpOk {
      var x := Session(SessionRefresh.SignedIn(f.user.id, f.user.isAdmin, now), ByPassword,
                       MailedCode(f.challengeId, f.since), w.steps);
      CodeMintOk(w, middle, f, x);
      OneMoreApart(middle.sessions, middle.flying, x);
      MintStep(middle, x);
    }
  }

  lemma OtherWriteStep(w: World, call: nat, now: int)
    requires Inv(w) && call in w.flying && (w.flying[call].Verifying? || w.flying[call].Deleting?)
    ensures Inv(Next(w, Settles(call, now)))
  {
    hide Settle, MarkedVerified, SameUsers, Kept, TokensApart, Tables, SessionOk, Bounded;
    match w.flying[call] {
      case Verifying(userId, c, look, rules) =>
        var s := Settle(w.db.challenges, c, look, rules);
        SettleKeeps(w.db.challenges, c, look, rules);
        MarkBounded(w.db, s.store, userId, now, s.result == OtpOk);
        WriteMiddle(w, Next(w, Settles(call, now)), call, s, c);
      case Deleting(c) =>
        DeleteKeeps(w.db.challenges, c);
        MarkBounded(w.db, w.db.challenges - {c}, "", now, false);
        WriteMiddle(w, Next(w, Settles(call, now)), call, Settled(w.db.challenges - {c}, Expired, false), c);
    }
  }

  // ---------------------------------------------------------------- a passkey sign-in

  lemma ConsumedToken(w: World, host: Host, token: Option<string>)
    requires KnownIds(w)
    ensures var r := ConsumeToken(host, w.exchanges, token);
      var x := Trim(token.GetOr(""));
      && (r.userId.Some? ==>
            && LiveToken(w, host.now, x, r.userId.value) && !TokenSpent(w, x)
            && x in w.used && x in r.exchanges && r.exchanges[x].used)
      && (forall y :: y in r.exchanges <==> y in w.exchanges)
      && (forall y :: y in w.exchanges && w.exchanges[y].used ==> r.exchanges[y].used)
  {
    hide Trim;
  }

  /** Nobody holds a token that is not spent. */
  lemma UnspentIsFree(w: World, x: string)
    requires EachOk(w) && !TokenSpent(w, x)
    ensures forall i :: 0 <= i < |w.sessions| ==> w.sessions[i].ticket != PasskeyToken(x)
    ensures forall c :: c in w.flying && w.flying[c].Redeeming? ==> w.flying[c].token != x
  {
    forall i | 0 <= i < |w.sessions| ensures w.sessions[i].ticket != PasskeyToken(x) {
      assert SessionOk(w, w.sessions[i]);
    }
  }

  lemma HeldApart(sessions: seq<Session>, flying: map<nat, Flying>, call: nat, f: Flying)
    requires TokensApart(sessions, flying) && f.Redeeming?
    requires forall i :: 0 <= i < |sessions| ==> sessions[i].ticket != PasskeyToken(f.token)
    requires forall c :: c in flying && flying[c].Redeeming? ==> flying[c].token != f.token
    ensures TokensApart(sessions, flying[call := f])
  {
  }

  lemma ExchangesMove(w: World, v: World)
    requires Tables(w) && v == w.(exchanges := v.exchanges, flying := v.flying, steps := w.steps + 1)
    requires forall y :: y in v.exchanges <==> y in w.exchanges
    requires forall y :: y in w.exchanges && w.exchanges[y].used ==> v.exchanges[y].used
    ensures Tables(v) && Onward(w, v)
  {
    hide ValidUsers, TenMinutes;
  }

  lemma PasskeyStep(w: World, call: nat, host: Host, token: Option<string>)
    requires Inv(w) && call !in w.flying
    ensures Inv(Next(w, PasskeySignIn(call, host, token)))
  {
    hide ConsumeToken, Trim, Tables, TokensApart, SessionOk, Onward, LiveToken;
    var r := ConsumeToken(host, w.exchanges, token);
    var x := Trim(token.GetOr(""));
    ConsumedTokenOf(w, host, token);
    var v := Next(w, PasskeySignIn(call, host, token));
    ExchangesMove(w, v);
    if r.userId.Some? {
      UnspentIsFree(w, x);
      HeldApart(w.sessions, w.flying, call, Redeeming(x, r.userId.value, w.steps));
    }
    Carries(w, v);
  }

  lemma ConsumedTokenOf(w: World, host: Host, token: Option<string>)
    requires Tables(w)
    ensures var r := ConsumeToken(host, w.exchanges, token);
      var x := Trim(token.GetOr(""));
      && (r.userId.Some? ==>
            && LiveToken(w, host.now, x, r.userId.value) && !TokenSpent(w, x)
            && x in w.used && x in r.exchanges && r.exchanges[x].used)
      && (forall y :: y in r.exchanges <==> y in w.exchanges)
      && (forall y :: y in w.exchanges && w.exchanges[y].used ==> r.exchanges[y].used)
  {
    hide ConsumeToken, Trim, ValidUsers, TenMinutes, KnownIds, KnownUsers;
    ConsumedToken(w, host, token);
  }

  /** A request that has given up its token and the session that has it. */
  lemma HandedOver(sessions: seq<Session>, flying: map<nat, Flying>, call: nat, s: Session)
    requires TokensApart(sessions, flying) && call in flying && flying[call].Redeeming?
    requires s.ticket == PasskeyToken(flying[call].token)
    ensures TokensApart(sessions, flying - {call}) && TokensApart(sessions + [s], flying - {call})
  {
  }

  lemma PasskeyMintOk(w: World, f: Flying, host: Host, s: Session)
    requires Tables(w) && f.Redeeming? && FlyingOk(w, f) && PasskeySession(host, w.db.rows, f.userId).Some?
    requires s.claims.id == Some(PasskeySession(host, w.db.rows, f.userId).value.id) && s.provider == ByPasskey
    requires s.ticket == PasskeyToken(f.token) && s.step < w.steps
    ensures s.claims.id == Some(f.userId) && SessionOk(w, s)
    ensures FindById(w.db.rows, f.userId).Some? && !IsTestUser(w.db.rows, f.userId)
  {
    hide ValidUsers, TenMinutes, KnownIds, KnownUsers, RequiresVerification, TokenSpent;
    KnownRow(w, f.userId);
  }

  lemma RedeemStep(w: World, call: nat, host: Host)
    requires Inv(w) && call in w.flying && w.flying[call].Redeeming?
    ensures Inv(Next(w, Redeems(call, host)))
  {
    hide PasskeySession, Tables, TokensApart, SessionOk, Onward;
    var f := w.flying[call];
    var middle := w.(flying := w.flying - {call}, steps := w.steps + 1);
    SameTables(w, middle);
    var session := PasskeySession(host, w.db.rows, f.userId);
    var s := Session(SessionRefresh.SignedIn(f.userId, session.Some? && session.value.isAdmin, host.now), ByPasskey,
                     PasskeyToken(f.token), w.steps);
    HandedOver(w.sessions, w.flying, call, s);
    Carries(w, middle);
    if session.Some? {
      assert FlyingOk(w, f);
      OnwardOk(w, middle);
      PasskeySessionId(host, w.db.rows, f.userId);
      PasskeyMintOk(middle, f, host, s);
      MintStep(middle, s);
    }
  }

  lemma PasskeySessionId(host: Host, rows: seq<User>, userId: string)
    ensures PasskeySession(host, rows, userId).Some? ==> PasskeySession(host, rows, userId).value.id == userId
  {
  }

  // ---------------------------------------------------------------- every step, every run

  lemma UpdateStep(w: World, v: World, id: string, patch: Patch)
    requires Inv(w) && v == w.(db := w.db.(rows := AfterUpdate(w.db.rows, id, patch)), steps := w.steps + 1)
    ensures Inv(v)
  {
    hide Inv, AfterUpdate, SameUsers, Kept;
    UpdateKeepsUsers(w.db.rows, id, patch);
    KeptAsIs(w.db.challenges, None);
    TablesStep(w, v, None);
  }

  lemma ServiceUpdateStep(w: World, host: Host, target: string, u: UserService.UserUpdate, actor: string)
    requires Inv(w)
    ensures Inv(Next(w, UpdateUser(host, target, u, actor)))
  {
    hide Inv, AfterUpdate, UserService.Refuses, UserService.PatchFor, UserService.Resolved;
    var found := UserService.Resolved(w.db.rows, target);
    var v := Next(w, UpdateUser(host, target, u, actor));
    if found.Some? && !UserService.Refuses(host, w.db.rows, found.value, u, actor) {
      UpdateStep(w, v, found.value.id, UserService.PatchFor(host, found.value, u));
    } else {
      IdleStep(w, v);
    }
  }

  lemma ResetStep(w: World, host: Host, id: string, password: string)
    requires Inv(w)
    ensures Inv(Next(w, ResetPassword(host, id, password)))
  {
    hide Inv, AfterUpdate, UserService.Hashed;
    var h := UserService.Hashed(host, password);
    var v := Next(w, ResetPassword(host, id, password));
    if h.Hash? {
      UpdateStep(w, v, id, NO_CHANGE.(passwordHash := Some(h.stored), passwordUpdatedAt := Some(Some(host.now))));
    } else {
      IdleStep(w, v);
    }
  }

  lemma ProofStep(w: World, host: Host, username: string, password: string)
    requires Inv(w)
    ensures Inv(Next(w, PasswordProof(host, username, password)))
  {
    hide Inv, Identify, SameUsers, Kept;
    IdentifyKeepsUsers(host, w.db.rows, username, password);
    SameAsItself(w.db.rows);
    KeptAsIs(w.db.challenges, None);
    TablesStep(w, Next(w, PasswordProof(host, username, password)), None);
  }

  lemma CreateStep(w: World, host: Host, id: string, form: UserService.UserForm)
    requires Inv(w) && id !in w.born
    ensures Inv(Next(w, CreateUser(host, id, form)))
  {
    hide Inv, Inserted, UserService.NewUser;
    NewUserId(host, w.db.rows, id, form);
    var row := UserService.NewUser(host, w.db.rows, id, form);
    if row.Some? { InsertStep(w, row.value); } else { IdleStep(w, Next(w, CreateUser(host, id, form))); }
  }

  lemma NewUserId(host: Host, rows: seq<User>, id: string, form: UserService.UserForm)
    ensures var row := UserService.NewUser(host, rows, id, form);
      row.Some? ==> row.value.id == id
  {
  }

  lemma TryStep(w: World, call: nat, host: Host, userId: string, challengeId: string, code: string)
    requires Inv(w) && call !in w.flying
    ensures Inv(Next(w, VerificationTry(call, host, userId, challengeId, code)))
  {
    hide Inv, LookUp, Trim;
    var v := VerificationStarts(w, call, host, userId, challengeId, code);
    var middle := w.(steps := w.steps + 1);
    IdleStep(w, middle);
    if v.flying != w.flying { FlyStep(middle, call, v.flying[call]); }
  }

  lemma SignInStep(w: World, call: nat, host: Host, jar: Cookies, c: Credentials)
    requires Inv(w) && call !in w.flying
    ensures Inv(Next(w, PasswordSignIn(call, host, jar, c)))
  {
    hide Inv, EntersCode, Happened;
    if EntersCode(host, w.db, jar, c).Some? {
      EntersStep(w, call, host, jar, c);
    } else {
      PlainStep(w, call, host, jar, c);
    }
  }

  lemma SettleStep(w: World, call: nat, now: int)
    requires Inv(w) && call in w.flying && !w.flying[call].Redeeming?
    ensures Inv(Next(w, Settles(call, now)))
  {
    hide Inv, Happened;
    if w.flying[call].Coding? { CodingStep(w, call, now); } else { OtherWriteStep(w, call, now); }
  }

  /** Statements from outside the user service, and the grants. */
  lemma StatementStep(w: World, e: Event)
    requires Inv(w) && (e.SetEnvironments? || e.UpdateByHand? || (e.InsertByHand? && e.row.id !in w.born))
    ensures Inv(Next(w, e))
  {
    hide Inv, AfterUpdate, Inserted, UserRepository.Replaced;
    match e {
      case SetEnvironments(userId, ids) => IdleStep(w, Next(w, e));
      case InsertByHand(row) => InsertStep(w, row);
      case UpdateByHand(id, patch) => UpdateStep(w, Next(w, e), id, patch);
    }
  }

  /** The administration of users. */
  lemma UsersStep(w: World, sealing: Sealing, e: Event)
    requires Inv(w) && Possible(w, sealing, e)
    requires e.CreateUser? || e.UpdateUser? || e.ResetPassword? || e.DeleteUser? || e.SetEnvironments?
          || e.InsertByHand? || e.UpdateByHand?
    ensures Inv(Next(w, e))
  {
    hide Inv, Next, IsTestUser;
    match e {
      case CreateUser(host, id, form) => CreateStep(w, host, id, form);
      case UpdateUser(host, target, update, actor) => ServiceUpdateStep(w, host, target, update, actor);
      case ResetPassword(host, id, password) => ResetStep(w, host, id, password);
      case DeleteUser(id) => DeleteStep(w, id);
      case _ => StatementStep(w, e);
    }
  }

  /** What leads up to a sign-in, and the verification of addresses. */
  lemma RequestStep(w: World, sealing: Sealing, e: Event)
    requires Inv(w) && Possible(w, sealing, e)
    requires e.Authorization? || e.Preflight? || e.CodeRequest? || e.PasswordProof? || e.PasswordChange?
          || e.VerificationRequest? || e.VerificationTry?
    ensures Inv(Next(w, e))
  {
    hide Inv, Honest, Begin, RequestCode, ChangePassword, RequestVerification, Bounded, VerificationStarts, Identify;
    match e {
      case Authorization(params, now) => IdleStep(w, Next(w, e));
      case Preflight(host, jar, username, password) =>
        BeginBounded(host, w.db, jar, username, password);
        TablesStep(w, Next(w, e), Some(host.seed.challengeId));
      case CodeRequest(host, jar, username, password) =>
        RequestBounded(host, w.db, jar, username, password);
        TablesStep(w, Next(w, e), Some(host.seed.challengeId));
      case PasswordProof(host, username, password) => ProofStep(w, host, username, password);
      case PasswordChange(host, jar, username, current, next) =>
        ChangeBounded(host, w.db, jar, username, current, next);
        TablesStep(w, Next(w, e), None);
      case VerificationRequest(host, userId) =>
        RequestVerificationBounded(host, w.db, userId);
        TablesStep(w, Next(w, e), Some(host.seed.challengeId));
      case VerificationTry(call, host, userId, challengeId, code) => TryStep(w, call, host, userId, challengeId, code);
    }
  }

  lemma StepKeepsInv(w: World, sealing: Sealing, e: Event)
    requires Inv(w) && PendingCookie.Faithful(sealing.codec) && Possible(w, sealing, e)
    ensures Inv(Next(w, e)) && Next(w, e).steps == w.steps + 1
  {
    hide Inv, Honest, Happened, PendingCookie.Faithful, IsTestUser;
    match e {
      case PasswordSignIn(call, host, jar, c) => SignInStep(w, call, host, jar, c);
      case Settles(call, now) => SettleStep(w, call, now);
      case PasskeySignIn(call, host, token) => PasskeyStep(w, call, host, token);
      case Redeems(call, host) => RedeemStep(w, call, host);
      case TestSignIn(host, jar, chosen) => TestStep(w, sealing, host, jar, chosen);
      case Refresh(session, now, works) => RefreshStep(w, session, now, works);
      case PasskeyVerified(id, exchange) => PasskeyVerifiedStep(w, id, exchange);
      case _ =>
        if e.CreateUser? || e.UpdateUser? || e.ResetPassword? || e.DeleteUser? || e.SetEnvironments?
           || e.InsertByHand? || e.UpdateByHand? {
          UsersStep(w, sealing, e);
        } else {
          RequestStep(w, sealing, e);
        }
    }
  }

  lemma FreshInv(w: World)
    requires Fresh(w)
    ensures Inv(w)
  {
    hide ValidUsers;
  }

  lemma {:induction false} RunKeepsInv(start: World, sealing: Sealing, events: seq<Event>, k: nat)
    requires PendingCookie.Faithful(sealing.codec) && Run(start, sealing, events) && k <= |events|
    ensures Inv(At(start, events, k)) && At(start, events, k).steps == k
  {
    hide Inv, Possible, Next, PendingCookie.Faithful;
    if k == 0 {
      FreshInv(start);
    } else {
      RunKeepsInv(start, sealing, events, k - 1);
      StepKeepsInv(At(start, events, k - 1), sealing, events[k - 1]);
    }
  }
}
