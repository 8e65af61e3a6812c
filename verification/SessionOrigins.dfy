/** Where the sessions and the mailed codes of a run come from, and what its table keeps. */
module SessionOrigins {
  import opened JsText
  import opened UserTable
  import opened Challenges
  import opened SignIn
  import opened SessionRuns
  import opened SessionFacts
  import PendingCookie
  import SessionRefresh
  import SignInFacts
  import SignInGates
  import UserRepository
  import UserService

  // ---------------------------------------------------------------- who opened a session

  /** All of a session but its claims other than the id. */
  predicate SameStamp(s: Session, t: Session) {
    s.claims.id == t.claims.id && s.provider == t.provider && s.ticket == t.ticket && s.step == t.step
  }

  lemma OpenedStamp(w: World, e: Event, s: Session, t: Session)
    requires OpenedBy(w, e, s) && SameStamp(s, t)
    ensures OpenedBy(w, e, t)
  {
    hide FindById, InFlight;
  }

  /** What an event does to the sessions and to the requests under way. */
  ghost predicate Grown(w: World, e: Event, v: World) {
    && |w.sessions| <= |v.sessions| <= |w.sessions| + 1
    && (forall i :: 0 <= i < |w.sessions| ==> SameStamp(v.sessions[i], w.sessions[i]))
    && (|v.sessions| > |w.sessions| ==>
          OpenedBy(w, e, v.sessions[|w.sessions|]) && v.sessions[|w.sessions|].step == w.steps)
    && (forall c :: c in v.flying ==>
          (c in w.flying && v.flying[c] == w.flying[c]) || v.flying[c].Deleting? || StartedBy(w, e, v.flying[c]))
  }

  lemma SignInGrows(w: World, call: nat, host: Host, jar: Cookies, c: Credentials)
    requires Inv(w) && call !in w.flying
    ensures Grown(w, PasswordSignIn(call, host, jar, c), Next(w, PasswordSignIn(call, host, jar, c)))
  {
    hide EntersCode, Authorize, EachOk, TokensApart, OpenedBy, StartedBy, LookUp, RequiresVerification, Tables;
    if EntersCode(host, w.db, jar, c).Some? {
      EntersStarted(w, call, host, jar, c);
    } else if Authorize(host, w.db, jar, c).verdict.Minted? {
      PlainMint(w, call, host, jar, c);
    }
  }

  lemma SettleGrows(w: World, call: nat, now: int)
    requires Inv(w) && call in w.flying && !w.flying[call].Redeeming?
    ensures Grown(w, Settles(call, now), Next(w, Settles(call, now)))
  {
    hide Tables, TokensApart, Settle, MarkedVerified, StartedBy;
    assert FlyingOk(w, w.flying[call]);
    match w.flying[call]
    case Coding(_, c, look, rules, _, _) => SettleKeeps(w.db.challenges, c, look, rules);
    case _ =>
  }

  lemma PasskeyGrows(w: World, call: nat, host: Host, token: Option<string>)
    requires Inv(w)
    ensures Grown(w, PasskeySignIn(call, host, token), Next(w, PasskeySignIn(call, host, token)))
  {
    hide ConsumeToken, Trim, Tables, EachOk, TokensApart, LiveToken;
    ConsumedTokenOf(w, host, token);
  }

  lemma RedeemGrows(w: World, call: nat, host: Host)
    requires Inv(w) && call in w.flying && w.flying[call].Redeeming?
    ensures Grown(w, Redeems(call, host), Next(w, Redeems(call, host)))
  {
    hide Tables, TokensApart, StartedBy, RequiresVerification, SignInGates.Unproved, FindById, EachOk;
    FoundIdIs(w.db.rows, w.flying[call].userId);
    var user := FindById(w.db.rows, w.flying[call].userId);
    if user.Some? { SignInGates.UnprovedIs(host, user.value); }
  }

  lemma FoundIdIs(rows: seq<User>, id: string)
    ensures FindById(rows, id).Some? ==> FindById(rows, id).value.id == id
  {
  }

  lemma TestGrows(w: World, sealing: Sealing, host: Host, jar: Cookies, chosen: Option<string>)
    requires PendingCookie.Faithful(sealing.codec) && Honest(w, sealing, host, jar)
    ensures Grown(w, TestSignIn(host, jar, chosen), Next(w, TestSignIn(host, jar, chosen)))
  {
    hide AuthorizeTestUser, InFlight, Honest, FindById, PendingCookie.Faithful;
    TestSessionOpened(w, sealing, host, jar, chosen);
  }

  lemma RefreshGrows(w: World, session: nat, now: int, works: bool)
    requires session < |w.sessions|
    ensures Grown(w, Refresh(session, now, works), Next(w, Refresh(session, now, works)))
  {
    hide Checked;
    CheckedKeepsTicket(w, w.sessions[session], now, works);
  }

  /** Events that open no session and leave no request under way. */
  lemma OthersGrow(w: World, e: Event)
    requires !e.PasswordSignIn? && !e.Settles? && !e.PasskeySignIn? && !e.Redeems? && !e.TestSignIn? && !e.Refresh?
    requires !e.VerificationTry?
    ensures Next(w, e).sessions == w.sessions && Next(w, e).flying == w.flying
  {
    hide Begin, RequestCode, ChangePassword, RequestVerification, AfterUpdate, Identify, ValidUsers,
         UserService.NewUser, UserService.AfterUserUpdate, UserService.AfterReset, UserRepository.Replaced;
  }

  lemma TryGrows(w: World, call: nat, host: Host, userId: string, challengeId: string, code: string)
    ensures Grown(w, VerificationTry(call, host, userId, challengeId, code),
                  Next(w, VerificationTry(call, host, userId, challengeId, code)))
  {
    hide LookUp, Trim, OpenedBy;
  }

  lemma StepGrows(w: World, sealing: Sealing, e: Event)
    requires Inv(w) && PendingCookie.Faithful(sealing.codec) && Possible(w, sealing, e)
    ensures Grown(w, e, Next(w, e))
  {
    hide Inv, Honest, Next, PendingCookie.Faithful, IsTestUser, OpenedBy;
    match e {
      case PasswordSignIn(call, host, jar, c) => SignInGrows(w, call, host, jar, c);
      case Settles(call, now) => SettleGrows(w, call, now);
      case PasskeySignIn(call, host, token) => PasskeyGrows(w, call, host, token);
      case Redeems(call, host) => RedeemGrows(w, call, host);
      case TestSignIn(host, jar, chosen) => TestGrows(w, sealing, host, jar, chosen);
      case Refresh(session, now, works) => RefreshGrows(w, session, now, works);
      case VerificationTry(call, host, userId, id, code) => TryGrows(w, call, host, userId, id, code);
      case _ => OthersGrow(w, e);
    }
  }

  // ---------------------------------------------------------------- over a run

  lemma NothingYet(start: World, sealing: Sealing, events: seq<Event>)
    requires Run(start, sealing, events)
    ensures var w := At(start, events, 0);
      w.sessions == [] && w.db.challenges == map[] && w.flying == map[] && w == start
  {
  }

  lemma RunGrows(start: World, sealing: Sealing, events: seq<Event>, k: nat)
    requires PendingCookie.Faithful(sealing.codec) && Run(start, sealing, events) && k < |events|
    ensures Grown(At(start, events, k), events[k], At(start, events, k + 1)) && At(start, events, k).steps == k
  {
    hide Inv, Possible, Next, Grown, PendingCookie.Faithful;
    RunKeepsInv(start, sealing, events, k);
    StepGrows(At(start, events, k), sealing, events[k]);
  }

  /** The session was opened by the event whose number it carries, one of the first k. */
  predicate OpenedIn(start: World, events: seq<Event>, k: nat, s: Session) {
    s.step < k <= |events| && OpenedBy(At(start, events, s.step), events[s.step], s)
  }

  lemma StillOpenedIn(start: World, events: seq<Event>, k: nat, s: Session, t: Session)
    requires OpenedIn(start, events, k, s) && k < |events| && SameStamp(s, t)
    ensures OpenedIn(start, events, k + 1, t)
  {
    hide OpenedBy, At;
    OpenedStamp(At(start, events, s.step), events[s.step], s, t);
  }

  /** Every session there is was opened by the event whose number it carries. */
  lemma {:induction false} SessionOrigin(start: World, sealing: Sealing, events: seq<Event>, k: nat, i: nat)
    requires PendingCookie.Faithful(sealing.codec) && Run(start, sealing, events) && k <= |events|
    requires i < |At(start, events, k).sessions|
    ensures OpenedIn(start, events, k, At(start, events, k).sessions[i])
    decreases k
  {
    hide Run, At, OpenedBy, StartedBy, PendingCookie.Faithful, SameStamp;
    NothingYet(start, sealing, events);
    if k > 0 {
      var w, v := At(start, events, k - 1), At(start, events, k);
      RunGrows(start, sealing, events, k - 1);
      if i < |w.sessions| {
        hide OpenedIn;
        SessionOrigin(start, sealing, events, k - 1, i);
        SameBack(v.sessions[i], w.sessions[i]);
        StillOpenedIn(start, events, k - 1, w.sessions[i], v.sessions[i]);
      }
    }
  }

  lemma SameBack(s: Session, t: Session)
    requires SameStamp(s, t)
    ensures SameStamp(t, s)
  {
  }

  /** The number of the event a sign-in under way began with. */
  function Since(f: Flying): nat {
    match f
    case Coding(_, _, _, _, _, since) => since
    case Redeeming(_, _, since) => since
    case _ => 0
  }

  predicate StartedIn(start: World, events: seq<Event>, k: nat, f: Flying) {
    Since(f) < k <= |events| && StartedBy(At(start, events, Since(f)), events[Since(f)], f)
  }

  lemma SinceIsNow(w: World, e: Event, f: Flying)
    requires StartedBy(w, e, f) && (f.Coding? || f.Redeeming?)
    ensures Since(f) == w.steps
  {
  }

  lemma StillStartedIn(start: World, events: seq<Event>, k: nat, f: Flying)
    requires StartedIn(start, events, k, f) && k < |events|
    ensures StartedIn(start, events, k + 1, f)
  {
    hide At, StartedBy;
  }

  /** Every sign-in under way began with the event whose number it carries. */
  lemma {:induction false} FlyingOrigin(start: World, sealing: Sealing, events: seq<Event>, k: nat, call: nat)
    requires PendingCookie.Faithful(sealing.codec) && Run(start, sealing, events) && k <= |events|
    requires call in At(start, events, k).flying
    requires At(start, events, k).flying[call].Coding? || At(start, events, k).flying[call].Redeeming?
    ensures StartedIn(start, events, k, At(start, events, k).flying[call])
    decreases k
  {
    hide Run, At, OpenedBy, StartedBy, PendingCookie.Faithful, SameStamp;
    NothingYet(start, sealing, events);
    if k > 0 {
      var w, f := At(start, events, k - 1), At(start, events, k).flying[call];
      RunGrows(start, sealing, events, k - 1);
      if call in w.flying && f == w.flying[call] {
        hide StartedIn;
        FlyingOrigin(start, sealing, events, k - 1, call);
        StillStartedIn(start, events, k - 1, f);
      } else {
        SinceIsNow(w, events[k - 1], f);
      }
    }
  }

  // ---------------------------------------------------------------- test users

  /** The users the registry or the table knows as test users. */
  predicate EverTestUser(w: World, id: string) {
    (id in w.born && w.born[id]) || IsTestUser(w.db.rows, id)
  }

  lemma SessionIsOk(w: World, s: Session)
    requires Inv(w) && s in w.sessions
    ensures SessionOk(w, s)
    ensures s.claims.id.Some? && EverTestUser(w, s.claims.id.value) ==> w.born[s.claims.id.value]
  {
    hide ValidUsers, TenMinutes, TokensApart, FindById, Spent, KnownUsers, KnownIds;
    if FindById(w.db.rows, s.claims.id.value).Some? { KnownRow(w, s.claims.id.value); }
  }

  /** In every run, no session of a test user ever carries the admin claim; and each was opened by
      the test-user provider while a pending authorization signed less than 300 seconds before named
      an unexpired test client in an environment granted to that user. */
  lemma TestUserSessions(start: World, sealing: Sealing, events: seq<Event>, k: nat, s: Session)
    requires PendingCookie.Faithful(sealing.codec) && Run(start, sealing, events) && k <= |events|
    requires s in At(start, events, k).sessions && s.claims.id.Some?
    requires EverTestUser(At(start, events, k), s.claims.id.value)
    ensures !s.claims.isAdmin && s.provider == ByTestUser && s.step < k
    ensures var w, e := At(start, events, s.step), events[s.step];
      e.TestSignIn? && IsTestUser(w.db.rows, s.claims.id.value) && InFlight(w, e.host, s.claims.id.value)
  {
    hide Inv, Run, At, InFlight, IsTestUser, PendingCookie.Faithful, EverTestUser, Spent;
    RunKeepsInv(start, sealing, events, k);
    SessionIsOk(At(start, events, k), s);
    var i :| 0 <= i < |At(start, events, k).sessions| && At(start, events, k).sessions[i] == s;
    SessionOrigin(start, sealing, events, k, i);
  }

  // ---------------------------------------------------------------- where codes come from

  /** The event created challenge `c`: the pre-flight or a request for a code, from somebody who had
      just given the password of the user it is for, or, for the verification of an address, a
      signed-in request of that user, with no password. */
  predicate Mailed(w: World, e: Event, c: string, row: Challenge) {
    if row.kind == MfaOtp then
      && (e.Preflight? || e.CodeRequest?)
      && e.host.seed.challengeId == c && e.host.now == row.createdAt
      && Identify(e.host, w.db.rows, e.username, e.password).Known?
      && Identify(e.host, w.db.rows, e.username, e.password).user.id == row.userId
    else
      && e.VerificationRequest? && e.userId == row.userId
      && e.host.seed.challengeId == c && e.host.now == row.createdAt
  }

  lemma OtpIsFor(host: Host, store: Store, user: User, kind: Kind)
    requires host.seed.challengeId !in store
    ensures var after := CreateOtp(host, store, user, kind).store;
      var c := host.seed.challengeId;
      c in after ==> after[c].userId == user.id && after[c].createdAt == host.now && after[c].kind == kind
  {
    hide Filled;
  }

  lemma ChoiceMails(host: Host, db: Db, jar: Cookies, user: User)
    requires host.seed.challengeId !in db.challenges
    ensures var after := ChooseChallenge(host, db, jar, user).db.challenges;
      var c := host.seed.challengeId;
      c in after ==> after[c].userId == user.id && after[c].createdAt == host.now
  {
    hide Filled, CreateOtp, SiteSettings;
    OtpIsFor(host, db.challenges, user, MfaOtp);
    OtpIsFor(host, db.challenges, user, EmailVerification);
  }

  lemma BeginMails(host: Host, w: World, jar: Cookies, username: string, password: string)
    requires host.seed.challengeId !in w.db.challenges
    ensures var after := Begin(host, w.db, jar, username, password).db.challenges;
      var c := host.seed.challengeId;
      c in after ==> Mailed(w, Preflight(host, jar, username, password), c, after[c])
  {
    SignInFacts.PreflightNeverVerifies(host, w.db, jar, username, password);
    hide Identify, ChooseChallenge, ComplexityOf, PendingClient, EnvironmentsOf;
    var r := Identify(host, w.db.rows, username, password);
    if r.Known? { ChoiceMails(host, w.db.(rows := r.rows), jar, r.user); }
  }

  lemma RequestMails(host: Host, w: World, jar: Cookies, username: string, password: string)
    requires host.seed.challengeId !in w.db.challenges
    ensures var after := RequestCode(host, w.db, jar, username, password).db.challenges;
      var c := host.seed.challengeId;
      c in after ==> Mailed(w, CodeRequest(host, jar, username, password), c, after[c])
  {
    hide Identify, CreateOtp, SiteSettings, Filled;
    var r := Identify(host, w.db.rows, username, password);
    if r.Known? { OtpIsFor(host, w.db.challenges, r.user, MfaOtp); }
  }

  lemma VerificationMails(host: Host, w: World, userId: string)
    requires host.seed.challengeId !in w.db.challenges
    ensures var after := RequestVerification(host, w.db, userId).db.challenges;
      var c := host.seed.challengeId;
      c in after ==> Mailed(w, VerificationRequest(host, userId), c, after[c])
  {
    hide CreateOtp, Filled, FindById;
    FoundIdIs(w.db.rows, userId);
    var u := FindById(w.db.rows, userId);
    if u.Some? { OtpIsFor(host, w.db.challenges, u.value, EmailVerification); }
  }

  /** The event leaves the challenges that were there as they were, counters aside. */
  lemma SignInKeepsChallenges(w: World, call: nat, host: Host, jar: Cookies, c: Credentials)
    ensures Kept(w.db.challenges, SignInStarts(w, call, host, jar, c).db.challenges, None)
  {
    hide EntersCode, Authorize, LookUp, SameUsers, Kept, RedeemEmailCode, RequiresVerification;
    EntersIsAuthorize(host, w.db, jar, c);
    AuthorizeBounded(host, w.db, jar, c);
    KeptAsIs(w.db.challenges, None);
  }

  lemma WroteKeepsChallenges(w: World, call: nat, now: int)
    requires call in w.flying
    ensures Kept(w.db.challenges, Wrote(w, call, now).db.challenges, None)
  {
    hide Settle, MarkedVerified, Kept;
    KeptAsIs(w.db.challenges, None);
    match w.flying[call]
    case Coding(_, c, look, rules, _, _) => SettleKeeps(w.db.challenges, c, look, rules);
    case Verifying(_, c, look, rules) => SettleKeeps(w.db.challenges, c, look, rules);
    case Deleting(c) => DeleteKeeps(w.db.challenges, c);
    case Redeeming(_, _, _) =>
  }

  lemma DroppedKeeps(store: Store, id: string)
    ensures Kept(store, Dropped(store, id), None)
  {
  }

  /** Events that touch no challenge. */
  lemma OthersKeepChallenges(w: World, e: Event)
    requires !e.Preflight? && !e.CodeRequest? && !e.VerificationRequest? && !e.PasswordSignIn? && !e.Settles?
    requires !e.DeleteUser? && !e.PasswordChange?
    ensures Next(w, e).db.challenges == w.db.challenges && w.used <= Next(w, e).used
  {
    hide AuthorizeTestUser, AfterUpdate, Identify, Checked, LookUp, Trim, ConsumeToken, PasskeySession,
         UserService.NewUser, UserService.AfterUserUpdate, UserService.AfterReset, UserRepository.Replaced, ValidUsers;
  }

  /** After an event, a challenge is one there was, its counter aside, or one the event has created
      under an id never used. */
  predicate Dealt(w: World, e: Event, v: World, c: string) {
    && w.used <= v.used
    && (c in v.db.challenges ==>
          if c in w.db.challenges then SameDeal(w.db.challenges[c], v.db.challenges[c])
          else c !in w.used && Mailed(w, e, c, v.db.challenges[c]))
  }

  lemma KeptIsDealt(w: World, e: Event, v: World, c: string)
    requires Kept(w.db.challenges, v.db.challenges, None) && w.used <= v.used
    ensures Dealt(w, e, v, c)
  {
    hide Mailed, SameDeal, TenMinutes;
  }

  lemma NewIsDealt(w: World, e: Event, v: World, id: string, c: string)
    requires KnownIds(w) && id !in w.used && w.used <= v.used
    requires Kept(w.db.challenges, v.db.challenges, Some(id))
    requires id in v.db.challenges ==> Mailed(w, e, id, v.db.challenges[id])
    ensures Dealt(w, e, v, c)
  {
    hide Mailed, SameDeal, TenMinutes;
  }

  /** The events that mail codes. */
  lemma RequestsMail(w: World, sealing: Sealing, e: Event, c: string)
    requires KnownIds(w) && Possible(w, sealing, e) && (e.Preflight? || e.CodeRequest? || e.VerificationRequest?)
    ensures Dealt(w, e, Next(w, e), c)
  {
    hide Honest, Begin, RequestCode, RequestVerification, Mailed, SameUsers, Kept, Dealt, KnownIds;
    UsedIds(w);
    match e {
      case Preflight(host, jar, username, password) =>
        BeginBounded(host, w.db, jar, username, password);
        BeginMails(host, w, jar, username, password);
      case CodeRequest(host, jar, username, password) =>
        RequestBounded(host, w.db, jar, username, password);
        RequestMails(host, w, jar, username, password);
      case VerificationRequest(host, userId) =>
        RequestVerificationBounded(host, w.db, userId);
        VerificationMails(host, w, userId);
    }
    NewIsDealt(w, e, Next(w, e), e.host.seed.challengeId, c);
  }

  lemma UsedIds(w: World)
    requires KnownIds(w)
    ensures forall c :: c in w.db.challenges ==> c in w.used
  {
  }

  /** The others. */
  lemma OthersKeep(w: World, sealing: Sealing, e: Event)
    requires Possible(w, sealing, e) && !e.Preflight? && !e.CodeRequest? && !e.VerificationRequest?
    ensures Kept(w.db.challenges, Next(w, e).db.challenges, None) && w.used <= Next(w, e).used
  {
    hide Honest, ChangePassword, SignInStarts, Wrote, SameUsers, Deleted, IsTestUser, Kept;
    match e {
      case PasswordChange(host, jar, username, current, next) =>
        ChangeBounded(host, w.db, jar, username, current, next);
      case PasswordSignIn(call, host, jar, cr) =>
        SignInKeepsChallenges(w, call, host, jar, cr);
        SignInUses(w, call, host, jar, cr);
      case Settles(call, now) =>
        WroteKeepsChallenges(w, call, now);
        WroteUses(w, call, now);
      case DeleteUser(id) =>
        DroppedKeeps(w.db.challenges, id);
        DeletedUses(w, id);
      case _ =>
        OthersKeepChallenges(w, e);
        KeptAsIs(w.db.challenges, None);
    }
  }

  lemma StepMails(w: World, sealing: Sealing, e: Event, c: string)
    requires KnownIds(w) && Possible(w, sealing, e)
    ensures Dealt(w, e, Next(w, e), c)
  {
    hide Possible, Next, Kept, Dealt, KnownIds;
    if e.Preflight? || e.CodeRequest? || e.VerificationRequest? {
      RequestsMail(w, sealing, e, c);
    } else {
      OthersKeep(w, sealing, e);
      KeptIsDealt(w, e, Next(w, e), c);
    }
  }

  lemma SameDealWithItself(store: Store)
    ensures forall c :: c in store ==> SameDeal(store[c], store[c])
  {
  }

  lemma SignInUses(w: World, call: nat, host: Host, jar: Cookies, c: Credentials)
    ensures SignInStarts(w, call, host, jar, c).used == w.used
  {
    hide EntersCode, Authorize, LookUp, RequiresVerification;
  }

  lemma WroteUses(w: World, call: nat, now: int)
    requires call in w.flying
    ensures Wrote(w, call, now).used == w.used
  {
    hide Settle, MarkedVerified;
  }

  lemma DeletedUses(w: World, id: string)
    ensures Deleted(w, id).used == w.used && Deleted(w, id).db.challenges == Dropped(w.db.challenges, id)
  {
  }

  /** What StepMails says of the k-th event. */
  lemma RunMails(start: World, sealing: Sealing, events: seq<Event>, k: nat, c: string)
    requires PendingCookie.Faithful(sealing.codec) && Run(start, sealing, events) && k < |events|
    ensures Dealt(At(start, events, k), events[k], At(start, events, k + 1), c)
  {
    hide EachOk, TokensApart, Possible, Next, Dealt, PendingCookie.Faithful, ValidUsers, TenMinutes, KnownUsers,
         KnownIds;
    RunKeepsInv(start, sealing, events, k);
    StepMails(At(start, events, k), sealing, events[k], c);
  }

  lemma MailedStays(w: World, e: Event, c: string, row: Challenge, later: Challenge)
    requires Mailed(w, e, c, row) && SameDeal(row, later)
    ensures Mailed(w, e, c, later)
  {
    hide Identify;
  }

  /** Every stored challenge was created by an earlier event: one for signing in by a request that
      had given its user's password, one for an address by its signed-in user. */
  lemma {:induction false} ChallengeOrigin(start: World, sealing: Sealing, events: seq<Event>, k: nat, c: string)
    returns (j: nat)
    requires PendingCookie.Faithful(sealing.codec) && Run(start, sealing, events) && k <= |events|
    requires c in At(start, events, k).db.challenges
    ensures j < k && Mailed(At(start, events, j), events[j], c, At(start, events, k).db.challenges[c])
    decreases k
  {
    hide Run, At, Mailed, SameDeal, PendingCookie.Faithful;
    NothingYet(start, sealing, events);
    if k > 0 {
      var w := At(start, events, k - 1);
      RunMails(start, sealing, events, k - 1, c);
      j := k - 1;
      if c in w.db.challenges {
        j := ChallengeOrigin(start, sealing, events, k - 1, c);
        MailedStays(At(start, events, j), events[j], c, w.db.challenges[c], At(start, events, k).db.challenges[c]);
      }
    }
  }

  /** An id once used by a challenge that is gone never comes back; one still there is as it was. */
  lemma {:induction false} ChallengeOverTime(start: World, sealing: Sealing, events: seq<Event>, m: nat, k: nat,
                                             c: string)
    requires PendingCookie.Faithful(sealing.codec) && Run(start, sealing, events) && m <= k <= |events|
    requires c in At(start, events, m).used
    ensures c in At(start, events, k).used
    ensures c in At(start, events, k).db.challenges ==>
      c in At(start, events, m).db.challenges
      && SameDeal(At(start, events, m).db.challenges[c], At(start, events, k).db.challenges[c])
    decreases k
  {
    hide Run, At, Mailed, PendingCookie.Faithful;
    if m < k {
      ChallengeOverTime(start, sealing, events, m, k - 1, c);
      RunMails(start, sealing, events, k - 1, c);
    } else {
      SameDealWithItself(At(start, events, m).db.challenges);
    }
  }

  // ---------------------------------------------------------------- sessions opened with a mailed code

  /** What lies behind a session opened with a mailed code. */
  lemma CodeSession(start: World, sealing: Sealing, events: seq<Event>, k: nat, i: nat)
    requires PendingCookie.Faithful(sealing.codec) && Run(start, sealing, events) && k <= |events|
    requires i < |At(start, events, k).sessions| && At(start, events, k).sessions[i].ticket.MailedCode?
    ensures var s := At(start, events, k).sessions[i];
      var c, since := s.ticket.challengeId, s.ticket.since;
      && since < s.step < k && s.claims.id.Some?
      && events[since].PasswordSignIn? && events[s.step].Settles?
      && LiveCode(At(start, events, since), events[since].host.now, c, s.claims.id.value)
      && c in At(start, events, s.step + 1).used && c !in At(start, events, s.step + 1).db.challenges
  {
    hide Inv, Run, At, PendingCookie.Faithful, LiveCode, FindById, InFlight, LiveToken, IsTestUser, Next;
    var s := At(start, events, k).sessions[i];
    SessionOrigin(start, sealing, events, k, i);
    FlyingOrigin(start, sealing, events, s.step, events[s.step].call);
    CodeSettled(start, sealing, events, s.step);
  }

  /** A write that accepts removes the challenge. */
  lemma CodeSettled(start: World, sealing: Sealing, events: seq<Event>, k: nat)
    requires PendingCookie.Faithful(sealing.codec) && Run(start, sealing, events) && k < |events|
    requires events[k].Settles? && events[k].call in At(start, events, k).flying
    requires At(start, events, k).flying[events[k].call].Coding?
    requires At(start, events, k).flying[events[k].call].look == Held(true)
    ensures var c := At(start, events, k).flying[events[k].call].challengeId;
      c in At(start, events, k + 1).used && c !in At(start, events, k + 1).db.challenges
  {
    RunKeepsInv(start, sealing, events, k);
    hide Tables, TokensApart, PendingCookie.Faithful, Possible, MarkedVerified, Run;
    var w := At(start, events, k);
    assert FlyingOk(w, w.flying[events[k].call]);
    assert At(start, events, k + 1) == Next(w, events[k]);
    SettledAway(w, events[k].call, events[k].now);
  }

  lemma SettledAway(w: World, call: nat, now: int)
    requires call in w.flying && w.flying[call].Coding? && w.flying[call].look == Held(true)
    ensures w.flying[call].challengeId !in Wrote(w, call, now).db.challenges && Wrote(w, call, now).used == w.used
    ensures Wrote(w, call, now).sessions
         == w.sessions + [Session(SessionRefresh.SignedIn(w.flying[call].user.id, w.flying[call].user.isAdmin, now),
                                  ByPassword, MailedCode(w.flying[call].challengeId, w.flying[call].since), w.steps)]
  {
    hide MarkedVerified;
  }

  /** In every run, a session opened with a mailed code was preceded by a request that gave the
      password of the same user and mailed that code, less than ten minutes before the sign-in read
      the challenge. */
  lemma MailedCodeSessions(start: World, sealing: Sealing, events: seq<Event>, k: nat, i: nat) returns (j: nat)
    requires PendingCookie.Faithful(sealing.codec) && Run(start, sealing, events) && k <= |events|
    requires i < |At(start, events, k).sessions| && At(start, events, k).sessions[i].ticket.MailedCode?
    ensures var s := At(start, events, k).sessions[i];
      j < s.ticket.since < s.step < k && s.claims.id.Some? && events[s.ticket.since].PasswordSignIn?
    ensures var s, e := At(start, events, k).sessions[i], events[j];
      && (e.Preflight? || e.CodeRequest?) && e.host.seed.challengeId == s.ticket.challengeId
      && events[s.ticket.since].host.now < e.host.now + 600_000
      && Identify(e.host, At(start, events, j).db.rows, e.username, e.password).Known?
      && Identify(e.host, At(start, events, j).db.rows, e.username, e.password).user.id == s.claims.id.value
  {
    hide Run, At, Identify, PendingCookie.Faithful;
    CodeSession(start, sealing, events, k, i);
    var s := At(start, events, k).sessions[i];
    j := ChallengeOrigin(start, sealing, events, s.ticket.since, s.ticket.challengeId);
  }

  /** In every run, every password session began with an event that gave the right password of its
      user, not rejected by the policy. Where no mailed code was redeemed, a user with an authenticator
      had its code accepted, and one without could not be mailed any. */
  lemma PasswordSessions(start: World, sealing: Sealing, events: seq<Event>, k: nat, i: nat) returns (j: nat)
    requires PendingCookie.Faithful(sealing.codec) && Run(start, sealing, events) && k <= |events|
    requires i < |At(start, events, k).sessions| && At(start, events, k).sessions[i].provider == ByPassword
    ensures var s := At(start, events, k).sessions[i];
      && j <= s.step < k && s.claims.id.Some? && events[j].PasswordSignIn?
      && var e, db := events[j], At(start, events, j).db;
      && SignInGates.PastPassword(e.host, db, e.jar, e.credentials, s.claims.id.value)
      && (s.ticket.MailedCode? ==> j == s.ticket.since)
      && (!s.ticket.MailedCode? ==> j == s.step)
      && (!s.ticket.MailedCode? && e.host.enrolled(s.claims.id.value) ==>
            e.host.totpAccepts(s.claims.id.value, Trim(e.credentials.otp.GetOr(""))))
      && (!s.ticket.MailedCode? && !e.host.enrolled(s.claims.id.value) ==>
            !(SignInGates.CodesMailed(e.host)
              && SignInGates.HasAddress(FindByUsername(db.rows, e.credentials.username.value).value)))
  {
    hide Inv, Run, At, PendingCookie.Faithful, LiveCode, FindById, InFlight, LiveToken, IsTestUser, Next,
         SignInGates.PastPassword, SignInGates.CodesMailed, SignInGates.HasAddress, SignInGates.PolicySays, Trim;
    var s := At(start, events, k).sessions[i];
    SessionOrigin(start, sealing, events, k, i);
    j := s.step;
    if s.ticket.MailedCode? {
      FlyingOrigin(start, sealing, events, s.step, events[s.step].call);
      j := s.ticket.since;
    } else {
      PastNamesUser(events[j].host, At(start, events, j).db, events[j].jar, events[j].credentials, s.claims.id.value);
    }
  }

  lemma PastNamesUser(host: Host, db: Db, jar: Cookies, c: Credentials, id: string)
    ensures SignInGates.PastPassword(host, db, jar, c, id) ==>
      c.username.Some? && FindByUsername(db.rows, c.username.value).Some?
  {
  }

  /** Two sessions from one code: only if each sign-in had read the challenge before the other wrote.
      Sign-ins that do not overlap open one session with it at most. */
  lemma CodeTwiceOnlyOverlapping(start: World, sealing: Sealing, events: seq<Event>, k: nat, i: nat, j: nat)
    requires PendingCookie.Faithful(sealing.codec) && Run(start, sealing, events) && k <= |events|
    requires i < |At(start, events, k).sessions| && j < |At(start, events, k).sessions|
    requires At(start, events, k).sessions[i].ticket.MailedCode? && At(start, events, k).sessions[j].ticket.MailedCode?
    requires At(start, events, k).sessions[i].ticket.challengeId == At(start, events, k).sessions[j].ticket.challengeId
    ensures At(start, events, k).sessions[i].ticket.since < At(start, events, k).sessions[j].step
  {
    hide Run, At, PendingCookie.Faithful;
    CodeSession(start, sealing, events, k, i);
    CodeSession(start, sealing, events, k, j);
    var s, t := At(start, events, k).sessions[i], At(start, events, k).sessions[j];
    if t.step < s.ticket.since {
      ChallengeOverTime(start, sealing, events, t.step + 1, s.ticket.since, s.ticket.challengeId);
    }
  }

  /** A later sign-in with a code that fitted finds it right exactly if the challenge is still there
      when it reads; and a sign-in that found it right opens a session when it writes, whatever has
      happened in between. */
  lemma LaterReadHoldsIff(start: World, sealing: Sealing, events: seq<Event>, m: nat, k: nat, c: string,
                          userId: string, code: string, rules: OtpRules, now: int)
    requires PendingCookie.Faithful(sealing.codec) && Run(start, sealing, events) && m <= k <= |events|
    requires LookUp(At(start, events, m).db.challenges, MfaOtp, c, userId, code, rules, now) == Held(true)
    ensures LookUp(At(start, events, k).db.challenges, MfaOtp, c, userId, code, rules, now) == Held(true)
       <==> c in At(start, events, k).db.challenges
  {
    hide Run, At, PendingCookie.Faithful, Matches, Inv;
    RunKeepsInv(start, sealing, events, m);
    UsedWhenStored(At(start, events, m), c);
    ChallengeOverTime(start, sealing, events, m, k, c);
    if c in At(start, events, k).db.challenges {
      MatchesIgnoresCounter(rules, c, code, At(start, events, m).db.challenges[c],
                            At(start, events, k).db.challenges[c]);
    }
  }

  lemma UsedWhenStored(w: World, c: string)
    requires Inv(w)
    ensures c in w.db.challenges ==> c in w.used
  {
    hide ValidUsers, TenMinutes, EachOk, TokensApart;
  }

  lemma MatchesIgnoresCounter(rules: OtpRules, id: string, code: string, a: Challenge, b: Challenge)
    requires SameDeal(a, b)
    ensures Matches(rules, id, code, a) == Matches(rules, id, code, b)
  {
  }

  /** Overlapping, one code does open two: both sign-ins read, then both write. */
  lemma OneCodeTwoSessions(w: World, a: nat, b: nat, host: Host, jar: Cookies, c: Credentials)
    requires a != b && a !in w.flying && b !in w.flying
    requires EntersCode(host, w.db, jar, c).Some? && EntersCode(host, w.db, jar, c).value.db == w.db
    requires var e := EntersCode(host, w.db, jar, c).value;
      LookUp(w.db.challenges, MfaOtp, e.challengeId, e.user.id, e.otp, host.rules, host.now) == Held(true)
    ensures var w2 := Next(Next(w, PasswordSignIn(a, host, jar, c)), PasswordSignIn(b, host, jar, c));
      var v := Next(Next(w2, Settles(a, host.now)), Settles(b, host.now));
      var n, id := |w.sessions|, EntersCode(host, w.db, jar, c).value.challengeId;
      && |v.sessions| == n + 2
      && v.sessions[n].ticket == MailedCode(id, w.steps) && v.sessions[n + 1].ticket == MailedCode(id, w.steps + 1)
      && v.sessions[n].claims.id == v.sessions[n + 1].claims.id
  {
    hide EntersCode, LookUp, RequiresVerification, MarkedVerified, Wrote;
    var e := EntersCode(host, w.db, jar, c).value;
    var w1 := Next(w, PasswordSignIn(a, host, jar, c));
    var w2 := Next(w1, PasswordSignIn(b, host, jar, c));
    SettledAway(w2, a, host.now);
    SettledLeaves(w2, a, b, host.now);
    var w3 := Next(w2, Settles(a, host.now));
    SettledAway(w3, b, host.now);
  }

  lemma SettledLeaves(w: World, call: nat, other: nat, now: int)
    requires call in w.flying && w.flying[call].Coding? && other in w.flying && other != call
    ensures other in Wrote(w, call, now).flying && Wrote(w, call, now).flying[other] == w.flying[other]
    ensures Wrote(w, call, now).steps == w.steps
  {
    hide MarkedVerified, Settle;
  }

  /** A passkey token opens at most one session, under every interleaving. */
  lemma TokenOpensOnce(start: World, sealing: Sealing, events: seq<Event>, k: nat, i: nat, j: nat)
    requires PendingCookie.Faithful(sealing.codec) && Run(start, sealing, events) && k <= |events|
    requires i < j < |At(start, events, k).sessions| && At(start, events, k).sessions[i].ticket.PasskeyToken?
    ensures At(start, events, k).sessions[j].ticket != At(start, events, k).sessions[i].ticket
  {
    hide Run, At, Tables, EachOk, PendingCookie.Faithful;
    RunKeepsInv(start, sealing, events, k);
  }
}
