/** What a run keeps of the user table when every row comes from the user service, and that
    pre-flight and issuer agree at every moment of such a run. */
module AgreementRuns {
  import opened JsText
  import opened UserTable
  import opened Challenges
  import opened SignIn
  import opened SessionRuns
  import opened UserService
  import PasswordHash
  import PendingCookie
  import SignInFacts

  // ---------------------------------------------------------------- each request

  lemma IdentifyWellKept(host: Host, rows: seq<User>, username: string, password: string)
    requires WellKept(rows)
    ensures var r := Identify(host, rows, username, password);
      r.Known? ==>
        && WellKept(r.rows)
        && FindByUsername(r.rows, Trim(username)) == Some(r.user)
  {
    hide Trim, Verify, FindByUsername, AfterUpdate, WellKept;
    var found := FindByUsername(rows, Trim(username));
    if found.Some? {
      var v := Verify(host, password, found.value.passwordHash);
      SignInFacts.RehashedWellKept(host, rows, Trim(username), password);
      ValidWhenWellKept(rows);
      if v.Accepted? { SignInFacts.RehashedUsers(rows, found.value.id, v.rehash, Trim(username)); }
    }
  }

  lemma MarkWellKept(rows: seq<User>, id: string, now: int)
    requires WellKept(rows)
    ensures WellKept(MarkedVerified(rows, id, now))
  {
    hide WellKept, FindById, AfterUpdate, Filled;
    UpdateWellKept(rows, id, NO_CHANGE.(emailVerifiedAt := Some(Some(now))));
  }

  lemma WrittenWellKept(host: Host, rows: seq<User>, user: User, password: string)
    requires WellKept(rows) && user in rows
    ensures var written := WithPassword(host, rows, user, password);
      written.Some? ==> WellKept(written.value)
  {
    hide Trim, AfterUpdate, WellKept, PasswordHash.HashPassword;
    var h := PasswordHash.HashPassword(password, host.hashing, host.hasher, host.md5);
    if !user.isTestUser && h.Hash? {
      PatchOfRow(rows, user, NO_CHANGE.(passwordHash := Some(h.stored), passwordUpdatedAt := Some(Some(host.now))));
    }
  }

  lemma BeginWellKept(host: Host, db: Db, jar: Cookies, username: string, password: string)
    requires WellKept(db.rows)
    ensures WellKept(Begin(host, db, jar, username, password).db.rows)
  {
    hide Identify, ChooseChallenge, ComplexityOf, PendingClient, EnvironmentsOf, WellKept, Trim;
    IdentifyWellKept(host, db.rows, username, password);
    var r := Identify(host, db.rows, username, password);
    if r.Known? { SignInFacts.ChoiceKeepsGates(host, db.(rows := r.rows), jar, r.user); }
  }

  lemma RequestWellKept(host: Host, db: Db, jar: Cookies, username: string, password: string)
    requires WellKept(db.rows)
    ensures WellKept(RequestCode(host, db, jar, username, password).db.rows)
  {
    hide Identify, CreateOtp, SiteSettings, Filled, WellKept, Trim;
    IdentifyWellKept(host, db.rows, username, password);
  }

  lemma ChangeWellKept(host: Host, db: Db, jar: Cookies, username: string, current: string, next: string)
    requires WellKept(db.rows)
    ensures WellKept(ChangePassword(host, db, jar, username, current, next).db.rows)
  {
    hide Identify, ComplexityOf, WithPassword, WellKept, Trim;
    IdentifyWellKept(host, db.rows, username, current);
    var first := Identify(host, db.rows, username, current);
    if first.Known? {
      IdentifyWellKept(host, first.rows, username, next);
      WrittenWellKept(host, first.rows, first.user, next);
    }
  }

  lemma FactorWellKept(host: Host, db: Db, jar: Cookies, user: User, otp: string, mfaMethod: string)
    requires WellKept(db.rows)
    ensures WellKept(SecondFactor(host, db, jar, user, otp, mfaMethod).db.rows)
  {
    hide Filled, VerifyAndConsume, MarkedVerified, IsEmailMfaGloballyEnabled, WellKept;
    MarkWellKept(db.rows, user.id, host.now);
  }

  lemma AuthorizeWellKept(host: Host, db: Db, jar: Cookies, c: Credentials)
    requires WellKept(db.rows)
    ensures WellKept(Authorize(host, db, jar, c).db.rows)
  {
    var otp, mfaMethod := Trim(c.otp.GetOr("")), Trim(c.mfaMethod.GetOr(""));
    hide SecondFactor, Verify, FindByUsername, AfterUpdate, ComplexityOf, WellKept, Trim;
    if c.username.Some? && c.password.Some? && FindByUsername(db.rows, c.username.value).Some? {
      var user := FindByUsername(db.rows, c.username.value).value;
      var v := Verify(host, c.password.value, user.passwordHash);
      SignInFacts.RehashedWellKept(host, db.rows, c.username.value, c.password.value);
      if v.Accepted? {
        FactorWellKept(host, db.(rows := Rehashed(db.rows, user.id, v.rehash)), jar, user, otp, mfaMethod);
      }
    }
  }

  lemma EntersWellKept(host: Host, db: Db, jar: Cookies, c: Credentials)
    requires WellKept(db.rows)
    ensures EntersCode(host, db, jar, c).Some? ==> WellKept(EntersCode(host, db, jar, c).value.db.rows)
  {
    hide Verify, FindByUsername, AfterUpdate, ComplexityOf, WellKept, Trim, Filled, IsEmailMfaGloballyEnabled;
    if c.username.Some? && c.password.Some? && FindByUsername(db.rows, c.username.value).Some? {
      SignInFacts.RehashedWellKept(host, db.rows, c.username.value, c.password.value);
    }
  }

  lemma SignInWellKept(w: World, call: nat, host: Host, jar: Cookies, c: Credentials)
    requires WellKept(w.db.rows)
    ensures WellKept(SignInStarts(w, call, host, jar, c).db.rows)
  {
    hide EntersCode, Authorize, LookUp, RequiresVerification, WellKept;
    EntersWellKept(host, w.db, jar, c);
    AuthorizeWellKept(host, w.db, jar, c);
  }

  lemma WroteWellKept(w: World, call: nat, now: int)
    requires WellKept(w.db.rows) && call in w.flying
    ensures WellKept(Wrote(w, call, now).db.rows)
  {
    hide Settle, MarkedVerified, WellKept;
    match w.flying[call]
    case Coding(user, _, _, _, _, _) => MarkWellKept(w.db.rows, user.id, now);
    case Verifying(userId, _, _, _) => MarkWellKept(w.db.rows, userId, now);
    case _ =>
  }

  // ---------------------------------------------------------------- each change of users

  lemma CreatedWellKept(w: World, host: Host, id: string, form: UserForm)
    requires WellKept(w.db.rows)
    ensures WellKept(Next(w, CreateUser(host, id, form)).db.rows)
  {
    hide WellKept, NewUser, ValidUsers;
    CreateWellKept(host, w.db.rows, id, form);
  }

  lemma RemovedWellKept(rows: seq<User>, id: string)
    requires WellKept(rows)
    ensures WellKept(Removed(rows, id))
  {
    hide ValidUsers, Tidy;
    RemovedKeepsValid(rows, id);
    forall i | 0 <= i < |Removed(rows, id)| ensures Tidy(Removed(rows, id)[i]) { TidyRow(rows, Removed(rows, id)[i]); }
  }

  lemma DeletedWellKept(w: World, id: string)
    requires WellKept(w.db.rows)
    ensures WellKept(Next(w, DeleteUser(id)).db.rows)
  {
    hide WellKept, Dropped, Without;
    RemovedWellKept(w.db.rows, id);
  }

  lemma NotTestUser(rows: seq<User>, id: string)
    requires WellKept(rows) && !IsTestUser(rows, id)
    ensures forall u :: u in rows && u.id == id ==> !u.isTestUser
  {
    hide Tidy;
    forall u | u in rows && u.id == id ensures !u.isTestUser { FoundById(rows, u); }
  }

  lemma NewPasswordWellKept(w: World, host: Host, id: string, password: string)
    requires WellKept(w.db.rows) && !IsTestUser(w.db.rows, id)
    ensures WellKept(Next(w, ResetPassword(host, id, password)).db.rows)
  {
    hide WellKept, IsTestUser, AfterReset;
    NotTestUser(w.db.rows, id);
    ResetWellKept(host, w.db.rows, id, password);
  }

  // ---------------------------------------------------------------- every step, every run

  /** No statement goes past the user service. */
  predicate ByService(e: Event) { !e.InsertByHand? && !e.UpdateByHand? }

  /** Events that leave the user table alone. */
  lemma OthersKeepRows(w: World, e: Event)
    requires e.Authorization? || e.PasskeySignIn? || e.Redeems? || e.TestSignIn? || e.VerificationRequest?
          || e.VerificationTry? || e.Refresh? || e.PasskeyVerified? || e.SetEnvironments?
    ensures Next(w, e).db.rows == w.db.rows
  {
    hide AuthorizeTestUser, Checked, LookUp, Trim, ConsumeToken, PasskeySession, CreateOtp, Filled, FindById;
  }

  lemma StepWellKept(w: World, sealing: Sealing, e: Event)
    requires WellKept(w.db.rows) && Possible(w, sealing, e) && ByService(e)
    ensures WellKept(Next(w, e).db.rows)
  {
    hide WellKept, Honest, Begin, RequestCode, ChangePassword, SignInStarts, Wrote, Identify, Inserted, Deleted,
         NewUser, AfterUserUpdate, AfterReset, IsTestUser;
    match e {
      case Preflight(host, jar, username, password) => BeginWellKept(host, w.db, jar, username, password);
      case CodeRequest(host, jar, username, password) => RequestWellKept(host, w.db, jar, username, password);
      case PasswordProof(host, username, password) => IdentifyWellKept(host, w.db.rows, username, password);
      case PasswordChange(host, jar, username, current, next) =>
        ChangeWellKept(host, w.db, jar, username, current, next);
      case PasswordSignIn(call, host, jar, c) => SignInWellKept(w, call, host, jar, c);
      case Settles(call, now) => WroteWellKept(w, call, now);
      case CreateUser(host, id, form) => CreatedWellKept(w, host, id, form);
      case UpdateUser(host, target, update, actor) => UserUpdateWellKept(host, w.db.rows, target, update, actor);
      case ResetPassword(host, id, password) => NewPasswordWellKept(w, host, id, password);
      case DeleteUser(id) => DeletedWellKept(w, id);
      case _ => OthersKeepRows(w, e);
    }
  }

  /** In every run without such statements the table stays well kept. */
  lemma {:induction false} RunWellKept(start: World, sealing: Sealing, events: seq<Event>, k: nat)
    requires Run(start, sealing, events) && WellKept(start.db.rows) && k <= |events|
    requires forall i | 0 <= i < k :: ByService(events[i])
    ensures WellKept(At(start, events, k).db.rows)
  {
    hide WellKept, Possible, Next, ByService;
    if k > 0 {
      RunWellKept(start, sealing, events, k - 1);
      StepWellKept(At(start, events, k - 1), sealing, events[k - 1]);
    }
  }

  /** At every moment of every such run, from an empty table or any well-kept one, pre-flight and
      issuer agree, whatever name is typed, in whatever browser, under whatever settings: after
      `none` the issuer mints, without a code, exactly if there is no space around the name and the
      password is not empty. */
  lemma AgreeInEveryRun(start: World, sealing: Sealing, events: seq<Event>, k: nat,
                        host: Host, jar: Cookies, username: string, password: string, c: Credentials)
    requires Run(start, sealing, events) && WellKept(start.db.rows) && k <= |events|
    requires forall i | 0 <= i < k :: ByService(events[i])
    requires SignInFacts.Plain(c, username, password)
    ensures SignInFacts.Agree(Begin(host, At(start, events, k).db, jar, username, password).answer,
                              Authorize(host, At(start, events, k).db, jar, c).verdict,
                              Trim(c.otp.GetOr("")), Trim(username) == username && password != "")
  {
    hide Run, At, WellKept, Begin, Authorize, Trim, SignInFacts.Agree, ByService;
    RunWellKept(start, sealing, events, k);
    SignInFacts.AgreeInOneState(host, At(start, events, k).db, jar, username, password, c);
  }

  /** And when the pre-flight was itself an event of the run and the sign-in comes right after it,
      with the cookies the pre-flight set. */
  lemma AgreeAfterPreflight(start: World, sealing: Sealing, events: seq<Event>, k: nat, c: Credentials,
                            origin: string -> Option<string>)
    requires Run(start, sealing, events) && WellKept(start.db.rows) && k < |events| && events[k].Preflight?
    requires forall i | 0 <= i < k :: ByService(events[i])
    requires SignInFacts.Plain(c, events[k].username, events[k].password)
    requires SignInFacts.IdealHashing(events[k].host, origin)
    ensures var e := events[k];
      var begun := Begin(e.host, At(start, events, k).db, e.jar, e.username, e.password);
      && At(start, events, k + 1).db == begun.db
      && SignInFacts.Agree(begun.answer, Authorize(e.host, At(start, events, k + 1).db, begun.jar, c).verdict,
                           Trim(c.otp.GetOr("")), Trim(e.username) == e.username && e.password != "")
  {
    hide Run, WellKept, Begin, Authorize, Trim, SignInFacts.Agree, ByService, SignInFacts.IdealHashing;
    RunWellKept(start, sealing, events, k);
    var e := events[k];
    assert At(start, events, k + 1) == Next(At(start, events, k), e);
    SignInFacts.AgreeAfterwards(e.host, At(start, events, k).db, e.jar, e.username, e.password, c, origin);
  }
}
