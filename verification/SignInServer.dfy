/** The entry points of the sign-in protocol as they run: gate after gate, writing tables and cookies
    on the way. Each is proved to do what its counterpart in SignIn says. An exception is an answer
    of its own, and keeps what was written before it. */
module SignInServer {
  import opened JsText
  import opened UserTable
  import opened Challenges
  import opened SignIn
  import PasswordHash
  import SignInFacts
  import opened SignInGates
  import UserService

  class CookieJar {
    var mfa: Option<string>
    var emailVerification: Option<string>
    var pending: Option<string>

    ghost function Value(): Cookies
      reads this
    {
      Cookies(mfa, emailVerification, pending)
    }

    constructor (cookies: Cookies)
      ensures Value() == cookies
    {
      mfa, emailVerification, pending := cookies.mfa, cookies.emailVerification, cookies.pending;
    }

    function Read(): Cookies
      reads this
    {
      Cookies(mfa, emailVerification, pending)
    }

    /** `clearSignInChallenge` */
    method ClearSignInChallenge()
      modifies this
      ensures Value() == Cleared(old(Value()))
    {
      mfa := None;
      emailVerification := None;
    }
  }

  datatype Login = NoLogin | LoginThrew | LoggedIn(user: User)

  class Server {
    var rows: seq<User>
    var grants: seq<Grant>
    var challenges: Store
    var exchanges: map<string, Exchange>

    ghost function Value(): Db
      reads this
    {
      Db(rows, grants, challenges)
    }

    constructor (db: Db, exchanges: map<string, Exchange>)
      ensures Value() == db && this.exchanges == exchanges
    {
      rows, grants, challenges, this.exchanges := db.rows, db.grants, db.challenges, exchanges;
    }

    // -------------------------------------------------------------- user-challenge.service.ts

    method VerifyUsernamePassword(host: Host, username: string, password: string) returns (r: Login)
      modifies this`rows
      ensures match Identify(host, old(rows), username, password)
              case Unknown => r == NoLogin && rows == old(rows)
              case Broke => r == LoginThrew && rows == old(rows)
              case Known(user, after) => r == LoggedIn(user) && rows == after
    {
      hide Verify, AfterUpdate, FindByUsername, Trim;
      var found := FindByUsername(rows, Trim(username));
      if found.None? { return NoLogin; }
      var user := found.value;
      var v := Verify(host, password, user.passwordHash);
      if v.Thrown? { return LoginThrew; }
      if v.Rejected? { return NoLogin; }
      if v.rehash.Some? {
        rows := AfterUpdate(rows, user.id, NO_CHANGE.(passwordHash := v.rehash));
        user := user.(passwordHash := v.rehash.value);
      }
      return LoggedIn(user);
    }

    /** Answers the id of the new challenge, or None when an exception was thrown. */
    method CreateOtpAndSendEmail(host: Host, user: User, kind: Kind) returns (id: Option<string>)
      modifies this`challenges
      ensures Created(challenges, id) == CreateOtp(host, old(challenges), user, kind)
    {
      hide Filled;
      if host.site.None? || !Filled(host.site.value.siteUrl) { return None; }
      if !Filled(user.email) { return None; }
      if kind == EmailVerification {
        challenges := WithoutKind(challenges, user.id, kind);
      }
      var challengeId := host.seed.challengeId;
      if challengeId in challenges { return None; }
      var codeHash := host.rules.hash(challengeId, host.seed.code);
      challenges := challenges[challengeId := NewChallenge(user.id, kind, codeHash, host.now)];
      if !host.mailWorks { return None; }
      return Some(challengeId);
    }

    method VerifyOtpAndConsume(host: Host, kind: Kind, id: string, userId: string, code: string) returns (r: OtpResult)
      modifies this`challenges
      ensures Verified(challenges, r) == VerifyAndConsume(old(challenges), kind, id, userId, code, host.rules, host.now)
    {
      hide Matches;
      if id !in challenges || challenges[id].kind != kind || challenges[id].userId != userId {
        return MissingOrMismatch;
      }
      var row := challenges[id];
      if row.consumed { return Consumed; }
      if row.expiresAt <= host.now {
        challenges := challenges - {id};
        return Expired;
      }
      if !Matches(host.rules, id, code, row) {
        var count := row.otpFailedAttempts + 1;
        challenges := challenges[id := row.(otpFailedAttempts := count)];
        if count >= host.rules.maxAttempts {
          assert challenges - {id} == old(challenges) - {id};
          challenges := challenges - {id};
          return MaxAttemptsExceeded;
        }
        return Incorrect;
      }
      challenges := challenges - {id};
      return OtpOk;
    }

    method MarkEmailVerified(host: Host, userId: string)
      modifies this`rows
      ensures rows == MarkedVerified(old(rows), userId, host.now)
    {
      hide FindById, AfterUpdate, Filled;
      var user := FindById(rows, userId);
      if user.None? || user.value.isAdmin || !Filled(user.value.email) || user.value.emailVerifiedAt.Some? { return; }
      rows := AfterUpdate(rows, userId, NO_CHANGE.(emailVerifiedAt := Some(Some(host.now))));
    }

    /** The method for addresses: an accepted code also marks the address verified. */
    method VerifyEmailVerificationOtpAndConsume(host: Host, id: string, userId: string, code: string)
      returns (r: OtpResult)
      modifies this`rows, this`challenges
      ensures Verified(challenges, r)
           == VerifyAndConsume(old(challenges), EmailVerification, id, userId, code, host.rules, host.now)
      ensures rows == if r == OtpOk then MarkedVerified(old(rows), userId, host.now) else old(rows)
    {
      hide VerifyAndConsume, MarkedVerified;
      r := VerifyOtpAndConsume(host, EmailVerification, id, userId, code);
      if r == OtpOk { MarkEmailVerified(host, userId); }
    }

    /** For a user who is signed in; no password is asked for. */
    method RequestEmailVerification(host: Host, userId: string) returns (r: Sent)
      modifies this`challenges
      ensures Requested(Value(), r) == RequestVerification(host, old(Value()), userId)
    {
      hide FindById, Filled, CreateOtp;
      var user := FindById(rows, userId);
      if user.None? { return SendThrew; }
      if user.value.isAdmin { return NotNeeded; }
      if !Filled(user.value.email) { return SendThrew; }
      if user.value.emailVerifiedAt.Some? { return NotNeeded; }
      var id := CreateOtpAndSendEmail(host, user.value, EmailVerification);
      return if id.Some? then Issued(id.value) else SendThrew;
    }

    // -------------------------------------------------------------- user.service.ts

    /** Answers the row inserted, or None when an exception was thrown. */
    method CreateUser(host: Host, id: string, form: UserService.UserForm) returns (row: Option<User>)
      modifies this`rows
      ensures rows == UserService.AfterCreate(host, old(rows), id, form)
      ensures row.Some? ==> rows == old(rows) + [row.value] && UserService.Tidy(row.value)
      ensures row.None? ==> rows == old(rows)
    {
      hide Trim, FindByUsername, ValidUsers, PasswordHash.HashPassword;
      TrimIdempotent(form.username);
      var username := Trim(form.username);
      if username == "" { return None; }
      if form.isTestUser && form.isAdmin { return None; }
      var taken := FindByUsername(rows, username);
      if taken.Some? { return None; }
      var passwordHash := "";
      if !form.isTestUser {
        var hashed := PasswordHash.HashPassword(form.password, host.hashing, host.hasher, host.md5);
        if hashed.HashFailed? { return None; }
        passwordHash := hashed.stored;
      }
      var email := Normalized(form.email);
      var u := User(id, username, Normalized(form.name), email,
                    if form.isAdmin && email.Some? then Some(host.now) else None, None, passwordHash,
                    if form.isTestUser then None else Some(host.now), form.isAdmin, form.isTestUser);
      if !ValidUsers(rows + [u]) { return None; }
      rows := rows + [u];
      return Some(u);
    }

    /** `updateUser` with its patch built field by field; false when an exception was thrown. */
    method UpdateUser(host: Host, target: string, u: UserService.UserUpdate, actor: string) returns (ok: bool)
      modifies this`rows
      ensures rows == UserService.AfterUserUpdate(host, old(rows), target, u, actor)
      ensures UserService.WellKept(old(rows)) ==> UserService.WellKept(rows)
      ensures !ok ==> rows == old(rows)
      ensures ok <==>
        && UserService.Resolved(old(rows), target).Some?
        && !UserService.Refuses(host, old(rows), UserService.Resolved(old(rows), target).value, u, actor)
    {
      hide Trim, FindById, FindByUsername, AfterUpdate, ValidUsers, UserService.Hashed, UserService.WellKept,
           UserService.Admins, UserService.VerifiedPatch, Normalized;
      if UserService.WellKept(rows) { UserService.UserUpdateWellKept(host, rows, target, u, actor); }
      var found := FindById(rows, target);
      if found.None? { found := FindByUsername(rows, target); }
      if found.None? { return false; }
      var current := found.value;
      var profile := ProfilePatch(host, current, u);
      if profile.None? { return false; }
      var patch := profile.value;
      if u.password.Some? && Trim(u.password.value) != "" {
        if current.isTestUser { return false; }
        var hashed := UserService.Hashed(host, u.password.value);
        if hashed.HashFailed? { return false; }
        patch := patch.(passwordHash := Some(hashed.stored), passwordUpdatedAt := Some(Some(host.now)));
      }
      patch := patch.(avatarKey := u.avatarKey);
      var refused := RefusesAdmin(current, u.isAdmin, actor);
      if refused { return false; }
      patch := patch.(isAdmin := u.isAdmin);
      rows := AfterUpdate(rows, current.id, patch);
      return true;
    }

    /** The fields of the profile; None when the name is blank. */
    method ProfilePatch(host: Host, current: User, u: UserService.UserUpdate) returns (patch: Option<Patch>)
      ensures patch.None? <==> u.username.Some? && Trim(u.username.value) == ""
      ensures patch.Some? ==>
        patch.value == UserService.PatchFor(host, current, u).(passwordHash := None, passwordUpdatedAt := None,
                                                               avatarKey := None, isAdmin := None)
    {
      hide Trim, Normalized, UserService.Hashed, UserService.FoldedEmail;
      var p := NO_CHANGE;
      if u.username.Some? {
        var username := Trim(u.username.value);
        if username == "" { return None; }
        p := p.(username := Some(username));
      }
      if u.name.Some? { p := p.(name := Some(Normalized(u.name.value))); }
      if u.email.Some? {
        var nextEmail := Normalized(u.email.value);
        p := p.(email := Some(nextEmail));
        if !current.isAdmin
           && UserService.FoldedEmail(host, current.email) != UserService.FoldedEmail(host, nextEmail) {
          p := p.(emailVerifiedAt := Some(None));
        }
      }
      if u.emailVerifiedAt.Some? { p := p.(emailVerifiedAt := u.emailVerifiedAt); }
      return Some(p);
    }

    /** The change of admin rights is one that is refused. */
    method RefusesAdmin(current: User, isAdmin: Option<bool>, actor: string) returns (refused: bool)
      ensures refused <==>
        || (isAdmin == Some(true) && current.isTestUser)
        || (isAdmin == Some(false)
            && (current.id == actor || (current.isAdmin && UserService.Admins(rows) <= 1)))
    {
      if isAdmin.None? { return false; }
      if current.isTestUser && isAdmin.value { return true; }
      if current.id == actor && !isAdmin.value { return true; }
      if current.isAdmin && !isAdmin.value {
        var count := CountAdmins();
        return count <= 1;
      }
      return false;
    }

    /** Answers false when an exception was thrown. */
    method DeleteUser(target: string, actor: string) returns (ok: bool)
      modifies this`rows, this`grants, this`challenges, this`exchanges
      ensures ok <==> UserService.AfterUserDelete(old(rows), target, actor).Some?
      ensures !ok ==> Value() == old(Value()) && exchanges == old(exchanges)
      ensures ok ==>
        && rows == UserService.AfterUserDelete(old(rows), target, actor).value
        && var id := UserService.Resolved(old(rows), target).value.id;
        && (forall g :: g in grants <==> g in old(grants) && g.userId != id)
        && challenges == (map c | c in old(challenges) && old(challenges)[c].userId != id :: old(challenges)[c])
        && exchanges == map x | x in old(exchanges) && old(exchanges)[x].userId != id :: old(exchanges)[x]
    {
      hide FindById, FindByUsername, UserService.Admins;
      if target == actor { return false; }
      var found := FindById(rows, target);
      if found.None? { found := FindByUsername(rows, target); }
      if found.None? { return false; }
      var id := found.value.id;
      if id == actor { return false; }
      if found.value.isAdmin {
        var count := CountAdmins();
        if count <= 1 { return false; }
      }
      rows := Removed(rows, id);
      grants := Without(grants, id);
      challenges := map c | c in challenges && challenges[c].userId != id :: challenges[c];
      exchanges := map x | x in exchanges && exchanges[x].userId != id :: exchanges[x];
      return true;
    }

    method CountAdmins() returns (count: nat)
      ensures count == UserService.Admins(rows)
    {
      count := 0;
      var i := |rows|;
      while i > 0
        invariant 0 <= i <= |rows|
        invariant count == UserService.Admins(rows[i..])
      {
        i := i - 1;
        if rows[i].isAdmin { count := count + 1; }
      }
      assert rows[0..] == rows;
    }

    // -------------------------------------------------------------- mfa-actions.ts

    method BeginSignInChallenge(host: Host, jar: CookieJar, username: string, password: string) returns (r: Answer)
      modifies this`rows, this`challenges, jar
      ensures Response(Value(), jar.Value(), r) == Begin(host, old(Value()), old(jar.Value()), username, password)
      ensures forall u :: Recognised(host, old(rows), username, password, u) ==>
        if NotGranted(host, old(Value()), old(jar.Value()), u) then r == Refused(NoAccess)
        else Answered(host, old(challenges), old(jar.Value()), u, password, r)
      ensures r == Refused(NoAccess) || r.NoChallenge? || r.Mfa? ==>
        exists u :: Recognised(host, old(rows), username, password, u)
      ensures r != VerifyEmail
      ensures r.Mfa? ==>
        if Totp in r.methods then jar.mfa.None?
        else r.methods == [EmailCode] && jar.mfa == Some(host.seed.challengeId) && jar.mfa.value in challenges
      ensures jar.emailVerification == old(jar.emailVerification) || jar.emailVerification.None?
    {
      hide Identify, PendingClient, EnvironmentsOf, ComplexityOf, SiteSettings, Filled, CreateOtp, ChooseChallenge;
      SignInFacts.PreflightNeverVerifies(host, Value(), jar.Value(), username, password);
      SignInFacts.PreflightNamesChallenge(host, Value(), jar.Value(), username, password);
      PreflightPromises(host, Value(), jar.Value(), username, password);
      hide Recognised, NotGranted, Answered;
      var login := VerifyUsernamePassword(host, username, password);
      if login.NoLogin? { return Refused(BadCredentials); }
      if login.LoginThrew? { return Threw; }
      var user := login.user;
      var environmentId := PendingEnvironment(host, jar.Read());
      if Truthy(environmentId) {
        if environmentId.value !in EnvironmentsOf(grants, user.id) { return Refused(NoAccess); }
      }
      if host.expired(user) {
        var mail := host.resetMail(user);
        if mail == ResetThrew { return Threw; }
        jar.mfa, jar.emailVerification := None, None;
        return PasswordExpired(mail == ResetSent);
      }
      var complexity := ComplexityOf(host, jar.Read(), user, password);
      if complexity.Unmet? && complexity.policy {
        jar.mfa, jar.emailVerification := None, None;
        return PasswordComplexity;
      }
      r := BeginChallenge(host, jar, user);
    }

    /** What the pre-flight promises beside its effect. */
    static lemma PreflightPromises(host: Host, db: Db, jar: Cookies, username: string, password: string)
      ensures var answer := Begin(host, db, jar, username, password).answer;
        && (forall u :: Recognised(host, db.rows, username, password, u) ==>
              if NotGranted(host, db, jar, u) then answer == Refused(NoAccess)
              else Answered(host, db.challenges, jar, u, password, answer))
        && (answer == Refused(NoAccess) || answer.NoChallenge? || answer.Mfa? ==>
              exists u :: Recognised(host, db.rows, username, password, u))
    {
      hide Begin, NotGranted, Answered, Trim, FindByUsername, PasswordHash.VerifyPassword;
      PreflightIff(host, db, jar, username, password);
      var found := FindByUsername(db.rows, Trim(username));
      if found.Some? && Checked(host, password, found.value.passwordHash).Accepted? {
        RecognisedIsRenewed(host, db.rows, username, password,
                       Renewed(found.value, Checked(host, password, found.value.passwordHash)));
      }
    }

    method BeginChallenge(host: Host, jar: CookieJar, user: User) returns (r: Answer)
      modifies this`challenges, jar
      ensures Response(Value(), jar.Value(), r) == ChooseChallenge(host, old(Value()), old(jar.Value()), user)
    {
      hide SiteSettings, Filled, CreateOtp, WithoutFactor;
      var site := SiteSettings(host.site, host.resendKey);
      var totpEnrolled := host.enrolled(user.id);
      var emailMfaUsable := site.mfaEnabled && site.mfaCanEnable && Filled(user.email);
      if site.mfaEnabled && !emailMfaUsable && !totpEnrolled {
        if !site.mfaCanEnable { return Refused(NotConfigured); }
        return Refused(NoEmail);
      }
      var methods: seq<Factor> := [];
      if totpEnrolled { methods := methods + [Totp]; }
      if emailMfaUsable { methods := methods + [EmailCode]; }
      assert methods == (if totpEnrolled then [Totp] else []) + (if emailMfaUsable then [EmailCode] else []);
      if |methods| > 0 {
        jar.emailVerification := None;
        if |methods| == 1 && methods[0] == EmailCode {
          var challengeId := CreateOtpAndSendEmail(host, user, MfaOtp);
          if challengeId.None? { return Threw; }
          jar.mfa := challengeId;
        } else {
          jar.mfa := None;
        }
        return Mfa(methods);
      }
      r := SkipOrVerifyEmail(host, jar, user);
    }

    /** The rest of the pre-flight, for a user with no second factor to offer. */
    method SkipOrVerifyEmail(host: Host, jar: CookieJar, user: User) returns (r: Answer)
      modifies this`challenges, jar
      ensures Response(Value(), jar.Value(), r) == WithoutFactor(host, old(Value()), old(jar.Value()), user)
    {
      hide SiteSettings, Filled, CreateOtp;
      var site := SiteSettings(host.site, host.resendKey);
      if user.isAdmin { return NoChallenge; }
      var emailMfaEnabledGlobally := site.mfaEnabled && site.mfaCanEnable;
      if !emailMfaEnabledGlobally || user.emailVerifiedAt.Some? {
        jar.mfa, jar.emailVerification := None, None;
        return NoChallenge;
      }
      if !Filled(user.email) { return Refused(NoEmail); }
      var challengeId := CreateOtpAndSendEmail(host, user, EmailVerification);
      if challengeId.None? { return Threw; }
      jar.emailVerification := challengeId;
      jar.mfa := None;
      return VerifyEmail;
    }

    method RequestEmailMfaCode(host: Host, jar: CookieJar, username: string, password: string) returns (r: Answer)
      modifies this`rows, this`challenges, jar
      ensures Response(Value(), jar.Value(), r) == RequestCode(host, old(Value()), old(jar.Value()), username, password)
      ensures r == Done ==> jar.mfa == Some(host.seed.challengeId) && host.seed.challengeId in challenges
      ensures r == Done ==>
        forall u :: Recognised(host, old(rows), username, password, u) ==>
          challenges == old(challenges)[host.seed.challengeId := MailedRow(host, u)]
    {
      hide Identify, SiteSettings, Filled, CreateOtp, Recognised, MailedRow;
      RequestIff(host, Value(), jar.Value(), username, password);
      var site := SiteSettings(host.site, host.resendKey);
      if !site.mfaEnabled || !site.mfaCanEnable { return Refused(CodesUnavailable); }
      var login := VerifyUsernamePassword(host, username, password);
      if login.NoLogin? { return Refused(BadCredentials); }
      if login.LoginThrew? { return Threw; }
      if !Filled(login.user.email) { return Refused(NoEmail); }
      var challengeId := CreateOtpAndSendEmail(host, login.user, MfaOtp);
      if challengeId.None? { return Threw; }
      jar.mfa := challengeId;
      jar.emailVerification := None;
      return Done;
    }

    method ChangePasswordAtSignIn(host: Host, jar: CookieJar, username: string, current: string, next: string)
      returns (r: Answer)
      modifies this`rows
      ensures Response(Value(), jar.Value(), r)
           == ChangePassword(host, old(Value()), old(jar.Value()), username, current, next)
      ensures ValidUsers(old(rows)) ==>
        forall u :: Recognised(host, old(rows), username, current, u) ==>
          (r == Done <==>
             && Checked(host, next, u.passwordHash).Rejected?
             && PolicySays(host, old(jar.Value()), u, next, Pass) && CanStore(host, u, next))
      ensures r == Done && ValidUsers(old(rows)) ==>
        && FindByUsername(rows, Trim(username)).Some?
        && (Trim(next) != "" ==> FindByUsername(rows, Trim(username)).value.passwordUpdatedAt == Some(host.now))
    {
      hide Identify, PendingClient, ComplexityOf, WithPassword, ValidUsers, FindByUsername, Trim;
      SignInFacts.ChangeIsDated(host, Value(), jar.Value(), username, current, next);
      ChangePromises(host, Value(), jar.Value(), username, current, next);
      hide Recognised, PolicySays, CanStore, PasswordHash.VerifyPassword;
      var login := VerifyUsernamePassword(host, username, current);
      if login.NoLogin? { return Refused(BadCredentials); }
      if login.LoginThrew? { return Threw; }
      var user := login.user;
      var same := VerifyUsernamePassword(host, username, next);
      if same.LoggedIn? { return Refused(SamePassword); }
      if same.LoginThrew? { return Threw; }
      var complexity := ComplexityOf(host, jar.Read(), user, next);
      if complexity.Unmet? { return Refused(PolicyUnmet); }
      var ok := UpdatePassword(host, user, next);
      if !ok { return Threw; }
      return Done;
    }

    /** What the change of password promises beside its effect. */
    static lemma ChangePromises(host: Host, db: Db, jar: Cookies, username: string, current: string, next: string)
      ensures ValidUsers(db.rows) ==>
        forall u :: Recognised(host, db.rows, username, current, u) ==>
          (ChangePassword(host, db, jar, username, current, next).answer == Done <==>
             && Checked(host, next, u.passwordHash).Rejected?
             && PolicySays(host, jar, u, next, Pass) && CanStore(host, u, next))
    {
      hide ChangePassword, PolicySays, CanStore, Trim, FindByUsername, PasswordHash.VerifyPassword, ValidUsers;
      if ValidUsers(db.rows) { ChangeIff(host, db, jar, username, current, next); }
    }

    /** What `updateUser` does with a password. */
    method UpdatePassword(host: Host, user: User, password: string) returns (ok: bool)
      modifies this`rows
      ensures WithPassword(host, old(rows), user, password) == if ok then Some(rows) else None
      ensures !ok ==> rows == old(rows)
    {
      hide Trim, AfterUpdate;
      if Trim(password) == "" { return true; }
      if user.isTestUser { return false; }
      var hashed := PasswordHash.HashPassword(password, host.hashing, host.hasher, host.md5);
      if hashed.HashFailed? { return false; }
      rows := AfterUpdate(rows, user.id,
                          NO_CHANGE.(passwordHash := Some(hashed.stored), passwordUpdatedAt := Some(Some(host.now))));
      return true;
    }

    // -------------------------------------------------------------- auth.ts

    method AuthorizePassword(host: Host, jar: CookieJar, c: Credentials) returns (r: Verdict)
      modifies this`rows, this`challenges, jar
      ensures Authorized(Value(), jar.Value(), r) == Authorize(host, old(Value()), old(jar.Value()), c)
      ensures r.Minted? ==>
        && c.username.Some? && FindByUsername(old(rows), c.username.value).Some?
        && !FindByUsername(old(rows), c.username.value).value.isTestUser
        && r.user == SessionOf(FindByUsername(old(rows), c.username.value).value)
      ensures r.Minted? ==>
        Entitled(host, old(Value()), old(jar.Value()), c, FindByUsername(old(rows), c.username.value).value, r.used)
      ensures forall u, used :: Entitled(host, old(Value()), old(jar.Value()), c, u, used) ==>
        r.Minted? && r.used == used
      ensures r.Minted? && r.used == WithTotp ==>
        host.enrolled(r.user.id) && host.totpAccepts(r.user.id, Trim(c.otp.GetOr("")))
      ensures r.Minted? ==> !r.used.WithVerification?
      ensures r.Minted? && r.used.WithEmailCode? ==>
        old(jar.mfa) == Some(r.used.challengeId) && r.used.challengeId in old(challenges)
        && r.used.challengeId !in challenges
    {
      hide Verify, AfterUpdate, FindByUsername, ComplexityOf, SecondFactor, Trim;
      IssuerPromises(host, Value(), jar.Value(), c);
      hide Entitled;
      var otp := Trim(c.otp.GetOr(""));
      var mfaMethod := Trim(c.mfaMethod.GetOr(""));
      if !Truthy(c.username) || !Truthy(c.password) { return Denied; }
      var found := FindByUsername(rows, c.username.value);
      if found.None? { return Denied; }
      var user := found.value;
      if user.isTestUser { return Denied; }
      var verified := Verify(host, c.password.value, user.passwordHash);
      if verified.Thrown? { return Failed; }
      if verified.Rejected? { return Denied; }
      if verified.rehash.Some? {
        rows := AfterUpdate(rows, user.id, NO_CHANGE.(passwordHash := verified.rehash));
      }
      var complexity := ComplexityOf(host, jar.Read(), user, c.password.value);
      if complexity.Unmet? && complexity.policy { return Denied; }
      r := CheckSecondFactor(host, jar, user, otp, mfaMethod);
    }

    /** What `authorize` promises beside its effect. */
    static lemma IssuerPromises(host: Host, db: Db, jar: Cookies, c: Credentials)
      ensures var issued := Authorize(host, db, jar, c);
        issued.verdict.Minted? ==>
          && c.username.Some? && FindByUsername(db.rows, c.username.value).Some?
          && !FindByUsername(db.rows, c.username.value).value.isTestUser
          && issued.verdict.user == SessionOf(FindByUsername(db.rows, c.username.value).value)
          && !issued.verdict.used.WithVerification?
          && Entitled(host, db, jar, c, FindByUsername(db.rows, c.username.value).value, issued.verdict.used)
          && (issued.verdict.used == WithTotp ==>
                host.enrolled(issued.verdict.user.id)
                && host.totpAccepts(issued.verdict.user.id, Trim(c.otp.GetOr(""))))
          && (issued.verdict.used.WithEmailCode? ==>
                var id := issued.verdict.used.challengeId;
                jar.mfa == Some(id) && id in db.challenges && id !in issued.db.challenges)
      ensures forall u, used :: Entitled(host, db, jar, c, u, used) ==>
        Authorize(host, db, jar, c).verdict.Minted? && Authorize(host, db, jar, c).verdict.used == used
    {
      hide Authorize, Verify, AfterUpdate, FindByUsername, SecondFactor, Trim, PastPassword;
      forall u, used | Entitled(host, db, jar, c, u, used)
        ensures Authorize(host, db, jar, c).verdict == Minted(SessionOf(u), used)
      {
        IssuerMintsIff(host, db, jar, c, SessionOf(u), used);
      }
      if Authorize(host, db, jar, c).verdict.Minted? { MintedEntitled(host, db, jar, c); }
      if Authorize(host, db, jar, c).verdict.Minted? {
        var user, middle := SignInFacts.MintedUser(host, db, jar, c);
        SignInFacts.IssuerNeverVerifies(host, db, jar, c);
        if Authorize(host, db, jar, c).verdict.used.WithEmailCode? {
          SignInFacts.EmailCodeUsesChallenge(host, db, jar, c);
        }
      }
    }

    /** The branch for the separate email-verification challenge. */
    method RedeemVerificationCode(host: Host, jar: CookieJar, user: User, otp: string) returns (r: Verdict)
      modifies this`rows, this`challenges, jar
      ensures Authorized(Value(), jar.Value(), r) == RedeemVerification(host, old(Value()), old(jar.Value()), user, otp)
    {
      hide Filled, VerifyAndConsume, MarkedVerified;
      if !Filled(user.email) { return Denied; }
      if otp == "" { return Denied; }
      if !Truthy(jar.emailVerification) { return Denied; }
      var challengeId := jar.emailVerification.value;
      var result := VerifyEmailVerificationOtpAndConsume(host, challengeId, user.id, otp);
      if result != OtpOk { return Denied; }
      jar.emailVerification := None;
      return Minted(SessionOf(user), WithVerification(challengeId));
    }

    method CheckSecondFactor(host: Host, jar: CookieJar, user: User, otp: string, mfaMethod: string)
      returns (r: Verdict)
      modifies this`rows, this`challenges, jar
      ensures Authorized(Value(), jar.Value(), r)
           == SecondFactor(host, old(Value()), old(jar.Value()), user, otp, mfaMethod)
      ensures forall used ::
        Through(host, old(Value()), old(jar.Value()), user, otp, mfaMethod, used)
        <==> r == Minted(SessionOf(user), used)
    {
      forall used
        ensures SecondFactor(host, Value(), jar.Value(), user, otp, mfaMethod).verdict == Minted(SessionOf(user), used)
           <==> Through(host, Value(), jar.Value(), user, otp, mfaMethod, used)
      {
        FactorMintsIff(host, Value(), jar.Value(), user, otp, mfaMethod, used);
      }
      hide Through;
      hide IsEmailMfaGloballyEnabled, Filled, VerifyAndConsume, MarkedVerified;
      var emailMfaGloballyEnabled := IsEmailMfaGloballyEnabled(host.site, host.resendKey);
      var emailMfaActive := emailMfaGloballyEnabled && Filled(user.email);
      var requiresEmailVerification := emailMfaGloballyEnabled && !user.isAdmin && user.emailVerifiedAt.None?;
      var totpEnrolled := host.enrolled(user.id);
      var mfaRequired := totpEnrolled || emailMfaActive;
      var used := NoCode;
      if mfaRequired {
        var requested :=
          if mfaMethod == "totp" then Some(Totp) else if mfaMethod == "email" then Some(EmailCode) else None;
        var factor := requested.GetOr(if totpEnrolled then Totp else EmailCode);
        if otp == "" { return Denied; }
        if factor == Totp {
          if !totpEnrolled { return Denied; }
          var totpOk := host.totpAccepts(user.id, otp);
          if !totpOk { return Denied; }
          used := WithTotp;
        } else {
          if !emailMfaActive { return Denied; }
          if !Truthy(jar.mfa) { return Denied; }
          var challengeId := jar.mfa.value;
          var result := VerifyOtpAndConsume(host, MfaOtp, challengeId, user.id, otp);
          if result != OtpOk { return Denied; }
          jar.mfa := None;
          used := WithEmailCode(challengeId);
          if requiresEmailVerification {
            MarkEmailVerified(host, user.id);
          }
        }
      } else if requiresEmailVerification {
        r := RedeemVerificationCode(host, jar, user, otp);
        return;
      }
      return Minted(SessionOf(user), used);
    }

    /** The UPDATE that marks a token used and returns it happens in one statement. */
    method AuthorizeWithPasskey(host: Host, token: Option<string>) returns (session: Option<SessionUser>)
      modifies this`exchanges
      ensures PasskeyAuthorized(exchanges, session) == AuthorizePasskey(host, old(Value()), old(exchanges), token)
      ensures var x := Trim(token.GetOr(""));
        session.Some? <==>
          && x != "" && x in old(exchanges) && !old(exchanges)[x].used && host.now < old(exchanges)[x].expiresAt
          && FindById(rows, old(exchanges)[x].userId).Some?
          && !FindById(rows, old(exchanges)[x].userId).value.isTestUser
          && !Unproved(host, FindById(rows, old(exchanges)[x].userId).value)
      ensures session.Some? ==> Trim(token.GetOr("")) in exchanges && exchanges[Trim(token.GetOr(""))].used
    {
      hide Trim, FindById, IsEmailMfaGloballyEnabled;
      PasskeyPromises(host, Value(), exchanges, token);
      hide Unproved;
      var exchangeToken := Trim(token.GetOr(""));
      if exchangeToken == "" { return None; }
      if exchangeToken !in exchanges || exchanges[exchangeToken].used
         || exchanges[exchangeToken].expiresAt <= host.now {
        return None;
      }
      exchanges := exchanges[exchangeToken := exchanges[exchangeToken].(used := true)];
      var user := FindById(rows, exchanges[exchangeToken].userId);
      if user.None? { return None; }
      if user.value.isTestUser { return None; }
      if IsEmailMfaGloballyEnabled(host.site, host.resendKey)
         && !user.value.isAdmin && user.value.emailVerifiedAt.None? {
        return None;
      }
      return Some(SessionOf(user.value));
    }

    static lemma PasskeyPromises(host: Host, db: Db, exchanges: map<string, Exchange>, token: Option<string>)
      ensures var r, x := AuthorizePasskey(host, db, exchanges, token), Trim(token.GetOr(""));
        r.session.Some? <==>
          && x != "" && x in exchanges && !exchanges[x].used && host.now < exchanges[x].expiresAt
          && FindById(db.rows, exchanges[x].userId).Some?
          && !FindById(db.rows, exchanges[x].userId).value.isTestUser
          && !Unproved(host, FindById(db.rows, exchanges[x].userId).value)
    {
      hide Trim, FindById, AuthorizePasskey;
      var r, x := AuthorizePasskey(host, db, exchanges, token), Trim(token.GetOr(""));
      if r.session.Some? { PasskeyIff(host, db, exchanges, token, r.session.value); }
      if x in exchanges && FindById(db.rows, exchanges[x].userId).Some? {
        PasskeyIff(host, db, exchanges, token, SessionOf(FindById(db.rows, exchanges[x].userId).value));
      }
    }

    method AuthorizeAsTestUser(host: Host, jar: CookieJar, userId: Option<string>)
      returns (session: Option<SessionUser>)
      ensures session == AuthorizeTestUser(host, Value(), jar.Value(), userId)
      ensures session.Some? ==> !session.value.isAdmin
      ensures var user, client := FindById(rows, Trim(userId.GetOr(""))), PendingClient(host, jar.Value());
        session.Some? <==>
          && Trim(userId.GetOr("")) != "" && client.Some? && client.value.isTest
          && (client.value.expiresAt.Some? ==> host.now < client.value.expiresAt.value)
          && user.Some? && user.value.isTestUser && !user.value.isAdmin
          && Grant(user.value.id, client.value.environmentId) in grants
    {
      hide Trim, FindById, PendingClient, EnvironmentsOf;
      var id := Trim(userId.GetOr(""));
      if id == "" { return None; }
      var client := PendingClient(host, jar.Read());
      if client.None? { return None; }
      if !client.value.isTest { return None; }
      if client.value.expiresAt.Some? && client.value.expiresAt.value <= host.now { return None; }
      var user := FindById(rows, id);
      if user.None? { return None; }
      if !user.value.isTestUser { return None; }
      if user.value.isAdmin { return None; }
      var environments := EnvironmentsOf(grants, user.value.id);
      if client.value.environmentId !in environments { return None; }
      return Some(SessionOf(user.value).(isAdmin := false));
    }
  }
}
