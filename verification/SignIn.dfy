/** The sign-in protocol: what one request to each entry point does to the tables and to the cookies
    of the browser. apps/auth/src/app/actions/mfa-actions.ts and apps/auth/src/auth.ts. */
module SignIn {
  import opened JsText
  import opened UserTable
  import opened Challenges
  import PasswordHash
  import PendingCookie

  // ---------------------------------------------------------------- what a request finds

  datatype SiteRow = SiteRow(mfaEnabled: bool, siteUrl: Option<string>)

  datatype Client = Client(clientId: string, isTest: bool, expiresAt: Option<int>, environmentId: string)

  /** `checkSignInPasswordComplexity`: `policy` tells whether a policy comes with the refusal. */
  datatype Complexity = Pass | Unmet(policy: bool)

  datatype Asked = Asked(
    userId: string, isAdmin: bool, environmentId: Option<string>, password: string,
    username: string, email: Option<string>)

  /** `sendExpiredPasswordReset`: a mail went out, none could, or sending failed. */
  datatype ResetMail = ResetSent | ResetNotPossible | ResetThrew

  /** The random id and code of the challenge this request would create. */
  datatype Seed = Seed(challengeId: string, code: string)

  /** Everything outside the modelled state that one request depends on: the clock, the settings,
      the hashing service, the reading of the pending cookie at this moment, the other services and
      the mail. */
  datatype Host = Host(
    now: int,
    site: Option<SiteRow>,
    resendKey: Option<string>,
    hashing: PasswordHash.HashMethod,
    hasher: Option<PasswordHash.Hasher>,
    md5: string -> string,
    expired: User -> bool,
    resetMail: User -> ResetMail,
    complexity: Asked -> Complexity,
    enrolled: string -> bool,
    totpAccepts: (string, string) -> bool,
    decodePending: Option<string> -> Option<PendingCookie.Params>,
    lower: string -> string,
    clients: string -> Option<Client>,
    rules: OtpRules,
    seed: Seed,
    mailWorks: bool)

  /** The tables the protocol reads and writes. */
  datatype Db = Db(rows: seq<User>, grants: seq<Grant>, challenges: Store)

  /** The cookies it reads and writes. */
  datatype Cookies = Cookies(mfa: Option<string>, emailVerification: Option<string>, pending: Option<string>)

  predicate Truthy(s: Option<string>) { s.Some? && s.value != "" }

  predicate Filled(s: Option<string>) { s.Some? && Trim(s.value) != "" }

  function Cleared(jar: Cookies): Cookies { jar.(mfa := None, emailVerification := None) }

  // ---------------------------------------------------------------- the email gate, in both forms

  /** `isEmailMfaGloballyEnabled` */
  predicate IsEmailMfaGloballyEnabled(site: Option<SiteRow>, resendKey: Option<string>) {
    && (if site.Some? then site.value.mfaEnabled else false)
    && site.Some? && Filled(site.value.siteUrl)
    && Filled(resendKey)
  }

  datatype SiteDto = SiteDto(mfaEnabled: bool, mfaCanEnable: bool)

  /** `normalizeOptional`, `resolveOptionalEnvString` */
  function Normalized(s: Option<string>): Option<string> {
    if s.Some? && Trim(s.value) != "" then Some(Trim(s.value)) else None
  }

  /** `SiteSettingsService.get`, given the key the registry resolves. */
  function SiteSettings(site: Option<SiteRow>, resendKey: Option<string>): SiteDto {
    SiteDto(if site.Some? then site.value.mfaEnabled else false,
            Truthy(Normalized(if site.Some? then site.value.siteUrl else None)) && Truthy(Normalized(resendKey)))
  }

  /** The pre-flight reads the gate off the settings service and the issuers off the row: the same. */
  lemma GatesAgree(site: Option<SiteRow>, resendKey: Option<string>)
    ensures IsEmailMfaGloballyEnabled(site, resendKey)
       <==> SiteSettings(site, resendKey).mfaEnabled && SiteSettings(site, resendKey).mfaCanEnable
  {
    hide Trim;
  }

  predicate EmailMfa(host: Host) { IsEmailMfaGloballyEnabled(host.site, host.resendKey) }

  // ---------------------------------------------------------------- shared steps

  function Verify(host: Host, password: string, stored: string): PasswordHash.Verdict {
    PasswordHash.VerifyPassword(password, stored, host.hashing, host.hasher, host.md5)
  }

  function Rehashed(rows: seq<User>, id: string, rehash: Option<string>): seq<User> {
    if rehash.Some? then AfterUpdate(rows, id, NO_CHANGE.(passwordHash := rehash)) else rows
  }

  datatype Identity = Unknown | Broke | Known(user: User, rows: seq<User>)

  /** `verifyUsernamePassword` */
  function Identify(host: Host, rows: seq<User>, username: string, password: string): Identity {
    match FindByUsername(rows, Trim(username))
    case None => Unknown
    case Some(user) =>
      match Verify(host, password, user.passwordHash)
      case Rejected => Unknown
      case Thrown => Broke
      case Accepted(rehash) =>
        Known(user.(passwordHash := rehash.GetOr(user.passwordHash)), Rehashed(rows, user.id, rehash))
  }

  /** `resolvePendingClient` */
  function PendingClient(host: Host, jar: Cookies): Option<Client> {
    match host.decodePending(jar.pending)
    case None => None
    case Some(params) =>
      var id := if "client_id" in params then Trim(params["client_id"]) else "";
      if id == "" then None else host.clients(id)
  }

  /** `resolvePendingEnvironmentId` */
  function PendingEnvironment(host: Host, jar: Cookies): Option<string> {
    match PendingClient(host, jar) case None => None case Some(c) => Some(c.environmentId)
  }

  function ComplexityOf(host: Host, jar: Cookies, user: User, password: string): Complexity {
    host.complexity(Asked(user.id, user.isAdmin, PendingEnvironment(host, jar), password, user.username, user.email))
  }

  /** A password some policy rejects. */
  predicate OutOfPolicy(host: Host, jar: Cookies, user: User, password: string) {
    ComplexityOf(host, jar, user, password) == Unmet(true)
  }

  /** The store afterwards, and the id of the challenge unless an exception was thrown. */
  datatype Created = Created(store: Store, id: Option<string>)

  /** `createMfaOtpAndSendEmail` and `createEmailVerificationOtpAndSendEmail`: a mail that cannot be
      sent leaves the challenge behind. */
  function CreateOtp(host: Host, store: Store, user: User, kind: Kind): Created {
    if host.site.None? || !Filled(host.site.value.siteUrl) || !Filled(user.email) then Created(store, None)
    else
      var rest := if kind == EmailVerification then WithoutKind(store, user.id, kind) else store;
      var id := host.seed.challengeId;
      if id in rest then Created(rest, None)
      else
        var row := NewChallenge(user.id, kind, host.rules.hash(id, host.seed.code), host.now);
        Created(rest[id := row], if host.mailWorks then Some(id) else None)
  }

  // ---------------------------------------------------------------- the pre-flight

  datatype Factor = Totp | EmailCode

  datatype Refusal = BadCredentials | NoAccess | NotConfigured | NoEmail | CodesUnavailable | SamePassword | PolicyUnmet

  datatype Answer =
    | Refused(why: Refusal)
    | PasswordExpired(emailSent: bool)
    | PasswordComplexity
    | Mfa(methods: seq<Factor>)
    | NoChallenge
    | VerifyEmail
    | Done
    | Threw

  datatype Response = Response(db: Db, jar: Cookies, answer: Answer)

  /** The end of `beginSignInChallenge`, for a user with no second factor to offer. */
  function WithoutFactor(host: Host, db: Db, jar: Cookies, user: User): Response {
    var site := SiteSettings(host.site, host.resendKey);
    if user.isAdmin then Response(db, jar, NoChallenge)
    else if !(site.mfaEnabled && site.mfaCanEnable) || user.emailVerifiedAt.Some? then
      Response(db, Cleared(jar), NoChallenge)
    else if !Filled(user.email) then Response(db, jar, Refused(NoEmail))
    else
      var created := CreateOtp(host, db.challenges, user, EmailVerification);
      var after := db.(challenges := created.store);
      if created.id.None? then Response(after, jar, Threw)
      else Response(after, jar.(emailVerification := created.id, mfa := None), VerifyEmail)
  }

  /** The part of `beginSignInChallenge` after the password gates. */
  function ChooseChallenge(host: Host, db: Db, jar: Cookies, user: User): Response {
    var enrolled := host.enrolled(user.id);
    var site := SiteSettings(host.site, host.resendKey);
    var usable := site.mfaEnabled && site.mfaCanEnable && Filled(user.email);
    if site.mfaEnabled && !usable && !enrolled then
      Response(db, jar, Refused(if !site.mfaCanEnable then NotConfigured else NoEmail))
    else if enrolled || usable then
      var methods := (if enrolled then [Totp] else []) + (if usable then [EmailCode] else []);
      if enrolled then Response(db, Cleared(jar), Mfa(methods))
      else
        var created := CreateOtp(host, db.challenges, user, MfaOtp);
        var after := db.(challenges := created.store);
        var rest := jar.(emailVerification := None);
        if created.id.None? then Response(after, rest, Threw)
        else Response(after, rest.(mfa := created.id), Mfa(methods))
    else WithoutFactor(host, db, jar, user)
  }

  /** The password gates of `beginSignInChallenge`. */
  function Begin(host: Host, db: Db, jar: Cookies, username: string, password: string): Response {
    match Identify(host, db.rows, username, password)
    case Unknown => Response(db, jar, Refused(BadCredentials))
    case Broke => Response(db, jar, Threw)
    case Known(user, rows) =>
      var after := db.(rows := rows);
      var environment := PendingEnvironment(host, jar);
      if Truthy(environment) && environment.value !in EnvironmentsOf(db.grants, user.id) then
        Response(after, jar, Refused(NoAccess))
      else if host.expired(user) then
        var mail := host.resetMail(user);
        if mail == ResetThrew then Response(after, jar, Threw)
        else Response(after, Cleared(jar), PasswordExpired(mail == ResetSent))
      else if OutOfPolicy(host, jar, user, password) then Response(after, Cleared(jar), PasswordComplexity)
      else ChooseChallenge(host, after, jar, user)
  }

  /** `requestEmailMfaCode` */
  function RequestCode(host: Host, db: Db, jar: Cookies, username: string, password: string): Response {
    var site := SiteSettings(host.site, host.resendKey);
    if !site.mfaEnabled || !site.mfaCanEnable then Response(db, jar, Refused(CodesUnavailable))
    else
      match Identify(host, db.rows, username, password)
      case Unknown => Response(db, jar, Refused(BadCredentials))
      case Broke => Response(db, jar, Threw)
      case Known(user, rows) =>
        var after := db.(rows := rows);
        if !Filled(user.email) then Response(after, jar, Refused(NoEmail))
        else
          var created := CreateOtp(host, db.challenges, user, MfaOtp);
          if created.id.None? then Response(after.(challenges := created.store), jar, Threw)
          else
            Response(after.(challenges := created.store), jar.(mfa := created.id, emailVerification := None), Done)
  }

  /** The password part of `updateUser`; None when it throws. A blank password is not written. */
  function WithPassword(host: Host, rows: seq<User>, user: User, password: string): Option<seq<User>> {
    if Trim(password) == "" then Some(rows)
    else if user.isTestUser then None
    else
      match PasswordHash.HashPassword(password, host.hashing, host.hasher, host.md5)
      case HashFailed => None
      case Hash(h) =>
        Some(AfterUpdate(rows, user.id, NO_CHANGE.(passwordHash := Some(h), passwordUpdatedAt := Some(Some(host.now)))))
  }

  /** `changePasswordAtSignIn` */
  function ChangePassword(host: Host, db: Db, jar: Cookies, username: string, current: string, next: string): Response {
    match Identify(host, db.rows, username, current)
    case Unknown => Response(db, jar, Refused(BadCredentials))
    case Broke => Response(db, jar, Threw)
    case Known(user, rows) =>
      match Identify(host, rows, username, next)
      case Known(_, again) => Response(db.(rows := again), jar, Refused(SamePassword))
      case Broke => Response(db.(rows := rows), jar, Threw)
      case Unknown =>
        if ComplexityOf(host, jar, user, next).Unmet? then Response(db.(rows := rows), jar, Refused(PolicyUnmet))
        else
          match WithPassword(host, rows, user, next)
          case None => Response(db.(rows := rows), jar, Threw)
          case Some(changed) => Response(db.(rows := changed), jar, Done)
  }

  // ---------------------------------------------------------------- the password issuer

  datatype Credentials = Credentials(
    username: Option<string>, password: Option<string>, otp: Option<string>, mfaMethod: Option<string>)

  /** What a minted session was opened with, the challenge included where there was one. */
  datatype Used = NoCode | WithTotp | WithEmailCode(challengeId: string) | WithVerification(verificationId: string)

  datatype SessionUser = SessionUser(id: string, username: string, name: string, email: Option<string>, isAdmin: bool)

  datatype Verdict = Denied | Failed | Minted(user: SessionUser, used: Used)

  datatype Authorized = Authorized(db: Db, jar: Cookies, verdict: Verdict)

  function SessionOf(user: User): SessionUser {
    SessionUser(user.id, user.username, user.name.GetOr(user.username), user.email, user.isAdmin)
  }

  /** `markEmailVerified` */
  function MarkedVerified(rows: seq<User>, id: string, now: int): seq<User> {
    match FindById(rows, id)
    case None => rows
    case Some(user) =>
      if user.isAdmin || !Filled(user.email) || user.emailVerifiedAt.Some? then rows
      else AfterUpdate(rows, id, NO_CHANGE.(emailVerifiedAt := Some(Some(now))))
  }

  predicate RequiresVerification(host: Host, user: User) {
    EmailMfa(host) && !user.isAdmin && user.emailVerifiedAt.None?
  }

  /** The method asked for, or the one on hand, an authenticator first. */
  function ChosenFactor(mfaMethod: string, enrolled: bool): Factor {
    if mfaMethod == "totp" then Totp
    else if mfaMethod == "email" then EmailCode
    else if enrolled then Totp
    else EmailCode
  }

  function RedeemEmailCode(host: Host, db: Db, jar: Cookies, user: User, otp: string): Authorized {
    if !Truthy(jar.mfa) then Authorized(db, jar, Denied)
    else
      var id := jar.mfa.value;
      var v := VerifyAndConsume(db.challenges, MfaOtp, id, user.id, otp, host.rules, host.now);
      var after := db.(challenges := v.store);
      if v.result != OtpOk then Authorized(after, jar, Denied)
      else
        var rows := if RequiresVerification(host, user) then MarkedVerified(db.rows, user.id, host.now) else db.rows;
        Authorized(after.(rows := rows), jar.(mfa := None), Minted(SessionOf(user), WithEmailCode(id)))
  }

  function RedeemVerification(host: Host, db: Db, jar: Cookies, user: User, otp: string): Authorized {
    if !Filled(user.email) || otp == "" || !Truthy(jar.emailVerification) then Authorized(db, jar, Denied)
    else
      var id := jar.emailVerification.value;
      var v := VerifyAndConsume(db.challenges, EmailVerification, id, user.id, otp, host.rules, host.now);
      var after := db.(challenges := v.store);
      if v.result != OtpOk then Authorized(after, jar, Denied)
      else Authorized(after.(rows := MarkedVerified(db.rows, user.id, host.now)), jar.(emailVerification := None),
                      Minted(SessionOf(user), WithVerification(id)))
  }

  /** Everything `authorize` does once the password has passed. */
  function SecondFactor(host: Host, db: Db, jar: Cookies, user: User, otp: string, mfaMethod: string): Authorized {
    var active := EmailMfa(host) && Filled(user.email);
    var enrolled := host.enrolled(user.id);
    if enrolled || active then
      if otp == "" then Authorized(db, jar, Denied)
      else if ChosenFactor(mfaMethod, enrolled) == Totp then
        if enrolled && host.totpAccepts(user.id, otp) then Authorized(db, jar, Minted(SessionOf(user), WithTotp))
        else Authorized(db, jar, Denied)
      else if !active then Authorized(db, jar, Denied)
      else RedeemEmailCode(host, db, jar, user, otp)
    else if RequiresVerification(host, user) then RedeemVerification(host, db, jar, user, otp)
    else Authorized(db, jar, Minted(SessionOf(user), NoCode))
  }

  /** The `authorize` of the password provider. */
  function Authorize(host: Host, db: Db, jar: Cookies, c: Credentials): Authorized {
    if !Truthy(c.username) || !Truthy(c.password) then Authorized(db, jar, Denied)
    else
      match FindByUsername(db.rows, c.username.value)
      case None => Authorized(db, jar, Denied)
      case Some(user) =>
        if user.isTestUser then Authorized(db, jar, Denied)
        else
          match Verify(host, c.password.value, user.passwordHash)
          case Rejected => Authorized(db, jar, Denied)
          case Thrown => Authorized(db, jar, Failed)
          case Accepted(rehash) =>
            var after := db.(rows := Rehashed(db.rows, user.id, rehash));
            if OutOfPolicy(host, jar, user, c.password.value) then Authorized(after, jar, Denied)
            else SecondFactor(host, after, jar, user, Trim(c.otp.GetOr("")), Trim(c.mfaMethod.GetOr("")))
  }

  /** A sign-in that has come as far as redeeming a mailed code. */
  datatype Entered = Entered(user: User, db: Db, challengeId: string, otp: string)

  /** The gates of `authorize` that lead there. */
  function EntersCode(host: Host, db: Db, jar: Cookies, c: Credentials): Option<Entered> {
    if !Truthy(c.username) || !Truthy(c.password) then None
    else
      match FindByUsername(db.rows, c.username.value)
      case None => None
      case Some(user) =>
        match Verify(host, c.password.value, user.passwordHash)
        case Rejected => None
        case Thrown => None
        case Accepted(rehash) =>
          var otp := Trim(c.otp.GetOr(""));
          var chosen := ChosenFactor(Trim(c.mfaMethod.GetOr("")), host.enrolled(user.id));
          if !user.isTestUser && !OutOfPolicy(host, jar, user, c.password.value)
             && EmailMfa(host) && Filled(user.email) && otp != "" && chosen == EmailCode && Truthy(jar.mfa)
          then Some(Entered(user, db.(rows := Rehashed(db.rows, user.id, rehash)), jar.mfa.value, otp))
          else None
  }

  // ---------------------------------------------------------------- verifying an address when signed in

  datatype Sent = Issued(challengeId: string) | NotNeeded | SendThrew

  datatype Requested = Requested(db: Db, sent: Sent)

  /** `requestEmailVerification`, for a user already authenticated: no password is asked for. */
  function RequestVerification(host: Host, db: Db, userId: string): Requested {
    match FindById(db.rows, userId)
    case None => Requested(db, SendThrew)
    case Some(user) =>
      if user.isAdmin then Requested(db, NotNeeded)
      else if !Filled(user.email) then Requested(db, SendThrew)
      else if user.emailVerifiedAt.Some? then Requested(db, NotNeeded)
      else
        var created := CreateOtp(host, db.challenges, user, EmailVerification);
        Requested(db.(challenges := created.store), if created.id.Some? then Issued(created.id.value) else SendThrew)
  }

  // ---------------------------------------------------------------- the other two issuers

  /** A passkey exchange token: made after a passkey was verified, good once and for two minutes. */
  datatype Exchange = Exchange(userId: string, expiresAt: int, used: bool)

  datatype PasskeyAuthorized = PasskeyAuthorized(exchanges: map<string, Exchange>, session: Option<SessionUser>)

  datatype Redeemed = Redeemed(exchanges: map<string, Exchange>, userId: Option<string>)

  /** `consumeExchangeToken`: one statement marks a live token used and names its user. */
  function ConsumeToken(host: Host, exchanges: map<string, Exchange>, token: Option<string>): Redeemed {
    var id := Trim(token.GetOr(""));
    if id == "" || id !in exchanges || exchanges[id].used || exchanges[id].expiresAt <= host.now then
      Redeemed(exchanges, None)
    else Redeemed(exchanges[id := exchanges[id].(used := true)], Some(exchanges[id].userId))
  }

  /** The session of a user who has shown a passkey. */
  function PasskeySession(host: Host, rows: seq<User>, userId: string): Option<SessionUser> {
    match FindById(rows, userId)
    case None => None
    case Some(user) => if user.isTestUser || RequiresVerification(host, user) then None else Some(SessionOf(user))
  }

  /** The `authorize` of the passkey provider. */
  function AuthorizePasskey(host: Host, db: Db, exchanges: map<string, Exchange>, token: Option<string>)
    : PasskeyAuthorized
  {
    var redeemed := ConsumeToken(host, exchanges, token);
    PasskeyAuthorized(redeemed.exchanges,
                      if redeemed.userId.Some? then PasskeySession(host, db.rows, redeemed.userId.value) else None)
  }

  /** The client is a test client whose credentials have not run out. */
  predicate LiveTestClient(c: Client, now: int) {
    c.isTest && !(c.expiresAt.Some? && c.expiresAt.value <= now)
  }

  /** The `authorize` of the test-user provider. */
  function AuthorizeTestUser(host: Host, db: Db, jar: Cookies, userId: Option<string>): Option<SessionUser> {
    var id := Trim(userId.GetOr(""));
    if id == "" then None
    else
      match PendingClient(host, jar)
      case None => None
      case Some(client) =>
        if !LiveTestClient(client, host.now) then None
        else
          match FindById(db.rows, id)
          case None => None
          case Some(user) =>
            if !user.isTestUser || user.isAdmin || client.environmentId !in EnvironmentsOf(db.grants, user.id) then None
            else Some(SessionOf(user).(isAdmin := false))
  }
}
