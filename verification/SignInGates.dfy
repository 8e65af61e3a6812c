/** What each entry point of the sign-in protocol asks, condition by condition, in terms of the tables,
    the cookies and the services alone: an answer is given exactly if its conditions hold. */
module SignInGates {
  import opened JsText
  import opened UserTable
  import opened Challenges
  import opened SignIn
  import PasswordHash
  import SecretAtRest
  import SignInFacts

  // ---------------------------------------------------------------- the words

  /** Mails with codes are switched on and can be sent. */
  predicate CodesMailed(host: Host) {
    && host.site.Some? && host.site.value.mfaEnabled
    && host.site.value.siteUrl.Some? && Trim(host.site.value.siteUrl.value) != ""
    && host.resendKey.Some? && Trim(host.resendKey.value) != ""
  }

  predicate HasAddress(u: User) { u.email.Some? && Trim(u.email.value) != "" }

  /** The user whose address codes could reach has yet to prove it. */
  predicate Unproved(host: Host, u: User) { CodesMailed(host) && !u.isAdmin && u.emailVerifiedAt.None? }

  lemma UnprovedIs(host: Host, u: User)
    ensures Unproved(host, u) <==> RequiresVerification(host, u)
  {
    hide Trim;
  }

  /** The pending cookie names client `c`. */
  predicate Names(host: Host, jar: Cookies, c: Client) {
    var params := host.decodePending(jar.pending);
    && params.Some? && "client_id" in params.value
    && Trim(params.value["client_id"]) != "" && host.clients(Trim(params.value["client_id"])) == Some(c)
  }

  lemma PendingIsNamed(host: Host, jar: Cookies, c: Client)
    ensures PendingClient(host, jar) == Some(c) <==> Names(host, jar, c)
  {
    hide Trim;
  }

  /** What the policy service says of a password in the environment of the pending client. */
  predicate PolicySays(host: Host, jar: Cookies, u: User, password: string, answer: Complexity) {
    var client := PendingClient(host, jar);
    var environment := if client.Some? then Some(client.value.environmentId) else None;
    host.complexity(Asked(u.id, u.isAdmin, environment, password, u.username, u.email)) == answer
  }

  function Checked(host: Host, password: string, stored: string): PasswordHash.Verdict {
    PasswordHash.VerifyPassword(password, stored, host.hashing, host.hasher, host.md5)
  }

  /** The row once the upgrade the password earned is stored. */
  function Renewed(u: User, v: PasswordHash.Verdict): User {
    if v.Accepted? && v.rehash.Some? then u.(passwordHash := v.rehash.value) else u
  }

  /** The pending client belongs to an environment the user has no grant for. */
  predicate NotGranted(host: Host, db: Db, jar: Cookies, u: User) {
    var client := PendingClient(host, jar);
    client.Some? && client.value.environmentId != "" && Grant(u.id, client.value.environmentId) !in db.grants
  }

  // ---------------------------------------------------------------- the password issuer

  /** `id` is the live challenge of the user and `otp` its code. */
  predicate RightCode(host: Host, db: Db, u: User, id: string, otp: string) {
    && id in db.challenges
    && var row := db.challenges[id];
    && row.kind == MfaOtp && row.userId == u.id && !row.consumed && host.now < row.expiresAt
    && SecretAtRest.TimingSafeEqualHex(host.rules.hash(id, Trim(otp)), row.codeHash.GetOr(""))
  }

  /** The user may pass in this way, after the password. */
  predicate Through(host: Host, db: Db, jar: Cookies, u: User, otp: string, mfaMethod: string, used: Used) {
    match used
    case WithTotp => host.enrolled(u.id) && mfaMethod != "email" && otp != "" && host.totpAccepts(u.id, otp)
    case WithEmailCode(id) =>
      && CodesMailed(host) && HasAddress(u)
      && (mfaMethod == "email" || (mfaMethod != "totp" && !host.enrolled(u.id)))
      && otp != "" && id != "" && jar.mfa == Some(id) && RightCode(host, db, u, id, otp)
    case NoCode => !host.enrolled(u.id) && !(CodesMailed(host) && HasAddress(u)) && !Unproved(host, u)
    case WithVerification(_) => false
  }

  lemma FactorMintsIff(host: Host, db: Db, jar: Cookies, u: User, otp: string, mfaMethod: string, used: Used)
    ensures SecondFactor(host, db, jar, u, otp, mfaMethod).verdict == Minted(SessionOf(u), used)
       <==> Through(host, db, jar, u, otp, mfaMethod, used)
    ensures !SecondFactor(host, db, jar, u, otp, mfaMethod).verdict.Failed?
  {
    hide Trim, MarkedVerified, SecretAtRest.TimingSafeEqualHex;
  }

  /** The credentials name user `id`, no test user, with the right password, which the policy has not
      rejected. */
  predicate PastPassword(host: Host, db: Db, jar: Cookies, c: Credentials, id: string) {
    && c.username.Some? && c.username.value != "" && c.password.Some? && c.password.value != ""
    && var found := FindByUsername(db.rows, c.username.value);
    && found.Some? && found.value.id == id && !found.value.isTestUser
    && Checked(host, c.password.value, found.value.passwordHash).Accepted?
    && !PolicySays(host, jar, found.value, c.password.value, Unmet(true))
  }

  /** The credentials and the state entitle to a session of user `u`, opened in this way. */
  predicate Entitled(host: Host, db: Db, jar: Cookies, c: Credentials, u: User, used: Used) {
    && PastPassword(host, db, jar, c, u.id)
    && FindByUsername(db.rows, c.username.value) == Some(u)
    && Through(host, db, jar, u, Trim(c.otp.GetOr("")), Trim(c.mfaMethod.GetOr("")), used)
  }

  predicate SessionFor(s: SessionUser, u: User) {
    && s.id == u.id && s.username == u.username && s.email == u.email && s.isAdmin == u.isAdmin
    && s.name == match u.name { case Some(n) => n case None => u.username }
  }

  /** Exactly when the password issuer opens a session, how, and for whom. */
  lemma IssuerMintsIff(host: Host, db: Db, jar: Cookies, c: Credentials, s: SessionUser, used: Used)
    ensures Authorize(host, db, jar, c).verdict == Minted(s, used)
       <==> exists u :: Entitled(host, db, jar, c, u, used) && SessionFor(s, u)
  {
    var otp, mfaMethod := Trim(c.otp.GetOr("")), Trim(c.mfaMethod.GetOr(""));
    hide Trim, SecondFactor, Through, FindByUsername, AfterUpdate, PasswordHash.VerifyPassword;
    if c.username.Some? && c.password.Some? && FindByUsername(db.rows, c.username.value).Some? {
      var u := FindByUsername(db.rows, c.username.value).value;
      var v := Verify(host, c.password.value, u.passwordHash);
      if v.Accepted? {
        var middle := db.(rows := Rehashed(db.rows, u.id, v.rehash));
        FactorMintsIff(host, middle, jar, u, otp, mfaMethod, used);
        SignInFacts.FactorMintsUser(host, middle, jar, u, otp, mfaMethod);
        OnlyChallengesCount(host, middle, db, jar, u, otp, mfaMethod, used);
      }
      assert Entitled(host, db, jar, c, u, used)
        <==> PastPassword(host, db, jar, c, u.id) && Through(host, db, jar, u, otp, mfaMethod, used);
    }
  }

  /** Whom a session is for, and that the user was entitled to it. */
  lemma MintedEntitled(host: Host, db: Db, jar: Cookies, c: Credentials)
    requires Authorize(host, db, jar, c).verdict.Minted?
    ensures c.username.Some? && FindByUsername(db.rows, c.username.value).Some?
    ensures var verdict, u := Authorize(host, db, jar, c).verdict, FindByUsername(db.rows, c.username.value).value;
      SessionFor(verdict.user, u) && Entitled(host, db, jar, c, u, verdict.used)
  {
    hide Authorize, Trim, FindByUsername, Through;
    var verdict := Authorize(host, db, jar, c).verdict;
    IssuerMintsIff(host, db, jar, c, verdict.user, verdict.used);
  }

  /** The issuer fails, beyond refusing, exactly if the hashing service does. */
  lemma IssuerFailsIff(host: Host, db: Db, jar: Cookies, c: Credentials)
    ensures Authorize(host, db, jar, c).verdict == Failed <==>
      && c.username.Some? && c.username.value != "" && c.password.Some? && c.password.value != ""
      && var found := FindByUsername(db.rows, c.username.value);
      && found.Some? && !found.value.isTestUser && Checked(host, c.password.value, found.value.passwordHash).Thrown?
  {
    var otp, mfaMethod := Trim(c.otp.GetOr("")), Trim(c.mfaMethod.GetOr(""));
    hide Trim, SecondFactor, FindByUsername, AfterUpdate, PasswordHash.VerifyPassword;
    if c.username.Some? && c.password.Some? && FindByUsername(db.rows, c.username.value).Some? {
      var u := FindByUsername(db.rows, c.username.value).value;
      var v := Verify(host, c.password.value, u.passwordHash);
      if v.Accepted? {
        FactorMintsIff(host, db.(rows := Rehashed(db.rows, u.id, v.rehash)), jar, u, otp, mfaMethod, NoCode);
      }
    }
  }

  /** A sign-in that goes on to redeem a mailed code is past the password, and its user is one codes
      are mailed to. */
  lemma EntersIff(host: Host, db: Db, jar: Cookies, c: Credentials, u: User)
    ensures var entered := EntersCode(host, db, jar, c);
      entered.Some? && entered.value.user == u <==>
        && c.username.Some? && FindByUsername(db.rows, c.username.value) == Some(u)
        && PastPassword(host, db, jar, c, u.id) && CodesMailed(host) && HasAddress(u)
        && Trim(c.otp.GetOr("")) != "" && jar.mfa.Some? && jar.mfa.value != ""
        && (Trim(c.mfaMethod.GetOr("")) == "email"
            || (Trim(c.mfaMethod.GetOr("")) != "totp" && !host.enrolled(u.id)))
  {
    hide Trim, FindByUsername, AfterUpdate, PasswordHash.VerifyPassword;
  }

  lemma OnlyChallengesCount(host: Host, a: Db, b: Db, jar: Cookies, u: User, otp: string, mfaMethod: string, used: Used)
    requires a.challenges == b.challenges
    ensures Through(host, a, jar, u, otp, mfaMethod, used) == Through(host, b, jar, u, otp, mfaMethod, used)
  {
    hide Trim, SecretAtRest.TimingSafeEqualHex;
  }

  /** A session opened with an authenticator: the user has one, and it accepts the code given. */
  lemma AuthenticatorChecked(host: Host, db: Db, jar: Cookies, c: Credentials)
    requires Authorize(host, db, jar, c).verdict.Minted? && Authorize(host, db, jar, c).verdict.used == WithTotp
    ensures c.username.Some? && FindByUsername(db.rows, c.username.value).Some?
    ensures var u := FindByUsername(db.rows, c.username.value).value;
      host.enrolled(u.id) && host.totpAccepts(u.id, Trim(c.otp.GetOr("")))
  {
    hide Authorize, Trim, FindByUsername, PastPassword;
    MintedEntitled(host, db, jar, c);
  }

  /** The row of the address a mailed code has proved. */
  predicate Proves(host: Host, u: User, verdict: Verdict) {
    verdict.Minted? && verdict.used.WithEmailCode? && Unproved(host, u)
  }

  lemma MarkedRow(rows: seq<User>, id: string, now: int, x: string)
    requires ValidUsers(rows)
    ensures ValidUsers(MarkedVerified(rows, id, now))
    ensures FindById(MarkedVerified(rows, id, now), x)
         == match FindById(rows, x)
            case None => None
            case Some(u) =>
              Some(if x == id && !u.isAdmin && HasAddress(u) && u.emailVerifiedAt.None?
                   then u.(emailVerifiedAt := Some(now)) else u)
  {
    hide ValidUsers, Trim, FindById;
    var p := NO_CHANGE.(emailVerifiedAt := Some(Some(now)));
    HarmlessPatch(rows, id, p);
    FindInUpdated(rows, id, p, x);
    SameUser(rows, x);
    SameUser(rows, id);
  }

  lemma SameUser(rows: seq<User>, x: string)
    ensures FindById(rows, x).Some? ==> FindById(rows, x).value.id == x
  {
  }

  lemma FactorRows(host: Host, db: Db, jar: Cookies, u: User, otp: string, mfaMethod: string)
    ensures var issued := SecondFactor(host, db, jar, u, otp, mfaMethod);
      issued.db.rows == if Proves(host, u, issued.verdict) then MarkedVerified(db.rows, u.id, host.now) else db.rows
  {
    hide Trim, MarkedVerified, VerifyAndConsume;
  }

  /** What the issuer leaves of the row with id `x`, whatever it answers: an upgrade of the hash if
      the password was right, and the date if a mailed code has proved the address. */
  lemma IssuerWrites(host: Host, db: Db, jar: Cookies, c: Credentials, x: string)
    requires ValidUsers(db.rows)
    ensures var issued := Authorize(host, db, jar, c);
      FindById(issued.db.rows, x)
      == match FindById(db.rows, x)
         case None => None
         case Some(u) =>
           var right := c.username.Some? && c.username.value != "" && c.password.Some? && c.password.value != ""
             && FindByUsername(db.rows, c.username.value) == Some(u) && !u.isTestUser;
           var renewed := if right then Renewed(u, Checked(host, c.password.value, u.passwordHash)) else u;
           Some(if right && Proves(host, u, issued.verdict) then renewed.(emailVerifiedAt := Some(host.now))
                else renewed)
  {
    var otp, mfaMethod := Trim(c.otp.GetOr("")), Trim(c.mfaMethod.GetOr(""));
    hide Trim, SecondFactor, FindByUsername, FindById, AfterUpdate, PasswordHash.VerifyPassword, ComplexityOf,
         ValidUsers, MarkedVerified;
    SameUser(db.rows, x);
    if c.username.Some? && c.password.Some? && FindByUsername(db.rows, c.username.value).Some? {
      var u := FindByUsername(db.rows, c.username.value).value;
      SignInFacts.FoundIsStored(db.rows, c.username.value);
      var v := Verify(host, c.password.value, u.passwordHash);
      if v.Accepted? {
        var rows := Rehashed(db.rows, u.id, v.rehash);
        SignInFacts.RehashedUsers(db.rows, u.id, v.rehash, c.username.value);
        SignInFacts.RehashedById(db.rows, u.id, v.rehash, x);
        FactorRows(host, db.(rows := rows), jar, u, otp, mfaMethod);
        MarkedRow(rows, u.id, host.now, x);
        ProvedHasAddress(host, db, jar, c);
      }
    }
  }

  lemma ProvedHasAddress(host: Host, db: Db, jar: Cookies, c: Credentials)
    ensures var verdict := Authorize(host, db, jar, c).verdict;
      verdict.Minted? && verdict.used.WithEmailCode? ==>
        c.username.Some? && FindByUsername(db.rows, c.username.value).Some?
        && HasAddress(FindByUsername(db.rows, c.username.value).value)
  {
    hide Trim, Authorize, FindByUsername, PastPassword;
    if Authorize(host, db, jar, c).verdict.Minted? { MintedEntitled(host, db, jar, c); }
  }

  // ---------------------------------------------------------------- the pre-flight

  /** The password part: who is at the door, and with what hash from now on. */
  predicate Recognised(host: Host, rows: seq<User>, username: string, password: string, u: User) {
    var found := FindByUsername(rows, Trim(username));
    && found.Some? && Checked(host, password, found.value.passwordHash).Accepted?
    && u == Renewed(found.value, Checked(host, password, found.value.passwordHash))
  }

  predicate WantsCodes(host: Host) { host.site.Some? && host.site.value.mfaEnabled }

  /** What is offered once the password gates are passed. */
  predicate Offered(host: Host, store: Store, u: User, answer: Answer) {
    var usable := CodesMailed(host) && HasAddress(u);
    var sent := host.seed.challengeId !in store && host.mailWorks;
    && (answer == NoChallenge <==> !host.enrolled(u.id) && !WantsCodes(host))
    && (answer == Refused(NotConfigured) <==> !host.enrolled(u.id) && WantsCodes(host) && !CodesMailed(host))
    && (answer == Refused(NoEmail) <==> !host.enrolled(u.id) && CodesMailed(host) && !HasAddress(u))
    && (answer.Mfa? <==> host.enrolled(u.id) || (usable && sent))
    && (answer == Threw <==> !host.enrolled(u.id) && usable && !sent)
    && (answer.Mfa? ==>
          answer.methods == (if host.enrolled(u.id) then [Totp] else []) + (if usable then [EmailCode] else []))
  }

  /** The challenge of a code mailed for signing in: good for ten minutes. */
  function MailedRow(host: Host, u: User): Challenge {
    Challenge(u.id, MfaOtp, Some(host.rules.hash(host.seed.challengeId, host.seed.code)), host.now,
              host.now + 600_000, false, 0)
  }

  /** Cookies and challenges after an answer: a code is mailed exactly if it is the only thing offered,
      and then the cookie names its challenge. */
  predicate Left(host: Host, db: Db, jar: Cookies, u: User, r: Response) {
    var id := host.seed.challengeId;
    && r.jar.pending == jar.pending && r.db.grants == db.grants
    && (r.answer.Mfa? && Totp !in r.answer.methods ==>
          r.db.challenges == db.challenges[id := MailedRow(host, u)]
          && r.jar.mfa == Some(id) && r.jar.emailVerification.None?)
    && (r.answer.Mfa? && Totp in r.answer.methods ==>
          r.db.challenges == db.challenges && r.jar.mfa.None? && r.jar.emailVerification.None?)
    && (r.answer.NoChallenge? ==>
          r.db.challenges == db.challenges
          && if u.isAdmin then r.jar == jar else r.jar.mfa.None? && r.jar.emailVerification.None?)
    && (r.answer.PasswordExpired? || r.answer.PasswordComplexity? ==>
          r.db.challenges == db.challenges && r.jar.mfa.None? && r.jar.emailVerification.None?)
    && (r.answer.Refused? ==> r.db.challenges == db.challenges && r.jar == jar)
  }

  lemma ChoiceIff(host: Host, db: Db, jar: Cookies, u: User)
    ensures Offered(host, db.challenges, u, ChooseChallenge(host, db, jar, u).answer)
  {
    hide Trim;
  }

  lemma ChoiceLeaves(host: Host, db: Db, jar: Cookies, u: User)
    ensures Left(host, db, jar, u, ChooseChallenge(host, db, jar, u))
    ensures ChooseChallenge(host, db, jar, u).db.rows == db.rows
  {
    hide Trim;
  }

  /** The answer to a user whose password is right and who may use the application. */
  predicate Answered(host: Host, store: Store, jar: Cookies, u: User, password: string, answer: Answer) {
    if host.expired(u) then
      answer == match host.resetMail(u)
                case ResetThrew => Threw
                case ResetSent => PasswordExpired(true)
                case ResetNotPossible => PasswordExpired(false)
    else if PolicySays(host, jar, u, password, Unmet(true)) then answer == PasswordComplexity
    else Offered(host, store, u, answer)
  }

  /** What the pre-flight answers, for whom and when: wrong name or password, no grant for the
      environment of the pending client, an expired password, one the policy rejects, and then the
      second factor, each exactly under its condition. */
  lemma PreflightIff(host: Host, db: Db, jar: Cookies, username: string, password: string)
    ensures var answer := Begin(host, db, jar, username, password).answer;
      var found := FindByUsername(db.rows, Trim(username));
      && (answer == Refused(BadCredentials) <==>
            found.None? || Checked(host, password, found.value.passwordHash).Rejected?)
      && (found.Some? && Checked(host, password, found.value.passwordHash).Thrown? ==> answer == Threw)
      && (answer == Refused(NoAccess) <==>
            exists u :: Recognised(host, db.rows, username, password, u) && NotGranted(host, db, jar, u))
      && (forall u :: Recognised(host, db.rows, username, password, u) && !NotGranted(host, db, jar, u) ==>
            Answered(host, db.challenges, jar, u, password, answer))
  {
    hide Trim, FindByUsername, PasswordHash.VerifyPassword, Answered, Begin, Recognised, NotGranted;
    var found := FindByUsername(db.rows, Trim(username));
    if found.Some? && Checked(host, password, found.value.passwordHash).Accepted? {
      var user := Renewed(found.value, Checked(host, password, found.value.passwordHash));
      RecognisedIsRenewed(host, db.rows, username, password, user);
      RecognisedAnswered(host, db, jar, username, password, user);
      if !NotGranted(host, db, jar, user) {
        AnsweredOtherwise(host, db.challenges, jar, user, password, Begin(host, db, jar, username, password).answer);
      }
      forall u ensures Recognised(host, db.rows, username, password, u) <==> u == user {
        RecognisedIsRenewed(host, db.rows, username, password, u);
      }
    } else {
      UnknownRefused(host, db, jar, username, password);
      forall u ensures !Recognised(host, db.rows, username, password, u) {
        RecognisedIsRenewed(host, db.rows, username, password, u);
      }
    }
  }

  lemma RecognisedIsRenewed(host: Host, rows: seq<User>, username: string, password: string, u: User)
    ensures Recognised(host, rows, username, password, u) <==>
      var found := FindByUsername(rows, Trim(username));
      && found.Some? && Checked(host, password, found.value.passwordHash).Accepted?
      && u == Renewed(found.value, Checked(host, password, found.value.passwordHash))
  {
    hide Trim, FindByUsername, PasswordHash.VerifyPassword;
  }

  lemma UnknownRefused(host: Host, db: Db, jar: Cookies, username: string, password: string)
    requires var found := FindByUsername(db.rows, Trim(username));
      found.Some? ==> !Checked(host, password, found.value.passwordHash).Accepted?
    ensures var found := FindByUsername(db.rows, Trim(username));
      Begin(host, db, jar, username, password)
      == Response(db, jar, if found.Some? && Checked(host, password, found.value.passwordHash).Thrown? then Threw
                           else Refused(BadCredentials))
  {
    hide Trim, FindByUsername, PasswordHash.VerifyPassword;
  }

  lemma RecognisedAnswered(host: Host, db: Db, jar: Cookies, username: string, password: string, u: User)
    requires Recognised(host, db.rows, username, password, u)
    ensures var r := Begin(host, db, jar, username, password);
      && Left(host, db, jar, u, r)
      && (NotGranted(host, db, jar, u) ==> r.answer == Refused(NoAccess))
      && (!NotGranted(host, db, jar, u) ==> Answered(host, db.challenges, jar, u, password, r.answer))
  {
    hide Trim, FindByUsername, AfterUpdate, PasswordHash.VerifyPassword, ChooseChallenge, Offered, PendingClient;
    var found := FindByUsername(db.rows, Trim(username)).value;
    var rows := Rehashed(db.rows, found.id, Checked(host, password, found.passwordHash).rehash);
    ChoiceIff(host, db.(rows := rows), jar, u);
    ChoiceLeaves(host, db.(rows := rows), jar, u);
  }

  lemma AnsweredOtherwise(host: Host, store: Store, jar: Cookies, u: User, password: string, answer: Answer)
    requires Answered(host, store, jar, u, password, answer)
    ensures answer != Refused(NoAccess) && answer != Refused(BadCredentials)
  {
    hide Trim, PendingClient;
  }

  /** What the pre-flight leaves: the upgrade of the hash in the row of the user it has recognised
      and in no other, and cookies and challenges as Left says. */
  lemma PreflightLeaves(host: Host, db: Db, jar: Cookies, username: string, password: string, u: User, x: string)
    requires ValidUsers(db.rows) && Recognised(host, db.rows, username, password, u)
    ensures var r := Begin(host, db, jar, username, password);
      && Left(host, db, jar, u, r)
      && FindById(r.db.rows, x) == if x == u.id then Some(u) else FindById(db.rows, x)
  {
    hide Trim, FindByUsername, FindById, AfterUpdate, PasswordHash.VerifyPassword, ChooseChallenge, Left, PendingClient,
         ValidUsers;
    RecognisedAnswered(host, db, jar, username, password, u);
    var found := FindByUsername(db.rows, Trim(username)).value;
    var v := Checked(host, password, found.passwordHash);
    SignInFacts.FoundIsStored(db.rows, Trim(username));
    SignInFacts.RehashedById(db.rows, found.id, v.rehash, x);
    ChoiceLeaves(host, db.(rows := Rehashed(db.rows, found.id, v.rehash)), jar, u);
  }

  // ---------------------------------------------------------------- a code on request

  /** Exactly when a code is mailed on request; then its challenge is stored and the cookie names it. */
  lemma RequestIff(host: Host, db: Db, jar: Cookies, username: string, password: string)
    ensures var r, id := RequestCode(host, db, jar, username, password), host.seed.challengeId;
      && (r.answer == Done <==>
            CodesMailed(host) && id !in db.challenges && host.mailWorks
            && exists u :: Recognised(host, db.rows, username, password, u) && HasAddress(u))
      && (r.answer == Refused(CodesUnavailable) <==> !CodesMailed(host))
      && (r.answer == Refused(NoEmail) <==>
            CodesMailed(host) && exists u :: Recognised(host, db.rows, username, password, u) && !HasAddress(u))
      && (r.answer == Refused(BadCredentials) <==>
            CodesMailed(host)
            && var found := FindByUsername(db.rows, Trim(username));
            found.None? || Checked(host, password, found.value.passwordHash).Rejected?)
      && (r.answer == Done ==> r.jar == Cookies(Some(id), None, jar.pending))
      && (r.answer == Done ==> forall u :: Recognised(host, db.rows, username, password, u) ==>
            r.db.challenges == db.challenges[id := MailedRow(host, u)])
      && (r.answer != Done ==> r.jar == jar)
  {
    hide Trim, FindByUsername, AfterUpdate, PasswordHash.VerifyPassword;
    var found := FindByUsername(db.rows, Trim(username));
    if found.Some? && Checked(host, password, found.value.passwordHash).Accepted? {
      assert Recognised(host, db.rows, username, password,
                   Renewed(found.value, Checked(host, password, found.value.passwordHash)));
    }
  }

  // ---------------------------------------------------------------- changing the password on the way in

  /** Exactly when a change of password is answered in each way. */
  lemma ChangeIff(host: Host, db: Db, jar: Cookies, username: string, current: string, next: string)
    requires ValidUsers(db.rows)
    ensures var answer := ChangePassword(host, db, jar, username, current, next).answer;
      && (answer == Done <==>
            exists u :: Recognised(host, db.rows, username, current, u)
                        && Checked(host, next, u.passwordHash).Rejected?
                        && PolicySays(host, jar, u, next, Pass) && CanStore(host, u, next))
      && (answer == Refused(SamePassword) <==>
            exists u :: Recognised(host, db.rows, username, current, u)
                        && Checked(host, next, u.passwordHash).Accepted?)
      && (answer == Refused(PolicyUnmet) <==>
            exists u :: Recognised(host, db.rows, username, current, u)
                        && Checked(host, next, u.passwordHash).Rejected?
                        && !PolicySays(host, jar, u, next, Pass))
      && (answer == Refused(BadCredentials) <==>
            var found := FindByUsername(db.rows, Trim(username));
            found.None? || Checked(host, current, found.value.passwordHash).Rejected?)
  {
    hide Trim, FindByUsername, AfterUpdate, PasswordHash.VerifyPassword, ValidUsers, PendingClient, CanStore;
    var found := FindByUsername(db.rows, Trim(username));
    if found.Some? && Checked(host, current, found.value.passwordHash).Accepted? {
      var v := Checked(host, current, found.value.passwordHash);
      var u := Renewed(found.value, v);
      assert Recognised(host, db.rows, username, current, u);
      SignInFacts.RehashedUsers(db.rows, u.id, v.rehash, Trim(username));
      StoresIff(host, Rehashed(db.rows, u.id, v.rehash), u, next);
      hide WithPassword;
    }
  }

  /** The user service takes this password: a blank one without storing it, and none for a test user. */
  predicate CanStore(host: Host, u: User, password: string) {
    Trim(password) == ""
    || (!u.isTestUser && PasswordHash.HashPassword(password, host.hashing, host.hasher, host.md5).Hash?)
  }

  lemma StoresIff(host: Host, rows: seq<User>, u: User, password: string)
    ensures WithPassword(host, rows, u, password).Some? <==> CanStore(host, u, password)
  {
    hide Trim, AfterUpdate, PasswordHash.HashPassword;
  }

  /** What a change of password leaves of the row with id `x`, whatever it answers. */
  lemma ChangeWrites(host: Host, db: Db, jar: Cookies, username: string, current: string, next: string, u: User,
                     x: string)
    requires ValidUsers(db.rows) && Recognised(host, db.rows, username, current, u)
    ensures var r := ChangePassword(host, db, jar, username, current, next);
      var hashed := PasswordHash.HashPassword(next, host.hashing, host.hasher, host.md5);
      && r.jar == jar && r.db.challenges == db.challenges && r.db.grants == db.grants
      && (x != u.id ==> FindById(r.db.rows, x) == FindById(db.rows, x))
      && FindById(r.db.rows, u.id)
         == Some(if r.answer == Done && Trim(next) != "" && hashed.Hash? then
                   u.(passwordHash := hashed.stored, passwordUpdatedAt := Some(host.now))
                 else if r.answer == Refused(SamePassword) then Renewed(u, Checked(host, next, u.passwordHash))
                 else u)
  {
    hide Trim, FindByUsername, FindById, AfterUpdate, PasswordHash.VerifyPassword, ValidUsers, ChangePassword,
         PasswordHash.HashPassword, WithPassword;
    var found := FindByUsername(db.rows, Trim(username)).value;
    var v := Checked(host, current, found.passwordHash);
    var rows := Rehashed(db.rows, u.id, v.rehash);
    SignInFacts.FoundIsStored(db.rows, Trim(username));
    SignInFacts.RehashedUsers(db.rows, u.id, v.rehash, Trim(username));
    SignInFacts.RehashedById(db.rows, u.id, v.rehash, x);
    SignInFacts.RehashedById(db.rows, u.id, v.rehash, u.id);
    ChangeRows(host, db, jar, username, current, next, u);
    var again := Checked(host, next, u.passwordHash);
    if again.Accepted? {
      SignInFacts.RehashedById(rows, u.id, again.rehash, x);
      SignInFacts.RehashedById(rows, u.id, again.rehash, u.id);
    }
    WrittenRows(host, rows, u, next, x);
    WrittenRows(host, rows, u, next, u.id);
  }

  lemma ChangeRows(host: Host, db: Db, jar: Cookies, username: string, current: string, next: string, u: User)
    requires ValidUsers(db.rows) && Recognised(host, db.rows, username, current, u)
    ensures var found := FindByUsername(db.rows, Trim(username));
      var r := ChangePassword(host, db, jar, username, current, next);
      var rows := Rehashed(db.rows, u.id, Checked(host, current, found.value.passwordHash).rehash);
      var again, written := Checked(host, next, u.passwordHash), WithPassword(host, rows, u, next);
      && r.jar == jar && r.db.challenges == db.challenges && r.db.grants == db.grants
      && (r.answer == Refused(SamePassword) <==> again.Accepted?)
      && (r.answer == Done ==> written == Some(r.db.rows))
      && (again.Accepted? ==> r.db.rows == Rehashed(rows, u.id, again.rehash))
      && (r.answer != Done && !again.Accepted? ==> r.db.rows == rows)
  {
    hide Trim, FindByUsername, AfterUpdate, PasswordHash.VerifyPassword, ValidUsers, ComplexityOf, WithPassword;
    var found := FindByUsername(db.rows, Trim(username)).value;
    SignInFacts.RehashedUsers(db.rows, u.id, Checked(host, current, found.passwordHash).rehash, Trim(username));
  }

  lemma WrittenRows(host: Host, rows: seq<User>, u: User, password: string, x: string)
    requires ValidUsers(rows)
    ensures var written := WithPassword(host, rows, u, password);
      var hashed := PasswordHash.HashPassword(password, host.hashing, host.hasher, host.md5);
      written.Some? ==>
        FindById(written.value, x)
        == match FindById(rows, x)
           case None => None
           case Some(r) =>
             Some(if x == u.id && Trim(password) != "" && hashed.Hash?
                  then r.(passwordHash := hashed.stored, passwordUpdatedAt := Some(host.now)) else r)
  {
    hide ValidUsers, Trim, FindById, PasswordHash.HashPassword;
    var h := PasswordHash.HashPassword(password, host.hashing, host.hasher, host.md5);
    if h.Hash? {
      var p := NO_CHANGE.(passwordHash := Some(h.stored), passwordUpdatedAt := Some(Some(host.now)));
      HarmlessPatch(rows, u.id, p);
      FindInUpdated(rows, u.id, p, x);
    }
  }

  /** A change that answers `ok` has passed the policy. */
  lemma ChangePassesPolicy(host: Host, db: Db, jar: Cookies, username: string, current: string, next: string)
    requires ValidUsers(db.rows) && ChangePassword(host, db, jar, username, current, next).answer == Done
    ensures FindByUsername(db.rows, Trim(username)).Some?
    ensures PolicySays(host, jar, FindByUsername(db.rows, Trim(username)).value, next, Pass)
  {
    hide ChangePassword, Trim, FindByUsername, PasswordHash.VerifyPassword, ValidUsers, CanStore;
    ChangeIff(host, db, jar, username, current, next);
  }

  // ---------------------------------------------------------------- the verification challenge at sign-in

  /** Exactly when the pre-flight has nothing to ask of a user without a second factor, and when it
      mails a code for the address. */
  lemma WithoutFactorIff(host: Host, db: Db, jar: Cookies, u: User)
    ensures var r, id := WithoutFactor(host, db, jar, u), host.seed.challengeId;
      && (r.answer == NoChallenge <==> !Unproved(host, u))
      && (r.answer == Refused(NoEmail) <==> Unproved(host, u) && !HasAddress(u))
      && (r.answer == VerifyEmail ==>
            Unproved(host, u) && HasAddress(u) && host.mailWorks
            && r.jar == Cookies(None, Some(id), jar.pending)
            && id in r.db.challenges && r.db.challenges[id].userId == u.id
            && r.db.challenges[id].kind == EmailVerification
            && r.db.challenges[id].expiresAt == host.now + 600_000)
      && (r.answer == Threw ==> r.jar == jar && (!host.mailWorks || host.seed.challengeId in db.challenges))
  {
    hide Trim;
  }

  /** Exactly when that code opens a session: only for a user whose address it proves, and then the
      challenge is used up, its cookie gone and the address stamped. */
  lemma RedeemVerificationIff(host: Host, db: Db, jar: Cookies, u: User, otp: string, id: string)
    requires ValidUsers(db.rows) && FindById(db.rows, u.id) == Some(u)
    ensures var r := RedeemVerification(host, db, jar, u, otp);
      && (r.verdict == Minted(SessionOf(u), WithVerification(id)) <==>
            && HasAddress(u) && otp != "" && id != "" && jar.emailVerification == Some(id)
            && id in db.challenges
            && var row := db.challenges[id];
            && row.kind == EmailVerification && row.userId == u.id && !row.consumed && host.now < row.expiresAt
            && SecretAtRest.TimingSafeEqualHex(host.rules.hash(id, Trim(otp)), row.codeHash.GetOr("")))
      && (r.verdict.Minted? ==>
            && r.jar == jar.(emailVerification := None) && jar.emailVerification.Some?
            && jar.emailVerification.value !in r.db.challenges
            && FindById(r.db.rows, u.id)
               == Some(if !u.isAdmin && u.emailVerifiedAt.None? then u.(emailVerifiedAt := Some(host.now)) else u))
      && (!r.verdict.Minted? ==> r.verdict == Denied && r.db.rows == db.rows && r.jar == jar)
  {
    hide Trim, MarkedVerified, FindById, ValidUsers, SecretAtRest.TimingSafeEqualHex;
    MarkedRow(db.rows, u.id, host.now, u.id);
  }

  // ---------------------------------------------------------------- test users

  /** Exactly when the test-user provider opens a session, and for whom: never with admin rights. */
  lemma TestUserIff(host: Host, db: Db, jar: Cookies, chosen: Option<string>, s: SessionUser)
    ensures AuthorizeTestUser(host, db, jar, chosen) == Some(s) <==>
      var id, client := Trim(chosen.GetOr("")), PendingClient(host, jar);
      var found := FindById(db.rows, id);
      && id != "" && client.Some? && client.value.isTest
      && (client.value.expiresAt.Some? ==> host.now < client.value.expiresAt.value)
      && found.Some? && found.value.isTestUser && !found.value.isAdmin
      && Grant(found.value.id, client.value.environmentId) in db.grants
      && SessionFor(s, found.value)
  {
    hide Trim, FindById, PendingClient;
  }

  // ---------------------------------------------------------------- passkeys

  /** Exactly when an exchange token opens a session; a live one is used up whether it does or not,
      and no other token changes. */
  lemma PasskeyIff(host: Host, db: Db, exchanges: map<string, Exchange>, token: Option<string>, s: SessionUser)
    ensures var r, x := AuthorizePasskey(host, db, exchanges, token), Trim(token.GetOr(""));
      var live := x != "" && x in exchanges && !exchanges[x].used && host.now < exchanges[x].expiresAt;
      && (r.session == Some(s) <==>
            && live && FindById(db.rows, exchanges[x].userId).Some?
            && var u := FindById(db.rows, exchanges[x].userId).value;
            && !u.isTestUser && !Unproved(host, u) && SessionFor(s, u))
      && r.exchanges == if live then exchanges[x := Exchange(exchanges[x].userId, exchanges[x].expiresAt, true)]
                        else exchanges
  {
    hide Trim, FindById;
  }

  // ---------------------------------------------------------------- verifying an address

  /** Exactly when a signed-in request mails a code for an address, and what is stored then: the one
      verification challenge of the user. */
  lemma VerificationIff(host: Host, db: Db, userId: string)
    ensures var r, id, found := RequestVerification(host, db, userId), host.seed.challengeId, FindById(db.rows, userId);
      && (r.sent.NotNeeded? <==>
            found.Some? && (found.value.isAdmin || (HasAddress(found.value) && found.value.emailVerifiedAt.Some?)))
      && (r.sent.Issued? <==>
            && found.Some? && !found.value.isAdmin && HasAddress(found.value) && found.value.emailVerifiedAt.None?
            && host.site.Some? && host.site.value.siteUrl.Some? && Trim(host.site.value.siteUrl.value) != ""
            && host.mailWorks
            && (id in db.challenges ==>
                  db.challenges[id].userId == userId && db.challenges[id].kind == EmailVerification))
      && (r.sent.Issued? ==>
            && found.Some? && !found.value.isAdmin && HasAddress(found.value) && found.value.emailVerifiedAt.None?
            && r.sent.challengeId == id && id in r.db.challenges
            && r.db.challenges[id].userId == userId && r.db.challenges[id].kind == EmailVerification
            && r.db.challenges[id].expiresAt == host.now + 600_000
            && forall c :: c in r.db.challenges && c != id ==>
                 c in db.challenges && r.db.challenges[c] == db.challenges[c]
                 && !(db.challenges[c].userId == userId && db.challenges[c].kind == EmailVerification))
      && (forall c :: c in db.challenges
                      && !(db.challenges[c].userId == userId && db.challenges[c].kind == EmailVerification) ==>
            c in r.db.challenges && (c != id || !r.sent.Issued? ==> r.db.challenges[c] == db.challenges[c]))
  {
    hide Trim, FindById;
    SameUser(db.rows, userId);
  }
}
