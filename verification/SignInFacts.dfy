/** What the entry points of the sign-in protocol promise one another. */
module SignInFacts {
  import opened JsText
  import opened UserTable
  import opened Challenges
  import opened SignIn
  import opened UserService
  import PasswordHash

  // ---------------------------------------------------------------- the tables

  predicate SameButHash(u: User, v: User) { v == u.(passwordHash := v.passwordHash) }

  lemma {:induction false} FindNameInUpdated(rows: seq<User>, id: string, p: Patch, name: string)
    requires p.username.None?
    ensures FindByUsername(Updated(rows, id, p), name)
         == match FindByUsername(rows, name)
            case None => None
            case Some(u) => Some(if u.id == id then Patched(u, p) else u)
  {
    if rows != [] {
      assert Updated(rows, id, p)[1..] == Updated(rows[1..], id, p);
      FindNameInUpdated(rows[1..], id, p, name);
    }
  }

  /** Storing a new hash changes nothing else about anybody. */
  lemma RehashedUsers(rows: seq<User>, id: string, rehash: Option<string>, name: string)
    requires ValidUsers(rows)
    ensures ValidUsers(Rehashed(rows, id, rehash))
    ensures FindByUsername(Rehashed(rows, id, rehash), name)
         == match FindByUsername(rows, name)
            case None => None
            case Some(u) => Some(if u.id == id then u.(passwordHash := rehash.GetOr(u.passwordHash)) else u)
  {
    hide ValidUsers;
    var p := NO_CHANGE.(passwordHash := rehash);
    HarmlessPatch(rows, id, p);
    FindNameInUpdated(rows, id, p, name);
  }

  lemma RehashedById(rows: seq<User>, id: string, rehash: Option<string>, x: string)
    requires ValidUsers(rows)
    ensures FindById(Rehashed(rows, id, rehash), x)
         == match FindById(rows, x)
            case None => None
            case Some(u) => Some(if x == id then u.(passwordHash := rehash.GetOr(u.passwordHash)) else u)
  {
    hide ValidUsers;
    var p := NO_CHANGE.(passwordHash := rehash);
    HarmlessPatch(rows, id, p);
    FindInUpdated(rows, id, p, x);
  }

  // ---------------------------------------------------------------- pre-flight and issuer agree

  /** The second factor a session was opened with, if any. */
  function FactorOf(used: Used): Option<Factor> {
    match used
    case WithTotp => Some(Totp)
    case WithEmailCode(_) => Some(EmailCode)
    case _ => None
  }

  lemma ChoiceIsMet(host: Host, db: Db, jar: Cookies, u: User, db2: Db, jar2: Cookies, v: User,
                    otp: string, mfaMethod: string)
    requires SameButHash(u, v)
    ensures var answer := ChooseChallenge(host, db, jar, u).answer;
      var issued := SecondFactor(host, db2, jar2, v, otp, mfaMethod);
      && (answer == NoChallenge ==> issued == Authorized(db2, jar2, Minted(SessionOf(v), NoCode)))
      && (answer.Mfa? && otp == "" ==> issued == Authorized(db2, jar2, Denied))
      && (answer.Mfa? && issued.verdict.Minted? ==>
            FactorOf(issued.verdict.used).Some? && FactorOf(issued.verdict.used).value in answer.methods)
  {
    hide Filled, CreateOtp, IsEmailMfaGloballyEnabled, SiteSettings, VerifyAndConsume, MarkedVerified;
    GatesAgree(host.site, host.resendKey);
  }

  /** The user the pre-flight let through its password gates. */
  lemma BeginPassed(host: Host, db: Db, jar: Cookies, username: string, password: string)
    returns (row: User, user: User)
    requires Begin(host, db, jar, username, password).answer.NoChallenge?
          || Begin(host, db, jar, username, password).answer.Mfa?
    ensures FindByUsername(db.rows, Trim(username)) == Some(row) && SameButHash(row, user)
    ensures Verify(host, password, row.passwordHash).Accepted?
    ensures user.passwordHash == Verify(host, password, row.passwordHash).rehash.GetOr(row.passwordHash)
    ensures !OutOfPolicy(host, jar, user, password)
    ensures var rows := Rehashed(db.rows, row.id, Verify(host, password, row.passwordHash).rehash);
      Begin(host, db, jar, username, password) == ChooseChallenge(host, db.(rows := rows), jar, user)
  {
    hide Verify, FindByUsername, AfterUpdate, ChooseChallenge, ComplexityOf, PendingClient, EnvironmentsOf, Trim;
    row := FindByUsername(db.rows, Trim(username)).value;
    user := row.(passwordHash := Verify(host, password, row.passwordHash).rehash.GetOr(row.passwordHash));
  }

  lemma ChoiceKeepsGates(host: Host, db: Db, jar: Cookies, user: User)
    ensures ChooseChallenge(host, db, jar, user).db.rows == db.rows
    ensures ChooseChallenge(host, db, jar, user).jar.pending == jar.pending
  {
    hide Filled, CreateOtp, SiteSettings;
  }

  lemma SamePolicy(host: Host, jar: Cookies, jar2: Cookies, u: User, v: User, password: string)
    requires SameButHash(u, v) && jar.pending == jar2.pending
    ensures OutOfPolicy(host, jar, u, password) == OutOfPolicy(host, jar2, v, password)
  {
    hide Trim;
    assert PendingClient(host, jar) == PendingClient(host, jar2);
  }

  /** A state in which the user, password aside, and the pending authorization are as the pre-flight
      found them. */
  predicate StillThere(db: Db, jar: Cookies, row: User, db2: Db, jar2: Cookies) {
    && jar2.pending == jar.pending
    && FindByUsername(db2.rows, row.username).Some?
    && SameButHash(row, FindByUsername(db2.rows, row.username).value)
  }

  predicate Accepts(host: Host, password: string, u: User) { Verify(host, password, u.passwordHash).Accepted? }

  /** What the issuer goes on to do for a user whose password has passed. */
  function Served(host: Host, db: Db, jar: Cookies, c: Credentials, u: User, password: string): Authorized
    requires Accepts(host, password, u)
  {
    SecondFactor(host, db.(rows := Rehashed(db.rows, u.id, Verify(host, password, u.passwordHash).rehash)), jar, u,
                 Trim(c.otp.GetOr("")), Trim(c.mfaMethod.GetOr("")))
  }

  /** Pre-flight and issuer agree: asked for nothing, the issuer mints without a code exactly when
      `ready`; asked for a second factor, it refuses without a code and mints only through one that
      was offered. */
  predicate Agree(answer: Answer, verdict: Verdict, otp: string, ready: bool) {
    && (answer == NoChallenge ==> (verdict.Minted? <==> ready) && (verdict.Minted? ==> verdict.used == NoCode))
    && (answer.Mfa? && otp == "" ==> !verdict.Minted?)
    && (answer.Mfa? && verdict.Minted? ==>
          FactorOf(verdict.used).Some? && FactorOf(verdict.used).value in answer.methods)
  }

  /** The issuer serves this name and password. */
  predicate Serves(host: Host, rows: seq<User>, username: string, password: string) {
    && username != "" && password != ""
    && FindByUsername(rows, username).Some?
    && !FindByUsername(rows, username).value.isTestUser
    && Accepts(host, password, FindByUsername(rows, username).value)
  }

  /** Where the issuer gets past its password gates. */
  lemma IssuerReaches(host: Host, db: Db, jar: Cookies, c: Credentials, username: string, password: string, v: User)
    requires c.username == Some(username) && c.password == Some(password)
    requires FindByUsername(db.rows, username) == Some(v) && !OutOfPolicy(host, jar, v, password)
    ensures if Serves(host, db.rows, username, password)
            then Authorize(host, db, jar, c) == Served(host, db, jar, c, v, password)
            else !Authorize(host, db, jar, c).verdict.Minted?
  {
    hide SecondFactor, Trim, FindByUsername, AfterUpdate, Verify, OutOfPolicy;
  }

  predicate Plain(c: Credentials, username: string, password: string) {
    c.username == Some(username) && c.password == Some(password)
  }

  /** The issuer, in any state where the user and the pending authorization are as the pre-flight
      found them, the state before the pre-flight and the one after it among them, for any table and
      a name typed without surrounding space. When the pre-flight asks for nothing, the issuer mints
      without a code exactly if it serves the name and password at all. When it asks for a second
      factor, the issuer refuses without a code, and whatever it mints through was on offer. */
  lemma IssuerFollows(host: Host, db: Db, jar: Cookies, username: string, password: string,
                      db2: Db, jar2: Cookies, c: Credentials)
    requires Trim(username) == username && Plain(c, username, password)
    requires FindByUsername(db.rows, username).Some?
          ==> StillThere(db, jar, FindByUsername(db.rows, username).value, db2, jar2)
    ensures Agree(Begin(host, db, jar, username, password).answer, Authorize(host, db2, jar2, c).verdict,
                  Trim(c.otp.GetOr("")), Serves(host, db2.rows, username, password))
  {
    hide SecondFactor, ChooseChallenge, OutOfPolicy, Trim, FindByUsername, Begin, AfterUpdate, Authorize,
         Verify, FactorOf;
    var answer := Begin(host, db, jar, username, password).answer;
    if answer.NoChallenge? || answer.Mfa? {
      var row, user := BeginPassed(host, db, jar, username, password);
      NameOfFound(db.rows, username);
      var v := FindByUsername(db2.rows, username).value;
      SamePolicy(host, jar, jar2, user, v, password);
      IssuerReaches(host, db2, jar2, c, username, password, v);
      var before := db.(rows := Rehashed(db.rows, row.id, Verify(host, password, row.passwordHash).rehash));
      var verified := Verify(host, password, v.passwordHash);
      if verified.Accepted? {
        ChoiceIsMet(host, before, jar, user, db2.(rows := Rehashed(db2.rows, v.id, verified.rehash)), jar2, v,
                    Trim(c.otp.GetOr("")), Trim(c.mfaMethod.GetOr("")));
      }
    }
  }

  lemma NameOfFound(rows: seq<User>, name: string)
    ensures FindByUsername(rows, name).Some? ==> FindByUsername(rows, name).value.username == name
  {
  }

  /** In any one state and over any table: for a name without surrounding space, `none` means the
      issuer mints without a code, exactly when name and password are not empty and the row is not a
      test user's; `mfa` means it does not, and mints only through a method on the list. */
  lemma AgreeOnTrimmedNames(host: Host, db: Db, jar: Cookies, username: string, password: string, c: Credentials)
    requires Trim(username) == username && Plain(c, username, password)
    ensures Agree(Begin(host, db, jar, username, password).answer, Authorize(host, db, jar, c).verdict,
                  Trim(c.otp.GetOr("")),
                  username != "" && password != ""
                  && !(FindByUsername(db.rows, username).Some? && FindByUsername(db.rows, username).value.isTestUser))
  {
    hide Authorize, Begin, Trim, Verify, FactorOf, FindByUsername;
    NameOfFound(db.rows, username);
    IssuerFollows(host, db, jar, username, password, db, jar, c);
    var answer := Begin(host, db, jar, username, password).answer;
    if answer.NoChallenge? || answer.Mfa? {
      var row, user := BeginPassed(host, db, jar, username, password);
    }
  }

  /** In a well-kept table the issuer finds a user only under the name as it is stored, and whoever
      passes a password there is no test user. */
  lemma FoundByStoredName(host: Host, rows: seq<User>, username: string, password: string)
    requires WellKept(rows)
    ensures var found, trimmed := FindByUsername(rows, username), FindByUsername(rows, Trim(username));
      && (found.Some? ==> Trim(username) == username && username != "")
      && (trimmed.Some? && Verify(host, password, trimmed.value.passwordHash).Accepted? ==> !trimmed.value.isTestUser)
  {
    hide Trim, WellKept;
    var found, trimmed := FindByUsername(rows, username), FindByUsername(rows, Trim(username));
    if found.Some? { TidyRow(rows, found.value); }
    if trimmed.Some? { TidyRow(rows, trimmed.value); }
    PasswordHash.EmptyHashNeverAccepted(password, host.hashing, host.hasher, host.md5);
  }

  /** In a well-kept table: for any name as typed, `none` means the issuer mints without a code,
      exactly when there is no space around the name and the password is not empty. */
  lemma AgreeInOneState(host: Host, db: Db, jar: Cookies, username: string, password: string, c: Credentials)
    requires WellKept(db.rows) && Plain(c, username, password)
    ensures Agree(Begin(host, db, jar, username, password).answer, Authorize(host, db, jar, c).verdict,
                  Trim(c.otp.GetOr("")), Trim(username) == username && password != "")
  {
    hide Begin, Trim, Verify, FactorOf, WellKept, FindByUsername, SecondFactor, OutOfPolicy, AfterUpdate;
    FoundByStoredName(host, db.rows, username, password);
    if Trim(username) == username {
      hide Authorize;
      AgreeOnTrimmedNames(host, db, jar, username, password, c);
      if Begin(host, db, jar, username, password).answer.NoChallenge? {
        PassedIsServed(host, db, jar, username, password);
      }
    }
  }

  /** Whom the pre-flight lets through in a well-kept table is no test user, and has a name. */
  lemma PassedIsServed(host: Host, db: Db, jar: Cookies, username: string, password: string)
    requires WellKept(db.rows) && Trim(username) == username
    requires Begin(host, db, jar, username, password).answer.NoChallenge?
    ensures username != "" && FindByUsername(db.rows, username).Some?
    ensures !FindByUsername(db.rows, username).value.isTestUser
  {
    hide Begin, Trim, Verify, WellKept, FindByUsername;
    var row, user := BeginPassed(host, db, jar, username, password);
    FoundByStoredName(host, db.rows, username, password);
  }

  /** Passwords are hashed as intended; `origin` is the ideal Argon2. */
  ghost predicate IdealHashing(host: Host, origin: string -> Option<string>) {
    PasswordHash.Ideal(host.hashing, host.hasher, origin, host.md5)
  }

  lemma RehashedWellKept(host: Host, rows: seq<User>, username: string, password: string)
    requires WellKept(rows) && FindByUsername(rows, username).Some?
    ensures var u := FindByUsername(rows, username).value;
      Accepts(host, password, u) ==> WellKept(Rehashed(rows, u.id, Verify(host, password, u.passwordHash).rehash))
  {
    var u := FindByUsername(rows, username).value;
    PasswordHash.EmptyHashNeverAccepted(password, host.hashing, host.hasher, host.md5);
    hide Trim, PasswordHash.VerifyPassword, FindByUsername, AfterUpdate, WellKept;
    TidyRow(rows, u);
    if Accepts(host, password, u) {
      PatchOfRow(rows, u, NO_CHANGE.(passwordHash := Verify(host, password, u.passwordHash).rehash));
    }
  }

  lemma VerifyIs(host: Host, password: string, stored: string)
    ensures Verify(host, password, stored)
         == PasswordHash.VerifyPassword(password, stored, host.hashing, host.hasher, host.md5)
  {
  }

  /** And in the state the pre-flight leaves, its new hash and its cookies included. */
  lemma AgreeAfterwards(host: Host, db: Db, jar: Cookies, username: string, password: string, c: Credentials,
                        origin: string -> Option<string>)
    requires WellKept(db.rows) && Plain(c, username, password) && IdealHashing(host, origin)
    ensures var begun := Begin(host, db, jar, username, password);
      Agree(begun.answer, Authorize(host, begun.db, begun.jar, c).verdict,
            Trim(c.otp.GetOr("")), Trim(username) == username && password != "")
  {
    hide Authorize, Begin, Trim, Verify, FactorOf, WellKept, ChooseChallenge, Rehashed, FindByUsername;
    var begun := Begin(host, db, jar, username, password);
    if begun.answer.NoChallenge? || begun.answer.Mfa? {
      var row, user := BeginPassed(host, db, jar, username, password);
      var v := Verify(host, password, row.passwordHash);
      PasswordHash.RehashAccepts(password, row.passwordHash, host.hashing, host.hasher, origin, host.md5);
      VerifyIs(host, password, row.passwordHash);
      VerifyIs(host, password, v.rehash.GetOr(row.passwordHash));
      var rows := Rehashed(db.rows, row.id, v.rehash);
      ChoiceKeepsGates(host, db.(rows := rows), jar, user);
      RehashedWellKept(host, db.rows, Trim(username), password);
      ValidWhenWellKept(db.rows);
      RehashedUsers(db.rows, row.id, v.rehash, Trim(username));
      NameOfFound(db.rows, Trim(username));
      FoundByStoredName(host, db.rows, username, password);
      FoundByStoredName(host, rows, username, password);
      if Trim(username) == username {
        IssuerFollows(host, db, jar, username, password, begun.db, begun.jar, c);
      } else {
        NotFoundIsDenied(host, begun.db, begun.jar, c, username);
      }
    }
  }

  /** Where the pre-flight offers the mailed code alone, it has stored the challenge of that code and
      put its id in the cookie. */
  lemma ChoiceMailsCode(host: Host, db: Db, jar: Cookies, user: User)
    requires ChooseChallenge(host, db, jar, user).answer == Mfa([EmailCode])
    ensures var r, id := ChooseChallenge(host, db, jar, user), host.seed.challengeId;
      && r.jar.mfa == Some(id) && id in r.db.challenges
      && r.db.challenges[id] == NewChallenge(user.id, MfaOtp, host.rules.hash(id, host.seed.code), host.now)
      && EmailMfa(host) && Filled(user.email) && !host.enrolled(user.id)
  {
    hide Filled, IsEmailMfaGloballyEnabled, SiteSettings;
    GatesAgree(host.site, host.resendKey);
    assert ChooseChallenge(host, db, jar, user).answer.methods[0] == EmailCode;
  }

  lemma ChoiceNamesChallenge(host: Host, db: Db, jar: Cookies, user: User)
    ensures var r, id := ChooseChallenge(host, db, jar, user), host.seed.challengeId;
      r.answer.Mfa? ==>
        if Totp in r.answer.methods then r.jar.mfa.None?
        else r.answer.methods == [EmailCode] && r.jar.mfa == Some(id) && id in r.db.challenges
  {
    hide Filled, SiteSettings;
  }

  /** After `mfa` the cookie names the challenge of the code just mailed, or no challenge if an
      authenticator is on offer. */
  lemma PreflightNamesChallenge(host: Host, db: Db, jar: Cookies, username: string, password: string)
    ensures var r, id := Begin(host, db, jar, username, password), host.seed.challengeId;
      r.answer.Mfa? ==>
        if Totp in r.answer.methods then r.jar.mfa.None?
        else r.answer.methods == [EmailCode] && r.jar.mfa == Some(id) && id in r.db.challenges
  {
    hide Verify, FindByUsername, AfterUpdate, ChooseChallenge, Begin, Trim, OutOfPolicy;
    if Begin(host, db, jar, username, password).answer.Mfa? {
      var row, user := BeginPassed(host, db, jar, username, password);
      var rows := Rehashed(db.rows, row.id, Verify(host, password, row.passwordHash).rehash);
      ChoiceNamesChallenge(host, db.(rows := rows), jar, user);
    }
  }

  lemma RightCodeOpens(host: Host, db: Db, jar: Cookies, user: User, otp: string, mfaMethod: string, id: string)
    requires EmailMfa(host) && Filled(user.email) && !host.enrolled(user.id) && mfaMethod != "totp"
    requires jar.mfa == Some(id) && id != "" && id in db.challenges && otp != "" && Trim(otp) == otp
    requires exists now ::
      now <= host.now < now + 600_000
      && db.challenges[id] == NewChallenge(user.id, MfaOtp, host.rules.hash(id, otp), now)
    ensures SecondFactor(host, db, jar, user, otp, mfaMethod).verdict == Minted(SessionOf(user), WithEmailCode(id))
  {
    hide Filled, MarkedVerified, IsEmailMfaGloballyEnabled, Trim;
  }

  /** A code the pre-flight mails opens the session it was mailed for: entered with the same name and
      password in the state the pre-flight leaves, at any time within ten minutes. */
  lemma MailedCodeOpens(host: Host, db: Db, jar: Cookies, username: string, password: string, c: Credentials, now: int,
                        origin: string -> Option<string>)
    requires WellKept(db.rows) && Plain(c, username, password) && IdealHashing(host, origin)
    requires Trim(username) == username && password != ""
    requires Begin(host, db, jar, username, password).answer == Mfa([EmailCode])
    requires host.seed.challengeId != "" && host.seed.code != "" && Trim(host.seed.code) == host.seed.code
    requires c.otp == Some(host.seed.code) && Trim(c.mfaMethod.GetOr("")) != "totp"
    requires host.now <= now < host.now + 600_000
    ensures var begun := Begin(host, db, jar, username, password);
      var issued := Authorize(host.(now := now), begun.db, begun.jar, c).verdict;
      issued.Minted? && issued.used == WithEmailCode(host.seed.challengeId)
  {
    hide Authorize, Begin, Trim, Verify, WellKept, ChooseChallenge, Rehashed, FindByUsername, SecondFactor, Filled,
         OutOfPolicy, EmailMfa;
    var begun := Begin(host, db, jar, username, password);
    var row, user := BeginPassed(host, db, jar, username, password);
    var v := Verify(host, password, row.passwordHash);
    var rows := Rehashed(db.rows, row.id, v.rehash);
    PasswordHash.RehashAccepts(password, row.passwordHash, host.hashing, host.hasher, origin, host.md5);
    VerifyIs(host, password, row.passwordHash);
    VerifyIs(host, password, v.rehash.GetOr(row.passwordHash));
    ChoiceKeepsGates(host, db.(rows := rows), jar, user);
    ChoiceMailsCode(host, db.(rows := rows), jar, user);
    SamePolicy(host, jar, begun.jar, user, user, password);
    ValidWhenWellKept(db.rows);
    RehashedUsers(db.rows, row.id, v.rehash, username);
    NameOfFound(db.rows, username);
    FoundByStoredName(host, db.rows, username, password);
    CodeServed(host.(now := now), begun.db, begun.jar, c, username, password, user, host);
  }

  /** The sign-in itself, `before` being the request that mailed the code. */
  lemma CodeServed(host: Host, db: Db, jar: Cookies, c: Credentials, username: string, password: string, user: User,
                   before: Host)
    requires host == before.(now := host.now) && before.now <= host.now < before.now + 600_000
    requires Plain(c, username, password) && username != "" && password != ""
    requires FindByUsername(db.rows, username) == Some(user) && !user.isTestUser && Accepts(before, password, user)
    requires !OutOfPolicy(before, jar, user, password)
    requires EmailMfa(before) && Filled(user.email) && !before.enrolled(user.id)
    requires before.seed.code != "" && Trim(before.seed.code) == before.seed.code
    requires c.otp == Some(before.seed.code) && Trim(c.mfaMethod.GetOr("")) != "totp"
    requires var id := before.seed.challengeId;
      && id != "" && jar.mfa == Some(id) && id in db.challenges
      && db.challenges[id] == NewChallenge(user.id, MfaOtp, before.rules.hash(id, before.seed.code), before.now)
    ensures Authorize(host, db, jar, c).verdict == Minted(SessionOf(user), WithEmailCode(before.seed.challengeId))
  {
    hide Authorize, Trim, Rehashed, FindByUsername, SecondFactor, Filled;
    assert EmailMfa(host) && Accepts(host, password, user);
    SamePolicyLater(before, jar, user, password, host.now);
    hide EmailMfa, OutOfPolicy, Verify;
    IssuerReaches(host, db, jar, c, username, password, user);
    var middle := db.(rows := Rehashed(db.rows, user.id, Verify(host, password, user.passwordHash).rehash));
    RightCodeOpens(host, middle, jar, user, before.seed.code, Trim(c.mfaMethod.GetOr("")), before.seed.challengeId);
  }

  lemma SamePolicyLater(host: Host, jar: Cookies, user: User, password: string, now: int)
    ensures OutOfPolicy(host.(now := now), jar, user, password) == OutOfPolicy(host, jar, user, password)
  {
    hide Trim;
    assert PendingClient(host.(now := now), jar) == PendingClient(host, jar);
  }

  lemma NotFoundIsDenied(host: Host, db: Db, jar: Cookies, c: Credentials, username: string)
    requires c.username == Some(username) && FindByUsername(db.rows, username).None?
    ensures Authorize(host, db, jar, c) == Authorized(db, jar, Denied)
  {
    hide FindByUsername;
  }

  lemma TrimPadded(s: string)
    ensures Trim(" " + s) == Trim(s) && Trim(" " + s) != " " + s
  {
    var padded := " " + s;
    assert padded[0] == ' ' && padded[1..] == s;
    assert TrimStart(padded) == TrimStart(s);
  }

  /** The pre-flight trims the name and the issuer does not: with a space in front, the first still
      answers as it would without, and the second refuses unless a name is stored with the space. */
  lemma PaddedNameDisagrees(host: Host, db: Db, jar: Cookies, username: string, password: string, c: Credentials)
    requires Plain(c, " " + username, password)
    ensures Begin(host, db, jar, " " + username, password) == Begin(host, db, jar, username, password)
    ensures FindByUsername(db.rows, " " + username).None? ==> Authorize(host, db, jar, c) == Authorized(db, jar, Denied)
    ensures WellKept(db.rows) ==> FindByUsername(db.rows, " " + username).None?
  {
    hide Trim, FindByUsername, SecondFactor, ChooseChallenge, Verify, ComplexityOf, PendingClient, EnvironmentsOf,
         AfterUpdate, WellKept;
    TrimPadded(username);
    if WellKept(db.rows) { FoundByStoredName(host, db.rows, " " + username, password); }
  }

  // ---------------------------------------------------------------- email verification

  /** The user a minted password session belongs to. */
  lemma MintedUser(host: Host, db: Db, jar: Cookies, c: Credentials) returns (user: User, middle: Db)
    requires Authorize(host, db, jar, c).verdict.Minted?
    ensures c.username.Some? && c.password.Some? && FindByUsername(db.rows, c.username.value) == Some(user)
    ensures !user.isTestUser && Authorize(host, db, jar, c).verdict.user == SessionOf(user)
    ensures var verified := Verify(host, c.password.value, user.passwordHash);
      && verified.Accepted?
      && middle == db.(rows := Rehashed(db.rows, user.id, verified.rehash))
    ensures Authorize(host, db, jar, c)
         == SecondFactor(host, middle, jar, user, Trim(c.otp.GetOr("")), Trim(c.mfaMethod.GetOr("")))
  {
    hide Verify, FindByUsername, AfterUpdate, ComplexityOf, SecondFactor, Trim;
    user := FindByUsername(db.rows, c.username.value).value;
    middle := db.(rows := Rehashed(db.rows, user.id, Verify(host, c.password.value, user.passwordHash).rehash));
    FactorMintsUser(host, middle, jar, user, Trim(c.otp.GetOr("")), Trim(c.mfaMethod.GetOr("")));
  }

  lemma FactorMintsUser(host: Host, db: Db, jar: Cookies, user: User, otp: string, mfaMethod: string)
    ensures var verdict := SecondFactor(host, db, jar, user, otp, mfaMethod).verdict;
      verdict.Minted? ==> verdict.user == SessionOf(user)
  {
    hide Filled, VerifyAndConsume, MarkedVerified, IsEmailMfaGloballyEnabled;
  }

  lemma FactorProvesEmail(host: Host, db: Db, jar: Cookies, user: User, otp: string, mfaMethod: string)
    requires ValidUsers(db.rows) && FindById(db.rows, user.id).Some?
    requires SameButHash(user, FindById(db.rows, user.id).value)
    requires RequiresVerification(host, user)
    ensures var issued := SecondFactor(host, db, jar, user, otp, mfaMethod);
      issued.verdict.Minted? ==>
        && (issued.verdict.used.WithTotp? || issued.verdict.used.WithEmailCode?)
        && (issued.verdict.used.WithEmailCode? ==>
              FindById(issued.db.rows, user.id).Some?
              && FindById(issued.db.rows, user.id).value.emailVerifiedAt == Some(host.now))
  {
    hide Filled, VerifyAndConsume, ValidUsers, Updated, FindById;
    var p := NO_CHANGE.(emailVerifiedAt := Some(Some(host.now)));
    HarmlessPatch(db.rows, user.id, p);
    FindInUpdated(db.rows, user.id, p, user.id);
  }

  /** While codes can be mailed, a session for an unverified user who is no admin was opened with an
      authenticator or a mailed code, and a mailed code leaves the address verified. */
  lemma UnverifiedNeedsCode(host: Host, db: Db, jar: Cookies, c: Credentials)
    requires ValidUsers(db.rows) && EmailMfa(host)
    requires Authorize(host, db, jar, c).verdict.Minted?
    ensures var issued := Authorize(host, db, jar, c);
      && c.username.Some?
      && var found := FindByUsername(db.rows, c.username.value);
      && found.Some?
      && (!found.value.isAdmin && found.value.emailVerifiedAt.None? ==>
            && (issued.verdict.used.WithTotp? || issued.verdict.used.WithEmailCode?)
            && (issued.verdict.used.WithEmailCode? ==>
                  FindById(issued.db.rows, issued.verdict.user.id).Some?
                  && FindById(issued.db.rows, issued.verdict.user.id).value.emailVerifiedAt == Some(host.now)))
  {
    hide Authorize, SecondFactor, Verify, ValidUsers, FindById, FindByUsername, AfterUpdate;
    var user, middle := MintedUser(host, db, jar, c);
    var rehash := Verify(host, c.password.value, user.passwordHash).rehash;
    FoundIsStored(db.rows, c.username.value);
    RehashedUsers(db.rows, user.id, rehash, c.username.value);
    RehashedById(db.rows, user.id, rehash, user.id);
    if RequiresVerification(host, user) {
      FactorProvesEmail(host, middle, jar, user, Trim(c.otp.GetOr("")), Trim(c.mfaMethod.GetOr("")));
    }
  }

  lemma FoundIsStored(rows: seq<User>, username: string)
    requires ValidUsers(rows) && FindByUsername(rows, username).Some?
    ensures FindById(rows, FindByUsername(rows, username).value.id) == FindByUsername(rows, username)
  {
    FoundById(rows, FindByUsername(rows, username).value);
  }

  /** A passkey does not open a session for such a user at all. */
  lemma PasskeyNeedsVerified(host: Host, db: Db, exchanges: map<string, Exchange>, token: Option<string>)
    ensures var r := AuthorizePasskey(host, db, exchanges, token);
      r.session.Some? ==>
        var user := FindById(db.rows, r.session.value.id);
        && user.Some? && !user.value.isTestUser && r.session.value == SessionOf(user.value)
        && !RequiresVerification(host, user.value)
  {
    hide Trim, RequiresVerification;
  }

  // ---------------------------------------------------------------- the second challenge is never used

  /** The challenges of one kind, as they stand in the store. */
  predicate SameOfKind(a: Store, b: Store, kind: Kind) {
    && (forall id :: id in a && a[id].kind == kind ==> id in b && b[id] == a[id])
    && (forall id :: id in b && b[id].kind == kind ==> id in a && a[id] == b[id])
  }

  lemma MfaCodeKeepsVerification(host: Host, store: Store, user: User)
    ensures SameOfKind(store, CreateOtp(host, store, user, MfaOtp).store, EmailVerification)
  {
    hide Filled;
  }

  /** The pre-flight never asks for the separate verification code, creates no challenge for one and
      at most takes its cookie away. */
  lemma PreflightNeverVerifies(host: Host, db: Db, jar: Cookies, username: string, password: string)
    ensures var begun := Begin(host, db, jar, username, password);
      && begun.answer != VerifyEmail
      && SameOfKind(db.challenges, begun.db.challenges, EmailVerification)
      && (begun.jar.emailVerification == jar.emailVerification || begun.jar.emailVerification.None?)
  {
    hide ChooseChallenge, Verify, FindByUsername, AfterUpdate, ComplexityOf, PendingClient, EnvironmentsOf, Trim;
    if Identify(host, db.rows, username, password).Known? {
      var user := Identify(host, db.rows, username, password).user;
      ChoiceNeverVerifies(host, db.(rows := Identify(host, db.rows, username, password).rows), jar, user);
    }
  }

  lemma ChoiceNeverVerifies(host: Host, db: Db, jar: Cookies, user: User)
    ensures var begun := ChooseChallenge(host, db, jar, user);
      && begun.answer != VerifyEmail
      && SameOfKind(db.challenges, begun.db.challenges, EmailVerification)
      && (begun.jar.emailVerification == jar.emailVerification || begun.jar.emailVerification.None?)
  {
    hide Filled, CreateOtp, SameOfKind, SiteSettings;
    MfaCodeKeepsVerification(host, db.challenges, user);
    SameAsItself(db.challenges);
  }

  lemma SameAsItself(store: Store)
    ensures SameOfKind(store, store, EmailVerification)
  {
  }

  /** The password issuer never opens a session with it, uses none up and leaves its cookie alone. */
  lemma IssuerNeverVerifies(host: Host, db: Db, jar: Cookies, c: Credentials)
    ensures var issued := Authorize(host, db, jar, c);
      && (issued.verdict.Minted? ==> !issued.verdict.used.WithVerification?)
      && SameOfKind(db.challenges, issued.db.challenges, EmailVerification)
      && issued.jar.emailVerification == jar.emailVerification
  {
    hide SecondFactor, Verify, FindByUsername, AfterUpdate, ComplexityOf, SameOfKind;
    SameAsItself(db.challenges);
    var otp, mfaMethod := Trim(c.otp.GetOr("")), Trim(c.mfaMethod.GetOr(""));
    hide Trim;
    if c.username.Some? && c.password.Some? && FindByUsername(db.rows, c.username.value).Some? {
      var user := FindByUsername(db.rows, c.username.value).value;
      var v := Verify(host, c.password.value, user.passwordHash);
      if v.Accepted? {
        FactorNeverVerifies(host, db.(rows := Rehashed(db.rows, user.id, v.rehash)), jar, user, otp, mfaMethod);
      }
    }
  }

  lemma FactorNeverVerifies(host: Host, db: Db, jar: Cookies, user: User, otp: string, mfaMethod: string)
    ensures var issued := SecondFactor(host, db, jar, user, otp, mfaMethod);
      && (issued.verdict.Minted? ==> !issued.verdict.used.WithVerification?)
      && SameOfKind(db.challenges, issued.db.challenges, EmailVerification)
      && issued.jar.emailVerification == jar.emailVerification
  {
    hide Filled, VerifyAndConsume, MarkedVerified, IsEmailMfaGloballyEnabled, SameOfKind;
    SameAsItself(db.challenges);
    if Truthy(jar.mfa) { MfaTryKeepsVerification(db.challenges, jar.mfa.value, user.id, otp, host.rules, host.now); }
  }

  lemma MfaTryKeepsVerification(store: Store, id: string, userId: string, code: string, rules: OtpRules, now: int)
    ensures SameOfKind(store, VerifyAndConsume(store, MfaOtp, id, userId, code, rules, now).store, EmailVerification)
  {
    hide Matches;
  }

  // ---------------------------------------------------------------- the cookies of one browser

  /** One visit to an entry point, with whatever tables and services it finds. */
  datatype Visit =
    | Begins(username: string, password: string)
    | RequestsCode(username: string, password: string)
    | ChangesPassword(username: string, current: string, next: string)
    | Clears
    | SignsIn(credentials: Credentials)

  datatype Stop = Stop(host: Host, db: Db, visit: Visit)

  function JarAfter(jar: Cookies, s: Stop): Cookies {
    match s.visit
    case Begins(username, password) => Begin(s.host, s.db, jar, username, password).jar
    case RequestsCode(username, password) => RequestCode(s.host, s.db, jar, username, password).jar
    case ChangesPassword(username, current, next) => ChangePassword(s.host, s.db, jar, username, current, next).jar
    case Clears => Cleared(jar)
    case SignsIn(c) => Authorize(s.host, s.db, jar, c).jar
  }

  function JarAfterRun(jar: Cookies, run: seq<Stop>): Cookies
    decreases |run|
  {
    if run == [] then jar else JarAfterRun(JarAfter(jar, run[0]), run[1..])
  }

  lemma StopAddsNoVerification(jar: Cookies, s: Stop)
    ensures JarAfter(jar, s).emailVerification == jar.emailVerification || JarAfter(jar, s).emailVerification.None?
  {
    hide Begin, Authorize, Identify, CreateOtp, SiteSettings, ComplexityOf, WithPassword, Filled, SameOfKind;
    match s.visit
    case Begins(username, password) => PreflightNeverVerifies(s.host, s.db, jar, username, password);
    case SignsIn(c) => IssuerNeverVerifies(s.host, s.db, jar, c);
    case _ =>
  }

  /** In every run of visits from an empty jar, whatever the tables and services are at each of them,
      the cookie of the verification challenge never appears; so the two challenge cookies are never
      present together. */
  lemma {:induction false} NeverBothCookies(jar: Cookies, run: seq<Stop>)
    requires jar.emailVerification.None?
    ensures JarAfterRun(jar, run).emailVerification.None?
    ensures !(JarAfterRun(jar, run).mfa.Some? && JarAfterRun(jar, run).emailVerification.Some?)
    decreases |run|
  {
    hide JarAfter;
    if run != [] {
      StopAddsNoVerification(jar, run[0]);
      NeverBothCookies(JarAfter(jar, run[0]), run[1..]);
    }
  }

  // ---------------------------------------------------------------- mailed codes

  lemma FactorUsesChallenge(host: Host, db: Db, jar: Cookies, user: User, otp: string, mfaMethod: string)
    ensures var issued := SecondFactor(host, db, jar, user, otp, mfaMethod);
      issued.verdict.Minted? && issued.verdict.used.WithEmailCode? ==>
        var id := issued.verdict.used.challengeId;
        && jar.mfa == Some(id) && id in db.challenges
        && db.challenges[id].kind == MfaOtp && db.challenges[id].userId == user.id
        && !db.challenges[id].consumed && host.now < db.challenges[id].expiresAt
        && Matches(host.rules, id, otp, db.challenges[id])
        && id !in issued.db.challenges && issued.jar.mfa.None?
  {
    hide Filled, MarkedVerified, IsEmailMfaGloballyEnabled, Matches;
  }

  /** A session opened with a mailed code used up a live challenge of its own user: the one whose id
      the browser's cookie held. */
  lemma EmailCodeUsesChallenge(host: Host, db: Db, jar: Cookies, c: Credentials)
    requires Authorize(host, db, jar, c).verdict.Minted? && Authorize(host, db, jar, c).verdict.used.WithEmailCode?
    ensures var issued := Authorize(host, db, jar, c);
      var id := issued.verdict.used.challengeId;
      && jar.mfa == Some(id) && id in db.challenges
      && db.challenges[id].kind == MfaOtp && db.challenges[id].userId == issued.verdict.user.id
      && !db.challenges[id].consumed && host.now < db.challenges[id].expiresAt
      && Matches(host.rules, id, Trim(c.otp.GetOr("")), db.challenges[id])
      && id !in issued.db.challenges && issued.jar.mfa.None?
  {
    hide Authorize, SecondFactor, Verify, FindByUsername, AfterUpdate, Matches, Trim;
    var user, middle := MintedUser(host, db, jar, c);
    FactorUsesChallenge(host, middle, jar, user, Trim(c.otp.GetOr("")), Trim(c.mfaMethod.GetOr("")));
  }

  // ---------------------------------------------------------------- changing the password on the way in

  /** The row of a user whose password has just passed. */
  function RowAfter(row: User, v: PasswordHash.Verdict): User {
    row.(passwordHash := if v.Accepted? then v.rehash.GetOr(row.passwordHash) else row.passwordHash)
  }

  /** What a change that answers `ok` went through. */
  lemma ChangePassed(host: Host, db: Db, jar: Cookies, username: string, current: string, next: string)
    returns (row: User, user: User, rows: seq<User>)
    requires ValidUsers(db.rows)
    requires ChangePassword(host, db, jar, username, current, next).answer == Done
    ensures FindByUsername(db.rows, Trim(username)) == Some(row)
    ensures Accepts(host, current, row) && user == RowAfter(row, Verify(host, current, row.passwordHash))
    ensures rows == Rehashed(db.rows, row.id, Verify(host, current, row.passwordHash).rehash)
    ensures ValidUsers(rows) && FindByUsername(rows, Trim(username)) == Some(user)
    ensures Verify(host, next, user.passwordHash) == PasswordHash.Rejected
    ensures var written := WithPassword(host, rows, user, next);
      && written.Some?
      && ChangePassword(host, db, jar, username, current, next) == Response(db.(rows := written.value), jar, Done)
  {
    hide Verify, FindByUsername, AfterUpdate, ComplexityOf, WithPassword, Trim, ValidUsers;
    row := FindByUsername(db.rows, Trim(username)).value;
    var v := Verify(host, current, row.passwordHash);
    user := RowAfter(row, v);
    rows := Rehashed(db.rows, row.id, v.rehash);
    RehashedUsers(db.rows, row.id, v.rehash, Trim(username));
  }

  lemma WrittenRow(host: Host, rows: seq<User>, user: User, password: string)
    requires ValidUsers(rows) && FindByUsername(rows, user.username) == Some(user)
    requires WithPassword(host, rows, user, password).Some? && Trim(password) != ""
    ensures var h := PasswordHash.HashPassword(password, host.hashing, host.hasher, host.md5);
      && h.Hash?
      && FindByUsername(WithPassword(host, rows, user, password).value, user.username)
         == Some(user.(passwordHash := h.stored, passwordUpdatedAt := Some(host.now)))
  {
    hide ValidUsers, Trim, PasswordHash.HashPassword, FindByUsername;
    var h := PasswordHash.HashPassword(password, host.hashing, host.hasher, host.md5);
    var p := NO_CHANGE.(passwordHash := Some(h.stored), passwordUpdatedAt := Some(Some(host.now)));
    HarmlessPatch(rows, user.id, p);
    FindNameInUpdated(rows, user.id, p, user.username);
  }

  /** An `ok` change: the new password works from then on and the old one does not, unless the new
      one is nothing but space. `updateUser` ignores a blank password, so that change answers `ok`,
      leaves the old password in force and its age as it was. */
  lemma ChangeTakesEffect(host: Host, db: Db, jar: Cookies, username: string, current: string, next: string,
                          origin: string -> Option<string>)
    requires ValidUsers(db.rows) && IdealHashing(host, origin)
    requires ChangePassword(host, db, jar, username, current, next).answer == Done
    ensures var before := FindByUsername(db.rows, Trim(username));
      var after := FindByUsername(ChangePassword(host, db, jar, username, current, next).db.rows, Trim(username));
      && before.Some? && after.Some?
      && (Accepts(host, next, after.value) <==> Trim(next) != "")
      && (Accepts(host, current, after.value) <==> Trim(next) == "")
      && after.value.passwordUpdatedAt
         == (if Trim(next) != "" then Some(host.now) else before.value.passwordUpdatedAt)
  {
    hide ChangePassword, Verify, FindByUsername, AfterUpdate, Trim, ValidUsers, PasswordHash.HashPassword;
    var row, user, rows := ChangePassed(host, db, jar, username, current, next);
    VerifyIs(host, current, row.passwordHash);
    VerifyIs(host, current, user.passwordHash);
    VerifyIs(host, next, user.passwordHash);
    PasswordHash.RehashAccepts(current, row.passwordHash, host.hashing, host.hasher, origin, host.md5);
    NameOfFound(rows, Trim(username));
    if Trim(next) != "" {
      hide WithPassword;
      WrittenRow(host, rows, user, next);
      var h := PasswordHash.HashPassword(next, host.hashing, host.hasher, host.md5);
      PasswordHash.NewHashRefusesOld(current, next, user.passwordHash, host.hashing, host.hasher, origin, host.md5);
      VerifyIs(host, next, h.stored);
      VerifyIs(host, current, h.stored);
    }
  }

  /** A change that is stored dates the password. */
  lemma ChangeIsDated(host: Host, db: Db, jar: Cookies, username: string, current: string, next: string)
    ensures var changed := ChangePassword(host, db, jar, username, current, next);
      changed.answer == Done && ValidUsers(db.rows) ==>
        && FindByUsername(changed.db.rows, Trim(username)).Some?
        && (Trim(next) != "" ==>
              FindByUsername(changed.db.rows, Trim(username)).value.passwordUpdatedAt == Some(host.now))
  {
    hide ChangePassword, Verify, FindByUsername, AfterUpdate, Trim, ValidUsers, PasswordHash.HashPassword;
    if ChangePassword(host, db, jar, username, current, next).answer == Done && ValidUsers(db.rows) {
      var row, user, rows := ChangePassed(host, db, jar, username, current, next);
      NameOfFound(rows, Trim(username));
      if Trim(next) != "" {
        hide WithPassword;
        WrittenRow(host, rows, user, next);
      }
    }
  }

  /** The blank change does occur: current password accepted, blank password refused by it, and a
      policy that passes the blank one. Nothing is written unless the proof itself upgrades the
      hash. */
  lemma BlankChangeAnswersOk(host: Host, db: Db, jar: Cookies, username: string, current: string, next: string,
                             row: User)
    requires FindByUsername(db.rows, Trim(username)) == Some(row) && Trim(next) == ""
    requires Verify(host, current, row.passwordHash) == PasswordHash.Accepted(None)
    requires Verify(host, next, row.passwordHash) == PasswordHash.Rejected
    requires ComplexityOf(host, jar, row, next) == Pass
    ensures ChangePassword(host, db, jar, username, current, next) == Response(db, jar, Done)
  {
    hide Verify, Trim, FindByUsername, ComplexityOf;
  }

  lemma OthersAfterUpdate(rows: seq<User>, id: string, p: Patch, x: string)
    requires x != id
    ensures FindById(AfterUpdate(rows, id, p), x) == FindById(rows, x)
  {
    hide ValidUsers;
    FindInUpdated(rows, id, p, x);
  }

  /** Nobody else's row changes. */
  lemma ChangeTouchesOneUser(host: Host, db: Db, jar: Cookies, username: string, current: string, next: string,
                             x: string)
    requires ValidUsers(db.rows)
    requires ChangePassword(host, db, jar, username, current, next).answer == Done
    requires FindByUsername(db.rows, Trim(username)).Some? && x != FindByUsername(db.rows, Trim(username)).value.id
    ensures FindById(ChangePassword(host, db, jar, username, current, next).db.rows, x) == FindById(db.rows, x)
  {
    hide ChangePassword, FindByUsername, Verify, AfterUpdate, FindById, Trim, ValidUsers, PasswordHash.HashPassword;
    var row, user, rows := ChangePassed(host, db, jar, username, current, next);
    RehashedById(db.rows, row.id, Verify(host, current, row.passwordHash).rehash, x);
    var h := PasswordHash.HashPassword(next, host.hashing, host.hasher, host.md5);
    if h.Hash? {
      OthersAfterUpdate(rows, row.id,
                        NO_CHANGE.(passwordHash := Some(h.stored), passwordUpdatedAt := Some(Some(host.now))), x);
    }
  }
}
