/** Stored passwords and their lazy upgrade: apps/auth/src/lib/auth/password-hash.ts and the row
    update its caller makes. MD5 and the Argon2 service are parameters. */
module PasswordHash {
  import opened JsText
  import opened UserTable
  import LazyUpgrade

  datatype HashMethod = Argon | Md5Only

  /** What came back from `/verify`: an answer, an HTTP error or unreadable body, or no response. */
  datatype VerifyReply = Answer(valid: bool) | Unusable | Unreachable

  /** The service as one attempt finds it: it may be down, and hashing draws a fresh salt. None
      from `hash` is any failure: no response, an HTTP error, or no Argon2 string in the body. */
  datatype Hasher = Hasher(verify: (string, string) -> VerifyReply, hash: string -> Option<string>)

  datatype Verdict = Rejected | Accepted(rehash: Option<string>) | Thrown

  datatype Hashed = Hash(stored: string) | HashFailed

  predicate IsArgon2StoredHash(stored: string) { "$argon2" <= stored }

  predicate IsHex(c: char) { '0' <= c <= '9' || 'a' <= c <= 'f' || 'A' <= c <= 'F' }

  predicate AllHex(s: string) { forall i :: 0 <= i < |s| ==> IsHex(s[i]) }

  /** `/^[0-9a-f]{32}$/i` on the trimmed text. */
  predicate IsMd5HexStoredHash(stored: string) {
    |Trim(stored)| == 32 && AllHex(Trim(stored))
  }

  /** `toLowerCase` on ASCII. */
  function Lower(s: string): (t: string)
    ensures |t| == |s|
    ensures forall i :: 0 <= i < |s| ==> t[i] == LowerChar(s[i])
  {
    seq(|s|, i requires 0 <= i < |s| => LowerChar(s[i]))
  }

  function LowerChar(c: char): char {
    if 'A' <= c <= 'Z' then ((c as int) + 32) as char else c
  }

  function HashPassword(plain: string, mode: HashMethod, hasher: Option<Hasher>, md5: string -> string): Hashed {
    match mode
    case Md5Only => Hash(md5(plain))
    case Argon =>
      if hasher.None? then HashFailed
      else match ViaService(plain, hasher.value) case Some(phc) => Hash(phc) case None => HashFailed
  }

  /** `hashPasswordArgon2ViaService`: only an Argon2 string is passed on. */
  function ViaService(plain: string, hasher: Hasher): (r: Option<string>)
    ensures r.Some? ==> IsArgon2StoredHash(r.value)
  {
    match hasher.hash(plain)
    case None => None
    case Some(phc) => if IsArgon2StoredHash(phc) then Some(phc) else None
  }

  function VerifyPassword(plain: string, stored: string, mode: HashMethod, hasher: Option<Hasher>,
                          md5: string -> string): Verdict
  {
    if mode == Md5Only then
      if IsArgon2StoredHash(stored) then Rejected
      else if !IsMd5HexStoredHash(stored) then Rejected
      else if md5(plain) == Lower(stored) then Accepted(None) else Rejected
    else if hasher.None? then Rejected
    else if IsArgon2StoredHash(stored) then
      match hasher.value.verify(plain, stored)
      case Answer(valid) => if valid then Accepted(None) else Rejected
      case Unusable => Rejected
      case Unreachable => Thrown
    else if IsMd5HexStoredHash(stored) then
      if md5(plain) != Lower(stored) then Rejected
      else
        match ViaService(plain, hasher.value)
        case Some(phc) => Accepted(Some(phc))
        case None => Thrown
    else Rejected
  }

  // ---------------------------------------------------------------- assumptions

  /** An MD5 digest is written as 32 lower-case hexadecimal digits. */
  ghost predicate Md5Shape(md5: string -> string) {
    forall p :: |md5(p)| == 32 && AllHex(md5(p)) && Lower(md5(p)) == md5(p)
  }

  /** Ideal Argon2: `origin` is the one password a string was made from, and the only one the
      service ever confirms. The service may still be down. */
  ghost predicate Sound(hasher: Hasher, origin: string -> Option<string>) {
    && (forall p, h :: hasher.verify(p, h) == Answer(true) ==> origin(h) == Some(p))
    && (forall p :: hasher.hash(p).Some? ==> origin(hasher.hash(p).value) == Some(p))
  }

  /** The service is up: it confirms what it should and hashes what it is given. */
  ghost predicate Working(hasher: Hasher, origin: string -> Option<string>) {
    && (forall p, h :: origin(h) == Some(p) ==> hasher.verify(p, h) == Answer(true))
    && (forall p, h :: origin(h) != Some(p) ==> hasher.verify(p, h) == Answer(false))
    && (forall p :: ViaService(p, hasher).Some?)
  }

  /** The passwords a stored hash stands for. */
  predicate Opens(stored: string, plain: string, origin: string -> Option<string>, md5: string -> string) {
    if IsArgon2StoredHash(stored) then origin(stored) == Some(plain)
    else IsMd5HexStoredHash(stored) && md5(plain) == Lower(stored)
  }

  // ---------------------------------------------------------------- one verification

  /** An Argon2 hash is the business of the service alone: accepted exactly if it confirms the
      password, an exception exactly if it cannot be reached, and never accepted in MD5 mode. */
  lemma ServiceDecides(plain: string, stored: string, mode: HashMethod, hasher: Option<Hasher>, md5: string -> string)
    requires |stored| >= 7 && stored[..7] == "$argon2"
    ensures var v := VerifyPassword(plain, stored, mode, hasher, md5);
      && (v.Accepted? <==> mode == Argon && hasher.Some? && hasher.value.verify(plain, stored) == Answer(true))
      && (v.Thrown? <==> mode == Argon && hasher.Some? && hasher.value.verify(plain, stored).Unreachable?)
      && (v.Accepted? ==> v.rehash.None?)
  {
  }

  /** Anything else that is not 32 hexadecimal digits opens to nobody. */
  lemma UnknownShapeRejected(plain: string, stored: string, mode: HashMethod, hasher: Option<Hasher>,
                             md5: string -> string)
    requires |stored| < 7 || stored[..7] != "$argon2"
    requires |Trim(stored)| != 32 || exists i :: 0 <= i < 32 && !IsHex(Trim(stored)[i])
    ensures VerifyPassword(plain, stored, mode, hasher, md5) == Rejected
  {
    hide Trim;
  }

  /** Exactly when a password can be hashed, and how: with MD5 in its mode, otherwise by the service,
      which must be bound and give an Argon2 string. */
  lemma HashesIff(plain: string, mode: HashMethod, hasher: Option<Hasher>, md5: string -> string, stored: string)
    ensures HashPassword(plain, mode, hasher, md5) == Hash(stored) <==>
      if mode == Md5Only then stored == md5(plain)
      else hasher.Some? && hasher.value.hash(plain) == Some(stored) && |stored| >= 7 && stored[..7] == "$argon2"
  {
  }

  /** With the service up, argon mode accepts exactly what the hash stands for. */
  lemma AcceptedIffOpens(plain: string, stored: string, hasher: Hasher, origin: string -> Option<string>,
                         md5: string -> string)
    requires Working(hasher, origin)
    ensures VerifyPassword(plain, stored, Argon, Some(hasher), md5).Accepted?
       <==> Opens(stored, plain, origin, md5)
  {
  }

  /** Whatever the mode and however the service misbehaves, nothing else is accepted, and a new
      hash is handed out only for a password the old one stands for. */
  lemma AcceptedOpens(plain: string, stored: string, mode: HashMethod, hasher: Option<Hasher>,
                      origin: string -> Option<string>, md5: string -> string)
    requires hasher.Some? ==> Sound(hasher.value, origin)
    ensures var v := VerifyPassword(plain, stored, mode, hasher, md5);
      && (v.Accepted? ==> Opens(stored, plain, origin, md5))
      && (v.Accepted? && v.rehash.Some? ==>
            && mode == Argon && !IsArgon2StoredHash(stored)
            && IsArgon2StoredHash(v.rehash.value) && origin(v.rehash.value) == Some(plain))
      && (v.Accepted? && mode == Argon && v.rehash.None? ==> IsArgon2StoredHash(stored))
  {
  }

  /** Hashing as intended in the given mode; MD5 mode does not need the service. */
  ghost predicate Ideal(mode: HashMethod, hasher: Option<Hasher>, origin: string -> Option<string>,
                        md5: string -> string)
  {
    && Md5Shape(md5)
    && (mode == Argon ==> hasher.Some? && Sound(hasher.value, origin) && Working(hasher.value, origin))
  }

  /** A hash just made verifies with its password in the mode it was made in, and in argon mode
      with no other. */
  lemma HashThenVerify(plain: string, other: string, mode: HashMethod, hasher: Option<Hasher>,
                       origin: string -> Option<string>, md5: string -> string)
    requires Ideal(mode, hasher, origin, md5)
    ensures var h := HashPassword(plain, mode, hasher, md5);
      && h.Hash?
      && (VerifyPassword(other, h.stored, mode, hasher, md5).Accepted?
          <==> if mode == Argon then other == plain else md5(other) == md5(plain))
  {
    hide Trim, Lower;
    if mode == Md5Only {
      var digest := md5(plain);
      HexIsTrimmed(digest);
      assert AllHex(digest) && |digest| == 32;
      assert IsHex(digest[0]);
      assert VerifyPassword(other, digest, Md5Only, hasher, md5).Accepted? <==> md5(other) == digest;
    } else {
      AcceptedIffOpens(other, ViaService(plain, hasher.value).value, hasher.value, origin, md5);
    }
  }

  /** Two passwords of which one is accepted and the other refused for the same hash: a hash made
      from the second refuses the first. */
  lemma NewHashRefusesOld(current: string, next: string, stored: string, mode: HashMethod, hasher: Option<Hasher>,
                          origin: string -> Option<string>, md5: string -> string)
    requires Ideal(mode, hasher, origin, md5)
    requires VerifyPassword(current, stored, mode, hasher, md5).Accepted?
    requires VerifyPassword(next, stored, mode, hasher, md5) == Rejected
    ensures var h := HashPassword(next, mode, hasher, md5);
      && h.Hash?
      && VerifyPassword(next, h.stored, mode, hasher, md5).Accepted?
      && !VerifyPassword(current, h.stored, mode, hasher, md5).Accepted?
  {
    hide Trim, Lower;
    HashThenVerify(next, next, mode, hasher, origin, md5);
    HashThenVerify(next, current, mode, hasher, origin, md5);
  }

  /** Upgrading keeps the password: the hash handed out accepts it. */
  lemma RehashAccepts(plain: string, stored: string, mode: HashMethod, hasher: Option<Hasher>,
                      origin: string -> Option<string>, md5: string -> string)
    requires Ideal(mode, hasher, origin, md5)
    ensures var v := VerifyPassword(plain, stored, mode, hasher, md5);
      v.Accepted? && v.rehash.Some? ==> VerifyPassword(plain, v.rehash.value, mode, hasher, md5) == Accepted(None)
  {
    hide Trim, Lower;
    var v := VerifyPassword(plain, stored, mode, hasher, md5);
    if v.Accepted? && v.rehash.Some? {
      AcceptedIffOpens(plain, v.rehash.value, hasher.value, origin, md5);
    }
  }

  lemma HexIsTrimmed(s: string)
    requires AllHex(s)
    ensures Trim(s) == s
  {
    TrimOfTrimmed(s);
  }

  lemma LowerHexIsTrimmed(s: string)
    ensures AllHex(Lower(s)) ==> Trim(s) == s
  {
    if AllHex(Lower(s)) {
      assert forall i :: 0 <= i < |s| ==> IsHex(Lower(s)[i]) && IsHex(s[i]);
      HexIsTrimmed(s);
    }
  }

  /** The empty sentinel of a test user: no password opens it, in any mode. */
  lemma EmptyHashNeverAccepted(plain: string, mode: HashMethod, hasher: Option<Hasher>, md5: string -> string)
    ensures VerifyPassword(plain, "", mode, hasher, md5) == Rejected
  {
  }

  /** The shape test trims and the comparison does not: a padded MD5 hash passes the first and can
      never pass the second. */
  lemma PaddedMd5NeverAccepted(plain: string, stored: string, mode: HashMethod, hasher: Option<Hasher>,
                               md5: string -> string)
    requires Md5Shape(md5) && IsMd5HexStoredHash(stored) && Trim(stored) != stored
    ensures !IsArgon2StoredHash(stored) ==> VerifyPassword(plain, stored, mode, hasher, md5) == Rejected
  {
    hide Trim, IsMd5HexStoredHash;
    LowerHexIsTrimmed(stored);
    assert AllHex(md5(plain));
  }

  /** Exactly when a stored MD5 hash of the password is accepted, in either mode: when it stands
      without surrounding space. In argon mode the service must also be bound and give a new hash;
      if it does not, nothing is answered. */
  lemma Md5AcceptedIffTrimmed(plain: string, stored: string, hasher: Option<Hasher>, md5: string -> string)
    requires Md5Shape(md5) && IsMd5HexStoredHash(stored) && Lower(Trim(stored)) == md5(plain)
    ensures VerifyPassword(plain, stored, Md5Only, hasher, md5).Accepted? <==> Trim(stored) == stored
    ensures VerifyPassword(plain, stored, Argon, hasher, md5).Accepted?
       <==> Trim(stored) == stored && hasher.Some? && ViaService(plain, hasher.value).Some?
    ensures VerifyPassword(plain, stored, Argon, hasher, md5) == Rejected <==> Trim(stored) != stored || hasher.None?
  {
    hide Trim;
    LowerHexIsTrimmed(stored);
    assert AllHex(md5(plain));
    HexIsNotArgon2(stored);
  }

  /** The MD5 shape and the Argon2 prefix exclude each other. */
  lemma HexIsNotArgon2(stored: string)
    requires IsMd5HexStoredHash(stored)
    ensures !IsArgon2StoredHash(stored)
  {
    TrimFront(stored);
    assert IsHex(Trim(stored)[0]);
  }

  /** A text that starts with no space keeps its first character. */
  lemma TrimFront(s: string)
    ensures s != "" && !IsSpace(s[0]) && Trim(s) != "" ==> Trim(s)[0] == s[0]
  {
  }

  // ---------------------------------------------------------------- runs of attempts

  datatype Attempt = Attempt(plain: string, mode: HashMethod, hasher: Option<Hasher>)

  function Outcome(u: User, a: Attempt, md5: string -> string): Verdict {
    VerifyPassword(a.plain, u.passwordHash, a.mode, a.hasher, md5)
  }

  /** The row after one attempt: the caller stores a new hash when it is given one. */
  function AfterAttempt(u: User, a: Attempt, md5: string -> string): User {
    var v := Outcome(u, a, md5);
    if v.Accepted? && v.rehash.Some? then Patched(u, NO_CHANGE.(passwordHash := v.rehash)) else u
  }

  function AfterAttempts(u: User, run: seq<Attempt>, md5: string -> string): User
    decreases |run|
  {
    if run == [] then u
    else AfterAttempts(AfterAttempt(u, run[0], md5), run[1..], md5)
  }

  ghost predicate SoundRun(run: seq<Attempt>, origin: string -> Option<string>) {
    forall a :: a in run && a.hasher.Some? ==> Sound(a.hasher.value, origin)
  }

  /** Only the hash of the row ever changes, so the age of the password does not. */
  lemma {:induction false} OnlyHashChanges(u: User, run: seq<Attempt>, md5: string -> string)
    ensures AfterAttempts(u, run, md5) == u.(passwordHash := AfterAttempts(u, run, md5).passwordHash)
    decreases |run|
  {
    hide Outcome;
    if run != [] { OnlyHashChanges(AfterAttempt(u, run[0], md5), run[1..], md5); }
  }

  /** An Argon2 row is final, and so never becomes MD5 again. */
  lemma {:induction false} Argon2IsFinal(u: User, run: seq<Attempt>, md5: string -> string)
    requires IsArgon2StoredHash(u.passwordHash)
    ensures AfterAttempts(u, run, md5) == u
    decreases |run|
  {
    hide Trim;
    if run != [] { Argon2IsFinal(u, run[1..], md5); }
  }

  /** Whatever is tried, in whatever modes and with the service up or down, the passwords a row
      stands for never grow. */
  lemma {:induction false} NeverOpensMore(u: User, run: seq<Attempt>, plain: string,
                                          origin: string -> Option<string>, md5: string -> string)
    requires SoundRun(run, origin)
    ensures Opens(AfterAttempts(u, run, md5).passwordHash, plain, origin, md5)
        ==> Opens(u.passwordHash, plain, origin, md5)
    decreases |run|
  {
    hide VerifyPassword, Trim, IsMd5HexStoredHash;
    if run != [] {
      var a := run[0];
      NeverOpensMore(AfterAttempt(u, a, md5), run[1..], plain, origin, md5);
      AcceptedOpens(a.plain, u.passwordHash, a.mode, a.hasher, origin, md5);
    }
  }

  /** A password accepted once in argon mode, with or without an upgrade, is what the row stands
      for from then on, and the only one. */
  lemma AcceptedStaysAccepted(u: User, a: Attempt, later: seq<Attempt>, plain: string,
                              origin: string -> Option<string>, md5: string -> string)
    requires SoundRun([a] + later, origin)
    requires a.mode == Argon && Outcome(u, a, md5).Accepted?
    ensures Opens(AfterAttempts(u, [a] + later, md5).passwordHash, plain, origin, md5) <==> plain == a.plain
    ensures IsArgon2StoredHash(AfterAttempts(u, [a] + later, md5).passwordHash)
  {
    assert a in [a] + later;
    AcceptedOpens(a.plain, u.passwordHash, a.mode, a.hasher, origin, md5);
    var after := AfterAttempt(u, a, md5);
    assert ([a] + later)[1..] == later;
    Argon2IsFinal(after, later, md5);
  }

  // ---------------------------------------------------------------- attempts that overlap a change

  /** The new hash an attempt writes after verifying against `stored`. */
  function Earned(md5: string -> string): LazyUpgrade.Rule<Attempt> {
    (a: Attempt, stored: string) =>
      var v := VerifyPassword(a.plain, stored, a.mode, a.hasher, md5);
      if v.Accepted? then v.rehash else None
  }

  lemma Argon2Settles(a: Attempt, stored: string, md5: string -> string)
    ensures IsArgon2StoredHash(stored) ==> Earned(md5)(a, stored).None?
    ensures Earned(md5)(a, stored).Some? ==> IsArgon2StoredHash(Earned(md5)(a, stored).value)
  {
    hide Trim, Lower, IsArgon2StoredHash;
  }

  lemma UpgradesSettle(md5: string -> string)
    ensures LazyUpgrade.Settling(Earned(md5), IsArgon2StoredHash)
  {
    hide Earned, IsArgon2StoredHash;
    forall a: Attempt, s: string
      ensures IsArgon2StoredHash(s) ==> Earned(md5)(a, s).None?
      ensures Earned(md5)(a, s).Some? ==> IsArgon2StoredHash(Earned(md5)(a, s).value)
    {
      Argon2Settles(a, s, md5);
    }
  }

  /** Exactly when a change of password survives the attempts that overlap it, in every run: when no
      upgrade they earned before the change is written after it. `h` is the new hash, which a fresh
      salt makes different from every hash that waits. */
  lemma ChangeSurvivesIff(stored: string, before: seq<LazyUpgrade.Move<Attempt>>, h: string,
                          moves: seq<LazyUpgrade.Move<Attempt>>, md5: string -> string)
    requires IsArgon2StoredHash(h) && forall m :: 0 <= m < |moves| ==> !moves[m].Changes?
    requires var r := LazyUpgrade.AfterMoves(LazyUpgrade.Row(stored, map[]), before, Earned(md5), |before|);
      h !in r.waiting.Values && LazyUpgrade.CanRun(r.(stored := h), moves, Earned(md5))
    ensures var r := LazyUpgrade.AfterMoves(LazyUpgrade.Row(stored, map[]), before, Earned(md5), |before|);
      LazyUpgrade.AfterMoves(r.(stored := h), moves, Earned(md5), |moves|).stored == h
      <==> forall m :: 0 <= m < |moves| ==> !moves[m].Upgrades?
  {
    hide Earned, IsArgon2StoredHash, LazyUpgrade.AfterMoves;
    UpgradesSettle(md5);
    LazyUpgrade.ChangeSurvivesIff(LazyUpgrade.Row(stored, map[]), before, h, moves, Earned(md5), IsArgon2StoredHash);
  }

  /** It can fail: an attempt with the old password verifies, the password changes, and the upgrade
      then puts the old password back. */
  lemma OldPasswordComesBack(old_: string, upgraded: string, h: string, hasher: Hasher, md5: string -> string)
    returns (moves: seq<LazyUpgrade.Move<Attempt>>)
    requires Md5Shape(md5) && hasher.hash(old_) == Some(upgraded) && IsArgon2StoredHash(upgraded)
    ensures |moves| == 3 && moves[1] == LazyUpgrade.Changes(h)
    ensures LazyUpgrade.CanRun(LazyUpgrade.Row(md5(old_), map[]), moves, Earned(md5))
    ensures LazyUpgrade.AfterMoves(LazyUpgrade.Row(md5(old_), map[]), moves, Earned(md5), 3).stored == upgraded
  {
    var a := Attempt(old_, Argon, Some(hasher));
    HexIsTrimmed(md5(old_));
    HexIsNotArgon2(md5(old_));
    hide Trim, Lower, IsArgon2StoredHash, LazyUpgrade.AfterMoves;
    assert Earned(md5)(a, md5(old_)) == Some(upgraded);
    moves := LazyUpgrade.UpgradeComesBack(md5(old_), a, h, Earned(md5));
  }
}

/** OAuth client secrets at rest: apps/auth/src/lib/auth/secret-at-rest.ts. */
module SecretAtRest {
  import opened BitStrings
  import opened JsText
  import LazyUpgrade

  /** HMAC-SHA256 in hexadecimal, from message and key, and UTF-8. */
  datatype Crypto = Crypto(hmacHex: (string, string) -> string, utf8: string -> seq<Byte>)

  datatype SecretVerdict = Refused | Matched(upgradeToStored: Option<string>)

  const PREFIX := "h1:"

  function HexValue(c: char): Option<int> {
    if '0' <= c <= '9' then Some(c as int - 48)
    else if 'a' <= c <= 'f' then Some(c as int - 87)
    else if 'A' <= c <= 'F' then Some(c as int - 55)
    else None
  }

  /** `Buffer.from(s, "hex")`: stops at the first pair that is not two digits. */
  function FromHex(s: string): seq<int> {
    if |s| < 2 || HexValue(s[0]).None? || HexValue(s[1]).None? then []
    else [16 * HexValue(s[0]).value + HexValue(s[1]).value] + FromHex(s[2..])
  }

  predicate TimingSafeEqualHex(a: string, b: string) {
    |a| == |b| && FromHex(a) == FromHex(b)
  }

  function HashClientSecretForStorage(plain: string, key: string, crypto: Crypto): string {
    PREFIX + crypto.hmacHex(plain, key)
  }

  predicate HasKey(key: Option<string>) { key.Some? && key.value != "" }

  function VerifyClientSecretAgainstStored(presented: string, stored: string, key: Option<string>, crypto: Crypto)
    : SecretVerdict
  {
    if PREFIX <= stored then
      if !HasKey(key) then Refused
      else
        var expected := crypto.hmacHex(presented, key.value);
        if TimingSafeEqualHex(expected, stored[|PREFIX|..]) then Matched(None) else Refused
    else if crypto.utf8(presented) != crypto.utf8(stored) then Refused
    else if HasKey(key) then Matched(Some(HashClientSecretForStorage(presented, key.value, crypto)))
    else Matched(None)
  }

  predicate LowerHex(s: string) {
    forall i :: 0 <= i < |s| ==> '0' <= s[i] <= '9' || 'a' <= s[i] <= 'f'
  }

  /** A digest is 64 lower-case digits and, under one key, tells messages apart; so does UTF-8. */
  ghost predicate Ideal(crypto: Crypto) {
    && (forall m, k :: |crypto.hmacHex(m, k)| == 64 && LowerHex(crypto.hmacHex(m, k)))
    && (forall m, n, k :: crypto.hmacHex(m, k) == crypto.hmacHex(n, k) ==> m == n)
    && (forall m, n :: crypto.utf8(m) == crypto.utf8(n) ==> m == n)
  }

  predicate SameDigits(a: string, b: string) {
    |a| == |b| && forall i :: 0 <= i < |a| ==> HexValue(a[i]) == HexValue(b[i])
  }

  lemma SameDigitsStep(a: string, b: string)
    requires |a| == |b| >= 2
    ensures SameDigits(a, b)
       <==> HexValue(a[0]) == HexValue(b[0]) && HexValue(a[1]) == HexValue(b[1]) && SameDigits(a[2..], b[2..])
  {
    if HexValue(a[0]) == HexValue(b[0]) && HexValue(a[1]) == HexValue(b[1]) && SameDigits(a[2..], b[2..]) {
      forall i | 2 <= i < |a| ensures HexValue(a[i]) == HexValue(b[i]) {
        assert HexValue(a[2..][i - 2]) == HexValue(b[2..][i - 2]);
      }
    }
  }

  /** Decoding that stops at a bad pair never makes a text equal to a full digest: the comparison
      holds exactly when every digit has the same value. */
  lemma {:induction false} HexEqualDigits(a: string, b: string)
    requires |a| == |b| && |a| % 2 == 0 && forall i :: 0 <= i < |a| ==> HexValue(a[i]).Some?
    ensures TimingSafeEqualHex(a, b) <==> SameDigits(a, b)
  {
    if |a| >= 2 {
      HexEqualDigits(a[2..], b[2..]);
      SameDigitsStep(a, b);
      hide SameDigits;
      var p, q := HexValue(a[0]).value, HexValue(a[1]).value;
      assert FromHex(a) == [16 * p + q] + FromHex(a[2..]);
      if HexValue(b[0]).Some? && HexValue(b[1]).Some? {
        var x, y := HexValue(b[0]).value, HexValue(b[1]).value;
        assert FromHex(b) == [16 * x + y] + FromHex(b[2..]);
        assert FromHex(a) == FromHex(b) <==> p == x && q == y && FromHex(a[2..]) == FromHex(b[2..]) by {
          assert FromHex(a)[0] == 16 * p + q && FromHex(b)[0] == 16 * x + y;
          assert FromHex(a)[1..] == FromHex(a[2..]) && FromHex(b)[1..] == FromHex(b[2..]);
        }
      } else {
        assert FromHex(b) == [];
      }
    }
  }

  predicate AcceptsSecret(stored: string, presented: string, key: Option<string>, crypto: Crypto) {
    VerifyClientSecretAgainstStored(presented, stored, key, crypto).Matched?
  }

  lemma LowerHexSame(a: string, b: string)
    requires LowerHex(a) && LowerHex(b)
    ensures SameDigits(a, b) <==> a == b
  {
  }

  /** A stored digest matches exactly the secret it was made from. */
  lemma DigestAccepts(plain: string, presented: string, key: string, crypto: Crypto)
    requires Ideal(crypto) && key != ""
    ensures VerifyClientSecretAgainstStored(presented, HashClientSecretForStorage(plain, key, crypto), Some(key),
                                            crypto)
         == if presented == plain then Matched(None) else Refused
  {
    var digest, expected := crypto.hmacHex(plain, key), crypto.hmacHex(presented, key);
    assert (PREFIX + digest)[|PREFIX|..] == digest;
    HexEqualDigits(expected, digest);
    LowerHexSame(expected, digest);
  }

  /** The stored value after one presentation: the caller writes the upgrade when given one. */
  function AfterPresented(stored: string, presented: string, key: Option<string>, crypto: Crypto): string {
    var v := VerifyClientSecretAgainstStored(presented, stored, key, crypto);
    if v.Matched? && v.upgradeToStored.Some? then v.upgradeToStored.value else stored
  }

  /** The key may be missing at some presentations and is the same at the others. */
  datatype Presentation = Presentation(secret: string, keyed: bool)

  function AfterPresentations(stored: string, run: seq<Presentation>, key: string, crypto: Crypto): string
    decreases |run|
  {
    if run == [] then stored
    else
      var first := AfterPresented(stored, run[0].secret, if run[0].keyed then Some(key) else None, crypto);
      AfterPresentations(first, run[1..], key, crypto)
  }

  /** Lazy migration never changes which secrets are good: at every point of every run the stored
      value accepts, under the key, exactly what the original did. */
  lemma {:induction false} MigrationKeepsAccepted(stored: string, run: seq<Presentation>, presented: string,
                                                  key: string, crypto: Crypto)
    requires Ideal(crypto) && key != ""
    ensures AcceptsSecret(AfterPresentations(stored, run, key, crypto), presented, Some(key), crypto)
       <==> AcceptsSecret(stored, presented, Some(key), crypto)
    decreases |run|
  {
    if run != [] {
      var k := if run[0].keyed then Some(key) else None;
      var first := AfterPresented(stored, run[0].secret, k, crypto);
      MigrationKeepsAccepted(first, run[1..], presented, key, crypto);
      if first != stored {
        assert first == HashClientSecretForStorage(stored, key, crypto);
        DigestAccepts(stored, presented, key, crypto);
      }
    }
  }

  /** A legacy secret that does not look like a digest is itself the one secret accepted, with or
      without a key; once migrated, it is refused whenever the key is missing. */
  lemma LegacyAccepts(stored: string, presented: string, key: Option<string>, crypto: Crypto)
    requires Ideal(crypto) && !("h1:" <= stored)
    ensures AcceptsSecret(stored, presented, key, crypto) <==> presented == stored
    ensures HasKey(key) ==>
      && "h1:" <= AfterPresented(stored, stored, key, crypto)
      && !AcceptsSecret(AfterPresented(stored, stored, key, crypto), presented, None, crypto)
  {
    if HasKey(key) {
      assert AfterPresented(stored, stored, key, crypto) == PREFIX + crypto.hmacHex(stored, key.value);
    }
  }

  // ---------------------------------------------------------------- presentations that overlap a rotation

  /** The digest a presentation writes after verifying against `stored`. */
  function Earned(key: string, crypto: Crypto): LazyUpgrade.Rule<Presentation> {
    (p: Presentation, stored: string) =>
      var v := VerifyClientSecretAgainstStored(p.secret, stored, if p.keyed then Some(key) else None, crypto);
      if v.Matched? then v.upgradeToStored else None
  }

  predicate IsDigest(stored: string) { PREFIX <= stored }

  lemma DigestSettles(p: Presentation, stored: string, key: string, crypto: Crypto)
    ensures IsDigest(stored) ==> Earned(key, crypto)(p, stored).None?
    ensures Earned(key, crypto)(p, stored).Some? ==> IsDigest(Earned(key, crypto)(p, stored).value)
    ensures !IsDigest(stored) && p.keyed && key != "" && p.secret == stored
        ==> Earned(key, crypto)(p, stored) == Some(HashClientSecretForStorage(stored, key, crypto))
  {
    var v := VerifyClientSecretAgainstStored(p.secret, stored, if p.keyed then Some(key) else None, crypto);
    assert Earned(key, crypto)(p, stored) == if v.Matched? then v.upgradeToStored else None;
  }

  lemma UpgradesSettle(key: string, crypto: Crypto)
    ensures LazyUpgrade.Settling(Earned(key, crypto), IsDigest)
  {
    hide Earned, IsDigest;
    forall p: Presentation, s: string
      ensures IsDigest(s) ==> Earned(key, crypto)(p, s).None?
      ensures Earned(key, crypto)(p, s).Some? ==> IsDigest(Earned(key, crypto)(p, s).value)
    {
      DigestSettles(p, s, key, crypto);
    }
  }

  /** Exactly when a rotated secret survives the presentations of the old one that overlap the
      rotation: when no digest they earned before it is written after it. */
  lemma RotationSurvivesIff(stored: string, before: seq<LazyUpgrade.Move<Presentation>>, next: string,
                            moves: seq<LazyUpgrade.Move<Presentation>>, key: string, crypto: Crypto)
    requires forall m :: 0 <= m < |moves| ==> !moves[m].Changes?
    requires var r := LazyUpgrade.AfterMoves(LazyUpgrade.Row(stored, map[]), before, Earned(key, crypto), |before|);
      var h := HashClientSecretForStorage(next, key, crypto);
      h !in r.waiting.Values && LazyUpgrade.CanRun(r.(stored := h), moves, Earned(key, crypto))
    ensures var r := LazyUpgrade.AfterMoves(LazyUpgrade.Row(stored, map[]), before, Earned(key, crypto), |before|);
      var h := HashClientSecretForStorage(next, key, crypto);
      LazyUpgrade.AfterMoves(r.(stored := h), moves, Earned(key, crypto), |moves|).stored == h
      <==> forall m :: 0 <= m < |moves| ==> !moves[m].Upgrades?
  {
    hide Earned, LazyUpgrade.AfterMoves;
    UpgradesSettle(key, crypto);
    LazyUpgrade.ChangeSurvivesIff(LazyUpgrade.Row(stored, map[]), before,
                                  HashClientSecretForStorage(next, key, crypto), moves, Earned(key, crypto),
                                  IsDigest);
  }

  /** It can fail: a plain secret is presented, the secret is rotated, and the digest of the old one
      is written over the new one; from then on the old secret is good and the new one is not. */
  lemma OldSecretComesBack(old_: string, next: string, key: string, crypto: Crypto)
    returns (moves: seq<LazyUpgrade.Move<Presentation>>)
    requires Ideal(crypto) && key != "" && !(PREFIX <= old_) && next != old_
    ensures |moves| == 3 && moves[1] == LazyUpgrade.Changes(HashClientSecretForStorage(next, key, crypto))
    ensures LazyUpgrade.CanRun(LazyUpgrade.Row(old_, map[]), moves, Earned(key, crypto))
    ensures var stored := LazyUpgrade.AfterMoves(LazyUpgrade.Row(old_, map[]), moves, Earned(key, crypto), 3).stored;
      AcceptsSecret(stored, old_, Some(key), crypto) && !AcceptsSecret(stored, next, Some(key), crypto)
  {
    hide LazyUpgrade.AfterMoves;
    var p := Presentation(old_, true);
    DigestSettles(p, old_, key, crypto);
    moves := LazyUpgrade.UpgradeComesBack(old_, p, HashClientSecretForStorage(next, key, crypto), Earned(key, crypto));
    DigestAccepts(old_, old_, key, crypto);
    DigestAccepts(old_, next, key, crypto);
  }
}
