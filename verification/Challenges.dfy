/** One-time codes sent by mail: the challenge rows and the two verifying methods of
    apps/auth/src/lib/services/user-challenge.service.ts. Times are milliseconds. */
module Challenges {
  import opened JsText
  import SecretAtRest

  const OTP_TTL_MS := 600_000

  datatype Kind = MfaOtp | EmailVerification

  datatype Challenge = Challenge(
    userId: string,
    kind: Kind,
    codeHash: Option<string>,
    createdAt: int,
    expiresAt: int,
    consumed: bool,
    otpFailedAttempts: nat)

  type Store = map<string, Challenge>

  datatype OtpResult = OtpOk | MissingOrMismatch | Consumed | Expired | Incorrect | MaxAttemptsExceeded

  /** `hash` is SHA-256 over challenge id, code and server secret, in hexadecimal. */
  datatype OtpRules = OtpRules(hash: (string, string) -> string, maxAttempts: nat)

  predicate Matches(rules: OtpRules, id: string, code: string, row: Challenge) {
    SecretAtRest.TimingSafeEqualHex(rules.hash(id, Trim(code)), row.codeHash.GetOr(""))
  }

  datatype Verified = Verified(store: Store, result: OtpResult)

  /** Looks a code up, and deletes the challenge once it is used, expired or guessed at too often. */
  function VerifyAndConsume(store: Store, kind: Kind, id: string, userId: string, code: string,
                            rules: OtpRules, now: int): Verified
  {
    if id !in store || store[id].kind != kind || store[id].userId != userId then Verified(store, MissingOrMismatch)
    else
      var row := store[id];
      if row.consumed then Verified(store, Consumed)
      else if row.expiresAt <= now then Verified(store - {id}, Expired)
      else if Matches(rules, id, code, row) then Verified(store - {id}, OtpOk)
      else
        var count := row.otpFailedAttempts + 1;
        if count >= rules.maxAttempts then Verified(store - {id}, MaxAttemptsExceeded)
        else Verified(store[id := row.(otpFailedAttempts := count)], Incorrect)
  }

  /** An accepted code was the code of a live challenge of that user and kind, and that challenge is
      gone; no other challenge is touched whatever happens. */
  lemma AcceptedConsumes(store: Store, kind: Kind, id: string, userId: string, code: string, rules: OtpRules, now: int)
    ensures var v := VerifyAndConsume(store, kind, id, userId, code, rules, now);
      && (v.result == OtpOk <==>
            && id in store && store[id].kind == kind && store[id].userId == userId
            && !store[id].consumed && now < store[id].expiresAt && Matches(rules, id, code, store[id]))
      && (v.result == OtpOk ==> id !in v.store)
      && (forall other :: other != id ==> (other in v.store <==> other in store))
      && (forall other :: other != id && other in store ==> v.store[other] == store[other])
      && (id in v.store ==>
            id in store && v.store[id] == store[id].(otpFailedAttempts := v.store[id].otpFailedAttempts))
  {
  }

  /** A try that is not accepted: an expired challenge goes, a wrong code is counted, and the challenge
      goes with the code that reaches the limit; otherwise nothing changes. */
  lemma RefusedLeaves(store: Store, kind: Kind, id: string, userId: string, code: string, rules: OtpRules, now: int)
    ensures var v := VerifyAndConsume(store, kind, id, userId, code, rules, now);
      && (v.result == MissingOrMismatch <==> id !in store || store[id].kind != kind || store[id].userId != userId)
      && (v.result == MissingOrMismatch || v.result == Consumed ==> v.store == store)
      && (v.result == Consumed ==> store[id].consumed)
      && (v.result == Expired ==> !store[id].consumed && store[id].expiresAt <= now && id !in v.store)
      && (v.result == Incorrect ==>
            && id in v.store && v.store[id].otpFailedAttempts == store[id].otpFailedAttempts + 1
            && store[id].otpFailedAttempts + 1 < rules.maxAttempts)
      && (v.result == MaxAttemptsExceeded ==>
            id !in v.store && store[id].otpFailedAttempts + 1 >= rules.maxAttempts)
      && (v.result == Incorrect || v.result == MaxAttemptsExceeded ==>
            now < store[id].expiresAt && !Matches(rules, id, code, store[id]))
  {
    hide Matches;
  }

  /** Codes hash to 64 hexadecimal digits in lower case, different ones differently. */
  ghost predicate IdealCodes(rules: OtpRules) {
    && (forall id, code :: |rules.hash(id, code)| == 64 && SecretAtRest.LowerHex(rules.hash(id, code)))
    && (forall id, a, b :: rules.hash(id, a) == rules.hash(id, b) ==> a == b)
  }

  /** A challenge takes exactly the code it was made for, space around it aside. */
  lemma OnlyTheCode(rules: OtpRules, id: string, mailed: string, typed: string, userId: string, kind: Kind, now: int)
    requires IdealCodes(rules)
    ensures Matches(rules, id, typed, NewChallenge(userId, kind, rules.hash(id, mailed), now))
       <==> Trim(typed) == mailed
  {
    hide Trim;
    var expected, stored := rules.hash(id, Trim(typed)), rules.hash(id, mailed);
    SecretAtRest.HexEqualDigits(expected, stored);
    SecretAtRest.LowerHexSame(expected, stored);
  }

  // ---------------------------------------------------------------- the same in the steps it awaits

  /** What reading the row decides: an answer, a row to delete as expired, or a code to compare. The
      comparison only needs the row that was read. */
  datatype Look = Turned(result: OtpResult) | Lapsed | Held(right: bool)

  function LookUp(store: Store, kind: Kind, id: string, userId: string, code: string, rules: OtpRules, now: int): Look {
    if id !in store || store[id].kind != kind || store[id].userId != userId then Turned(MissingOrMismatch)
    else if store[id].consumed then Turned(Consumed)
    else if store[id].expiresAt <= now then Lapsed
    else Held(Matches(rules, id, code, store[id]))
  }

  datatype Settled = Settled(store: Store, result: OtpResult, drop: bool)

  /** The write that follows, on the store as it has become: a deletion, or one more on the counter
      of the row if it is still there. `drop` is set if a deletion is still to come. */
  function Settle(store: Store, id: string, look: Look, rules: OtpRules): Settled {
    match look
    case Turned(result) => Settled(store, result, false)
    case Lapsed => Settled(store - {id}, Expired, false)
    case Held(right) =>
      if right then Settled(store - {id}, OtpOk, false)
      else if id !in store then Settled(store, Incorrect, false)
      else
        var row := store[id].(otpFailedAttempts := store[id].otpFailedAttempts + 1);
        if row.otpFailedAttempts >= rules.maxAttempts then Settled(store[id := row], MaxAttemptsExceeded, true)
        else Settled(store[id := row], Incorrect, false)
  }

  /** With nothing in between, the steps are the whole call. */
  lemma StepsAreTheCall(store: Store, kind: Kind, id: string, userId: string, code: string, rules: OtpRules, now: int)
    ensures var s := Settle(store, id, LookUp(store, kind, id, userId, code, rules, now), rules);
      VerifyAndConsume(store, kind, id, userId, code, rules, now)
      == Verified(if s.drop then s.store - {id} else s.store, s.result)
  {
    hide Matches;
    if id in store {
      var row := store[id].(otpFailedAttempts := store[id].otpFailedAttempts + 1);
      assert store[id := row] - {id} == store - {id};
    }
  }

  // ---------------------------------------------------------------- creating challenges

  /** `deleteByUserIdAndKind` */
  function WithoutKind(store: Store, userId: string, kind: Kind): (after: Store)
    ensures forall id :: id in after <==> id in store && !(store[id].userId == userId && store[id].kind == kind)
    ensures forall id :: id in after ==> after[id] == store[id]
  {
    map id | id in store && !(store[id].userId == userId && store[id].kind == kind) :: store[id]
  }

  function NewChallenge(userId: string, kind: Kind, codeHash: string, now: int): Challenge {
    Challenge(userId, kind, Some(codeHash), now, now + OTP_TTL_MS, false, 0)
  }

  /** Every stored challenge lives ten minutes. */
  predicate TenMinutes(store: Store) {
    forall id :: id in store ==> store[id].expiresAt == store[id].createdAt + OTP_TTL_MS
  }
}
