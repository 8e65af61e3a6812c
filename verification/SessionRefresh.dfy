/** The admin claim of a JWT session, re-derived from the user table at most once per interval:
    apps/auth/src/lib/auth/session-admin-refresh.ts and the `jwt` callback of apps/auth/src/auth.ts.
    Times are milliseconds. */
module SessionRefresh {
  import opened JsText
  import opened UserTable

  const ADMIN_RECHECK_INTERVAL_MS := 300_000

  /** The claims of a token. An id that is absent or not a string is None. */
  datatype Claims = Claims(id: Option<string>, isAdmin: bool, adminCheckedAt: Option<int>)

  /** What reading the table gave: nothing usable, or the flag of the user, None when deleted. */
  datatype Lookup = LookupFailed | Read(flag: Option<bool>)

  function ReadFlag(rows: seq<User>, id: string): Lookup {
    match FindById(rows, id)
    case None => Read(None)
    case Some(u) => Read(Some(u.isAdmin))
  }

  /** The claim a successful look-up leads to: a deleted user is no admin. */
  function Flag(flag: Option<bool>): bool { flag == Some(true) }

  function CheckedAt(c: Claims): int { c.adminCheckedAt.GetOr(0) }

  predicate HasUser(c: Claims) { c.id.Some? && c.id.value != "" }

  /** The call reads the table. */
  predicate Due(c: Claims, now: int, interval: int) {
    HasUser(c) && now - CheckedAt(c) >= interval
  }

  function Refreshed(c: Claims, now: int, interval: int, lookup: Lookup): Claims {
    if Due(c, now, interval) && lookup.Read? then Claims(c.id, Flag(lookup.flag), Some(now)) else c
  }

  /** The claims the callback copies from the user and never refreshes. */
  datatype Profile = Profile(username: string, name: string, email: Option<string>, picture: Option<string>)

  function SignedIn(id: string, isAdmin: bool, now: int): Claims {
    Claims(Some(id), isAdmin, Some(now))
  }

  class Token {
    var id: Option<string>
    var isAdmin: bool
    var adminCheckedAt: Option<int>
    var profile: Option<Profile>

    ghost function Value(): Claims
      reads this
    {
      Claims(id, isAdmin, adminCheckedAt)
    }

    constructor (claims: Claims)
      ensures Value() == claims && profile == None
    {
      id, isAdmin, adminCheckedAt, profile := claims.id, claims.isAdmin, claims.adminCheckedAt, None;
    }
  }

  method RefreshAdminClaim(token: Token, now: int, intervalMs: Option<int>, lookup: Lookup)
    modifies token`isAdmin, token`adminCheckedAt
    ensures token.Value() == Refreshed(old(token.Value()), now, intervalMs.GetOr(300_000), lookup)
  {
    var interval := intervalMs.GetOr(ADMIN_RECHECK_INTERVAL_MS);
    if token.id.None? || token.id.value == "" { return; }
    var lastChecked := token.adminCheckedAt.GetOr(0);
    if now - lastChecked < interval { return; }
    match lookup
    case LookupFailed => return;
    case Read(flag) =>
      token.isAdmin := if flag.None? then false else flag.value;
      token.adminCheckedAt := Some(now);
  }

  /** The callback: stamps the claims when a user has just signed in, refreshes them otherwise. Only
      the sign-in writes the profile. */
  method Jwt(token: Token, user: Option<User>, profile: Profile, now: int, lookup: Lookup)
    modifies token
    ensures token.Value()
         == if user.Some? then SignedIn(user.value.id, user.value.isAdmin, now)
            else Refreshed(old(token.Value()), now, 300_000, lookup)
    ensures user.Some? ==>
      token.id == Some(user.value.id) && token.isAdmin == user.value.isAdmin && token.adminCheckedAt == Some(now)
    ensures user.None? ==> token.id == old(token.id)
    ensures token.profile == if user.Some? then Some(profile) else old(token.profile)
  {
    if user.Some? {
      token.profile := Some(profile);
      token.id := Some(user.value.id);
      token.isAdmin := user.value.isAdmin;
      token.adminCheckedAt := Some(now);
      return;
    }
    RefreshAdminClaim(token, now, None, lookup);
  }

  // ---------------------------------------------------------------- runs

  datatype Call = Call(now: int, lookup: Lookup)

  /** The claims after the first n calls. */
  function After(c: Claims, run: seq<Call>, interval: int, n: nat): Claims
    requires n <= |run|
  {
    if n == 0 then c else Refreshed(After(c, run, interval, n - 1), run[n - 1].now, interval, run[n - 1].lookup)
  }

  /** The k-th call read the table and got an answer. */
  predicate Succeeded(c: Claims, run: seq<Call>, interval: int, k: nat) {
    k < |run| && Due(After(c, run, interval, k), run[k].now, interval) && run[k].lookup.Read?
  }

  /** The k-th call tried to read the table and failed. */
  predicate Erred(c: Claims, run: seq<Call>, interval: int, k: nat) {
    k < |run| && Due(After(c, run, interval, k), run[k].now, interval) && run[k].lookup.LookupFailed?
  }

  /** Where a claim comes from: the sign-in, or the successful call `k`. */
  datatype Source = FromSignIn | FromCall(k: nat)

  predicate Last(c: Claims, run: seq<Call>, interval: int, n: nat, s: Source) {
    match s
    case FromSignIn => forall k | 0 <= k < n :: !Succeeded(c, run, interval, k)
    case FromCall(k) =>
      k < n && Succeeded(c, run, interval, k) && forall j | k < j < n :: !Succeeded(c, run, interval, j)
  }

  /** At every point of every run the claims are exactly those of the last successful look-up, or
      of the sign-in while there has been none. */
  lemma {:induction false} ClaimsOfLastSource(c: Claims, run: seq<Call>, interval: int, n: nat) returns (s: Source)
    requires n <= |run|
    ensures Last(c, run, interval, n, s)
    ensures After(c, run, interval, n)
         == match s
            case FromSignIn => c
            case FromCall(k) => Claims(c.id, Flag(run[k].lookup.flag), Some(run[k].now))
  {
    if n == 0 {
      s := FromSignIn;
    } else {
      s := ClaimsOfLastSource(c, run, interval, n - 1);
      if Succeeded(c, run, interval, n - 1) { s := FromCall(n - 1); }
    }
  }

  /** The time a claim was stamped at. */
  function StampedAt(c: Claims, run: seq<Call>, s: Source): int
    requires s.FromCall? ==> s.k < |run|
  {
    match s
    case FromSignIn => CheckedAt(c)
    case FromCall(k) => run[k].now
  }

  /** After a call without a look-up error the claim was stamped less than an interval before it. */
  lemma BoundedStaleness(c: Claims, run: seq<Call>, interval: int, n: nat) returns (s: Source)
    requires HasUser(c) && 0 < interval && 0 < n <= |run|
    requires !Erred(c, run, interval, n - 1)
    ensures Last(c, run, interval, n, s)
    ensures After(c, run, interval, n).isAdmin
         == match s
            case FromSignIn => c.isAdmin
            case FromCall(k) => Flag(run[k].lookup.flag)
    ensures run[n - 1].now - StampedAt(c, run, s) < interval
  {
    s := ClaimsOfLastSource(c, run, interval, n);
    var before := ClaimsOfLastSource(c, run, interval, n - 1);
    assert After(c, run, interval, n)
        == Refreshed(After(c, run, interval, n - 1), run[n - 1].now, interval, run[n - 1].lookup);
  }

  /** Look-ups report the flag the table holds at that moment. */
  predicate Honest(run: seq<Call>, db: int -> Option<bool>) {
    forall k | 0 <= k < |run| && run[k].lookup.Read? :: run[k].lookup.flag == db(run[k].now)
  }

  /** A change of the flag, or a deletion, that stands from `changed` on shows in the session after
      one interval at the latest, unless the look-up itself fails. */
  lemma RevocationTakesEffect(c: Claims, run: seq<Call>, interval: int, n: nat, db: int -> Option<bool>,
                              changed: int, flag: Option<bool>)
    requires HasUser(c) && 0 < interval && 0 < n <= |run|
    requires Honest(run, db) && forall t :: changed <= t ==> db(t) == flag
    requires !Erred(c, run, interval, n - 1)
    requires changed + interval <= run[n - 1].now && CheckedAt(c) <= changed
    ensures After(c, run, interval, n).isAdmin == Flag(flag)
  {
    var s := BoundedStaleness(c, run, interval, n);
  }

  /** Once a deleted user has been looked up, the claim is false for the rest of the run. */
  lemma {:induction false} DeletedStaysOut(c: Claims, run: seq<Call>, interval: int, from: nat, n: nat)
    requires from < n <= |run| && Succeeded(c, run, interval, from)
    requires forall k | from <= k < |run| :: run[k].lookup == LookupFailed || run[k].lookup == Read(None)
    ensures !After(c, run, interval, n).isAdmin
  {
    if n - 1 > from { DeletedStaysOut(c, run, interval, from, n - 1); }
  }

  // ---------------------------------------------------------------- how often the table is read

  /** The times of the successful look-ups among the first n calls. */
  function Successes(c: Claims, run: seq<Call>, interval: int, n: nat): seq<int>
    requires n <= |run|
  {
    if n == 0 then []
    else Successes(c, run, interval, n - 1) + if Succeeded(c, run, interval, n - 1) then [run[n - 1].now] else []
  }

  predicate Spaced(times: seq<int>, start: int, interval: int) {
    && (times != [] ==> times[0] >= start + interval)
    && forall i | 0 < i < |times| :: times[i] >= times[i - 1] + interval
  }

  /** Successful look-ups are at least an interval apart, and from the stamp the run starts with. */
  lemma {:induction false} SuccessesSpaced(c: Claims, run: seq<Call>, interval: int, n: nat)
    requires n <= |run|
    ensures var times := Successes(c, run, interval, n);
      && Spaced(times, CheckedAt(c), interval)
      && CheckedAt(After(c, run, interval, n)) == if times == [] then CheckedAt(c) else times[|times| - 1]
  {
    if n > 0 { SuccessesSpaced(c, run, interval, n - 1); }
  }

  /** So k of them span at least k intervals from the stamp, and k - 1 among themselves. */
  lemma {:induction false} SpacedSpan(times: seq<int>, start: int, interval: int)
    requires Spaced(times, start, interval) && times != []
    ensures times[|times| - 1] >= start + |times| * interval
    ensures times[|times| - 1] - times[0] >= (|times| - 1) * interval
  {
    var k := |times|;
    if k > 1 {
      var init := times[..k - 1];
      SpacedSpan(init, start, interval);
      assert |init| == k - 1 && init[k - 2] == times[k - 2] && init[0] == times[0];
      assert k * interval == (k - 1) * interval + interval && (k - 1) * interval == (k - 2) * interval + interval;
    }
  }

  lemma SuccessesSpan(c: Claims, run: seq<Call>, interval: int)
    ensures var times := Successes(c, run, interval, |run|);
      times != [] ==>
        && times[|times| - 1] >= CheckedAt(c) + |times| * interval
        && times[|times| - 1] - times[0] >= (|times| - 1) * interval
  {
    SuccessesSpaced(c, run, interval, |run|);
    if Successes(c, run, interval, |run|) != [] {
      SpacedSpan(Successes(c, run, interval, |run|), CheckedAt(c), interval);
    }
  }
}
