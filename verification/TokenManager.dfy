/** The client-side token holder: packages/eetr-auth-client/src/tokens.ts, one call at a time. The
    clock and the answers of the token endpoint are inputs. Times are milliseconds. */
module TokenManager {
  import opened JsText

  const SKEW_MS := 30_000

  /** A response of the token endpoint; `expiresIn` in seconds. */
  datatype TokenResponse = TokenResponse(accessToken: string, expiresIn: Option<int>, refreshToken: Option<string>)

  /** How an exchange ends: with a response stored when the clock shows `at`, or with an error. */
  datatype Exchange = Reply(tokens: TokenResponse, at: int) | ExchangeFailed

  datatype Outcome = Token(token: string) | NoToken | Failed

  /** The three private fields. */
  datatype Held = Held(accessToken: Option<string>, refreshToken: Option<string>, expiresAt: Option<int>)

  const NOTHING := Held(None, None, None)

  /** JavaScript truth of a text or null, and of a number or null. */
  predicate Truthy(s: Option<string>) { s.Some? && s.value != "" }

  predicate NonZero(n: Option<int>) { n.Some? && n.value != 0 }

  function Stored(tokens: TokenResponse, now: int): Held {
    Held(Some(tokens.accessToken),
         tokens.refreshToken,
         if NonZero(tokens.expiresIn) then Some(now + tokens.expiresIn.value * 1000) else None)
  }

  /** The token in memory will do at `now`. */
  predicate Usable(h: Held, now: int) {
    Truthy(h.accessToken) && NonZero(h.expiresAt) && now < h.expiresAt.value - SKEW_MS
  }

  /** A call at `now` sends the refresh token to the endpoint. */
  predicate Presents(h: Held, now: int) { !Usable(h, now) && Truthy(h.refreshToken) }

  function AfterGet(h: Held, now: int, exchange: Exchange): Held {
    if Presents(h, now) && exchange.Reply? then Stored(exchange.tokens, exchange.at) else h
  }

  function GetOutcome(h: Held, now: int, exchange: Exchange): Outcome {
    if Usable(h, now) then Token(h.accessToken.value)
    else if !Truthy(h.refreshToken) then NoToken
    else if exchange.Reply? then Token(exchange.tokens.accessToken)
    else Failed
  }

  class Manager {
    var accessToken: Option<string>
    var refreshToken: Option<string>
    var expiresAt: Option<int>

    ghost function Fields(): Held
      reads this
    {
      Held(accessToken, refreshToken, expiresAt)
    }

    constructor ()
      ensures Fields() == NOTHING
    {
      accessToken, refreshToken, expiresAt := None, None, None;
    }

    method GetAccessToken(now: int, exchange: Exchange) returns (r: Outcome)
      modifies this
      ensures Fields() == AfterGet(old(Fields()), now, exchange)
      ensures r == GetOutcome(old(Fields()), now, exchange)
      ensures old(accessToken).Some? && old(accessToken).value != ""
              && old(expiresAt).Some? && old(expiresAt).value != 0 && now < old(expiresAt).value - 30_000
          ==> r == Token(old(accessToken).value) && Fields() == old(Fields())
    {
      if Truthy(accessToken) && NonZero(expiresAt) && now < expiresAt.value - SKEW_MS {
        return Token(accessToken.value);
      }
      if Truthy(refreshToken) {
        var tokens := Refresh(refreshToken.value, exchange);
        if tokens.None? { return Failed; }
        return Token(accessToken.value);
      }
      return NoToken;
    }

    method SetTokens(tokens: TokenResponse, now: int)
      modifies this
      ensures Fields() == Stored(tokens, now)
    {
      accessToken := Some(tokens.accessToken);
      refreshToken := tokens.refreshToken;
      expiresAt := if NonZero(tokens.expiresIn) then Some(now + tokens.expiresIn.value * 1000) else None;
    }

    /** The request carries `presented`; a failed exchange throws before anything is stored. */
    method Refresh(presented: string, exchange: Exchange) returns (tokens: Option<TokenResponse>)
      modifies this
      ensures tokens == if exchange.Reply? then Some(exchange.tokens) else None
      ensures Fields() == if tokens.Some? then Stored(tokens.value, exchange.at) else old(Fields())
    {
      if exchange.ExchangeFailed? { return None; }
      SetTokens(exchange.tokens, exchange.at);
      return Some(exchange.tokens);
    }
  }

  // ---------------------------------------------------------------- runs

  datatype Event = Set(tokens: TokenResponse, at: int) | Get(now: int, exchange: Exchange)

  function Step(h: Held, e: Event): Held {
    match e
    case Set(tokens, at) => Stored(tokens, at)
    case Get(now, exchange) => AfterGet(h, now, exchange)
  }

  /** The fields before the k-th event of a run from a new manager. */
  function Before(run: seq<Event>, k: nat): Held
    requires k <= |run|
  {
    if k == 0 then NOTHING else Step(Before(run, k - 1), run[k - 1])
  }

  /** The refresh token the k-th event sends, if it sends one. */
  function Presented(run: seq<Event>, k: nat): Option<string>
    requires k < |run|
  {
    if run[k].Get? && Presents(Before(run, k), run[k].now) then Before(run, k).refreshToken else None
  }

  datatype Arrival = Arrival(tokens: TokenResponse, at: int)

  /** The response the k-th event takes in, with the time it is stored. */
  function Taken(run: seq<Event>, k: nat): Option<Arrival>
    requires k < |run|
  {
    match run[k]
    case Set(tokens, at) => Some(Arrival(tokens, at))
    case Get(now, exchange) =>
      if Presents(Before(run, k), now) && exchange.Reply? then Some(Arrival(exchange.tokens, exchange.at)) else None
  }

  /** The last event before the k-th that took in a response; None when there is none. */
  function LastTaken(run: seq<Event>, k: nat): (r: Option<nat>)
    requires k <= |run|
    ensures r.Some? ==> r.value < k && Taken(run, r.value).Some?
    ensures r.Some? ==> forall j | r.value < j < k :: Taken(run, j).None?
    ensures r.None? ==> forall j | 0 <= j < k :: Taken(run, j).None?
  {
    if k == 0 then None
    else if Taken(run, k - 1).Some? then Some(k - 1)
    else LastTaken(run, k - 1)
  }

  /** The fields are always those of the latest response. */
  lemma {:induction false} FieldsAreLatest(run: seq<Event>, k: nat)
    requires k <= |run|
    ensures Before(run, k)
         == match LastTaken(run, k)
            case None => NOTHING
            case Some(j) => Stored(Taken(run, j).value.tokens, Taken(run, j).value.at)
  {
    if k > 0 { FieldsAreLatest(run, k - 1); }
  }

  /** A returned access token is that of the latest response, the one just received included; it
      comes from memory only with more than 30 seconds of its announced life left. */
  lemma ReturnedIsLatest(run: seq<Event>, k: nat)
    requires k < |run| && run[k].Get? && GetOutcome(Before(run, k), run[k].now, run[k].exchange).Token?
    ensures var j := LastTaken(run, k + 1);
      && j.Some?
      && GetOutcome(Before(run, k), run[k].now, run[k].exchange) == Token(Taken(run, j.value).value.tokens.accessToken)
      && (j.value != k ==>
            var last := Taken(run, j.value).value;
            && NonZero(last.tokens.expiresIn)
            && run[k].now + 30_000 < last.at + last.tokens.expiresIn.value * 1000)
  {
    FieldsAreLatest(run, k);
    FieldsAreLatest(run, k + 1);
  }

  /** A token that must be served from memory: announced to live more than 30 seconds longer. */
  predicate Lasts(last: Arrival, now: int) {
    && last.tokens.accessToken != ""
    && last.tokens.expiresIn.Some? && last.tokens.expiresIn.value != 0
    && last.at + last.tokens.expiresIn.value * 1000 != 0
    && now + 30_000 < last.at + last.tokens.expiresIn.value * 1000
  }

  /** What a call does, from the latest response alone: while its token lasts it is returned without
      a request and nothing changes; otherwise its refresh token is sent, if there is one, and the
      answer is the new token or a failure that changes nothing. */
  lemma GetFromLatest(run: seq<Event>, k: nat)
    requires k < |run| && run[k].Get? && LastTaken(run, k).Some?
    ensures var last := Taken(run, LastTaken(run, k).value).value;
      var r := GetOutcome(Before(run, k), run[k].now, run[k].exchange);
      var refresh := last.tokens.refreshToken.GetOr("");
      if Lasts(last, run[k].now) then
        r == Token(last.tokens.accessToken) && Presented(run, k).None? && Before(run, k + 1) == Before(run, k)
      else if refresh == "" then
        r == NoToken && Presented(run, k).None? && Before(run, k + 1) == Before(run, k)
      else
        && Presented(run, k) == Some(refresh)
        && match run[k].exchange
           case ExchangeFailed => r == Failed && Before(run, k + 1) == Before(run, k)
           case Reply(tokens, at) => r == Token(tokens.accessToken) && LastTaken(run, k + 1) == Some(k)
  {
    FieldsAreLatest(run, k);
  }

  /** Each response brings a refresh token no other response brought, or none. */
  predicate FreshTokens(run: seq<Event>) {
    forall i, j | 0 <= i < j < |run| && Taken(run, i).Some? && Taken(run, j).Some?
                  && Truthy(Taken(run, i).value.tokens.refreshToken) ::
      Taken(run, i).value.tokens.refreshToken != Taken(run, j).value.tokens.refreshToken
  }

  /** A refresh token that was exchanged successfully is never presented again. */
  lemma NoRefreshTokenTwice(run: seq<Event>, i: nat, j: nat)
    requires FreshTokens(run) && i < j < |run|
    requires Presented(run, i).Some? && Taken(run, i).Some?
    ensures Presented(run, j) != Presented(run, i)
  {
    FieldsAreLatest(run, i);
    FieldsAreLatest(run, j);
    var a, b := LastTaken(run, i).value, LastTaken(run, j).value;
    assert a < i <= b;
  }

  /** A failed exchange changes nothing, so the same refresh token may be tried again. */
  lemma FailedExchangeRetries(run: seq<Event>, k: nat)
    requires k < |run| && Presented(run, k).Some? && run[k].exchange.ExchangeFailed?
    ensures Before(run, k + 1) == Before(run, k)
    ensures k + 1 < |run| && run[k + 1].Get? && run[k + 1].now >= run[k].now
        ==> Presented(run, k + 1) == Presented(run, k)
  {
  }

  /** The call finds nothing to return or to present exactly when the latest response came without
      a refresh token and its access token cannot be used from memory: a refresh response that
      omits the refresh token drops the one it was obtained with. */
  lemma StrandedWhen(run: seq<Event>, k: nat)
    requires k < |run| && run[k].Get?
    ensures GetOutcome(Before(run, k), run[k].now, run[k].exchange) == NoToken
       <==> match LastTaken(run, k)
            case None => true
            case Some(j) =>
              var last := Taken(run, j).value;
              && !Truthy(last.tokens.refreshToken)
              && !Usable(Stored(last.tokens, last.at), run[k].now)
  {
    FieldsAreLatest(run, k);
  }

  /** Section 6 of RFC 6749 lets the server omit the refresh token and keep the old one valid. Here
      the first such answer ends the session as soon as its access token runs out. */
  lemma OmittedRefreshTokenIsLost(first: TokenResponse, second: TokenResponse, at: int, expired: int, later: Exchange)
    returns (run: seq<Event>)
    requires Truthy(first.refreshToken) && first.expiresIn.None?
    requires second.refreshToken.None? && second.expiresIn.Some?
    requires expired >= at + second.expiresIn.value * 1000 - 30_000
    ensures |run| == 3 && Presented(run, 1) == first.refreshToken && Taken(run, 1) == Some(Arrival(second, at))
    ensures run[2] == Get(expired, later)
    ensures GetOutcome(Before(run, 2), expired, later) == NoToken
  {
    run := [Set(first, at), Get(at, Reply(second, at)), Get(expired, later)];
    assert Before(run, 1) == Stored(first, at);
    assert Before(run, 2) == Stored(second, at);
  }
}

/** Overlapping calls of one token holder: a call that refreshes awaits the endpoint, stores the
    response, and only then, in a later turn, returns the token it finds in memory. */
module TokenOverlaps {
  import opened JsText
  import opened TokenManager

  datatype Phase = Waiting(presented: string) | Returning

  datatype State = State(held: Held, calls: map<nat, Phase>)

  datatype Turn =
    | Sets(tokens: TokenResponse, at: int)
    | Asks(call: nat, now: int)
    | Answered(call: nat, tokens: TokenResponse, at: int)
    | Breaks(call: nat)
    | Returns(call: nat)

  predicate Possible(s: State, t: Turn) {
    match t
    case Sets(_, _) => true
    case Asks(call, _) => call !in s.calls
    case Answered(call, _, _) => call in s.calls && s.calls[call].Waiting?
    case Breaks(call) => call in s.calls && s.calls[call].Waiting?
    case Returns(call) => call in s.calls && s.calls[call].Returning?
  }

  function Next(s: State, t: Turn): State {
    match t
    case Sets(tokens, at) => s.(held := Stored(tokens, at))
    case Asks(call, now) =>
      if Presents(s.held, now) then s.(calls := s.calls[call := Waiting(s.held.refreshToken.value)]) else s
    case Answered(call, tokens, at) => State(Stored(tokens, at), s.calls[call := Returning])
    case Breaks(call) => s.(calls := s.calls - {call})
    case Returns(call) => s.(calls := s.calls - {call})
  }

  /** The state before the k-th turn, from a new holder. */
  function At(turns: seq<Turn>, k: nat): State
    requires k <= |turns|
  {
    if k == 0 then State(NOTHING, map[]) else Next(At(turns, k - 1), turns[k - 1])
  }

  predicate Runs(turns: seq<Turn>) { forall k | 0 <= k < |turns| :: Possible(At(turns, k), turns[k]) }

  /** The turn stores a response. */
  predicate Stores(t: Turn) { t.Sets? || t.Answered? }

  /** The refresh token the k-th turn sends, if it sends one. */
  function Sent(turns: seq<Turn>, k: nat): Option<string>
    requires k < |turns|
  {
    if turns[k].Asks? && Presents(At(turns, k).held, turns[k].now) then At(turns, k).held.refreshToken else None
  }

  /** Each response brings a refresh token no other response brought, or none. */
  predicate AllFresh(turns: seq<Turn>) {
    forall i, j | 0 <= i < j < |turns| && Stores(turns[i]) && Stores(turns[j]) ::
      Truthy(turns[i].tokens.refreshToken) ==> turns[i].tokens.refreshToken != turns[j].tokens.refreshToken
  }

  /** The last of the first k turns that stored a response. */
  function LastStored(turns: seq<Turn>, k: nat): (r: Option<nat>)
    requires k <= |turns|
    ensures r.Some? ==> r.value < k && Stores(turns[r.value]) && forall j | r.value < j < k :: !Stores(turns[j])
    ensures r.None? ==> forall j | 0 <= j < k :: !Stores(turns[j])
  {
    if k == 0 then None else if Stores(turns[k - 1]) then Some(k - 1) else LastStored(turns, k - 1)
  }

  /** Under every interleaving the fields are those of the response stored last. */
  lemma {:induction false} HeldIsLastStored(turns: seq<Turn>, k: nat)
    requires k <= |turns|
    ensures At(turns, k).held
         == match LastStored(turns, k)
            case None => NOTHING
            case Some(j) => Stored(turns[j].tokens, turns[j].at)
  {
    if k > 0 { HeldIsLastStored(turns, k - 1); }
  }

  /** Exactly when two calls present the same refresh token: when nothing is stored between them. So
      one exchanged successfully is never sent again, and overlapping calls may send it twice. */
  lemma SameTokenSentIff(turns: seq<Turn>, i: nat, j: nat)
    requires AllFresh(turns) && i < j < |turns| && Sent(turns, i).Some? && Sent(turns, j).Some?
    ensures Sent(turns, i) == Sent(turns, j) <==> forall m | i < m < j :: !Stores(turns[m])
  {
    HeldIsLastStored(turns, i);
    HeldIsLastStored(turns, j);
    var a, b := LastStored(turns, i).value, LastStored(turns, j).value;
    if a < b { assert i <= b && Stores(turns[b]) && !turns[i].Answered? && !turns[i].Sets?; }
  }

  /** Two calls that start together while the token in memory will not do both present it. */
  lemma TwoSendOne(first: TokenResponse, at: int, now: int) returns (turns: seq<Turn>)
    requires Presents(Stored(first, at), now)
    ensures Runs(turns) && |turns| == 3 && AllFresh(turns)
    ensures Sent(turns, 1) == first.refreshToken && Sent(turns, 2) == first.refreshToken
  {
    turns := [Sets(first, at), Asks(0, now), Asks(1, now)];
    assert At(turns, 0) == State(NOTHING, map[]);
    assert At(turns, 1) == State(Stored(first, at), map[]);
    assert At(turns, 2) == State(Stored(first, at), map[0 := Waiting(first.refreshToken.value)]);
  }

  lemma StepReturning(s: State, t: Turn, call: nat)
    requires Possible(s, t) && call in Next(s, t).calls && Next(s, t).calls[call].Returning?
    ensures t != Returns(call)
    ensures (t.Answered? && t.call == call) || (call in s.calls && s.calls[call].Returning?)
  {
  }

  /** A call about to return has stored its response, at some turn before. */
  lemma {:induction false} ReturningHasStored(turns: seq<Turn>, k: nat, call: nat) returns (m: nat)
    requires Runs(turns) && k <= |turns| && call in At(turns, k).calls && At(turns, k).calls[call].Returning?
    ensures m < k && turns[m].Answered? && turns[m].call == call
    ensures forall n | m < n < k :: turns[n] != Returns(call) && (turns[n].Answered? ==> turns[n].call != call)
  {
    hide Next, Possible;
    assert Possible(At(turns, k - 1), turns[k - 1]);
    StepReturning(At(turns, k - 1), turns[k - 1], call);
    m := k - 1;
    if !(turns[k - 1].Answered? && turns[k - 1].call == call) { m := ReturningHasStored(turns, k - 1, call); }
  }

  /** A call that has refreshed always finds a token to return, as the non-null assertion claims: that
      of the response stored last, which is its own exactly if nothing was stored since. */
  lemma ReturnFindsToken(turns: seq<Turn>, k: nat) returns (m: nat, last: nat)
    requires Runs(turns) && k < |turns| && turns[k].Returns?
    ensures m <= last < k && turns[m].Answered? && turns[m].call == turns[k].call && Stores(turns[last])
    ensures At(turns, k).held.accessToken == Some(turns[last].tokens.accessToken)
    ensures last == m <==> forall n | m < n < k :: !Stores(turns[n])
  {
    assert Possible(At(turns, k), turns[k]);
    m := ReturningHasStored(turns, k, turns[k].call);
    HeldIsLastStored(turns, k);
    last := LastStored(turns, k).value;
  }

  /** The turns of one call with nothing in between: what `getAccessToken` does. */
  lemma AloneIsGet(s: State, call: nat, now: int, exchange: Exchange)
    requires call !in s.calls
    ensures var asked := Next(s, Asks(call, now));
      if !Presents(s.held, now) then asked == s && AfterGet(s.held, now, exchange) == s.held
      else if exchange.ExchangeFailed? then
        Next(asked, Breaks(call)) == s.(held := AfterGet(s.held, now, exchange))
      else
        var stored := Next(asked, Answered(call, exchange.tokens, exchange.at));
        && Next(stored, Returns(call)) == s.(held := AfterGet(s.held, now, exchange))
        && GetOutcome(s.held, now, exchange) == Token(stored.held.accessToken.value)
  {
    var asked := Next(s, Asks(call, now));
    assert asked.calls - {call} == s.calls;
    if Presents(s.held, now) && exchange.Reply? {
      assert Next(asked, Answered(call, exchange.tokens, exchange.at)).calls - {call} == s.calls;
    }
  }
}
