/** Overlapping tries of mailed codes: `verifyMfaOtpAndConsume` and its twin of
    apps/auth/src/lib/services/user-challenge.service.ts read the row, compare, and write in separate
    steps, so other requests run in between. */
module CodeTries {
  import opened JsText
  import opened Challenges

  // ---------------------------------------------------------------- the steps

  datatype Try = Try(kind: Kind, id: string, userId: string, code: string, now: int)

  /** A call that has read and has yet to write, or has yet to delete an exhausted challenge. */
  datatype Phase = Looked(t: Try, look: Look) | Dropping(id: string)

  /** `used` are the ids of all challenges there ever were. */
  datatype State = State(store: Store, flying: map<nat, Phase>, answers: map<nat, OtpResult>, used: set<string>)

  datatype Event =
    | Read(call: nat, t: Try)
    | Write(call: nat)
    | Drop(call: nat)
    | Create(id: string, row: Challenge)
    | Delete(id: string)               // the user goes, or another request clears the kind

  predicate Possible(s: State, e: Event) {
    match e
    case Read(call, _) => call !in s.flying && call !in s.answers
    case Write(call) => call in s.flying && s.flying[call].Looked?
    case Drop(call) => call in s.flying && s.flying[call].Dropping?
    case Create(id, _) => id !in s.used
    case Delete(_) => true
  }

  function Next(s: State, e: Event, rules: OtpRules): State {
    match e
    case Read(call, t) =>
      s.(flying := s.flying[call := Looked(t, LookUp(s.store, t.kind, t.id, t.userId, t.code, rules, t.now))])
    case Write(call) =>
      if call !in s.flying || !s.flying[call].Looked? then s
      else
        var p := s.flying[call];
        var r := Settle(s.store, p.t.id, p.look, rules);
        s.(store := r.store, answers := s.answers[call := r.result],
           flying := if r.drop then s.flying[call := Dropping(p.t.id)] else s.flying - {call})
    case Drop(call) =>
      if call !in s.flying || !s.flying[call].Dropping? then s
      else s.(store := s.store - {s.flying[call].id}, flying := s.flying - {call})
    case Create(id, row) => s.(store := s.store[id := row], used := s.used + {id})
    case Delete(id) => s.(store := s.store - {id})
  }

  function At(start: State, events: seq<Event>, rules: OtpRules, k: nat): State
    requires k <= |events|
  {
    if k == 0 then start else Next(At(start, events, rules, k - 1), events[k - 1], rules)
  }

  predicate Runs(start: State, events: seq<Event>, rules: OtpRules) {
    && (forall c :: c in start.store ==> c in start.used)
    && forall k | 0 <= k < |events| :: Possible(At(start, events, rules, k), events[k])
  }

  // ---------------------------------------------------------------- one challenge over time

  /** The counter aside, the row never changes. */
  predicate SameRow(a: Challenge, b: Challenge) { b == a.(otpFailedAttempts := b.otpFailedAttempts) }

  lemma StepKeepsRow(s: State, e: Event, rules: OtpRules, id: string)
    requires Possible(s, e) && forall c :: c in s.store ==> c in s.used
    ensures var v := Next(s, e, rules);
      && s.used <= v.used && (forall c :: c in v.store ==> c in v.used)
      && (id in s.used && id in v.store ==> id in s.store && SameRow(s.store[id], v.store[id]))
  {
    hide Matches;
  }

  lemma {:induction false} IdsKnown(start: State, events: seq<Event>, rules: OtpRules, k: nat)
    requires Runs(start, events, rules) && k <= |events|
    ensures forall c :: c in At(start, events, rules, k).store ==> c in At(start, events, rules, k).used
  {
    hide Next, Possible;
    if k > 0 {
      IdsKnown(start, events, rules, k - 1);
      StepKeepsRow(At(start, events, rules, k - 1), events[k - 1], rules, "");
    }
  }

  /** A challenge once gone stays gone, and while it is there its row is the same. */
  lemma {:induction false} RowOverTime(start: State, events: seq<Event>, rules: OtpRules, m: nat, k: nat, id: string)
    requires Runs(start, events, rules) && m <= k <= |events| && id in At(start, events, rules, m).used
    ensures var before, after := At(start, events, rules, m), At(start, events, rules, k);
      && id in after.used
      && (id in after.store ==> id in before.store && SameRow(before.store[id], after.store[id]))
    decreases k
  {
    hide Next, Possible;
    if m < k {
      RowOverTime(start, events, rules, m, k - 1, id);
      IdsKnown(start, events, rules, k - 1);
      StepKeepsRow(At(start, events, rules, k - 1), events[k - 1], rules, id);
    }
  }

  // ---------------------------------------------------------------- one code, several calls

  /** The call that reads at the r-th event and writes at the w-th. */
  predicate Call(events: seq<Event>, r: nat, w: nat) {
    && r < w < |events| && events[r].Read? && events[w] == Write(events[r].call)
    && forall m :: r < m < w ==> events[m] != Write(events[r].call)
  }

  /** What a try would find at the k-th point. */
  function LookAt(start: State, events: seq<Event>, rules: OtpRules, k: nat, t: Try): Look
    requires k <= |events|
  {
    LookUp(At(start, events, rules, k).store, t.kind, t.id, t.userId, t.code, rules, t.now)
  }

  /** The answer of the call that writes at the w-th event. */
  function AnswerAt(start: State, events: seq<Event>, rules: OtpRules, w: nat): Option<OtpResult> {
    if w < |events| && events[w].Write? && events[w].call in At(start, events, rules, w + 1).answers
    then Some(At(start, events, rules, w + 1).answers[events[w].call]) else None
  }

  lemma StepKeepsLook(s: State, e: Event, rules: OtpRules, call: nat)
    requires Possible(s, e) && call in s.flying && s.flying[call].Looked? && e != Write(call)
    ensures call in Next(s, e, rules).flying && Next(s, e, rules).flying[call] == s.flying[call]
  {
    hide Settle, LookUp;
  }

  lemma StepLooks(s: State, rules: OtpRules, call: nat, t: Try)
    requires Possible(s, Read(call, t))
    ensures call in Next(s, Read(call, t), rules).flying
    ensures Next(s, Read(call, t), rules).flying[call]
         == Looked(t, LookUp(s.store, t.kind, t.id, t.userId, t.code, rules, t.now))
  {
    hide LookUp;
  }

  /** A call keeps what it read until it writes. */
  lemma {:induction false} LookStays(start: State, events: seq<Event>, rules: OtpRules, r: nat, k: nat)
    requires Runs(start, events, rules) && r < k <= |events| && events[r].Read?
    requires forall m :: r < m < k ==> events[m] != Write(events[r].call)
    ensures events[r].call in At(start, events, rules, k).flying
    ensures At(start, events, rules, k).flying[events[r].call]
         == Looked(events[r].t, LookAt(start, events, rules, r, events[r].t))
    decreases k
  {
    hide LookUp, Next, Possible;
    var s := At(start, events, rules, k - 1);
    assert Possible(s, events[k - 1]);
    if r < k - 1 {
      LookStays(start, events, rules, r, k - 1);
      StepKeepsLook(s, events[k - 1], rules, events[r].call);
    } else {
      StepLooks(s, rules, events[r].call, events[r].t);
    }
  }

  lemma StepAnswers(s: State, rules: OtpRules, call: nat, t: Try, look: Look)
    requires Possible(s, Write(call)) && s.flying[call] == Looked(t, look) && look != Turned(OtpOk)
    ensures var v := Next(s, Write(call), rules);
      && call in v.answers && (v.answers[call] == OtpOk ==> t.id !in v.store)
      && (v.answers[call] == OtpOk <==> look == Held(true))
  {
  }

  lemma NeverTurnedOk(start: State, events: seq<Event>, rules: OtpRules, k: nat, t: Try)
    requires k <= |events|
    ensures LookAt(start, events, rules, k, t) != Turned(OtpOk)
  {
    hide At, Matches;
  }

  /** A call is accepted exactly if the challenge was there, live, and its code right, when it read;
      whatever happened in between. */
  lemma ReadDecides(start: State, events: seq<Event>, rules: OtpRules, r: nat, w: nat)
    requires Runs(start, events, rules) && Call(events, r, w)
    ensures AnswerAt(start, events, rules, w) == Some(OtpOk)
       <==> LookAt(start, events, rules, r, events[r].t) == Held(true)
    ensures AnswerAt(start, events, rules, w) == Some(OtpOk)
        ==> events[r].t.id !in At(start, events, rules, w + 1).store
  {
    hide LookAt, Next;
    LookStays(start, events, rules, r, w);
    NeverTurnedOk(start, events, rules, r, events[r].t);
    assert Possible(At(start, events, rules, w), events[w]);
    StepAnswers(At(start, events, rules, w), rules, events[r].call, events[r].t,
                LookAt(start, events, rules, r, events[r].t));
  }

  /** The k-th event takes the challenge away. */
  predicate Removes(start: State, events: seq<Event>, rules: OtpRules, k: nat, id: string) {
    k < |events| && id in At(start, events, rules, k).store && id !in At(start, events, rules, k + 1).store
  }

  /** Between two points a challenge lasts exactly if no event in between removes it. */
  lemma {:induction false} LastsUnlessRemoved(start: State, events: seq<Event>, rules: OtpRules, m: nat, k: nat,
                                              id: string)
    requires Runs(start, events, rules) && m <= k <= |events| && id in At(start, events, rules, m).store
    ensures id in At(start, events, rules, k).store <==> forall n | m <= n < k :: !Removes(start, events, rules, n, id)
    decreases k
  {
    hide Runs, At, SameRow;
    if m < k {
      LastsUnlessRemoved(start, events, rules, m, k - 1, id);
      KnownAt(start, events, rules, m, id);
      RowOverTime(start, events, rules, m, k - 1, id);
      RowOverTime(start, events, rules, k - 1, k, id);
      var gone := Removes(start, events, rules, k - 1, id);
      assert (forall n | m <= n < k :: !Removes(start, events, rules, n, id))
        <==> !gone && forall n | m <= n < k - 1 :: !Removes(start, events, rules, n, id);
    }
  }

  lemma KnownAt(start: State, events: seq<Event>, rules: OtpRules, k: nat, id: string)
    requires Runs(start, events, rules) && k <= |events| && id in At(start, events, rules, k).store
    ensures id in At(start, events, rules, k).used
  {
    IdsKnown(start, events, rules, k);
  }

  /** A later point shows a try the same, while the challenge is there, as an earlier one did. */
  lemma SameLook(start: State, events: seq<Event>, rules: OtpRules, m: nat, k: nat, t: Try)
    requires Runs(start, events, rules) && m <= k <= |events| && LookAt(start, events, rules, m, t) == Held(true)
    ensures LookAt(start, events, rules, k, t) == Held(true) <==> t.id in At(start, events, rules, k).store
  {
    hide Runs, At, Matches;
    KnownAt(start, events, rules, m, t.id);
    RowOverTime(start, events, rules, m, k, t.id);
    if t.id in At(start, events, rules, k).store {
      MatchesIgnoresCounter(rules, t.id, t.code, At(start, events, rules, m).store[t.id],
                            At(start, events, rules, k).store[t.id]);
    }
  }

  lemma MatchesIgnoresCounter(rules: OtpRules, id: string, code: string, a: Challenge, b: Challenge)
    requires SameRow(a, b)
    ensures Matches(rules, id, code, a) == Matches(rules, id, code, b)
  {
  }

  /** Exactly when a second call with a fitting code is accepted too: when no event has removed the
      challenge before it reads. The first accepted call removes it when it writes, so the second
      must have read before that. */
  lemma SecondAcceptedIff(start: State, events: seq<Event>, rules: OtpRules, r1: nat, w1: nat, r2: nat, w2: nat)
    requires Runs(start, events, rules) && Call(events, r1, w1) && Call(events, r2, w2) && r1 < r2
    requires events[r2].t.id == events[r1].t.id
    requires AnswerAt(start, events, rules, w1) == Some(OtpOk)
    requires LookAt(start, events, rules, r1, events[r2].t) == Held(true)
    ensures AnswerAt(start, events, rules, w2) == Some(OtpOk)
       <==> forall n | r1 <= n < r2 :: !Removes(start, events, rules, n, events[r1].t.id)
    ensures AnswerAt(start, events, rules, w2) == Some(OtpOk) ==> r2 < w1
  {
    hide LookAt, At, AnswerAt, Runs;
    var id := events[r1].t.id;
    PresentWhenHeld(start, events, rules, r1, events[r2].t);
    ReadDecides(start, events, rules, r1, w1);
    ReadDecides(start, events, rules, r2, w2);
    SameLook(start, events, rules, r1, r2, events[r2].t);
    LastsUnlessRemoved(start, events, rules, r1, r2, id);
    if w1 < r2 {
      KnownAt(start, events, rules, r1, id);
      RowOverTime(start, events, rules, r1, w1 + 1, id);
      RowOverTime(start, events, rules, w1 + 1, r2, id);
    }
    DifferentEvents(events, r1, w1, r2);
  }

  lemma DifferentEvents(events: seq<Event>, r1: nat, w1: nat, r2: nat)
    requires Call(events, r1, w1) && r2 < |events| && events[r2].Read?
    ensures r2 != w1
  {
  }

  lemma PresentWhenHeld(start: State, events: seq<Event>, rules: OtpRules, k: nat, t: Try)
    requires k <= |events| && LookAt(start, events, rules, k, t).Held?
    ensures t.id in At(start, events, rules, k).store
  {
    hide At, Matches;
  }

  /** Calls on one challenge that do not overlap: each has written before the next reads. Of those at
      most one is accepted. */
  lemma OneAcceptedWhenApart(start: State, events: seq<Event>, rules: OtpRules, r1: nat, w1: nat, r2: nat, w2: nat)
    requires Runs(start, events, rules) && Call(events, r1, w1) && Call(events, r2, w2) && w1 < r2
    requires events[r2].t.id == events[r1].t.id
    requires AnswerAt(start, events, rules, w1) == Some(OtpOk)
    ensures AnswerAt(start, events, rules, w2) != Some(OtpOk)
  {
    hide LookAt, At, AnswerAt, Runs;
    var id := events[r1].t.id;
    ReadDecides(start, events, rules, r1, w1);
    PresentWhenHeld(start, events, rules, r1, events[r1].t);
    ReadDecides(start, events, rules, r2, w2);
    KnownAt(start, events, rules, r1, id);
    RowOverTime(start, events, rules, r1, w1 + 1, id);
    RowOverTime(start, events, rules, w1 + 1, r2, id);
    if LookAt(start, events, rules, r2, events[r2].t) == Held(true) {
      PresentWhenHeld(start, events, rules, r2, events[r2].t);
    }
  }

  /** Overlapping, two are: any live challenge and its code, read twice before the first write. */
  lemma OneCodeTwice(start: State, rules: OtpRules, t: Try) returns (events: seq<Event>)
    requires (forall c :: c in start.store ==> c in start.used) && start.flying == map[] && start.answers == map[]
    requires LookUp(start.store, t.kind, t.id, t.userId, t.code, rules, t.now) == Held(true)
    ensures events == [Read(0, t), Read(1, t), Write(0), Write(1)] && Runs(start, events, rules)
    ensures AnswerAt(start, events, rules, 2) == Some(OtpOk) && AnswerAt(start, events, rules, 3) == Some(OtpOk)
  {
    events := [Read(0, t), Read(1, t), Write(0), Write(1)];
    hide LookUp;
    var look := Looked(t, Held(true));
    var s1 := Next(start, events[0], rules);
    var s2 := Next(s1, events[1], rules);
    var s3 := Next(s2, events[2], rules);
    assert s2.flying == map[0 := look, 1 := look];
    assert s3.flying == map[1 := look];
    assert At(start, events, rules, 0) == start;
    assert At(start, events, rules, 1) == s1;
    assert At(start, events, rules, 2) == s2;
    assert At(start, events, rules, 3) == s3;
  }

  // ---------------------------------------------------------------- how often a code can be guessed

  /** The k-th event reads challenge `id` and goes on to compare a code with it. */
  predicate Compares(start: State, events: seq<Event>, rules: OtpRules, k: nat, id: string) {
    k < |events| && events[k].Read? && events[k].t.id == id && LookAt(start, events, rules, k, events[k].t).Held?
  }

  /** How many of the first k events do. */
  function Compared(start: State, events: seq<Event>, rules: OtpRules, k: nat, id: string): nat
    requires k <= |events|
  {
    if k == 0 then 0
    else Compared(start, events, rules, k - 1, id) + if Compares(start, events, rules, k - 1, id) then 1 else 0
  }

  /** The calls that have compared with `id` and not yet written. */
  function UnderWay(s: State, id: string): set<nat> {
    set c | c in s.flying && s.flying[c].Looked? && s.flying[c].t.id == id && s.flying[c].look.Held?
  }

  function Failures(s: State, id: string): nat {
    if id in s.store then s.store[id].otpFailedAttempts else 0
  }

  lemma StepUnderWay(s: State, e: Event, rules: OtpRules, id: string)
    requires Possible(s, e)
    ensures var v := Next(s, e, rules);
      match e
      case Read(call, t) =>
        call !in UnderWay(s, id)
        && UnderWay(v, id)
           == UnderWay(s, id)
              + if t.id == id && LookUp(s.store, t.kind, t.id, t.userId, t.code, rules, t.now).Held? then {call} else {}
      case Write(call) => UnderWay(v, id) == UnderWay(s, id) - {call}
      case _ => UnderWay(v, id) == UnderWay(s, id)
  {
    hide LookUp, Settle;
  }

  lemma StepFailures(s: State, e: Event, rules: OtpRules, id: string)
    requires Possible(s, e) && id in s.used && id in Next(s, e, rules).store
    ensures id in s.store
    ensures Failures(Next(s, e, rules), id)
         == Failures(s, id) + if e.Write? && e.call in UnderWay(s, id) then 1 else 0
  {
    hide LookUp;
  }

  /** Failures counted plus calls under way grow by one for every comparison, and only so. */
  lemma StepTally(s: State, e: Event, rules: OtpRules, id: string)
    requires Possible(s, e) && id in s.used && id in Next(s, e, rules).store
    ensures var v := Next(s, e, rules);
      Failures(v, id) + |UnderWay(v, id)|
      == Failures(s, id) + |UnderWay(s, id)|
         + if e.Read? && e.t.id == id
              && LookUp(s.store, e.t.kind, e.t.id, e.t.userId, e.t.code, rules, e.t.now).Held? then 1 else 0
  {
    hide Next, LookUp, UnderWay, Failures;
    StepUnderWay(s, e, rules, id);
    StepFailures(s, e, rules, id);
  }

  lemma {:induction false} Tally(start: State, events: seq<Event>, rules: OtpRules, k: nat, id: string)
    requires Runs(start, events, rules) && k <= |events| && id in start.store && UnderWay(start, id) == {}
    ensures var s := At(start, events, rules, k);
      id in s.store ==>
        Compared(start, events, rules, k, id) == Failures(s, id) - Failures(start, id) + |UnderWay(s, id)|
  {
    hide Next, LookUp, UnderWay, Failures, Possible;
    if k > 0 {
      Tally(start, events, rules, k - 1, id);
      assert Possible(At(start, events, rules, k - 1), events[k - 1]);
      assert At(start, events, rules, 0) == start;
      RowOverTime(start, events, rules, 0, k - 1, id);
      RowOverTime(start, events, rules, k - 1, k, id);
      if id in At(start, events, rules, k).store {
        StepTally(At(start, events, rules, k - 1), events[k - 1], rules, id);
      }
    }
  }

  /** A comparison that starts while as many failures as the limit are counted or under way. */
  predicate Exceeds(start: State, events: seq<Event>, rules: OtpRules, k: nat, id: string) {
    && Compares(start, events, rules, k, id)
    && Failures(At(start, events, rules, k), id) + |UnderWay(At(start, events, rules, k), id)| >= rules.maxAttempts
  }

  /** Exactly when a challenge is compared with more codes than the limit leaves it: when some call
      reads while the failures already counted and the calls under way together reach the limit. */
  lemma {:induction false} LimitExceededIff(start: State, events: seq<Event>, rules: OtpRules, k: nat, id: string)
    requires Runs(start, events, rules) && k <= |events| && id in start.store && UnderWay(start, id) == {}
    requires Failures(start, id) < rules.maxAttempts
    ensures Compared(start, events, rules, k, id) > rules.maxAttempts - Failures(start, id)
       <==> exists m :: 0 <= m < k && Exceeds(start, events, rules, m, id)
  {
    hide At, UnderWay, Failures, Runs, LookAt;
    if k > 0 {
      LimitExceededIff(start, events, rules, k - 1, id);
      Tally(start, events, rules, k - 1, id);
      if Compares(start, events, rules, k - 1, id) { PresentWhenHeld(start, events, rules, k - 1, events[k - 1].t); }
      assert (exists m :: 0 <= m < k && Exceeds(start, events, rules, m, id))
        <==> Exceeds(start, events, rules, k - 1, id)
             || exists m :: 0 <= m < k - 1 && Exceeds(start, events, rules, m, id);
    }
  }

  /** Nobody else is at work on the challenge. */
  predicate Quiet(s: State, id: string) {
    UnderWay(s, id) == {} && forall c :: c in s.flying ==> s.flying[c] != Dropping(id)
  }

  /** A full counter means that somebody is about to delete the challenge. */
  predicate FullIsDropping(s: State, rules: OtpRules, id: string) {
    id in s.store && Failures(s, id) >= rules.maxAttempts ==> exists c :: c in s.flying && s.flying[c] == Dropping(id)
  }

  lemma StepFull(s: State, e: Event, rules: OtpRules, id: string)
    requires Possible(s, e) && id in s.used && FullIsDropping(s, rules, id)
    ensures FullIsDropping(Next(s, e, rules), rules, id)
  {
    hide LookUp;
    var v := Next(s, e, rules);
    if id in v.store && Failures(v, id) >= rules.maxAttempts {
      if id in s.store && Failures(s, id) >= rules.maxAttempts {
        var c :| c in s.flying && s.flying[c] == Dropping(id);
        assert c in v.flying && v.flying[c] == Dropping(id);
      } else {
        assert v.flying[e.call] == Dropping(id);
      }
    }
  }

  lemma {:induction false} FullOverTime(start: State, events: seq<Event>, rules: OtpRules, k: nat, id: string)
    requires Runs(start, events, rules) && k <= |events| && id in start.store && FullIsDropping(start, rules, id)
    ensures FullIsDropping(At(start, events, rules, k), rules, id)
  {
    hide Next, FullIsDropping, Possible;
    if k > 0 {
      FullOverTime(start, events, rules, k - 1, id);
      assert Possible(At(start, events, rules, k - 1), events[k - 1]);
      assert At(start, events, rules, 0) == start;
      RowOverTime(start, events, rules, 0, k - 1, id);
      StepFull(At(start, events, rules, k - 1), events[k - 1], rules, id);
    }
  }

  /** Calls that compare only while nobody else is at work keep the limit: five codes for a new
      challenge under the default. */
  lemma ApartKeepsLimit(start: State, events: seq<Event>, rules: OtpRules, id: string)
    requires Runs(start, events, rules) && id in start.store && UnderWay(start, id) == {}
    requires Failures(start, id) < rules.maxAttempts
    requires forall k :: 0 <= k < |events| && Compares(start, events, rules, k, id) ==>
               Quiet(At(start, events, rules, k), id)
    ensures Compared(start, events, rules, |events|, id) <= rules.maxAttempts - Failures(start, id)
  {
    hide At, Runs, LookAt, UnderWay, Failures, Compares;
    LimitExceededIff(start, events, rules, |events|, id);
    forall m | 0 <= m < |events| ensures !Exceeds(start, events, rules, m, id) {
      if Compares(start, events, rules, m, id) {
        FullOverTime(start, events, rules, m, id);
        PresentWhenComparing(start, events, rules, m, id);
      }
    }
  }

  lemma PresentWhenComparing(start: State, events: seq<Event>, rules: OtpRules, k: nat, id: string)
    requires Compares(start, events, rules, k, id)
    ensures id in At(start, events, rules, k).store
  {
    hide LookAt, At;
    PresentWhenHeld(start, events, rules, k, events[k].t);
  }

  /** `n` calls that read before any of them writes. */
  function ReadsOf(t: Try, n: nat): seq<Event> { seq(n, i requires 0 <= i < n => Read(i, t)) }

  lemma {:induction false} ReadsSoFar(start: State, rules: OtpRules, t: Try, n: nat, k: nat)
    requires k <= n && start.flying == map[] && start.answers == map[]
    ensures var s := At(start, ReadsOf(t, n), rules, k);
      s.store == start.store && s.answers == map[] && forall c :: c in s.flying ==> c < k
  {
    hide LookUp;
    if k > 0 { ReadsSoFar(start, rules, t, n, k - 1); }
  }

  lemma ReadsRun(start: State, rules: OtpRules, t: Try, n: nat)
    requires (forall c :: c in start.store ==> c in start.used) && start.flying == map[] && start.answers == map[]
    ensures Runs(start, ReadsOf(t, n), rules)
  {
    hide LookUp, Next, At;
    forall m | 0 <= m < n ensures Possible(At(start, ReadsOf(t, n), rules, m), ReadsOf(t, n)[m]) {
      ReadsSoFar(start, rules, t, n, m);
    }
  }

  /** Without that, there is no limit: any number of overlapping tries are all compared. */
  lemma {:induction false} OverlappingAllCompared(start: State, rules: OtpRules, t: Try, n: nat, k: nat)
    requires (forall c :: c in start.store ==> c in start.used) && start.flying == map[] && start.answers == map[]
    requires LookUp(start.store, t.kind, t.id, t.userId, t.code, rules, t.now).Held? && k <= n
    ensures Runs(start, ReadsOf(t, n), rules) && Compared(start, ReadsOf(t, n), rules, k, t.id) == k
  {
    hide LookUp, Next, At, Runs;
    ReadsRun(start, rules, t, n);
    if k > 0 {
      OverlappingAllCompared(start, rules, t, n, k - 1);
      ReadsSoFar(start, rules, t, n, k - 1);
    }
  }
}
