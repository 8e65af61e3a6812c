/** The scope-name cache behind the discovery endpoints:
    apps/auth/src/lib/cache/scope-discovery-cache.ts. The cache is one variable of the process;
    calls overlap, because a call waits for the scope table between reading the clock and writing
    the variable. Times are milliseconds. */
module ScopeCache {
  import opened JsText

  const TTL_MS := 300_000

  datatype Scope = Scope(id: string, scopeName: string)

  datatype Entry = Entry(scopeNames: seq<string>, expiresAt: int)

  function Names(list: seq<Scope>): (names: seq<string>)
    ensures |names| == |list| && forall i :: 0 <= i < |list| ==> names[i] == list[i].scopeName
  {
    seq(|list|, i requires 0 <= i < |list| => list[i].scopeName)
  }

  /** The entry that answers a call made at `now`. */
  function Hit(cached: Option<Entry>, now: int): Option<seq<string>> {
    if cached.Some? && cached.value.expiresAt > now then Some(cached.value.scopeNames) else None
  }

  /** One call with nothing beside it. `fetch` is what the fetcher would give, None when it fails;
      the call then fails too. */
  class DiscoveryCache {
    var cached: Option<Entry>

    constructor ()
      ensures cached == None
    {
      cached := None;
    }

    method GetCachedScopeNames(now: int, fetch: Option<seq<Scope>>) returns (names: Option<seq<string>>)
      modifies this
      ensures old(cached).Some? && now < old(cached).value.expiresAt ==>
        names == Some(old(cached).value.scopeNames) && cached == old(cached)
      ensures !(old(cached).Some? && now < old(cached).value.expiresAt) ==>
        && names == (if fetch.Some? then Some(Names(fetch.value)) else None)
        && cached == if fetch.None? then old(cached)
                     else Some(Entry(Names(fetch.value), now + 300_000))
    {
      if cached.Some? && cached.value.expiresAt > now {
        return Some(cached.value.scopeNames);
      }
      if fetch.None? { return None; }
      var scopeNames := Names(fetch.value);
      cached := Some(Entry(scopeNames, now + TTL_MS));
      return Some(scopeNames);
    }
  }

  // ---------------------------------------------------------------- overlapping calls

  /** One read of the table: when, and what stood in it. */
  datatype Reading = Reading(at: int, list: seq<Scope>)

  /** A call that missed the cache: waiting for the table, or holding the reading of that number. */
  datatype Pending = Fetching(start: int) | Holding(start: int, reading: nat)

  /** An answer, with the number of the reading it comes from. */
  datatype Answered = Answered(start: int, scopeNames: seq<string>, reading: nat)

  /** `cachedFrom` is the number of the reading behind the entry. */
  datatype World = World(
    clock: int,
    table: seq<Scope>,
    cached: Option<Entry>,
    cachedFrom: nat,
    pending: map<nat, Pending>,
    answers: seq<Answered>,
    readings: seq<Reading>)

  /** What can happen next. The number of a call is any number not in use. */
  datatype Event =
    | Pass(ms: nat)                  // time passes
    | Change(table: seq<Scope>)      // somebody edits the scopes
    | Start(call: nat)               // a call reads the clock, then hits or goes on to fetch
    | ReadTable(call: nat)           // its query reads the table
    | Fail(call: nat)                // its query fails
    | Finish(call: nat)              // it writes the cache and returns

  predicate Possible(w: World, e: Event) {
    match e
    case Pass(_) => true
    case Change(_) => true
    case Start(call) => call !in w.pending
    case ReadTable(call) => call in w.pending && w.pending[call].Fetching?
    case Fail(call) => call in w.pending && w.pending[call].Fetching?
    case Finish(call) => call in w.pending && w.pending[call].Holding? && w.pending[call].reading < |w.readings|
  }

  /** The entry a finishing call writes. */
  function Written(w: World, call: nat): Entry
    requires Possible(w, Finish(call))
  {
    Entry(Names(w.readings[w.pending[call].reading].list), w.pending[call].start + TTL_MS)
  }

  function Next(w: World, e: Event): World
    requires Possible(w, e)
  {
    match e
    case Pass(ms) => w.(clock := w.clock + ms)
    case Change(table) => w.(table := table)
    case Start(call) =>
      var hit := Hit(w.cached, w.clock);
      if hit.Some? then w.(answers := w.answers + [Answered(w.clock, hit.value, w.cachedFrom)])
      else w.(pending := w.pending[call := Fetching(w.clock)])
    case ReadTable(call) =>
      w.(pending := w.pending[call := Holding(w.pending[call].start, |w.readings|)],
         readings := w.readings + [Reading(w.clock, w.table)])
    case Fail(call) => w.(pending := w.pending - {call})
    case Finish(call) =>
      var p, entry := w.pending[call], Written(w, call);
      w.(cached := Some(entry),
         cachedFrom := p.reading,
         pending := w.pending - {call},
         answers := w.answers + [Answered(p.start, entry.scopeNames, p.reading)])
  }

  function Initial(clock: int, table: seq<Scope>): World {
    World(clock, table, None, 0, map[], [], [])
  }

  /** The world before the k-th event, as long as each event could happen. */
  function At(start: World, events: seq<Event>, k: nat): World
    requires k <= |events|
  {
    if k == 0 then start
    else
      var w := At(start, events, k - 1);
      if Possible(w, events[k - 1]) then Next(w, events[k - 1]) else w
  }

  predicate Runs(start: World, events: seq<Event>) {
    forall k | 0 <= k < |events| :: Possible(At(start, events, k), events[k])
  }

  // ---------------------------------------------------------------- the bound

  /** The reading of that number gave these names, at or after `since`. */
  predicate From(readings: seq<Reading>, n: nat, names: seq<string>, since: int) {
    n < |readings| && Names(readings[n].list) == names && readings[n].at >= since
  }

  predicate Sound(w: World) {
    && (forall n :: 0 <= n < |w.readings| ==> w.readings[n].at <= w.clock)
    && (w.cached.Some? ==> From(w.readings, w.cachedFrom, w.cached.value.scopeNames, w.cached.value.expiresAt - TTL_MS))
    && (forall c :: c in w.pending ==> w.pending[c].start <= w.clock)
    && (forall c :: c in w.pending && w.pending[c].Holding? ==>
          w.pending[c].reading < |w.readings| && w.readings[w.pending[c].reading].at >= w.pending[c].start)
    && (forall a :: a in w.answers ==> From(w.readings, a.reading, a.scopeNames, a.start - TTL_MS + 1))
  }

  lemma StepSound(w: World, e: Event)
    requires Sound(w) && Possible(w, e)
    ensures Sound(Next(w, e))
  {
    hide Names;
  }

  lemma {:induction false} RunSound(start: World, events: seq<Event>, k: nat)
    requires Sound(start) && Runs(start, events) && k <= |events|
    ensures Sound(At(start, events, k))
  {
    hide Sound, Next, Possible;
    if k > 0 {
      RunSound(start, events, k - 1);
      StepSound(At(start, events, k - 1), events[k - 1]);
    }
  }

  /** A step adds at most one reading, of the table as it stands. */
  lemma StepReads(w: World, e: Event)
    requires Possible(w, e)
    ensures Next(w, e).readings == if e.ReadTable? then w.readings + [Reading(w.clock, w.table)] else w.readings
  {
  }

  /** Every reading is the table as it stood at some moment of the run. */
  lemma {:induction false} ReadingIsTable(start: World, events: seq<Event>, k: nat, n: nat) returns (m: nat)
    requires Runs(start, events) && k <= |events| && start.readings == []
    requires n < |At(start, events, k).readings|
    ensures m < k && events[m].ReadTable?
    ensures At(start, events, k).readings[n] == Reading(At(start, events, m).clock, At(start, events, m).table)
    decreases k
  {
    hide Next;
    var w := At(start, events, k - 1);
    assert Possible(w, events[k - 1]);
    StepReads(w, events[k - 1]);
    m := k - 1;
    if n < |w.readings| { m := ReadingIsTable(start, events, k - 1, n); }
  }

  lemma {:induction false} ClockOnward(start: World, events: seq<Event>, m: nat, k: nat)
    requires m <= k <= |events|
    ensures At(start, events, m).clock <= At(start, events, k).clock
    decreases k
  {
    if m < k { ClockOnward(start, events, m, k - 1); }
  }

  /** Under every interleaving, every answer is the scope table as it stood at some moment later than
      300 seconds before the call began, and not after the present. */
  lemma BoundedStaleness(clock: int, table: seq<Scope>, events: seq<Event>, k: nat, answer: Answered) returns (m: nat)
    requires Runs(Initial(clock, table), events) && k <= |events|
    requires answer in At(Initial(clock, table), events, k).answers
    ensures m < k && events[m].ReadTable?
    ensures var then_, now := At(Initial(clock, table), events, m), At(Initial(clock, table), events, k);
      Names(then_.table) == answer.scopeNames && answer.start - 300_000 < then_.clock <= now.clock
  {
    hide Runs, At;
    StartsSound(clock, table, events);
    RunSound(Initial(clock, table), events, k);
    m := ReadingIsTable(Initial(clock, table), events, k, answer.reading);
    ClockOnward(Initial(clock, table), events, m, k);
  }

  lemma StartsSound(clock: int, table: seq<Scope>, events: seq<Event>)
    ensures Sound(Initial(clock, table)) && At(Initial(clock, table), events, 0) == Initial(clock, table)
  {
  }

  /** The last of the first k events that wrote the cache. */
  predicate LastWrite(events: seq<Event>, k: nat, m: nat)
    requires k <= |events|
  {
    m < k && events[m].Finish? && forall n | m < n < k :: !events[n].Finish?
  }

  lemma FinishWritesAndAnswers(w: World, call: nat)
    requires Possible(w, Finish(call))
    ensures var v := Next(w, Finish(call));
      v.answers != []
      && var done := v.answers[|v.answers| - 1];
      v.cached == Some(Entry(done.scopeNames, done.start + 300_000)) && v.cachedFrom == done.reading
  {
    hide Names;
  }

  lemma OthersKeepEntry(w: World, e: Event)
    requires Possible(w, e) && !e.Finish?
    ensures Next(w, e).cached == w.cached && Next(w, e).cachedFrom == w.cachedFrom
  {
  }

  /** The entry stands as the last call that finished left it, and that call was answered last but for
      answers out of the entry itself. */
  lemma {:induction false} EntryStands(start: World, events: seq<Event>, k: nat, m: nat)
    requires Runs(start, events) && k <= |events| && LastWrite(events, k, m)
    ensures At(start, events, m + 1).answers != []
    ensures var done := At(start, events, m + 1).answers[|At(start, events, m + 1).answers| - 1];
      && At(start, events, k).cached == Some(Entry(done.scopeNames, done.start + 300_000))
      && At(start, events, k).cachedFrom == done.reading
    decreases k
  {
    hide Next, Possible;
    var w := At(start, events, k - 1);
    assert Possible(w, events[k - 1]);
    if m + 1 < k {
      EntryStands(start, events, k - 1, m);
      OthersKeepEntry(w, events[k - 1]);
    } else {
      FinishWritesAndAnswers(w, events[m].call);
    }
  }

  lemma StepAt(start: World, events: seq<Event>, k: nat)
    requires Runs(start, events) && k < |events|
    ensures Possible(At(start, events, k), events[k])
    ensures At(start, events, k + 1) == Next(At(start, events, k), events[k])
  {
    hide Next, Possible;
  }

  /** What a call does when it starts: within 300 seconds of the start of the call that wrote the cache
      last it is answered at once with that call's names, and otherwise it goes on to read the table. */
  lemma StartAnswersIff(start: World, events: seq<Event>, k: nat, m: nat)
    requires Runs(start, events) && k < |events| && events[k].Start? && LastWrite(events, k, m)
    ensures At(start, events, m + 1).answers != []
    ensures var w, v := At(start, events, k), At(start, events, k + 1);
      var done := At(start, events, m + 1).answers[|At(start, events, m + 1).answers| - 1];
      if w.clock < done.start + 300_000 then
        v.answers == w.answers + [Answered(w.clock, done.scopeNames, done.reading)] && v.pending == w.pending
      else v.answers == w.answers && v.pending == w.pending[events[k].call := Fetching(w.clock)]
  {
    hide Possible, At, Runs;
    EntryStands(start, events, k, m);
    StepAt(start, events, k);
  }

  /** Only a call that has read the table writes the cache; a failing one leaves it as it was. */
  lemma OnlyFinishWrites(w: World, e: Event)
    requires Possible(w, e)
    ensures Next(w, e).cached != w.cached ==> e.Finish? && Next(w, e).cached == Some(Written(w, e.call))
  {
  }

  // ---------------------------------------------------------------- which runs go backwards

  /** The finishing call read the table before the reading the cache already holds. */
  predicate OverwritesNewer(w: World, call: nat)
    requires Possible(w, Finish(call))
  {
    w.cached.Some? && w.pending[call].reading < w.cachedFrom
  }

  /** A finishing call shortens the life of the entry exactly if it began before the call that wrote
      it. */
  lemma FinishLowersExpiry(w: World, call: nat)
    requires Possible(w, Finish(call)) && w.cached.Some?
    ensures Next(w, Finish(call)).cached.value.expiresAt < w.cached.value.expiresAt
       <==> w.pending[call].start + 300_000 < w.cached.value.expiresAt
  {
  }

  predicate NonDecreasing(answers: seq<Answered>) {
    forall i, j | 0 <= i < j < |answers| :: answers[i].reading <= answers[j].reading
  }

  /** No event among the first k overwrites a newer reading. */
  predicate NeverBack(start: World, events: seq<Event>, k: nat)
    requires k <= |events|
  {
    forall m | 0 <= m < k && events[m].Finish? && Possible(At(start, events, m), events[m]) ::
      !OverwritesNewer(At(start, events, m), events[m].call)
  }

  /** The last answer is the one the cache holds. */
  predicate LastIsCached(w: World) {
    w.answers != [] ==> w.cached.Some? && w.answers[|w.answers| - 1].reading == w.cachedFrom
  }

  lemma StepBack(w: World, e: Event)
    requires Possible(w, e) && LastIsCached(w) && (w.cached.Some? ==> w.answers != [])
    ensures var v := Next(w, e);
      && LastIsCached(v) && (v.cached.Some? ==> v.answers != [])
      && (NonDecreasing(v.answers)
          <==> NonDecreasing(w.answers) && (e.Finish? ==> !OverwritesNewer(w, e.call)))
  {
    hide Names;
    var v := Next(w, e);
    assert w.answers <= v.answers;
    if w.answers != [] && |v.answers| > |w.answers| {
      assert v.answers[|w.answers| - 1] == w.answers[|w.answers| - 1];
      assert forall i :: 0 <= i < |w.answers| ==> v.answers[i] == w.answers[i];
    }
  }

  /** Exactly which runs answer from ever later readings: those in which no call puts an older
      reading over a newer one. */
  lemma {:induction false} AnswersGoForward(clock: int, table: seq<Scope>, events: seq<Event>, k: nat)
    requires Runs(Initial(clock, table), events) && k <= |events|
    ensures var w := At(Initial(clock, table), events, k);
      && (NonDecreasing(w.answers) <==> NeverBack(Initial(clock, table), events, k))
      && LastIsCached(w) && (w.cached.Some? ==> w.answers != [])
  {
    hide Next, OverwritesNewer, NonDecreasing, LastIsCached;
    if k == 0 {
      NothingAnswered(clock, table);
    } else {
      AnswersGoForward(clock, table, events, k - 1);
      StepBack(At(Initial(clock, table), events, k - 1), events[k - 1]);
    }
  }

  lemma NothingAnswered(clock: int, table: seq<Scope>)
    ensures NonDecreasing(Initial(clock, table).answers) && LastIsCached(Initial(clock, table))
  {
  }

  /** No call starts while another is under way. */
  predicate Apart(start: World, events: seq<Event>) {
    forall k | 0 <= k < |events| && events[k].Start? :: At(start, events, k).pending == map[]
  }

  /** At most one call is under way, and what it holds was read after what the cache holds. */
  predicate OneAtATime(w: World) {
    && (forall c, d :: c in w.pending && d in w.pending ==> c == d)
    && (w.cached.Some? ==> w.cachedFrom < |w.readings|)
    && (forall c :: c in w.pending && w.pending[c].Holding? && w.cached.Some? ==> w.cachedFrom <= w.pending[c].reading)
  }

  lemma StepApart(w: World, e: Event)
    requires Possible(w, e) && OneAtATime(w) && (e.Start? ==> w.pending == map[])
    ensures OneAtATime(Next(w, e))
    ensures e.Finish? ==> !OverwritesNewer(w, e.call)
  {
    hide Names;
  }

  lemma {:induction false} ApartRuns(clock: int, table: seq<Scope>, events: seq<Event>, k: nat)
    requires Runs(Initial(clock, table), events) && Apart(Initial(clock, table), events) && k <= |events|
    ensures OneAtATime(At(Initial(clock, table), events, k))
    ensures NeverBack(Initial(clock, table), events, k)
  {
    hide Next, OverwritesNewer;
    if k > 0 {
      ApartRuns(clock, table, events, k - 1);
      StepApart(At(Initial(clock, table), events, k - 1), events[k - 1]);
    }
  }

  /** Calls that do not overlap answer from readings that never go back. */
  lemma ApartGoesForward(clock: int, table: seq<Scope>, events: seq<Event>, k: nat)
    requires Runs(Initial(clock, table), events) && Apart(Initial(clock, table), events) && k <= |events|
    ensures NonDecreasing(At(Initial(clock, table), events, k).answers)
  {
    ApartRuns(clock, table, events, k);
    AnswersGoForward(clock, table, events, k);
  }

  /** A call with no other in between is the sequential one. */
  lemma AloneIsSequential(w: World, call: nat, fetch: Option<seq<Scope>>)
    requires call !in w.pending && (fetch.Some? ==> fetch.value == w.table)
    ensures var hit := Hit(w.cached, w.clock);
      var events := if hit.Some? then [Start(call)]
                    else if fetch.None? then [Start(call), Fail(call)]
                    else [Start(call), ReadTable(call), Finish(call)];
      var after := At(w, events, |events|);
      && Runs(w, events)
      && after.pending == w.pending
      && after.cached == (if hit.Some? || fetch.None? then w.cached
                          else Some(Entry(Names(fetch.value), w.clock + 300_000)))
      && after.answers == w.answers
           + (if hit.Some? then [Answered(w.clock, hit.value, w.cachedFrom)]
              else if fetch.None? then [] else [Answered(w.clock, Names(fetch.value), |w.readings|)])
  {
    hide Names;
    var w1 := Next(w, Start(call));
    if Hit(w.cached, w.clock).Some? {
      One(w, Start(call));
    } else {
      assert w1.pending[call] == Fetching(w.clock) && w1.pending - {call} == w.pending;
      if fetch.None? {
        Two(w, Start(call), Fail(call));
      } else {
        var w2 := Next(w1, ReadTable(call));
        Three(w, Start(call), ReadTable(call), Finish(call));
        assert w2.pending - {call} == w.pending;
        assert w2.readings[|w.readings|] == Reading(w.clock, w.table);
      }
    }
  }

  lemma One(w: World, a: Event)
    requires Possible(w, a)
    ensures Runs(w, [a]) && At(w, [a], 1) == Next(w, a)
  {
    assert At(w, [a], 0) == w;
  }

  lemma Two(w: World, a: Event, b: Event)
    requires Possible(w, a) && Possible(Next(w, a), b)
    ensures Runs(w, [a, b]) && At(w, [a, b], 2) == Next(Next(w, a), b)
  {
    hide Next, Possible;
    assert At(w, [a, b], 0) == w && At(w, [a, b], 1) == Next(w, a);
  }

  lemma Three(w: World, a: Event, b: Event, c: Event)
    requires Possible(w, a) && Possible(Next(w, a), b) && Possible(Next(Next(w, a), b), c)
    ensures Runs(w, [a, b, c]) && At(w, [a, b, c], 3) == Next(Next(Next(w, a), b), c)
  {
    hide Next, Possible;
    assert At(w, [a, b, c], 0) == w && At(w, [a, b, c], 1) == Next(w, a);
    assert At(w, [a, b, c], 2) == Next(Next(w, a), b);
  }

  /** Two calls that start together; the first reads, the table changes. */
  lemma FirstReads(clock: int, before: seq<Scope>, after: seq<Scope>) returns (w: World)
    ensures w == World(clock, after, None, 0, map[0 := Holding(clock, 0), 1 := Fetching(clock)], [],
                       [Reading(clock, before)])
    ensures Steps(Initial(clock, before), [Start(0), Start(1), ReadTable(0), Change(after)], w)
  {
    var w2 := Next(Next(Initial(clock, before), Start(0)), Start(1));
    w := Next(Next(w2, ReadTable(0)), Change(after));
    assert w.pending == map[0 := Holding(clock, 0), 1 := Fetching(clock)];
    Four(Initial(clock, before), Start(0), Start(1), ReadTable(0), Change(after));
  }

  /** The second reads and finishes, the first finishes over it, and a third call asks. */
  lemma FirstFinishesLast(clock: int, before: seq<Scope>, after: seq<Scope>, w: World) returns (v: World)
    requires w == World(clock, after, None, 0, map[0 := Holding(clock, 0), 1 := Fetching(clock)], [],
                        [Reading(clock, before)])
    ensures Steps(w, [ReadTable(1), Finish(1), Finish(0), Start(2)], v)
    ensures v.answers
         == [Answered(clock, Names(after), 1), Answered(clock, Names(before), 0), Answered(clock, Names(before), 0)]
  {
    hide Names;
    var w1 := Next(w, ReadTable(1));
    var w2 := Next(w1, Finish(1));
    var w3 := Next(w2, Finish(0));
    v := Next(w3, Start(2));
    Four(w, ReadTable(1), Finish(1), Finish(0), Start(2));
  }

  /** The events can happen one after the other and lead there. */
  predicate Steps(start: World, events: seq<Event>, end: World) {
    Runs(start, events) && At(start, events, |events|) == end
  }

  lemma Four(w: World, a: Event, b: Event, c: Event, d: Event)
    requires Possible(w, a) && Possible(Next(w, a), b) && Possible(Next(Next(w, a), b), c)
    requires Possible(Next(Next(Next(w, a), b), c), d)
    ensures Steps(w, [a, b, c, d], Next(Next(Next(Next(w, a), b), c), d))
  {
    hide Next, Possible;
    var events := [a, b, c, d];
    assert At(w, events, 0) == w && At(w, events, 1) == Next(w, a);
    assert At(w, events, 2) == Next(Next(w, a), b);
    assert At(w, events, 3) == Next(Next(Next(w, a), b), c);
  }

  lemma {:induction false} AtOfPrefix(start: World, a: seq<Event>, b: seq<Event>, k: nat)
    requires k <= |a|
    ensures At(start, a + b, k) == At(start, a, k)
  {
    hide Next, Possible;
    if k > 0 { AtOfPrefix(start, a, b, k - 1); }
  }

  lemma {:induction false} AtOfSuffix(start: World, a: seq<Event>, b: seq<Event>, k: nat)
    requires k <= |b|
    ensures At(start, a + b, |a| + k) == At(At(start, a, |a|), b, k)
  {
    hide Next, Possible;
    if k == 0 { AtOfPrefix(start, a, b, |a|); } else { AtOfSuffix(start, a, b, k - 1); }
  }

  /** One run after another. */
  lemma StepsThen(start: World, a: seq<Event>, middle: World, b: seq<Event>, end: World)
    requires Steps(start, a, middle) && Steps(middle, b, end)
    ensures Steps(start, a + b, end)
  {
    hide Next, Possible, At;
    forall k | 0 <= k < |a + b| ensures Possible(At(start, a + b, k), (a + b)[k]) {
      if k < |a| { AtOfPrefix(start, a, b, k); } else { AtOfSuffix(start, a, b, k - |a|); }
    }
    AtOfSuffix(start, a, b, |b|);
  }

  /** Overlap can go back: of two calls that start together, the one that read first finishes last,
      and a later call is answered with what it read. */
  lemma OlderOverwritesNewer(clock: int, before: seq<Scope>, after: seq<Scope>) returns (events: seq<Event>)
    requires Names(before) != Names(after)
    ensures Runs(Initial(clock, before), events)
    ensures At(Initial(clock, before), events, |events|).answers
         == [Answered(clock, Names(after), 1), Answered(clock, Names(before), 0), Answered(clock, Names(before), 0)]
  {
    hide Next, Possible, At, Names, Runs;
    var middle := FirstReads(clock, before, after);
    var end := FirstFinishesLast(clock, before, after, middle);
    var first := [Start(0), Start(1), ReadTable(0), Change(after)];
    var second := [ReadTable(1), Finish(1), Finish(0), Start(2)];
    StepsThen(Initial(clock, before), first, middle, second, end);
    events := first + second;
  }
}
