/** A stored secret that is upgraded when it is next used: the caller reads the row, verifies, and
    writes the upgrade in a later step that does not look at the row again. Password hashes of
    apps/auth/src/auth.ts and client secrets of apps/auth/src/lib/services/oauth-token.service.ts. */
module LazyUpgrade {
  import opened JsText

  /** The stored text, and the upgrades that uses of it still have to write. */
  datatype Row = Row(stored: string, waiting: map<nat, string>)

  datatype Move<A> = Verifies(call: nat, attempt: A) | Upgrades(call: nat) | Changes(stored: string)

  /** `earns` is the upgrade an attempt earns against what is stored. */
  type Rule<!A> = (A, string) -> Option<string>

  predicate CanMove<A>(r: Row, m: Move<A>) {
    match m
    case Verifies(call, _) => call !in r.waiting
    case Upgrades(call) => call in r.waiting
    case Changes(_) => true
  }

  function Moved<A>(r: Row, m: Move<A>, earns: Rule<A>): Row {
    match m
    case Verifies(call, a) =>
      var e := earns(a, r.stored);
      if e.Some? then r.(waiting := r.waiting[call := e.value]) else r
    case Upgrades(call) => if call in r.waiting then Row(r.waiting[call], r.waiting - {call}) else r
    case Changes(stored) => r.(stored := stored)
  }

  function AfterMoves<A>(r: Row, moves: seq<Move<A>>, earns: Rule<A>, k: nat): Row
    requires k <= |moves|
  {
    if k == 0 then r else Moved(AfterMoves(r, moves, earns, k - 1), moves[k - 1], earns)
  }

  predicate CanRun<A>(r: Row, moves: seq<Move<A>>, earns: Rule<A>) {
    forall k | 0 <= k < |moves| :: CanMove(AfterMoves(r, moves, earns, k), moves[k])
  }

  /** Upgrades lead to final texts, against which none is earned. */
  ghost predicate Settling<A(!new)>(earns: Rule<A>, final: string -> bool) {
    forall a, s :: (final(s) ==> earns(a, s).None?) && (earns(a, s).Some? ==> final(earns(a, s).value))
  }

  // ---------------------------------------------------------------- overlapping a change

  /** What can be said of the row `w` that `r` has become: still its final text, or one that was
      waiting. */
  predicate Tracks(r: Row, w: Row, upgraded: bool, final: string -> bool) {
    && final(w.stored)
    && (forall c :: c in w.waiting ==> final(w.waiting[c]) && w.waiting[c] in r.waiting.Values)
    && if upgraded then w.stored in r.waiting.Values else w.stored == r.stored
  }

  lemma TracksStep<A(!new)>(r: Row, w: Row, m: Move<A>, upgraded: bool, earns: Rule<A>, final: string -> bool)
    requires Settling(earns, final)
    requires Tracks(r, w, upgraded, final) && CanMove(w, m) && !m.Changes?
    ensures Tracks(r, Moved(w, m, earns), upgraded || m.Upgrades?, final)
  {
    if m.Verifies? { assert earns(m.attempt, w.stored).None?; }
  }

  predicate Upgraded<A>(moves: seq<Move<A>>, k: nat)
    requires k <= |moves|
  {
    k > 0 && (moves[k - 1].Upgrades? || Upgraded(moves, k - 1))
  }

  /** With no other change, a final text stands until an upgrade earned earlier is written, and one
      of those after that. */
  lemma {:induction false} UntilUpgraded<A(!new)>(r: Row, moves: seq<Move<A>>, earns: Rule<A>, final: string -> bool,
                                                  k: nat)
    requires Settling(earns, final)
    requires CanRun(r, moves, earns) && k <= |moves| && Tracks(r, r, false, final)
    requires forall m :: 0 <= m < |moves| ==> !moves[m].Changes?
    ensures Tracks(r, AfterMoves(r, moves, earns, k), Upgraded(moves, k), final)
  {
    hide Tracks, Moved, CanMove;
    if k > 0 {
      UntilUpgraded(r, moves, earns, final, k - 1);
      assert CanMove(AfterMoves(r, moves, earns, k - 1), moves[k - 1]);
      TracksStep(r, AfterMoves(r, moves, earns, k - 1), moves[k - 1], Upgraded(moves, k - 1), earns, final);
    }
  }

  lemma {:induction false} UpgradedSays<A>(moves: seq<Move<A>>, k: nat)
    requires k <= |moves|
    ensures Upgraded(moves, k) <==> exists m :: 0 <= m < k && moves[m].Upgrades?
  {
    if k > 0 { UpgradedSays(moves, k - 1); }
  }

  predicate WaitingFinal(r: Row, final: string -> bool) { forall c :: c in r.waiting ==> final(r.waiting[c]) }

  lemma WaitingStep<A(!new)>(r: Row, m: Move<A>, earns: Rule<A>, final: string -> bool)
    requires Settling(earns, final) && WaitingFinal(r, final)
    ensures WaitingFinal(Moved(r, m, earns), final)
  {
    if m.Verifies? { assert earns(m.attempt, r.stored).Some? ==> final(earns(m.attempt, r.stored).value); }
  }

  /** What waits to be written is final, in every run. */
  lemma {:induction false} WaitingIsFinal<A(!new)>(r: Row, moves: seq<Move<A>>, earns: Rule<A>, final: string -> bool,
                                                   k: nat)
    requires Settling(earns, final) && k <= |moves| && WaitingFinal(r, final)
    ensures WaitingFinal(AfterMoves(r, moves, earns, k), final)
  {
    hide Moved, WaitingFinal;
    if k > 0 {
      WaitingIsFinal(r, moves, earns, final, k - 1);
      WaitingStep(AfterMoves(r, moves, earns, k - 1), moves[k - 1], earns, final);
    }
  }

  /** Exactly when a change survives the uses that overlap it, whatever came before: when no upgrade
      they earned before the change is written after it. `h` is the new text, different from every
      one that waits. */
  lemma ChangeSurvivesIff<A(!new)>(start: Row, before: seq<Move<A>>, h: string, moves: seq<Move<A>>,
                             earns: Rule<A>, final: string -> bool)
    requires Settling(earns, final) && WaitingFinal(start, final) && final(h)
    requires var r := AfterMoves(start, before, earns, |before|);
      h !in r.waiting.Values && CanRun(r.(stored := h), moves, earns)
    requires forall m :: 0 <= m < |moves| ==> !moves[m].Changes?
    ensures var r := AfterMoves(start, before, earns, |before|);
      AfterMoves(r.(stored := h), moves, earns, |moves|).stored == h
      <==> forall m :: 0 <= m < |moves| ==> !moves[m].Upgrades?
  {
    hide Moved;
    WaitingIsFinal(start, before, earns, final, |before|);
    var r := AfterMoves(start, before, earns, |before|);
    UntilUpgraded(r.(stored := h), moves, earns, final, |moves|);
    UpgradedSays(moves, |moves|);
  }

  /** It need not: an attempt earns an upgrade, the text changes, and the upgrade is written over
      it. */
  lemma UpgradeComesBack<A>(stored: string, a: A, h: string, earns: Rule<A>) returns (moves: seq<Move<A>>)
    requires earns(a, stored).Some?
    ensures moves == [Verifies(0, a), Changes(h), Upgrades(0)] && CanRun(Row(stored, map[]), moves, earns)
    ensures AfterMoves(Row(stored, map[]), moves, earns, 3).stored == earns(a, stored).value
  {
    moves := [Verifies(0, a), Changes(h), Upgrades(0)];
    var r, e := Row(stored, map[]), earns(a, stored).value;
    assert AfterMoves(r, moves, earns, 0) == r;
    assert AfterMoves(r, moves, earns, 1) == Row(stored, map[0 := e]);
    assert AfterMoves(r, moves, earns, 2) == Row(h, map[0 := e]);
  }
}
