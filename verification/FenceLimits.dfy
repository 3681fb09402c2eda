/** How often a fenced effect can run when nothing is asked of its openings: the exact condition on the log, for
    every run (crates/impetus-core/src/effect_fence.rs, crates/impetus-core/src/effects.rs). */
module FenceLimits {
  import opened Text
  import opened EventLog
  import opened EffectFence
  import opened FencedRuns

  //
  // What holds in every run.
  //

  predicate Busy(p: Phase) {
    p.Opened? || p.Running? || p.Ran? || p.Unobserved?
  }

  /** The attempt in progress has its record in the log. */
  ghost predicate InStep(s: State) {
    var m := Fold(s.log);
    Busy(s.phase) ==>
      && s.phase.id in m && m[s.phase.id].identity.digest == ArgsDigest(s.phase.effect)
      && (s.phase.Opened? <==> m[s.phase.id].state == Prepared)
  }

  /** The fence event a move logs, if it is to log one. */
  function EventOf(s: State, m: Move): Option<FenceEvent>
    requires m.Prepare? ==> s.phase.Checked?
    requires m.Start? ==> s.phase.Opened?
    requires m.Observe? || m.MarkFailed? ==> s.phase.Ran?
    requires m.MarkUnknown? ==> s.phase.Unobserved?
  {
    match m
    case Prepare(id, _) =>
      var e := s.phase.effect;
      Some(PreparedEvent(id, ArgsDigest(e), EffectLabel(e), e.action.target))
    case Start(_) => Some(StartedEvent(s.phase.id, ArgsDigest(s.phase.effect)))
    case Observe(_) => Some(TerminalEvent(s, m))
    case MarkFailed(_) => Some(TerminalEvent(s, m))
    case MarkUnknown(_) => Some(TerminalEvent(s, m))
    case _ => None
  }

  /** What a move does to the records: nothing, or it applies its event. */
  lemma FoldAfter(s: State, m: Move)
    requires Enabled(s, m)
    ensures Fold(Do(s, m).log) ==
            if EventOf(s, m).Some? && !m.fate.Lost? then Apply(Fold(s.log), EventOf(s, m).value) else Fold(s.log)
  {
    if EventOf(s, m).Some? {
      FoldPush(s.log, Fence(EventOf(s, m).value));
    } else if m.AppendOther? {
      FoldPush(s.log, Other);
    }
  }

  lemma MoveInStep(s: State, m: Move)
    requires InStep(s) && Enabled(s, m)
    ensures InStep(Do(s, m))
  {
    FoldAfter(s, m);
  }

  lemma {:induction false} RunInStep(s: State, moves: seq<Move>)
    requires InStep(s) && IsRun(s, moves)
    ensures InStep(After(s, moves))
    decreases |moves|
  {
    if moves != [] {
      MoveInStep(s, moves[0]);
      RunInStep(Do(s, moves[0]), moves[1..]);
    }
  }

  //
  // A settled effect never runs again.
  //

  predicate Working(p: Phase) {
    p.Checked? || Busy(p)
  }

  /** The digest is settled, and no attempt on it is in progress. */
  ghost predicate Closed(s: State, d: Digest) {
    Settled(Fold(s.log), d) && (Working(s.phase) ==> ArgsDigest(s.phase.effect) != d)
  }

  lemma SettledStays(m: Records, f: FenceEvent, d: Digest)
    requires Settled(m, d) && f.digest != d && (f.id in m ==> m[f.id].identity.digest != d)
    ensures Settled(Apply(m, f), d)
  {
    var id :| id in m && m[id].identity.digest == d;
    assert Apply(m, f)[id] == m[id];
  }

  lemma ClosedStays(s: State, m: Move, d: Digest)
    requires InStep(s) && Closed(s, d) && Enabled(s, m)
    ensures Closed(Do(s, m), d)
    ensures m.Execute? ==> DigestOfKey(KeyOf(s.phase.effect)) != d
  {
    FoldAfter(s, m);
    if EventOf(s, m).Some? {
      SettledStays(Fold(s.log), EventOf(s, m).value, d);
    }
    if m.Begin? && ArgsDigest(m.effect) == d {
      RefusesInEveryOrder(Fold(s.log), d);
    }
  }

  /** Once settled, a key is not executed again, in any run from there on. */
  lemma {:induction false} SettledNeverRuns(s: State, moves: seq<Move>, k: Key)
    requires InStep(s) && Closed(s, DigestOfKey(k)) && IsRun(s, moves)
    ensures var ran := After(s, moves).ran; s.ran <= ran && forall i | |s.ran| <= i < |ran| :: ran[i] != k
    decreases |moves|
  {
    if moves != [] {
      ClosedStays(s, moves[0], DigestOfKey(k));
      MoveInStep(s, moves[0]);
      SettledNeverRuns(Do(s, moves[0]), moves[1..], k);
    }
  }

  //
  // An unsettled one can run any number of times.
  //

  lemma FreshIdExists(m: Records) returns (id: Id)
    ensures id !in m
  {
    var left, top: nat := m.Keys, 0;
    while left != {}
      invariant left <= m.Keys && forall k | k in m && k !in left :: k < top
      decreases left
    {
      var k :| k in left;
      left, top := left - {k}, if k < top then top else k + 1;
    }
    id := top;
  }

  /** A record of the effect left in Prepared. */
  predicate Orphan(m: Records, d: Digest, o: Id) {
    o in m && m[o].state == Prepared && m[o].identity.digest == d
  }

  /** A whole attempt, from a record that lets it through; an orphan stays where it was. */
  lemma Lap(s: State, e: Effect, found: Option<Record>) returns (lap: seq<Move>)
    requires s.phase.Idle? && MayFind(Fold(s.log), ArgsDigest(e), found) && Decision(found, ArgsDigest(e)).AllowFresh?
    ensures IsRun(s, lap) && After(s, lap).phase.Idle? && After(s, lap).ran == s.ran + [KeyOf(e)]
    ensures forall o | Orphan(Fold(s.log), ArgsDigest(e), o) :: Orphan(Fold(After(s, lap).log), ArgsDigest(e), o)
  {
    var id := FreshIdExists(Fold(s.log));
    lap := [Begin(e, found), Prepare(id, Stored), Start(Stored), Execute(true), Observe(Stored)];
    var s1 := Do(s, lap[0]);
    var s2 := Do(s1, lap[1]);
    var s3 := Do(s2, lap[2]);
    var s4 := Do(s3, lap[3]);
    FoldAfter(s1, lap[1]);
    FoldAfter(s2, lap[2]);
    FoldAfter(s4, lap[4]);
    FiveMoves(s, lap[0], s1, lap[1], s2, lap[2], s3, lap[3], s4, lap[4], Do(s4, lap[4]));
  }

  ghost predicate Leads(s: State, m: Move, t: State) {
    Enabled(s, m) && Do(s, m) == t
  }

  lemma FiveMoves(s: State, a: Move, s1: State, b: Move, s2: State, c: Move, s3: State, d: Move, s4: State, e: Move,
                  s5: State)
    requires Leads(s, a, s1) && Leads(s1, b, s2) && Leads(s2, c, s3) && Leads(s3, d, s4) && Leads(s4, e, s5)
    ensures IsRun(s, [a, b, c, d, e]) && After(s, [a, b, c, d, e]) == s5
  {
    RunPush(s, [], a);
    assert [] + [a] == [a];
    RunPush(s, [a], b);
    assert [a] + [b] == [a, b];
    RunPush(s, [a, b], c);
    assert [a, b] + [c] == [a, b, c];
    RunPush(s, [a, b, c], d);
    assert [a, b, c] + [d] == [a, b, c, d];
    RunPush(s, [a, b, c, d], e);
    assert [a, b, c, d] + [e] == [a, b, c, d, e];
  }

  /** An effect never seen can be made an orphan: its Started append is lost. */
  lemma MakeOrphan(s: State, e: Effect) returns (moves: seq<Move>, o: Id)
    requires s.phase.Idle? && forall id | id in Fold(s.log) :: Fold(s.log)[id].identity.digest != ArgsDigest(e)
    ensures IsRun(s, moves) && After(s, moves).phase.Idle? && After(s, moves).ran == s.ran
    ensures Orphan(Fold(After(s, moves).log), ArgsDigest(e), o)
  {
    o := FreshIdExists(Fold(s.log));
    var a, b, c := Begin(e, None), Prepare(o, Stored), Start(Lost);
    moves := [a, b, c];
    FoldAfter(Do(s, a), b);
    RunPush(s, [], a);
    assert [] + [a] == [a];
    RunPush(s, [a], b);
    assert [a] + [b] == [a, b];
    RunPush(s, [a, b], c);
    assert [a, b] + [c] == [a, b, c];
  }

  function Copies(k: Key, n: nat): seq<Key> {
    if n == 0 then [] else Copies(k, n - 1) + [k]
  }

  /** With an orphan found each time, the effect runs again and again. */
  lemma {:induction false} OrphanAllowsRepeats(s: State, e: Effect, o: Id, n: nat) returns (moves: seq<Move>)
    requires s.phase.Idle? && Orphan(Fold(s.log), ArgsDigest(e), o)
    ensures IsRun(s, moves) && After(s, moves).phase.Idle? && After(s, moves).ran == s.ran + Copies(KeyOf(e), n)
    ensures Orphan(Fold(After(s, moves).log), ArgsDigest(e), o)
    decreases n
  {
    if n == 0 {
      moves := [];
      assert s.ran + [] == s.ran;
    } else {
      var before := OrphanAllowsRepeats(s, e, o, n - 1);
      var t := After(s, before);
      var lap := Lap(t, e, Some(Fold(t.log)[o]));
      RunsCompose(s, before, lap);
      Assoc(s.ran, Copies(KeyOf(e), n - 1), [KeyOf(e)]);
      moves := before + lap;
    }
  }

  /** From an idle state where it is not settled, an effect can be executed any number of times. */
  lemma UnsettledRunsAgain(s: State, e: Effect, n: nat) returns (moves: seq<Move>)
    requires s.phase.Idle? && !Settled(Fold(s.log), ArgsDigest(e))
    ensures IsRun(s, moves) && After(s, moves).ran == s.ran + Copies(KeyOf(e), n)
  {
    var m, d := Fold(s.log), ArgsDigest(e);
    if o :| o in m && Orphan(m, d, o) {
      moves := OrphanAllowsRepeats(s, e, o, n);
    } else {
      var first, o := MakeOrphan(s, e);
      var rest := OrphanAllowsRepeats(After(s, first), e, o, n);
      RunsCompose(s, first, rest);
      moves := first + rest;
    }
  }

  ghost predicate RunsAgain(s: State, k: Key, moves: seq<Move>) {
    IsRun(s, moves) && s.ran <= After(s, moves).ran && k in After(s, moves).ran[|s.ran|..]
  }

  /** From any idle state of any run, some continuation executes an effect if and only if the log does not settle
      it: it has no record, or one left in Prepared. */
  lemma RunsAgainExactlyWhenUnsettled(s: State, e: Effect)
    requires s.phase.Idle?
    ensures (exists moves :: RunsAgain(s, KeyOf(e), moves)) <==> !Settled(Fold(s.log), ArgsDigest(e))
  {
    if Settled(Fold(s.log), ArgsDigest(e)) {
      forall moves | RunsAgain(s, KeyOf(e), moves)
        ensures false
      {
        SettledNeverRuns(s, moves, KeyOf(e));
      }
    } else {
      var moves := UnsettledRunsAgain(s, e, 1);
      assert Copies(KeyOf(e), 1) == [KeyOf(e)];
      assert (s.ran + [KeyOf(e)])[|s.ran|..] == [KeyOf(e)];
      assert RunsAgain(s, KeyOf(e), moves);
    }
  }

  /** Each of the three ways an opening can break, in any run, leaves its effect unsettled: it can then be executed
      any number of times. */
  lemma BrokenOpeningAllowsRepeats(moves: seq<Move>, m: Move, n: nat) returns (more: seq<Move>)
    requires IsRun(INIT, moves) && Enabled(After(INIT, moves), m) && !OpeningWhole(After(INIT, moves), m)
    ensures var s := After(INIT, moves);
            && IsRun(Do(s, m), more)
            && After(Do(s, m), more).ran == s.ran + Copies(KeyOf(s.phase.effect), n)
  {
    RunInStep(INIT, moves);
    var s := After(INIT, moves);
    var o := if m.Prepare? then m.id else s.phase.id;
    FoldAfter(s, m);
    assert Orphan(Fold(Do(s, m).log), ArgsDigest(s.phase.effect), o);
    more := OrphanAllowsRepeats(Do(s, m), s.phase.effect, o, n);
  }

  //
  // At most once, effect by effect.
  //

  /** The openings of this key stay whole; those of others may break. */
  ghost predicate OpeningsWholeFor(s: State, moves: seq<Move>, k: Key)
    requires IsRun(s, moves)
    decreases |moves|
  {
    moves == [] || ((Mine(s.phase, k) ==> OpeningWhole(s, moves[0]))
                    && OpeningsWholeFor(Do(s, moves[0]), moves[1..], k))
  }

  predicate Mine(p: Phase, k: Key) {
    Working(p) && KeyOf(p.effect) == k
  }

  /** No record of the digest. */
  predicate Unseen(m: Records, d: Digest) {
    forall id | id in m :: m[id].identity.digest != d
  }

  predicate Once(ran: seq<Key>, k: Key) {
    forall i, j | 0 <= i < j < |ran| :: !(ran[i] == k && ran[j] == k)
  }

  /** Before an attempt on the key opens, while it does, and after. */
  ghost predicate Tracked(s: State, k: Key) {
    var m, d := Fold(s.log), DigestOfKey(k);
    if Mine(s.phase, k) then
      match s.phase
      case Checked(_) => Unseen(m, d) && k !in s.ran
      case Opened(_, id) => (forall i | i in m && m[i].identity.digest == d :: i == id) && k !in s.ran
      case Running(_, _) => Settled(m, d) && k !in s.ran
      case _ => Settled(m, d) && Once(s.ran, k)
    else (Unseen(m, d) && k !in s.ran) || (Settled(m, d) && Once(s.ran, k))
  }

  lemma SameDigest(e: Effect, k: Key)
    ensures ArgsDigest(e) == DigestOfKey(k) <==> KeyOf(e) == k
  {
    DigestInjective(KeyOf(e), k);
  }

  /** Events of other effects leave a key where it is. */
  lemma OthersApart(m: Records, f: FenceEvent, d: Digest)
    requires f.digest != d && (f.id in m ==> m[f.id].identity.digest != d)
    ensures Unseen(m, d) ==> Unseen(Apply(m, f), d)
    ensures Settled(m, d) ==> Settled(Apply(m, f), d)
  {
    if Settled(m, d) {
      SettledStays(m, f, d);
    }
  }

  lemma TrackedOther(s: State, m: Move, k: Key)
    requires InStep(s) && Tracked(s, k) && Enabled(s, m) && !Mine(s.phase, k)
    ensures Tracked(Do(s, m), k)
  {
    FoldAfter(s, m);
    if EventOf(s, m).Some? {
      SameDigest(s.phase.effect, k);
      OthersApart(Fold(s.log), EventOf(s, m).value, DigestOfKey(k));
    }
    if m.Begin? {
      SameDigest(m.effect, k);
      if KeyOf(m.effect) == k && Settled(Fold(s.log), DigestOfKey(k)) {
        RefusesInEveryOrder(Fold(s.log), DigestOfKey(k));
      }
    }
  }

  lemma MineOpens(m: Records, f: FenceEvent, d: Digest)
    requires f.digest == d
    ensures f.PreparedEvent? && Unseen(m, d)
            ==> forall i | i in Apply(m, f) && Apply(m, f)[i].identity.digest == d :: i == f.id
    ensures !f.PreparedEvent? && (forall i | i in m && m[i].identity.digest == d :: i == f.id || m[i].state != Prepared)
            ==> Settled(Apply(m, f), d)
  {
    assert f.id in Apply(m, f) && Apply(m, f)[f.id].identity.digest == d;
  }

  lemma TrackedMine(s: State, m: Move, k: Key)
    requires InStep(s) && Tracked(s, k) && Enabled(s, m) && Mine(s.phase, k) && OpeningWhole(s, m)
    ensures Tracked(Do(s, m), k)
  {
    FoldAfter(s, m);
    SameDigest(s.phase.effect, k);
    if EventOf(s, m).Some? {
      MineOpens(Fold(s.log), EventOf(s, m).value, DigestOfKey(k));
    }
  }

  lemma {:induction false} RunTracks(s: State, moves: seq<Move>, k: Key)
    requires InStep(s) && Tracked(s, k) && IsRun(s, moves) && OpeningsWholeFor(s, moves, k)
    ensures Tracked(After(s, moves), k)
    decreases |moves|
  {
    if moves != [] {
      MoveInStep(s, moves[0]);
      if Mine(s.phase, k) {
        TrackedMine(s, moves[0], k);
      } else {
        TrackedOther(s, moves[0], k);
      }
      RunTracks(Do(s, moves[0]), moves[1..], k);
    }
  }

  /** In every run, an effect whose own openings stay whole is executed at most once, however the openings of
      others break. */
  lemma AtMostOnceEach(moves: seq<Move>, k: Key)
    requires IsRun(INIT, moves) && OpeningsWholeFor(INIT, moves, k)
    ensures Once(After(INIT, moves).ran, k)
  {
    RunTracks(INIT, moves, k);
  }
}
