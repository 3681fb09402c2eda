/** The admission seam in front of the fence: an attempt begins only where the seam lets it, and runs only where the
    fence does (crates/impetus-core/src/effects.rs). */
module FencedSeam {
  import opened Text
  import opened EffectFence
  import opened Admission
  import Seam = EffectSeam
  import Fence = FencedRuns
  import Limits = FenceLimits
  import FencedEffects

  datatype State = State(seam: Seam.State, fence: Fence.State)

  /** Everything the seam does but executing, everything the fence does but beginning, and an execution handed from
      the one to the other. */
  datatype Move =
    | AtSeam(seam: Seam.Move)
    | AtFence(fence: Fence.Move)
    | Direct(effect: Effect, found: Option<Record>)
    | Approved(deferred: Seam.Deferred, k: nat, found: Option<Record>)

  ghost predicate Enabled(s: State, m: Move) {
    match m
    case AtSeam(a) => Seam.Enabled(s.seam, a) && !a.ExecuteDirect? && !a.ExecuteApproved?
    case AtFence(f) => Fence.Enabled(s.fence, f) && !f.Begin?
    case Direct(e, found) => Admit(s.seam.env, e, None).Allow? && Fence.Enabled(s.fence, Fence.Begin(e, found))
    case Approved(d, k, found) =>
      && k < |s.seam.resolved|
      && Seam.ApprovedVerdict(s.seam.env, d, s.seam.resolved[k], s.seam.revision).Run?
      && Fence.Enabled(s.fence, Fence.Begin(d.effect, found))
  }

  /** What a move is to the seam, and what it is to the fence. */
  function SeamPart(m: Move): seq<Seam.Move> {
    match m
    case AtSeam(a) => [a]
    case AtFence(_) => []
    case Direct(e, _) => [Seam.ExecuteDirect(e)]
    case Approved(d, k, _) => [Seam.ExecuteApproved(d, k)]
  }

  function FencePart(m: Move): seq<Fence.Move> {
    match m
    case AtSeam(_) => []
    case AtFence(f) => [f]
    case Direct(e, found) => [Fence.Begin(e, found)]
    case Approved(d, _, found) => [Fence.Begin(d.effect, found)]
  }

  lemma PartsEnabled(s: State, m: Move)
    requires Enabled(s, m)
    ensures Seam.IsRun(s.seam, SeamPart(m)) && Fence.IsRun(s.fence, FencePart(m))
  {
    if SeamPart(m) != [] {
      assert SeamPart(m)[1..] == [];
    }
    if FencePart(m) != [] {
      assert FencePart(m)[1..] == [];
    }
  }

  ghost function Do(s: State, m: Move): State
    requires Enabled(s, m)
  {
    PartsEnabled(s, m);
    State(Seam.After(s.seam, SeamPart(m)), Fence.After(s.fence, FencePart(m)))
  }

  ghost predicate IsRun(s: State, moves: seq<Move>)
    decreases |moves|
  {
    moves == [] || (Enabled(s, moves[0]) && IsRun(Do(s, moves[0]), moves[1..]))
  }

  ghost function After(s: State, moves: seq<Move>): State
    requires IsRun(s, moves)
    decreases |moves|
  {
    if moves == [] then s else After(Do(s, moves[0]), moves[1..])
  }

  function SeamMoves(moves: seq<Move>): seq<Seam.Move> {
    if moves == [] then [] else SeamPart(moves[0]) + SeamMoves(moves[1..])
  }

  function FenceMoves(moves: seq<Move>): seq<Fence.Move> {
    if moves == [] then [] else FencePart(moves[0]) + FenceMoves(moves[1..])
  }

  lemma {:induction false} SeamRunsCompose(s: Seam.State, a: seq<Seam.Move>, b: seq<Seam.Move>)
    requires Seam.IsRun(s, a) && Seam.IsRun(Seam.After(s, a), b)
    ensures Seam.IsRun(s, a + b) && Seam.After(s, a + b) == Seam.After(Seam.After(s, a), b)
    decreases |a|
  {
    if a == [] {
      assert a + b == b;
    } else {
      assert (a + b)[0] == a[0] && (a + b)[1..] == a[1..] + b;
      SeamRunsCompose(Seam.Do(s, a[0]), a[1..], b);
    }
  }

  /** A run of the two together is a run of each. */
  lemma {:induction false} Projects(s: State, moves: seq<Move>)
    requires IsRun(s, moves)
    ensures Seam.IsRun(s.seam, SeamMoves(moves)) && Seam.After(s.seam, SeamMoves(moves)) == After(s, moves).seam
    ensures Fence.IsRun(s.fence, FenceMoves(moves)) && Fence.After(s.fence, FenceMoves(moves)) == After(s, moves).fence
    decreases |moves|
  {
    if moves != [] {
      PartsEnabled(s, moves[0]);
      Projects(Do(s, moves[0]), moves[1..]);
      SeamRunsCompose(s.seam, SeamPart(moves[0]), SeamMoves(moves[1..]));
      Fence.RunsCompose(s.fence, FencePart(moves[0]), FenceMoves(moves[1..]));
    }
  }

  /** The seam let an effect with this key through. */
  ghost predicate LetThrough(s: State, k: Key) {
    exists r :: r in s.seam.ran && KeyOf(r.effect) == k
  }

  /** What is in progress at the fence, and what has run there, the seam let through. */
  ghost predicate Guarded(s: State) {
    && (Limits.Working(s.fence.phase) ==> LetThrough(s, KeyOf(s.fence.phase.effect)))
    && forall k | k in s.fence.ran :: LetThrough(s, k)
  }

  lemma LetThroughStays(s: State, t: State)
    requires s.seam.ran <= t.seam.ran
    ensures forall k | LetThrough(s, k) :: LetThrough(t, k)
  {
    forall k | LetThrough(s, k)
      ensures LetThrough(t, k)
    {
      var r :| r in s.seam.ran && KeyOf(r.effect) == k;
      assert r in t.seam.ran;
    }
  }

  lemma OneSeamMove(s: Seam.State, m: Seam.Move)
    requires Seam.Enabled(s, m)
    ensures Seam.IsRun(s, [m]) && Seam.After(s, [m]) == Seam.Do(s, m)
  {
    assert [m][1..] == [];
  }

  lemma OneFenceMove(s: Fence.State, m: Fence.Move)
    requires Fence.Enabled(s, m)
    ensures Fence.IsRun(s, [m]) && Fence.After(s, [m]) == Fence.Do(s, m)
  {
    assert [m][1..] == [];
  }

  lemma SeamMoveGuarded(s: State, a: Seam.Move)
    requires Guarded(s) && Enabled(s, AtSeam(a))
    ensures Guarded(Do(s, AtSeam(a)))
  {
    OneSeamMove(s.seam, a);
    LetThroughStays(s, Do(s, AtSeam(a)));
  }

  lemma FenceMoveGuarded(s: State, f: Fence.Move)
    requires Guarded(s) && Enabled(s, AtFence(f))
    ensures Guarded(Do(s, AtFence(f)))
  {
    OneFenceMove(s.fence, f);
    LetThroughStays(s, Do(s, AtFence(f)));
  }

  lemma DirectGuarded(s: State, e: Effect, found: Option<Record>)
    requires Guarded(s) && Enabled(s, Direct(e, found))
    ensures Guarded(Do(s, Direct(e, found)))
  {
    var t := Do(s, Direct(e, found));
    OneSeamMove(s.seam, Seam.ExecuteDirect(e));
    OneFenceMove(s.fence, Fence.Begin(e, found));
    LetThroughStays(s, t);
    assert t.seam.ran[|s.seam.ran|] in t.seam.ran;
  }

  lemma ApprovedGuarded(s: State, d: Seam.Deferred, k: nat, found: Option<Record>)
    requires Guarded(s) && Enabled(s, Approved(d, k, found))
    ensures Guarded(Do(s, Approved(d, k, found)))
  {
    var t := Do(s, Approved(d, k, found));
    OneSeamMove(s.seam, Seam.ExecuteApproved(d, k));
    OneFenceMove(s.fence, Fence.Begin(d.effect, found));
    LetThroughStays(s, t);
    assert t.seam.ran[|s.seam.ran|] in t.seam.ran;
  }

  lemma GuardedStays(s: State, m: Move)
    requires Guarded(s) && Enabled(s, m)
    ensures Guarded(Do(s, m))
  {
    match m {
      case AtSeam(a) => SeamMoveGuarded(s, a);
      case AtFence(f) => FenceMoveGuarded(s, f);
      case Direct(e, found) => DirectGuarded(s, e, found);
      case Approved(d, k, found) => ApprovedGuarded(s, d, k, found);
    }
  }

  lemma {:induction false} RunStaysGuarded(s: State, moves: seq<Move>)
    requires Guarded(s) && IsRun(s, moves)
    ensures Guarded(After(s, moves))
    decreases |moves|
  {
    if moves != [] {
      GuardedStays(s, moves[0]);
      RunStaysGuarded(Do(s, moves[0]), moves[1..]);
    }
  }

  /** In every run of seam and fence together, what executed was let through by the seam on sanction, and of the
      effects that agree with `e` in capability, kind, origin, target and version, if their own openings stay whole, at
      most one executed, however often an acceptance was used. */
  lemma SanctionedAtMostOnce(env: Env, moves: seq<Move>, e: Effect)
    requires IsRun(State(Seam.Start(env), Fence.INIT), moves) && Fence.IsRun(Fence.INIT, FenceMoves(moves))
    requires Limits.OpeningsWholeFor(Fence.INIT, FenceMoves(moves), KeyOf(e))
    ensures var done := FencedEffects.Executions(Fence.INIT, FenceMoves(moves));
            forall i, j | 0 <= i < j < |done| :: !(SameCall(done[i], e) && SameCall(done[j], e))
    ensures var seam := After(State(Seam.Start(env), Fence.INIT), moves).seam;
            forall d | d in FencedEffects.Executions(Fence.INIT, FenceMoves(moves)) ::
              exists r :: r in seam.ran && SameCall(r.effect, d) && Seam.Sanctioned(seam, r)
  {
    var start := State(Seam.Start(env), Fence.INIT);
    Projects(start, moves);
    FencedEffects.EffectRunsAtMostOnce(FenceMoves(moves), e);
    FencedEffects.RanIsExecuted(FenceMoves(moves));
    Seam.OnlySanctionedRuns(env, SeamMoves(moves));
    RunStaysGuarded(start, moves);
    var s, done := After(start, moves), FencedEffects.Executions(Fence.INIT, FenceMoves(moves));
    forall d | d in done
      ensures exists r :: r in s.seam.ran && SameCall(r.effect, d) && Seam.Sanctioned(s.seam, r)
    {
      var k :| 0 <= k < |done| && done[k] == d;
      assert s.fence.ran[k] in s.fence.ran && LetThrough(s, KeyOf(d));
      var r :| r in s.seam.ran && KeyOf(r.effect) == KeyOf(d);
      KeyExact(r.effect, d);
      assert Seam.Sanctioned(s.seam, r);
    }
  }
}
