/** Fenced execution as a state machine over the log: attempts run one after another, any append may
    fail and a crash may fall between any two steps
    (crates/impetus-core/src/effect_fence.rs, crates/impetus-core/src/effects.rs). */
module FencedRuns {
  import opened Text
  import opened EventLog
  import opened EffectFence

  function Logged(log: seq<Event>, f: FenceEvent, fate: Fate): seq<Event> {
    if fate.Lost? then log else log + [Fence(f)]
  }

  /** Where the attempt in progress stands. */
  datatype Phase =
    | Idle
    | Checked(effect: Effect)
    | Opened(effect: Effect, id: Id)
    | Running(effect: Effect, id: Id)
    | Ran(effect: Effect, id: Id, ok: bool)
    | Unobserved(effect: Effect, id: Id)

  /** `ran` lists the keys of the side effects executed so far. */
  datatype State = State(log: seq<Event>, phase: Phase, ran: seq<Key>)

  const EXECUTED: string := "executed"
  const EXECUTION_ERROR: string := "execution error"
  const UNOBSERVED: string := "observe persist failed after execution"

  const INIT: State := State([], Idle, [])

  datatype Move =
    | Begin(effect: Effect, found: Option<Record>)
    | ReadFails
    | Prepare(id: Id, fate: Fate)
    | Start(fate: Fate)
    | Execute(ok: bool)
    | Observe(fate: Fate)
    | MarkUnknown(fate: Fate)
    | MarkFailed(fate: Fate)
    | Crash
    | AppendOther

  /** When a move can be made. The record found in `Begin` is any the scan may return, and the id in
      `Prepare` is fresh. */
  ghost predicate Enabled(s: State, m: Move) {
    match m
    case Begin(effect, found) => s.phase.Idle? && MayFind(Fold(s.log), ArgsDigest(effect), found)
    case ReadFails => s.phase.Idle?
    case Prepare(id, _) => s.phase.Checked? && id !in Fold(s.log)
    case Start(_) => s.phase.Opened?
    case Execute(_) => s.phase.Running?
    case Observe(_) => s.phase.Ran? && s.phase.ok
    case MarkUnknown(_) => s.phase.Unobserved?
    case MarkFailed(_) => s.phase.Ran? && !s.phase.ok
    case Crash => true
    case AppendOther => true
  }

  function Then(s: State, fate: Fate, log: seq<Event>, phase: Phase): State {
    s.(log := log, phase := if fate.Stored? then phase else Idle)
  }

  function Do(s: State, m: Move): State
    requires m.Prepare? ==> s.phase.Checked?
    requires m.Start? ==> s.phase.Opened?
    requires m.Execute? ==> s.phase.Running?
    requires m.Observe? || m.MarkFailed? ==> s.phase.Ran?
    requires m.MarkUnknown? ==> s.phase.Unobserved?
  {
    match m
    case Begin(effect, found) =>
      s.(phase := if Decision(found, ArgsDigest(effect)).AllowFresh? then Checked(effect) else Idle)
    case ReadFails => s
    case Prepare(id, fate) =>
      var e := s.phase.effect;
      Then(s, fate, Logged(s.log, PreparedEvent(id, ArgsDigest(e), EffectLabel(e), e.action.target), fate),
           Opened(e, id))
    case Start(fate) =>
      Then(s, fate, Logged(s.log, StartedEvent(s.phase.id, ArgsDigest(s.phase.effect)), fate),
           Running(s.phase.effect, s.phase.id))
    case Execute(ok) =>
      s.(phase := Ran(s.phase.effect, s.phase.id, ok), ran := s.ran + [KeyOf(s.phase.effect)])
    case Observe(fate) =>
      s.(log := Logged(s.log, ObservedEvent(s.phase.id, ArgsDigest(s.phase.effect), EXECUTED), fate),
         phase := if fate.Stored? then Idle else Unobserved(s.phase.effect, s.phase.id))
    case MarkUnknown(fate) =>
      s.(log := Logged(s.log, UnknownEvent(s.phase.id, ArgsDigest(s.phase.effect), UNOBSERVED), fate),
         phase := Idle)
    case MarkFailed(fate) =>
      s.(log := Logged(s.log, FailedEvent(s.phase.id, ArgsDigest(s.phase.effect), EXECUTION_ERROR), fate),
         phase := Idle)
    case Crash => s.(phase := Idle)
    case AppendOther => s.(log := s.log + [Other])
  }

  /** A run: every move enabled where it is made. */
  ghost predicate IsRun(s: State, moves: seq<Move>)
    decreases |moves|
  {
    moves == [] || (Enabled(s, moves[0]) && IsRun(Do(s, moves[0]), moves[1..]))
  }

  ghost function After(s: State, moves: seq<Move>): State
    requires IsRun(s, moves)
    decreases |moves|
  {
    if moves == [] then s else After(Do(s, moves[0]), moves[1..])
  }

  /** The two opening appends of an attempt stay together: what is stored as Prepared is followed by a
      stored Started, with no crash in between. */
  predicate OpeningWhole(s: State, m: Move) {
    && !(m.Prepare? && m.fate.StoredUnacked?)
    && !(m.Start? && m.fate.Lost?)
    && !(m.Crash? && s.phase.Opened?)
  }

  ghost predicate OpeningsWhole(s: State, moves: seq<Move>)
    requires IsRun(s, moves)
    decreases |moves|
  {
    moves == [] || (OpeningWhole(s, moves[0]) && OpeningsWhole(Do(s, moves[0]), moves[1..]))
  }

  /** Some attempt with this digest has its Started event in the log. */
  ghost predicate HasStarted(log: seq<Event>, digest: Digest) {
    exists i :: 0 <= i < |log| && IsStarted(log[i], digest)
  }

  ghost predicate StartedInLog(log: seq<Event>, k: Key) {
    HasStarted(log, DigestOfKey(k))
  }

  predicate IsStarted(e: Event, digest: Digest) {
    e.Fence? && e.fence.StartedEvent? && e.fence.digest == digest
  }

  //
  // The invariant.
  //

  /** Some record of this digest is past Prepared. */
  ghost predicate Stands(m: Records, digest: Digest) {
    exists id :: id in m && m[id].identity.digest == digest && m[id].state != Prepared
  }

  /** Records past Prepared stand for exactly the started digests, and only the attempt being opened
      is in Prepared. */
  ghost predicate LogSound(s: State) {
    && (forall id | id in Fold(s.log) && Fold(s.log)[id].state == Prepared :: s.phase.Opened? && s.phase.id == id)
    && (forall d :: HasStarted(s.log, d) <==> Stands(Fold(s.log), d))
  }

  /** The attempt in progress: what its log record says, and that its key is new where that matters. */
  ghost predicate PhaseSound(s: State) {
    var m := Fold(s.log);
    match s.phase
    case Idle => true
    case Checked(e) => !StartedInLog(s.log, KeyOf(e))
    case Opened(e, id) =>
      !StartedInLog(s.log, KeyOf(e)) && id in m && m[id].state == Prepared && m[id].identity.digest == ArgsDigest(e)
    case Running(e, id) =>
      KeyOf(e) !in s.ran && id in m && m[id].state == Started && m[id].identity.digest == ArgsDigest(e)
    case Ran(e, id, _) => id in m && m[id].state != Prepared && m[id].identity.digest == ArgsDigest(e)
    case Unobserved(e, id) => id in m && m[id].state != Prepared && m[id].identity.digest == ArgsDigest(e)
  }

  ghost predicate RanSound(s: State) {
    && (forall k | k in s.ran :: StartedInLog(s.log, k))
    && (forall i, j | 0 <= i < j < |s.ran| :: s.ran[i] != s.ran[j])
  }

  ghost predicate Inv(s: State) {
    LogSound(s) && PhaseSound(s) && RanSound(s)
  }

  lemma StartedAfterPush(log: seq<Event>, e: Event, d: Digest)
    ensures HasStarted(log + [e], d) <==> HasStarted(log, d) || IsStarted(e, d)
  {
    var l := log + [e];
    if HasStarted(log, d) {
      var i :| 0 <= i < |log| && IsStarted(log[i], d);
      assert l[i] == log[i];
    }
    if IsStarted(e, d) {
      assert l[|log|] == e;
    }
    if HasStarted(l, d) {
      var i :| 0 <= i < |l| && IsStarted(l[i], d);
      assert i < |log| ==> l[i] == log[i];
    }
  }

  /** An event an attempt may log: Prepared under a fresh id, Started for its own digest, or a terminal
      event for a record already past Prepared. */
  predicate InOrder(m: Records, f: FenceEvent) {
    if f.PreparedEvent? then f.id !in m
    else f.id in m && m[f.id].identity.digest == f.digest && (f.StartedEvent? || m[f.id].state != Prepared)
  }

  lemma StandsAfter(m: Records, f: FenceEvent, d: Digest)
    requires InOrder(m, f)
    ensures Stands(Apply(m, f), d) <==> Stands(m, d) || (f.StartedEvent? && f.digest == d)
  {
    var n := Apply(m, f);
    if Stands(m, d) {
      var id :| id in m && m[id].identity.digest == d && m[id].state != Prepared;
      assert id in n && n[id].identity.digest == d && n[id].state != Prepared;
    }
    if f.StartedEvent? && f.digest == d {
      assert n[f.id].state == Started && n[f.id].identity.digest == d;
    }
    if Stands(n, d) {
      var id :| id in n && n[id].identity.digest == d && n[id].state != Prepared;
      assert id in m && m[id].identity.digest == d;
      assert m[id].state != Prepared || (f.StartedEvent? && f.id == id);
    }
  }

  /** An idle state whose digest is unstarted lets the effect through; any other refuses it. */
  lemma DecisionFromLog(s: State, e: Effect, found: Option<Record>)
    requires LogSound(s) && s.phase.Idle? && MayFind(Fold(s.log), ArgsDigest(e), found)
    ensures Decision(found, ArgsDigest(e)).AllowFresh? <==> !StartedInLog(s.log, KeyOf(e))
  {
    var m, d := Fold(s.log), ArgsDigest(e);
    assert HasStarted(s.log, d) <==> Stands(m, d);
    if found.Some? {
      var id :| id in m && m[id] == found.value;
      assert m[id].state != Prepared && m[id].identity.digest == d;
    }
  }

  lemma BeginKeeps(s: State, m: Move)
    requires Inv(s) && m.Begin? && Enabled(s, m)
    ensures Inv(Do(s, m))
  {
    DecisionFromLog(s, m.effect, m.found);
  }

  function StateAfter(f: FenceEvent): FenceState {
    match f
    case PreparedEvent(_, _, _, _) => Prepared
    case StartedEvent(_, _) => Started
    case ObservedEvent(_, _, _) => Observed
    case FailedEvent(_, _, _) => Failed
    case UnknownEvent(_, _, _) => Unknown
  }

  /** A stored fence event of an attempt, seen through the fold. */
  lemma PushSound(s: State, f: FenceEvent, t: State)
    requires LogSound(s) && t.log == s.log + [Fence(f)] && InOrder(Fold(s.log), f)
    requires f.PreparedEvent? ==> t.phase.Opened? && t.phase.id == f.id && !s.phase.Opened?
    requires !f.PreparedEvent? && s.phase.Opened? ==> s.phase.id == f.id
    ensures LogSound(t)
    ensures f.id in Fold(t.log) && Fold(t.log)[f.id].identity.digest == f.digest
    ensures Fold(t.log)[f.id].state == StateAfter(f)
  {
    FoldPush(s.log, Fence(f));
    forall d
      ensures HasStarted(t.log, d) <==> Stands(Fold(t.log), d)
    {
      StartedAfterPush(s.log, Fence(f), d);
      StandsAfter(Fold(s.log), f, d);
    }
  }

  lemma RanSoundGrows(s: State, e: Event, t: State)
    requires RanSound(s) && t.ran == s.ran && t.log == s.log + [e]
    ensures RanSound(t)
  {
    forall k | k in t.ran
      ensures StartedInLog(t.log, k)
    {
      StartedAfterPush(s.log, e, DigestOfKey(k));
    }
  }

  lemma PrepareKeeps(s: State, m: Move)
    requires Inv(s) && m.Prepare? && Enabled(s, m) && OpeningWhole(s, m)
    ensures Inv(Do(s, m))
  {
    var t, e := Do(s, m), s.phase.effect;
    if m.fate.Stored? {
      var f := PreparedEvent(m.id, ArgsDigest(e), EffectLabel(e), e.action.target);
      PushSound(s, f, t);
      RanSoundGrows(s, Fence(f), t);
      StartedAfterPush(s.log, Fence(f), ArgsDigest(e));
    }
  }

  lemma StartKeeps(s: State, m: Move)
    requires Inv(s) && m.Start? && Enabled(s, m) && OpeningWhole(s, m)
    ensures Inv(Do(s, m))
  {
    var t, e := Do(s, m), s.phase.effect;
    var f := StartedEvent(s.phase.id, ArgsDigest(e));
    PushSound(s, f, t);
    RanSoundGrows(s, Fence(f), t);
  }

  lemma ExecuteKeeps(s: State, m: Move)
    requires Inv(s) && m.Execute? && Enabled(s, m)
    ensures Inv(Do(s, m))
  {
    var t, e := Do(s, m), s.phase.effect;
    assert Stands(Fold(s.log), ArgsDigest(e)) && StartedInLog(s.log, KeyOf(e));
    NoDuplicateAdded(s.ran, KeyOf(e));
  }

  lemma NoDuplicateAdded(ran: seq<Key>, k: Key)
    requires k !in ran && forall i, j | 0 <= i < j < |ran| :: ran[i] != ran[j]
    ensures var all := ran + [k]; forall i, j | 0 <= i < j < |all| :: all[i] != all[j]
  {
  }

  function TerminalEvent(s: State, m: Move): FenceEvent
    requires (m.Observe? && s.phase.Ran?) || (m.MarkFailed? && s.phase.Ran?) || (m.MarkUnknown? && s.phase.Unobserved?)
  {
    var digest := ArgsDigest(s.phase.effect);
    match m
    case Observe(_) => ObservedEvent(s.phase.id, digest, EXECUTED)
    case MarkFailed(_) => FailedEvent(s.phase.id, digest, EXECUTION_ERROR)
    case MarkUnknown(_) => UnknownEvent(s.phase.id, digest, UNOBSERVED)
  }

  lemma FinishKeeps(s: State, m: Move)
    requires Inv(s) && Enabled(s, m) && (m.Observe? || m.MarkFailed? || m.MarkUnknown?)
    ensures Inv(Do(s, m))
  {
    var t := Do(s, m);
    if !m.fate.Lost? {
      PushSound(s, TerminalEvent(s, m), t);
      RanSoundGrows(s, Fence(TerminalEvent(s, m)), t);
    }
  }

  lemma OtherKeeps(s: State)
    requires Inv(s)
    ensures Inv(Do(s, AppendOther))
  {
    var t := Do(s, AppendOther);
    FoldPush(s.log, Other);
    RanSoundGrows(s, Other, t);
    forall d
      ensures HasStarted(t.log, d) <==> HasStarted(s.log, d)
    {
      StartedAfterPush(s.log, Other, d);
    }
  }

  lemma MoveKeeps(s: State, m: Move)
    requires Inv(s) && Enabled(s, m) && OpeningWhole(s, m)
    ensures Inv(Do(s, m))
  {
    match m {
      case Begin(_, _) => BeginKeeps(s, m);
      case ReadFails =>
      case Prepare(_, _) => PrepareKeeps(s, m);
      case Start(_) => StartKeeps(s, m);
      case Execute(_) => ExecuteKeeps(s, m);
      case Observe(_) => FinishKeeps(s, m);
      case MarkUnknown(_) => FinishKeeps(s, m);
      case MarkFailed(_) => FinishKeeps(s, m);
      case Crash =>
      case AppendOther => OtherKeeps(s);
    }
  }

  lemma {:induction false} RunKeeps(s: State, moves: seq<Move>)
    requires Inv(s) && IsRun(s, moves) && OpeningsWhole(s, moves)
    ensures Inv(After(s, moves))
    decreases |moves|
  {
    if moves != [] {
      MoveKeeps(s, moves[0]);
      RunKeeps(Do(s, moves[0]), moves[1..]);
    }
  }

  //
  // The theorems.
  //

  ghost predicate NoneTwice(ran: seq<Key>) {
    forall i, j | 0 <= i < j < |ran| :: ran[i] != ran[j]
  }

  /** In every run whose openings stay whole, no side effect is executed twice for the same five
      fields, wherever later crashes and failed appends fall. */
  lemma AtMostOnce(moves: seq<Move>)
    requires IsRun(INIT, moves) && OpeningsWhole(INIT, moves)
    ensures NoneTwice(After(INIT, moves).ran)
  {
    RunKeeps(INIT, moves);
  }

  /** In every such run, an attempt is refused by the fence exactly when an earlier attempt with the
      same five fields reached Started, whichever record the scan comes across. */
  lemma RefusedExactlyWhenStarted(moves: seq<Move>, e: Effect, found: Option<Record>)
    requires IsRun(INIT, moves) && OpeningsWhole(INIT, moves)
    requires Enabled(After(INIT, moves), Begin(e, found))
    ensures Do(After(INIT, moves), Begin(e, found)).phase.Idle? <==> StartedInLog(After(INIT, moves).log, KeyOf(e))
  {
    RunKeeps(INIT, moves);
    DecisionFromLog(After(INIT, moves), e, found);
  }

  //
  // Runs put together.
  //

  lemma {:induction false} RunsCompose(s: State, a: seq<Move>, b: seq<Move>)
    requires IsRun(s, a) && IsRun(After(s, a), b)
    ensures IsRun(s, a + b) && After(s, a + b) == After(After(s, a), b)
    decreases |a|
  {
    if a == [] {
      assert a + b == b;
    } else {
      assert (a + b)[0] == a[0] && (a + b)[1..] == a[1..] + b;
      RunsCompose(Do(s, a[0]), a[1..], b);
    }
  }

  lemma RunPush(s: State, moves: seq<Move>, m: Move)
    requires IsRun(s, moves) && Enabled(After(s, moves), m)
    ensures IsRun(s, moves + [m]) && After(s, moves + [m]) == Do(After(s, moves), m)
  {
    var t := After(s, moves);
    assert [m][1..] == [];
    assert IsRun(Do(t, m), []) && After(Do(t, m), []) == Do(t, m);
    assert IsRun(t, [m]) && After(t, [m]) == Do(t, m);
    RunsCompose(s, moves, [m]);
  }
}
