/** Fenced runs in terms of the effects attempted and their fields
    (crates/impetus-core/src/effect_fence.rs, crates/impetus-core/src/effects.rs). */
module FencedEffects {
  import opened Text
  import opened EventLog
  import opened EffectFence
  import opened FencedRuns
  import opened FenceLimits

  /** The effects a run executes, in order. */
  ghost function Executions(s: State, moves: seq<Move>): seq<Effect>
    requires IsRun(s, moves)
    decreases |moves|
  {
    if moves == [] then []
    else (if moves[0].Execute? then [s.phase.effect] else []) + Executions(Do(s, moves[0]), moves[1..])
  }

  /** The effects whose Started a run gets into the log, in order. */
  ghost function Starts(s: State, moves: seq<Move>): seq<Effect>
    requires IsRun(s, moves)
    decreases |moves|
  {
    if moves == [] then []
    else
      (if moves[0].Start? && !moves[0].fate.Lost? then [s.phase.effect] else []) + Starts(Do(s, moves[0]), moves[1..])
  }

  //
  // Executed at most once.
  //

  ghost predicate KeysOf(keys: seq<Key>, effects: seq<Effect>) {
    |keys| == |effects| && forall k | 0 <= k < |keys| :: keys[k] == KeyOf(effects[k])
  }

  function KeysIn(effects: seq<Effect>): (keys: seq<Key>)
    ensures KeysOf(keys, effects)
  {
    if effects == [] then [] else [KeyOf(effects[0])] + KeysIn(effects[1..])
  }

  lemma RanByMove(s: State, m: Move, rest: seq<Effect>)
    requires Enabled(s, m)
    ensures var all := (if m.Execute? then [s.phase.effect] else []) + rest;
            Do(s, m).ran + KeysIn(rest) == s.ran + KeysIn(all)
  {
    if m.Execute? {
      assert ([s.phase.effect] + rest)[1..] == rest;
      Assoc(s.ran, [KeyOf(s.phase.effect)], KeysIn(rest));
    } else {
      assert [] + rest == rest;
    }
  }

  /** What has run is the keys of the effects executed. */
  lemma {:induction false} RanGrowsBy(s: State, moves: seq<Move>)
    requires IsRun(s, moves)
    ensures After(s, moves).ran == s.ran + KeysIn(Executions(s, moves))
    decreases |moves|
  {
    if moves == [] {
      assert s.ran + [] == s.ran;
    } else {
      var t := Do(s, moves[0]);
      RanGrowsBy(t, moves[1..]);
      RanByMove(s, moves[0], Executions(t, moves[1..]));
    }
  }

  lemma RanIsExecuted(moves: seq<Move>)
    requires IsRun(INIT, moves)
    ensures KeysOf(After(INIT, moves).ran, Executions(INIT, moves))
  {
    RanGrowsBy(INIT, moves);
    var keys := KeysIn(Executions(INIT, moves));
    assert [] + keys == keys;
  }

  /** In every run whose openings stay whole, no two effects executed agree in capability, kind, origin, target and
      version. */
  lemma EffectsRunAtMostOnce(moves: seq<Move>)
    requires IsRun(INIT, moves) && OpeningsWhole(INIT, moves)
    ensures var done := Executions(INIT, moves); forall i, j | 0 <= i < j < |done| :: !SameCall(done[i], done[j])
  {
    AtMostOnce(moves);
    RanIsExecuted(moves);
    DistinctKeys(After(INIT, moves).ran, Executions(INIT, moves));
  }

  lemma DistinctKeys(ran: seq<Key>, done: seq<Effect>)
    requires KeysOf(ran, done) && NoneTwice(ran)
    ensures forall i, j | 0 <= i < j < |done| :: !SameCall(done[i], done[j])
  {
    forall i, j | 0 <= i < j < |done|
      ensures !SameCall(done[i], done[j])
    {
      assert ran[i] != ran[j];
      KeyExact(done[i], done[j]);
    }
  }

  /** In every run, of the effects that agree with `e` in those fields at most one is executed, if the openings of
      attempts on them stay whole. */
  lemma EffectRunsAtMostOnce(moves: seq<Move>, e: Effect)
    requires IsRun(INIT, moves) && OpeningsWholeFor(INIT, moves, KeyOf(e))
    ensures var done := Executions(INIT, moves);
            forall i, j | 0 <= i < j < |done| :: !(SameCall(done[i], e) && SameCall(done[j], e))
  {
    AtMostOnceEach(moves, KeyOf(e));
    RanIsExecuted(moves);
    KeyOnce(After(INIT, moves).ran, Executions(INIT, moves), e);
  }

  lemma KeyOnce(ran: seq<Key>, done: seq<Effect>, e: Effect)
    requires KeysOf(ran, done) && Once(ran, KeyOf(e))
    ensures forall i, j | 0 <= i < j < |done| :: !(SameCall(done[i], e) && SameCall(done[j], e))
  {
    forall i, j | 0 <= i < j < |done|
      ensures !(SameCall(done[i], e) && SameCall(done[j], e))
    {
      assert !(ran[i] == KeyOf(e) && ran[j] == KeyOf(e));
      KeyExact(done[i], e);
      KeyExact(done[j], e);
    }
  }

  //
  // Refused on account of the same call only.
  //

  ghost predicate SomeDigest(effects: seq<Effect>, d: Digest) {
    exists k :: 0 <= k < |effects| && ArgsDigest(effects[k]) == d
  }

  lemma SomeDigestHead(e: Effect, rest: seq<Effect>, d: Digest)
    ensures SomeDigest([e] + rest, d) <==> ArgsDigest(e) == d || SomeDigest(rest, d)
  {
    var all := [e] + rest;
    assert all[0] == e;
    if SomeDigest(rest, d) {
      var k :| 0 <= k < |rest| && ArgsDigest(rest[k]) == d;
      assert all[k + 1] == rest[k];
    }
  }

  lemma StartedByMove(s: State, m: Move, d: Digest)
    requires Enabled(s, m)
    ensures HasStarted(Do(s, m).log, d) <==>
              HasStarted(s.log, d) || (m.Start? && !m.fate.Lost? && ArgsDigest(s.phase.effect) == d)
  {
    if EventOf(s, m).Some? {
      StartedAfterPush(s.log, Fence(EventOf(s, m).value), d);
    } else if m.AppendOther? {
      StartedAfterPush(s.log, Other, d);
    }
  }

  lemma {:induction false} StartedExactly(s: State, moves: seq<Move>, d: Digest)
    requires IsRun(s, moves)
    ensures HasStarted(After(s, moves).log, d) <==> HasStarted(s.log, d) || SomeDigest(Starts(s, moves), d)
    decreases |moves|
  {
    if moves != [] {
      var t, rest := Do(s, moves[0]), moves[1..];
      StartedByMove(s, moves[0], d);
      StartedExactly(t, rest, d);
      if moves[0].Start? && !moves[0].fate.Lost? {
        SomeDigestHead(s.phase.effect, Starts(t, rest), d);
      } else {
        assert Starts(s, moves) == Starts(t, rest);
      }
    }
  }

  /** In every run whose openings stay whole, an attempt is refused exactly when an effect that agrees with it in all
      those fields was started before: one that differs in a single field is no ground. */
  lemma RefusedExactlyForSameCall(moves: seq<Move>, e: Effect, found: Option<Record>)
    requires IsRun(INIT, moves) && OpeningsWhole(INIT, moves)
    requires Enabled(After(INIT, moves), Begin(e, found))
    ensures Do(After(INIT, moves), Begin(e, found)).phase.Idle?
            <==> exists f :: f in Starts(INIT, moves) && SameCall(e, f)
  {
    RefusedExactlyWhenStarted(moves, e, found);
    StartedExactly(INIT, moves, ArgsDigest(e));
    var started := Starts(INIT, moves);
    if k :| 0 <= k < |started| && ArgsDigest(started[k]) == ArgsDigest(e) {
      DigestExact(e, started[k]);
      assert started[k] in started;
    }
    if f :| f in started && SameCall(e, f) {
      DigestExact(e, f);
    }
  }

  //
  // What a refusal says.
  //

  /** The last move that logged something under an id, and the effect attempted. */
  datatype Word = Word(effect: Effect, move: Move)

  type Words = map<Id, Word>

  /** A move that logs speaks for its attempt. */
  ghost function Spoken(words: Words, s: State, m: Move): Words
    requires Enabled(s, m)
  {
    if EventOf(s, m).Some? && !m.fate.Lost? then words[EventOf(s, m).value.id := Word(s.phase.effect, m)] else words
  }

  ghost function LastWords(words: Words, s: State, moves: seq<Move>): Words
    requires IsRun(s, moves)
    decreases |moves|
  {
    if moves == [] then words else LastWords(Spoken(words, s, moves[0]), Do(s, moves[0]), moves[1..])
  }

  /** What the fence is to answer after that move was the last. */
  function Answer(m: Move): ReplayDecision {
    match m
    case Start(_) => Refuse(UNFINISHED)
    case Observe(_) => AlreadyObserved(Some("executed"))
    case MarkFailed(_) => AlreadyFailed(Some("execution error"))
    case MarkUnknown(_) => Refuse(OUTCOME_UNKNOWN)
    case _ => AllowFresh
  }

  ghost predicate Says(r: Record, w: Word) {
    r.identity.digest == ArgsDigest(w.effect) && ReconcileForReplay(r, r.identity.digest) == Answer(w.move)
  }

  /** Each record says what the last move of its attempt calls for. */
  ghost predicate InWords(m: Records, words: Words) {
    m.Keys == words.Keys && forall id | id in m :: Says(m[id], words[id])
  }

  /** The answer an event calls for. */
  function Named(f: FenceEvent): ReplayDecision {
    match f
    case PreparedEvent(_, _, _, _) => AllowFresh
    case StartedEvent(_, _) => Refuse(UNFINISHED)
    case ObservedEvent(_, _, summary) => AlreadyObserved(Some(summary))
    case FailedEvent(_, _, reason) => AlreadyFailed(Some(reason))
    case UnknownEvent(_, _, _) => Refuse(OUTCOME_UNKNOWN)
  }

  lemma EventNamed(s: State, m: Move)
    requires Enabled(s, m) && EventOf(s, m).Some?
    ensures EventOf(s, m).value.digest == ArgsDigest(s.phase.effect) && Named(EventOf(s, m).value) == Answer(m)
  {
  }

  lemma ApplySays(m: Records, f: FenceEvent)
    ensures f.id in Apply(m, f) && Apply(m, f).Keys == m.Keys + {f.id}
    ensures Apply(m, f)[f.id].identity.digest == f.digest && ReconcileForReplay(Apply(m, f)[f.id], f.digest) == Named(f)
    ensures forall id | id in m && id != f.id :: Apply(m, f)[id] == m[id]
  {
  }

  lemma ApplyInWords(m: Records, words: Words, f: FenceEvent, w: Word)
    requires InWords(m, words) && f.digest == ArgsDigest(w.effect) && Named(f) == Answer(w.move)
    ensures InWords(Apply(m, f), words[f.id := w])
  {
    ApplySays(m, f);
  }

  lemma MoveInWords(s: State, m: Move, words: Words)
    requires InWords(Fold(s.log), words) && Enabled(s, m)
    ensures InWords(Fold(Do(s, m).log), Spoken(words, s, m))
  {
    FoldAfter(s, m);
    if EventOf(s, m).Some? && !m.fate.Lost? {
      EventNamed(s, m);
      ApplyInWords(Fold(s.log), words, EventOf(s, m).value, Word(s.phase.effect, m));
    }
  }

  lemma {:induction false} RunInWords(s: State, moves: seq<Move>, words: Words)
    requires InWords(Fold(s.log), words) && IsRun(s, moves)
    ensures InWords(Fold(After(s, moves).log), LastWords(words, s, moves))
    decreases |moves|
  {
    if moves != [] {
      MoveInWords(s, moves[0], words);
      RunInWords(Do(s, moves[0]), moves[1..], Spoken(words, s, moves[0]));
    }
  }

  /** An earlier attempt on the same call, and what its last word calls for. */
  ghost predicate Answers(words: Words, id: Id, e: Effect, decision: ReplayDecision) {
    id in words && SameCall(words[id].effect, e) && decision == Answer(words[id].move)
  }

  /** The decision is what some earlier attempt on the same call calls for, or there is none and nothing is refused. */
  ghost predicate Answered(words: Words, e: Effect, decision: ReplayDecision) {
    || (exists id :: Answers(words, id, e, decision))
    || (decision == AllowFresh && forall id | id in words :: !SameCall(words[id].effect, e))
  }

  lemma RecordOfCall(r: Record, w: Word, e: Effect)
    requires Says(r, w)
    ensures r.identity.digest == ArgsDigest(e) <==> SameCall(w.effect, e)
  {
    DigestExact(w.effect, e);
  }

  lemma AnswerFromWords(m: Records, words: Words, e: Effect, found: Option<Record>)
    requires InWords(m, words) && MayFind(m, ArgsDigest(e), found)
    ensures Answered(words, e, Decision(found, ArgsDigest(e)))
  {
    if found.None? {
      forall id | id in words
        ensures !SameCall(words[id].effect, e)
      {
        assert id in m;
        RecordOfCall(m[id], words[id], e);
      }
    } else {
      var id :| id in m && m[id] == found.value;
      RecordOfCall(m[id], words[id], e);
      assert Answers(words, id, e, Decision(found, ArgsDigest(e)));
    }
  }

  /** In every run, whatever crashes and lost appends it has: the fence answers an attempt with what the last stored
      move of an earlier attempt on the same call says, observed, failed, unknown or unfinished, or lets it go ahead
      where there is none. */
  lemma RefusalNamesEnding(moves: seq<Move>, e: Effect, found: Option<Record>)
    requires IsRun(INIT, moves) && Enabled(After(INIT, moves), Begin(e, found))
    ensures Answered(LastWords(map[], INIT, moves), e, Decision(found, ArgsDigest(e)))
  {
    RunInWords(INIT, moves, map[]);
    AnswerFromWords(Fold(After(INIT, moves).log), LastWords(map[], INIT, moves), e, found);
  }
}
