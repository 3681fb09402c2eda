/** The fence ledger, which appends to the session log, and the run of one side effect under it
    (crates/impetus-core/src/effect_fence.rs, crates/impetus-core/src/effects.rs). */
module FencedExecution {
  import opened Text
  import opened EventLog
  import opened EffectFence
  import opened FencedRuns

  const MAX_FENCE_SUMMARY_CHARS: nat := 256

  /** The text itself, or as much of its front as is allowed. */
  function BoundFenceSummary(s: string): string {
    if |s| <= MAX_FENCE_SUMMARY_CHARS then s else s[..MAX_FENCE_SUMMARY_CHARS]
  }

  lemma BoundedIsFront(s: string)
    ensures BoundFenceSummary(s) <= s && |BoundFenceSummary(s)| == Min(|s|, 256)
  {
  }

  datatype LedgerError = StoreError

  /** Appends fence events to a log. `fates` decides, in advance and arbitrarily, how each append ends. */
  class EffectFenceLedger {
    var log: seq<Event>
    var calls: nat
    const fates: nat -> Fate

    constructor (log: seq<Event>, fates: nat -> Fate)
      ensures this.log == log && this.fates == fates && calls == 0
    {
      this.log, this.fates, calls := log, fates, 0;
    }

    method Append(f: FenceEvent) returns (ok: bool)
      modifies this
      ensures log == Logged(old(log), f, fates(old(calls))) && calls == old(calls) + 1
      ensures ok == fates(old(calls)).Stored?
      ensures !fates(old(calls)).Lost? ==> Fold(log) == Apply(old(Fold(log)), f)
    {
      var fate := fates(calls);
      if !fate.Lost? {
        FoldPush(log, Fence(f));
        log := log + [Fence(f)];
      }
      calls := calls + 1;
      ok := fate.Stored?;
    }

    /** The record returned is the one the log folds to. */
    method Prepare(identity: Identity) returns (r: Result<Record, LedgerError>)
      modifies this
      ensures log == Logged(old(log), PreparedEvent(identity.effectId, identity.digest, identity.kind, identity.target),
                            fates(old(calls)))
      ensures calls == old(calls) + 1
      ensures r.Ok? <==> fates(old(calls)).Stored?
      ensures r.Ok? ==> identity.effectId in Fold(log) && Fold(log)[identity.effectId] == r.value
    {
      var ok := Append(PreparedEvent(identity.effectId, identity.digest, identity.kind, identity.target));
      r := if ok then Ok(Record(identity, Prepared, None)) else Err(StoreError);
    }

    method MarkStarted(identity: Identity) returns (r: Result<Record, LedgerError>)
      modifies this
      ensures log == Logged(old(log), StartedEvent(identity.effectId, identity.digest), fates(old(calls)))
      ensures calls == old(calls) + 1
      ensures r.Ok? <==> fates(old(calls)).Stored?
      ensures r.Ok? ==> r.value == Record(identity, Started, None)
      ensures r.Ok? && identity.effectId in old(Fold(log))
              && old(Fold(log))[identity.effectId] == Record(identity, Prepared, None)
              ==> identity.effectId in Fold(log) && Fold(log)[identity.effectId] == r.value
    {
      var ok := Append(StartedEvent(identity.effectId, identity.digest));
      r := if ok then Ok(Record(identity, Started, None)) else Err(StoreError);
    }

    /** Prepared, then Started; the second append is tried only once the first is acknowledged. */
    method PrepareAndStart(identity: Identity) returns (r: Result<Record, LedgerError>)
      modifies this
      ensures var p := PreparedEvent(identity.effectId, identity.digest, identity.kind, identity.target);
              var f0, f1 := fates(old(calls)), fates(old(calls) + 1);
              log == if f0.Stored? then Logged(Logged(old(log), p, f0),
                                               StartedEvent(identity.effectId, identity.digest), f1)
                     else Logged(old(log), p, f0)
      ensures calls == old(calls) + if fates(old(calls)).Stored? then 2 else 1
      ensures r.Ok? <==> fates(old(calls)).Stored? && fates(old(calls) + 1).Stored?
      ensures r.Ok? ==> r.value == Record(identity, Started, None)
      ensures r.Ok? ==> identity.effectId in Fold(log) && Fold(log)[identity.effectId] == r.value
    {
      r := Prepare(identity);
      if r.Ok? {
        r := MarkStarted(identity);
      }
    }

    method Observe(identity: Identity, summary: string) returns (r: Result<Record, LedgerError>)
      modifies this
      ensures log == Logged(old(log), ObservedEvent(identity.effectId, identity.digest, BoundFenceSummary(summary)),
                            fates(old(calls)))
      ensures calls == old(calls) + 1
      ensures r.Ok? <==> fates(old(calls)).Stored?
      ensures r.Ok? && identity.effectId in old(Fold(log)) && old(Fold(log))[identity.effectId].identity == identity
              ==> identity.effectId in Fold(log) && Fold(log)[identity.effectId] == r.value
    {
      var bounded := BoundFenceSummary(summary);
      var ok := Append(ObservedEvent(identity.effectId, identity.digest, bounded));
      r := if ok then Ok(Record(identity, Observed, Some(bounded))) else Err(StoreError);
    }

    method MarkFailed(identity: Identity, reason: string) returns (r: Result<Record, LedgerError>)
      modifies this
      ensures log == Logged(old(log), FailedEvent(identity.effectId, identity.digest, BoundFenceSummary(reason)),
                            fates(old(calls)))
      ensures calls == old(calls) + 1
      ensures r.Ok? <==> fates(old(calls)).Stored?
      ensures r.Ok? && identity.effectId in old(Fold(log)) && old(Fold(log))[identity.effectId].identity == identity
              ==> identity.effectId in Fold(log) && Fold(log)[identity.effectId] == r.value
    {
      var bounded := BoundFenceSummary(reason);
      var ok := Append(FailedEvent(identity.effectId, identity.digest, bounded));
      r := if ok then Ok(Record(identity, Failed, Some(bounded))) else Err(StoreError);
    }

    method MarkUnknown(identity: Identity, reason: string) returns (r: Result<Record, LedgerError>)
      modifies this
      ensures log == Logged(old(log), UnknownEvent(identity.effectId, identity.digest, BoundFenceSummary(reason)),
                            fates(old(calls)))
      ensures calls == old(calls) + 1
      ensures r.Ok? <==> fates(old(calls)).Stored?
      ensures r.Ok? && identity.effectId in old(Fold(log)) && old(Fold(log))[identity.effectId].identity == identity
              ==> identity.effectId in Fold(log) && Fold(log)[identity.effectId] == r.value
    {
      var bounded := BoundFenceSummary(reason);
      var ok := Append(UnknownEvent(identity.effectId, identity.digest, bounded));
      r := if ok then Ok(Record(identity, Unknown, Some(bounded))) else Err(StoreError);
    }
  }

  /** The terminal event of an attempt, and the record its ledger call returns. */
  datatype Ending = EndObserved(text: string) | EndFailed(text: string) | EndUnknown(text: string)

  function EndingEvent(i: Identity, e: Ending): FenceEvent {
    match e
    case EndObserved(t) => ObservedEvent(i.effectId, i.digest, BoundFenceSummary(t))
    case EndFailed(t) => FailedEvent(i.effectId, i.digest, BoundFenceSummary(t))
    case EndUnknown(t) => UnknownEvent(i.effectId, i.digest, BoundFenceSummary(t))
  }

  function EndingState(e: Ending): FenceState {
    match e case EndObserved(_) => Observed case EndFailed(_) => Failed case EndUnknown(_) => Unknown
  }

  /** However the events of other effects are interleaved, an effect that went through Prepared, Started
      and one ending folds, after each of the three, to the record its ledger call returned. */
  lemma LedgerRecordsAreTheFold(log: seq<Event>, i: Identity, end: Ending)
    ensures var p := Fence(PreparedEvent(i.effectId, i.digest, i.kind, i.target));
            var s := Fence(StartedEvent(i.effectId, i.digest));
            var t := Fence(EndingEvent(i, end));
            && (Only(log, i.effectId) == [p]
                ==> i.effectId in Fold(log) && Fold(log)[i.effectId] == Record(i, Prepared, None))
            && (Only(log, i.effectId) == [p, s]
                ==> i.effectId in Fold(log) && Fold(log)[i.effectId] == Record(i, Started, None))
            && (Only(log, i.effectId) == [p, s, t]
                ==> i.effectId in Fold(log)
                    && Fold(log)[i.effectId] == Record(i, EndingState(end), Some(BoundFenceSummary(end.text))))
  {
    var p := Fence(PreparedEvent(i.effectId, i.digest, i.kind, i.target));
    var s := Fence(StartedEvent(i.effectId, i.digest));
    var t := Fence(EndingEvent(i, end));
    FoldProjects(log, i.effectId);
    FoldPush([], p);
    FoldPush([p], s);
    FoldPush([p, s], t);
    assert [] + [p] == [p] && [p] + [s] == [p, s] && [p, s] + [t] == [p, s, t];
  }

  //
  // One side effect under the fence.
  //

  /** Why an effect was not reported executed: the log could not be read or written, an earlier attempt stands in the
      way, or it did run but that could not be stored. */
  datatype Refusal = StoreFailed | Replay(decision: ReplayDecision) | ObserveFailed

  datatype Execution<T> = Executed(value: T) | Denied(reason: Refusal)

  /** The replay check: the log must be readable and the record found must allow a fresh attempt. */
  function Barred(readOk: bool, found: Option<Record>, digest: Digest): Option<Refusal> {
    if !readOk then Some(StoreFailed)
    else if Decision(found, digest).AllowFresh? then None
    else Some(Replay(Decision(found, digest)))
  }

  /** What is reported when the effect was not attempted: what barred it, or else that an opening append failed. */
  function Why(barred: Option<Refusal>): Refusal {
    if barred.Some? then barred.value else StoreFailed
  }

  /** Looks for an earlier attempt. The ghost results name the record the scan came across and the move made. */
  method CheckReplay(ledger: EffectFenceLedger, effect: Effect, readOk: bool, ghost ran: seq<Key>)
    returns (barred: Option<Refusal>, ghost found: Option<Record>, ghost moves: seq<Move>)
    ensures readOk ==> MayFind(Fold(ledger.log), ArgsDigest(effect), found)
    ensures barred == Barred(readOk, found, ArgsDigest(effect))
    ensures var s := State(ledger.log, Idle, ran);
            IsRun(s, moves) && After(s, moves) == if barred.None? then s.(phase := Checked(effect)) else s
  {
    var digest := ArgsDigest(effect);
    ghost var s := State(ledger.log, Idle, ran);
    found := None;
    if !readOk {
      RunPush(s, [], ReadFails);
      return Some(StoreFailed), None, [] + [ReadFails];
    }
    var records := RecordsFromEvents(ledger.log);
    var best := LatestForDigest(records, digest);
    RunPush(s, [], Begin(effect, best));
    found, moves := best, [] + [Begin(effect, best)];
    match Decision(best, digest) {
      case AllowFresh => barred := None;
      case AlreadyObserved(_) => barred := Some(Replay(Decision(best, digest)));
      case AlreadyFailed(_) => barred := Some(Replay(Decision(best, digest)));
      case Refuse(_) => barred := Some(Replay(Decision(best, digest)));
    }
  }

  /** Both opening appends are stored. */
  ghost predicate Opens(ledger: EffectFenceLedger, call: nat) {
    ledger.fates(call).Stored? && ledger.fates(call + 1).Stored?
  }

  /** After the opening appends: moves that lead to this log, running if both were stored. */
  ghost predicate OpenedAs(s: State, moves: seq<Move>, effect: Effect, id: Id, log: seq<Event>, running: bool) {
    && IsRun(s, moves) && After(s, moves) == State(log, if running then Running(effect, id) else Idle, s.ran)
    && (running ==> HasStarted(log, ArgsDigest(effect)))
    && (id in Fold(log) ==> Fold(log)[id].state in {Prepared, Started})
  }

  /** The first append: the attempt goes on only if it was stored. */
  lemma PrepareMove(s: State, moves: seq<Move>, effect: Effect, id: Id, f0: Fate, log: seq<Event>)
    requires IsRun(s, moves) && After(s, moves) == s.(phase := Checked(effect)) && id !in Fold(s.log)
    requires log == Logged(s.log, PreparedEvent(id, ArgsDigest(effect), EffectLabel(effect), effect.action.target), f0)
    ensures var all := moves + [Prepare(id, f0)];
            && IsRun(s, all)
            && After(s, all) == State(log, if f0.Stored? then Opened(effect, id) else Idle, s.ran)
    ensures id in Fold(log) ==> Fold(log)[id].state == Prepared
  {
    FoldPush(s.log, Fence(PreparedEvent(id, ArgsDigest(effect), EffectLabel(effect), effect.action.target)));
    RunPush(s, moves, Prepare(id, f0));
  }

  /** The second append. */
  lemma StartMove(s: State, moves: seq<Move>, effect: Effect, id: Id, f1: Fate, log: seq<Event>, log': seq<Event>)
    requires IsRun(s, moves) && After(s, moves) == State(log, Opened(effect, id), s.ran)
    requires id in Fold(log) ==> Fold(log)[id].state == Prepared
    requires log' == Logged(log, StartedEvent(id, ArgsDigest(effect)), f1)
    ensures OpenedAs(s, moves + [Start(f1)], effect, id, log', f1.Stored?)
  {
    FoldPush(log, Fence(StartedEvent(id, ArgsDigest(effect))));
    StartedAfterPush(log, Fence(StartedEvent(id, ArgsDigest(effect))), ArgsDigest(effect));
    RunPush(s, moves, Start(f1));
  }

  /** The opening appends as moves, and what they leave in the fold. */
  lemma OpeningMoves(s: State, moves: seq<Move>, effect: Effect, id: Id, f0: Fate, f1: Fate, log: seq<Event>)
    returns (all: seq<Move>)
    requires IsRun(s, moves) && After(s, moves) == s.(phase := Checked(effect)) && id !in Fold(s.log)
    requires var p := PreparedEvent(id, ArgsDigest(effect), EffectLabel(effect), effect.action.target);
             log == if f0.Stored? then Logged(Logged(s.log, p, f0), StartedEvent(id, ArgsDigest(effect)), f1)
                    else Logged(s.log, p, f0)
    ensures OpenedAs(s, all, effect, id, log, f0.Stored? && f1.Stored?)
  {
    var p := PreparedEvent(id, ArgsDigest(effect), EffectLabel(effect), effect.action.target);
    var log0 := Logged(s.log, p, f0);
    all := moves + [Prepare(id, f0)];
    PrepareMove(s, moves, effect, id, f0, log0);
    if f0.Stored? {
      StartMove(s, all, effect, id, f1, log0, log);
      all := all + [Start(f1)];
    }
  }

  /** The identity to run under, stored as Prepared and Started. */
  method Open(ledger: EffectFenceLedger, effect: Effect, newId: Id, ghost s: State, ghost before: seq<Move>)
    returns (r: Result<Identity, Refusal>, ghost moves: seq<Move>)
    requires newId !in Fold(ledger.log) && s.log == ledger.log
    requires IsRun(s, before) && After(s, before) == s.(phase := Checked(effect))
    modifies ledger
    ensures OpenedAs(s, moves, effect, newId, ledger.log, r.Ok?)
    ensures r.Ok? <==> Opens(ledger, old(ledger.calls))
    ensures r.Err? ==> r.error == StoreFailed
    ensures r.Ok? ==>
              && r.value == Identity(newId, ArgsDigest(effect), EffectLabel(effect), effect.action.target)
              && newId in Fold(ledger.log) && Fold(ledger.log)[newId] == Record(r.value, Started, None)
              && s.log < ledger.log && ledger.calls == old(ledger.calls) + 2
  {
    var identity := Identity(newId, ArgsDigest(effect), EffectLabel(effect), effect.action.target);
    ghost var f0, f1 := ledger.fates(ledger.calls), ledger.fates(ledger.calls + 1);
    var began := ledger.PrepareAndStart(identity);
    moves := OpeningMoves(s, before, effect, newId, f0, f1, ledger.log);
    r := if began.Err? then Err(StoreFailed) else Ok(identity);
  }

  /** Replay check and the two opening appends. Yields the identity to run under, or a refusal. */
  method FencePrepare(ledger: EffectFenceLedger, effect: Effect, newId: Id, readOk: bool, ghost ran: seq<Key>)
    returns (r: Result<Identity, Refusal>, ghost found: Option<Record>, ghost moves: seq<Move>)
    requires newId !in Fold(ledger.log)
    modifies ledger
    ensures var s := State(old(ledger.log), Idle, ran);
            && IsRun(s, moves)
            && After(s, moves) == State(ledger.log, if r.Ok? then Running(effect, newId) else Idle, ran)
    ensures readOk ==> MayFind(old(Fold(ledger.log)), ArgsDigest(effect), found)
    ensures r.Ok? <==> Barred(readOk, found, ArgsDigest(effect)).None? && Opens(ledger, old(ledger.calls))
    ensures r.Err? ==> r.error == Why(Barred(readOk, found, ArgsDigest(effect)))
    ensures r.Ok? ==>
              && r.value == Identity(newId, ArgsDigest(effect), EffectLabel(effect), effect.action.target)
              && newId in Fold(ledger.log) && Fold(ledger.log)[newId] == Record(r.value, Started, None)
              && old(ledger.log) < ledger.log && HasStarted(ledger.log, ArgsDigest(effect))
              && ledger.calls == old(ledger.calls) + 2
    ensures newId in Fold(ledger.log) ==> Fold(ledger.log)[newId].state in {Prepared, Started}
  {
    ghost var s := State(ledger.log, Idle, ran);
    var barred;
    barred, found, moves := CheckReplay(ledger, effect, readOk, ran);
    if barred.Some? {
      return Err(barred.value), found, moves;
    }
    r, moves := Open(ledger, effect, newId, s, moves);
  }

  lemma ReasonsFit()
    ensures BoundFenceSummary(EXECUTED) == EXECUTED
    ensures BoundFenceSummary(EXECUTION_ERROR) == EXECUTION_ERROR
    ensures BoundFenceSummary(UNOBSERVED) == UNOBSERVED
  {
  }

  /** A record of this effect stands past Prepared: replay is refused. */
  ghost predicate Spent(log: seq<Event>, effect: Effect, id: Id) {
    id in Fold(log) && Fold(log)[id].state != Prepared && Fold(log)[id].identity.digest == ArgsDigest(effect)
  }

  lemma SpentAfterPush(log: seq<Event>, effect: Effect, f: FenceEvent)
    requires Spent(log, effect, f.id) && !f.PreparedEvent? && f.digest == ArgsDigest(effect)
    ensures Spent(log + [Fence(f)], effect, f.id) && Fold(log + [Fence(f)])[f.id].state == StateAfter(f)
  {
    FoldPush(log, Fence(f));
  }

  /** Moves and log after a closure that returned Ok. */
  lemma SettleOkMoves(s: State, before: seq<Move>, log: seq<Event>, effect: Effect, id: Id, fate: Fate, late: Fate,
                      ran: seq<Key>)
    requires Spent(log, effect, id)
    requires IsRun(s, before) && After(s, before) == State(log, Ran(effect, id, true), ran)
    ensures var log1 := Logged(log, ObservedEvent(id, ArgsDigest(effect), EXECUTED), fate);
            var log2 := Logged(log1, UnknownEvent(id, ArgsDigest(effect), UNOBSERVED), late);
            var first := before + [Move.Observe(fate)];
            var both := first + [Move.MarkUnknown(late)];
            if fate.Stored? then
              && IsRun(s, first) && After(s, first) == State(log1, Idle, ran)
              && Spent(log1, effect, id) && Fold(log1)[id].state == Observed
            else
              && IsRun(s, both) && After(s, both) == State(log2, Idle, ran)
              && Spent(log2, effect, id)
  {
    var o, u := ObservedEvent(id, ArgsDigest(effect), EXECUTED), UnknownEvent(id, ArgsDigest(effect), UNOBSERVED);
    SpentAfterPush(log, effect, o);
    RunPush(s, before, Move.Observe(fate));
    if !fate.Stored? {
      SpentAfterPush(Logged(log, o, fate), effect, u);
      RunPush(s, before + [Move.Observe(fate)], Move.MarkUnknown(late));
    }
  }

  /** The closure returned Ok: observe, and failing that mark the outcome unknown. */
  method SettleOk(ledger: EffectFenceLedger, effect: Effect, identity: Identity, ghost s: State,
                  ghost before: seq<Move>,
                  ghost ran: seq<Key>)
    returns (ok: bool, ghost moves: seq<Move>)
    requires identity.digest == ArgsDigest(effect) && Spent(ledger.log, effect, identity.effectId)
    requires IsRun(s, before)
    requires After(s, before) == State(ledger.log, Ran(effect, identity.effectId, true), ran)
    modifies ledger
    ensures IsRun(s, moves) && After(s, moves) == State(ledger.log, Idle, ran)
    ensures old(ledger.log) <= ledger.log && Spent(ledger.log, effect, identity.effectId)
    ensures ok <==> ledger.fates(old(ledger.calls)).Stored?
    ensures ok ==> Fold(ledger.log)[identity.effectId].state == Observed
  {
    ghost var fate, late := ledger.fates(ledger.calls), ledger.fates(ledger.calls + 1);
    ReasonsFit();
    SettleOkMoves(s, before, ledger.log, effect, identity.effectId, fate, late, ran);
    var observed := ledger.Observe(identity, EXECUTED);
    ok := observed.Ok?;
    moves := before + [Move.Observe(fate)];
    if !ok {
      var _ := ledger.MarkUnknown(identity, UNOBSERVED);
      moves := moves + [Move.MarkUnknown(late)];
    }
  }

  /** The closure returned an error: mark the effect failed. */
  method SettleErr(ledger: EffectFenceLedger, effect: Effect, identity: Identity, ghost s: State,
                   ghost before: seq<Move>,
                  ghost ran: seq<Key>)
    returns (ghost moves: seq<Move>)
    requires identity.digest == ArgsDigest(effect) && Spent(ledger.log, effect, identity.effectId)
    requires Fold(ledger.log)[identity.effectId].state == Started
    requires IsRun(s, before)
    requires After(s, before) == State(ledger.log, Ran(effect, identity.effectId, false), ran)
    modifies ledger
    ensures IsRun(s, moves) && After(s, moves) == State(ledger.log, Idle, ran)
    ensures old(ledger.log) <= ledger.log && Spent(ledger.log, effect, identity.effectId)
    ensures Fold(ledger.log)[identity.effectId].state != Observed
  {
    ghost var fate := ledger.fates(ledger.calls);
    ReasonsFit();
    SpentAfterPush(ledger.log, effect, FailedEvent(identity.effectId, identity.digest, EXECUTION_ERROR));
    RunPush(s, before, Move.MarkFailed(fate));
    moves := before + [Move.MarkFailed(fate)];
    var _ := ledger.MarkFailed(identity, EXECUTION_ERROR);
  }

  /** Runs a side effect under the fence; `execution` is what the closure returns if it is called. The
      closure is called only once Started is in the log; Executed means the log says Observed; the log
      never says Observed unless the closure returned Ok; and a run in which it was called leaves a
      record past Prepared, which refuses replay. The whole is a run of the state machine. */
  method RunUnderFence<T, E>(ledger: EffectFenceLedger, effect: Effect, newId: Id, readOk: bool,
                             execution: Result<T, E>, ghost ran: seq<Key>)
    returns (out: Result<Execution<T>, E>, called: bool, ghost atCall: seq<Event>, ghost found: Option<Record>,
             ghost moves: seq<Move>)
    requires newId !in Fold(ledger.log)
    modifies ledger
    ensures var s := State(old(ledger.log), Idle, ran);
            && IsRun(s, moves)
            && After(s, moves) == State(ledger.log, Idle, if called then ran + [KeyOf(effect)] else ran)
    ensures readOk ==> MayFind(old(Fold(ledger.log)), ArgsDigest(effect), found)
    ensures called <==> Barred(readOk, found, ArgsDigest(effect)).None? && Opens(ledger, old(ledger.calls))
    ensures called ==> old(ledger.log) < atCall <= ledger.log && HasStarted(atCall, ArgsDigest(effect))
    ensures called ==> newId in Fold(atCall) && Fold(atCall)[newId].state == Started
    ensures called ==> Spent(ledger.log, effect, newId)
    ensures out == if !called then Ok(Denied(Why(Barred(readOk, found, ArgsDigest(effect)))))
                   else if execution.Err? then Err(execution.error)
                   else if ledger.fates(old(ledger.calls) + 2).Stored? then Ok(Executed(execution.value))
                   else Ok(Denied(ObserveFailed))
    ensures out.Ok? && out.value.Executed? ==> Fold(ledger.log)[newId].state == Observed
    ensures newId in Fold(ledger.log) && Fold(ledger.log)[newId].state == Observed ==> called && execution.Ok?
  {
    ghost var s := State(ledger.log, Idle, ran);
    called, atCall := false, [];
    var prepared;
    prepared, found, moves := FencePrepare(ledger, effect, newId, readOk, ran);
    if prepared.Err? {
      out := Ok(Denied(prepared.error));
      return;
    }
    var identity := prepared.value;
    called, atCall := true, ledger.log;
    RunPush(s, moves, Execute(execution.Ok?));
    moves := moves + [Execute(execution.Ok?)];
    ghost var all := ran + [KeyOf(effect)];
    assert After(s, moves) == State(ledger.log, Ran(effect, newId, execution.Ok?), all);
    match execution {
      case Ok(value) =>
        var ok;
        ok, moves := SettleOk(ledger, effect, identity, s, moves, all);
        out := if ok then Ok(Executed(value)) else Ok(Denied(ObserveFailed));
      case Err(error) =>
        moves := SettleErr(ledger, effect, identity, s, moves, all);
        out := Err(error);
    }
  }
}
