/** Deferral of an effect to a user, the resumption of a deferred effect, and the runs made of these
    (crates/impetus-core/src/effects.rs). Policy, risk gate and the path tests of the scope are arbitrary functions,
    and may change between any two steps. */
module EffectSeam {
  import opened Text
  import opened EffectFence
  import opened Admission

  //
  // Approvals.
  //

  type ApprovalId = nat

  /** The fingerprint hashes action and version; SHA-256 is taken to be injective. */
  datatype Fingerprint = Fingerprint(action: Action, version: Option<nat>)

  datatype ApprovalState = Pending | Approved | Rejected

  datatype ApprovalRequest = ApprovalRequest(
    id: ApprovalId, action: Action, fingerprint: Fingerprint, version: Option<nat>, revision: nat,
    reason: string, state: ApprovalState)

  datatype Resolver = ByUser | ByAgent

  datatype Resolution = Resolution(
    id: ApprovalId, fingerprint: Fingerprint, revision: nat, accepted: bool, resolver: Resolver)

  datatype Deferred = Deferred(effect: Effect, approval: ApprovalRequest)

  function PendingRequest(id: ApprovalId, e: Effect, reason: string, revision: nat): ApprovalRequest {
    ApprovalRequest(id, e.action, Fingerprint(e.action, Some(e.version)), Some(e.version), revision, reason, Pending)
  }

  function UserResolution(r: ApprovalRequest, accepted: bool): Resolution {
    Resolution(r.id, r.fingerprint, r.revision, accepted, ByUser)
  }

  datatype Verdict = Run(effect: Effect) | Refused(reason: string)

  /** Whether a deferred effect may run now. */
  function ApprovedVerdict(env: Env, d: Deferred, r: Resolution, revision: nat): Verdict {
    var a := d.approval;
    if a.version != Some(d.effect.version) then Refused("capability version mismatch")
    else if
      || !a.state.Pending? || !r.resolver.ByUser? || !r.accepted || r.id != a.id
      || r.fingerprint != Fingerprint(a.action, a.version) || r.fingerprint != a.fingerprint
      || r.revision != a.revision || revision != a.revision || d.effect.action != a.action
    then Refused("approval is missing, rejected, or stale")
    else
      match env.policy(d.effect.action)
      case PolicyDeny(reason) => Refused(reason)
      case PolicyAllow => Refused("policy decision changed before approved execution")
      case PolicyNeedsApproval(_) =>
        var refusal := SandboxRefusal(env.sandbox, d.effect);
        if refusal.Some? then Refused(refusal.value) else Run(d.effect)
  }

  //
  // Runs.
  //

  /** One executed capability: what ran, under what, and how it got there. */
  datatype RunRecord = RunRecord(effect: Effect, env: Env, direct: bool, resolution: Option<Resolution>, revision: nat)

  /** `issued` holds the deferrals handed out, `resolved` the resolutions given so far. */
  datatype State = State(env: Env, revision: nat, issued: seq<Deferred>, resolved: seq<Resolution>, ran: seq<RunRecord>)

  datatype Move =
    | Reconfigure(env: Env)
    | NewIntent(revision: nat)
    | Request(effect: Effect, revision: nat, argv: Argv, id: ApprovalId)
    | UserResolves(k: nat, accepted: bool)
    | AgentResolves(resolution: Resolution)
    | ExecuteDirect(effect: Effect)
    | ExecuteApproved(deferred: Deferred, k: nat)

  /** Approval ids are fresh, a user resolves a request that was handed out, an agent's resolution says
      so. The deferral presented for execution is arbitrary: it may have been altered in storage. */
  ghost predicate Enabled(s: State, m: Move) {
    match m
    case Request(_, _, _, id) => forall d | d in s.issued :: d.approval.id != id
    case UserResolves(k, _) => k < |s.issued|
    case AgentResolves(r) => r.resolver.ByAgent?
    case ExecuteApproved(_, k) => k < |s.resolved|
    case _ => true
  }

  function Do(s: State, m: Move): State
    requires m.UserResolves? ==> m.k < |s.issued|
    requires m.ExecuteApproved? ==> m.k < |s.resolved|
  {
    match m
    case Reconfigure(env) => s.(env := env)
    case NewIntent(revision) => s.(revision := revision)
    case Request(e, revision, argv, id) =>
      (match Admit(s.env, e, argv)
       case NeedsApproval(reason) => s.(issued := s.issued + [Deferred(e, PendingRequest(id, e, reason, revision))])
       case _ => s)
    case UserResolves(k, accepted) => s.(resolved := s.resolved + [UserResolution(s.issued[k].approval, accepted)])
    case AgentResolves(r) => s.(resolved := s.resolved + [r])
    case ExecuteDirect(e) =>
      if Admit(s.env, e, None).Allow? then s.(ran := s.ran + [RunRecord(e, s.env, true, None, s.revision)]) else s
    case ExecuteApproved(d, k) =>
      var r := s.resolved[k];
      (match ApprovedVerdict(s.env, d, r, s.revision)
       case Run(e) => s.(ran := s.ran + [RunRecord(e, s.env, false, Some(r), s.revision)])
       case Refused(_) => s)
  }

  ghost predicate IsRun(s: State, moves: seq<Move>)
    decreases |moves|
  {
    moves == [] || (Enabled(s, moves[0]) && IsRun(Do(s, moves[0]), moves[1..]))
  }

  ghost function After(s: State, moves: seq<Move>): State
    requires IsRun(s, moves)
    decreases |moves|
  {
    if moves == [] then s else After(Do(s, moves[0]), moves[1..])
  }

  function Start(env: Env): State {
    State(env, 0, [], [], [])
  }

  /** What makes a run legitimate at the moment it happens. */
  ghost predicate Sanctioned(s: State, r: RunRecord) {
    && InScope(r.env.sandbox, r.effect)
    && !r.env.policy(r.effect.action).PolicyDeny?
    && if r.direct then GoesAhead(r.env, r.effect, None)
       else r.resolution.Some? && exists k :: UserAccepted(s, k, r)
  }

  /** Request `k` was for this very effect, under this very intent revision, and the user accepted it. */
  ghost predicate UserAccepted(s: State, k: nat, r: RunRecord) {
    && k < |s.issued| && s.issued[k].effect == r.effect
    && s.issued[k].approval.revision == r.revision
    && UserResolution(s.issued[k].approval, true) in s.resolved
    && r.resolution == Some(UserResolution(s.issued[k].approval, true))
  }

  ghost predicate Inv(s: State) {
    && (forall d | d in s.issued ::
          && Fits(d.effect)
          && d.approval == PendingRequest(d.approval.id, d.effect, d.approval.reason, d.approval.revision))
    && (forall r | r in s.resolved && r.resolver.ByUser? ::
          exists k :: 0 <= k < |s.issued| && r == UserResolution(s.issued[k].approval, r.accepted))
    && (forall r | r in s.ran :: Sanctioned(s, r))
  }

  /** An action fixes the effect it fits. */
  lemma FitsUnique(e: Effect, f: Effect)
    requires Fits(e) && Fits(f) && e.action == f.action
    ensures e == f
  {
  }

  lemma SanctionedGrows(s: State, t: State, r: RunRecord)
    requires Sanctioned(s, r) && s.issued <= t.issued && s.resolved <= t.resolved
    ensures Sanctioned(t, r)
  {
    if !r.direct {
      var k: nat :| UserAccepted(s, k, r);
      assert t.issued[k] == s.issued[k];
      assert UserAccepted(t, k, r);
    }
  }

  /** The resolution that lets a deferred effect run was given for that very effect. */
  lemma ApprovedIsSanctioned(s: State, d: Deferred, k: nat)
    requires Inv(s) && k < |s.resolved| && ApprovedVerdict(s.env, d, s.resolved[k], s.revision).Run?
    ensures Sanctioned(s, RunRecord(d.effect, s.env, false, Some(s.resolved[k]), s.revision))
  {
    var r := s.resolved[k];
    assert r in s.resolved;
    var i :| 0 <= i < |s.issued| && r == UserResolution(s.issued[i].approval, r.accepted);
    assert s.issued[i] in s.issued;
    RefusalExact(s.env.sandbox, d.effect);
    FitsUnique(s.issued[i].effect, d.effect);
    assert UserAccepted(s, i, RunRecord(d.effect, s.env, false, Some(r), s.revision));
  }

  lemma RanGrows(s: State, t: State)
    requires Inv(s) && s.issued <= t.issued && s.resolved <= t.resolved && t.ran == s.ran
    ensures forall r | r in t.ran :: Sanctioned(t, r)
  {
    forall r | r in t.ran
      ensures Sanctioned(t, r)
    {
      SanctionedGrows(s, t, r);
    }
  }

  lemma ResolutionsGrow(s: State, t: State)
    requires Inv(s) && s.issued <= t.issued
    ensures forall r | r in s.resolved && r.resolver.ByUser? ::
              exists k :: 0 <= k < |t.issued| && r == UserResolution(t.issued[k].approval, r.accepted)
  {
    forall r | r in s.resolved && r.resolver.ByUser?
      ensures exists k :: 0 <= k < |t.issued| && r == UserResolution(t.issued[k].approval, r.accepted)
    {
      var k :| 0 <= k < |s.issued| && r == UserResolution(s.issued[k].approval, r.accepted);
      assert t.issued[k] == s.issued[k];
    }
  }

  lemma RequestKeeps(s: State, m: Move)
    requires Inv(s) && m.Request? && Enabled(s, m)
    ensures Inv(Do(s, m))
  {
    var t := Do(s, m);
    RefusalExact(s.env.sandbox, m.effect);
    RanGrows(s, t);
    ResolutionsGrow(s, t);
  }

  lemma ResolveKeeps(s: State, m: Move)
    requires Inv(s) && (m.UserResolves? || m.AgentResolves?) && Enabled(s, m)
    ensures Inv(Do(s, m))
  {
    var t := Do(s, m);
    RanGrows(s, t);
  }

  lemma ExecuteKeeps(s: State, m: Move)
    requires Inv(s) && (m.ExecuteDirect? || m.ExecuteApproved?) && Enabled(s, m)
    ensures Inv(Do(s, m))
  {
    var t := Do(s, m);
    if m.ExecuteDirect? {
      AdmitExact(s.env, m.effect, None);
    }
    if m.ExecuteApproved? && ApprovedVerdict(s.env, m.deferred, s.resolved[m.k], s.revision).Run? {
      ApprovedIsSanctioned(s, m.deferred, m.k);
    }
    forall r | r in t.ran
      ensures Sanctioned(t, r)
    {
      if r in s.ran {
        SanctionedGrows(s, t, r);
      } else if m.ExecuteApproved? {
        SanctionedGrows(s, t, r);
      }
    }
  }

  lemma {:induction false} RunKeeps(s: State, moves: seq<Move>)
    requires Inv(s) && IsRun(s, moves)
    ensures Inv(After(s, moves))
    decreases |moves|
  {
    if moves != [] {
      var m := moves[0];
      var t := Do(s, m);
      match m {
        case Request(_, _, _, _) => RequestKeeps(s, m);
        case UserResolves(_, _) => ResolveKeeps(s, m);
        case AgentResolves(_) => ResolveKeeps(s, m);
        case ExecuteDirect(_) => ExecuteKeeps(s, m);
        case ExecuteApproved(_, _) => ExecuteKeeps(s, m);
        case _ => RanGrows(s, t);
      }
      RunKeeps(t, moves[1..]);
    }
  }

  //
  // The theorems.
  //

  /** In every run, whatever policy, risk gate and sandbox are put in place along the way: a capability
      runs only when the sandbox admits it and policy does not deny it at that moment, and either the
      direct decision was Allow or the user accepted a request for that very effect, all fields of it,
      under the intent revision in force. An altered deferral or an agent's resolution never gets through. */
  lemma OnlySanctionedRuns(env: Env, moves: seq<Move>)
    requires IsRun(Start(env), moves)
    ensures forall r | r in After(Start(env), moves).ran :: Sanctioned(After(Start(env), moves), r)
  {
    RunKeeps(Start(env), moves);
  }

  /** In every reached state, a deferral handed back unchanged runs, with some resolution, exactly when that is the
      user's acceptance of it, policy still asks for approval, the sandbox still admits it, and the intent revision
      is still the one it was requested under. */
  lemma AcceptedRunsExactlyWhen(env: Env, moves: seq<Move>, k: nat, j: nat)
    requires IsRun(Start(env), moves)
    requires k < |After(Start(env), moves).issued| && j < |After(Start(env), moves).resolved|
    ensures var s := After(Start(env), moves);
            var d := s.issued[k];
            |Do(s, ExecuteApproved(d, j)).ran| > |s.ran| <==>
              && s.resolved[j] == UserResolution(d.approval, true)
              && s.env.policy(d.effect.action).PolicyNeedsApproval?
              && InScope(s.env.sandbox, d.effect)
              && s.revision == d.approval.revision
  {
    RunKeeps(Start(env), moves);
    var s := After(Start(env), moves);
    assert s.issued[k] in s.issued;
    RefusalExact(s.env.sandbox, s.issued[k].effect);
  }

  /** In every state the direct path runs an effect exactly when it is in scope, and neither policy, mode nor risk gate
      stands against it; and it is deferred, under the policy's or the gate's reason, exactly when one of these asks. */
  lemma DirectRunsExactlyWhen(s: State, e: Effect, revision: nat, argv: Argv, id: ApprovalId)
    ensures var t := Do(s, ExecuteDirect(e));
            if InScope(s.env.sandbox, e) && GoesAhead(s.env, e, None)
            then t == s.(ran := s.ran + [RunRecord(e, s.env, true, None, s.revision)]) else t == s
    ensures var t := Do(s, Request(e, revision, argv, id));
            if Asks(s.env, e, argv)
            then t == s.(issued := s.issued + [Deferred(e, PendingRequest(id, e, AskedFor(s.env, e, argv), revision))])
            else t == s
  {
    AdmitExact(s.env, e, None);
    AdmitExact(s.env, e, argv);
  }

  /** In every run: whatever executed had its target in the scope of a provisioned sandbox, a write in its writable
      part, and the network only where it was enabled. */
  lemma ExecutedInScope(env: Env, moves: seq<Move>, r: RunRecord)
    requires IsRun(Start(env), moves) && r in After(Start(env), moves).ran
    ensures r.env.sandbox.Provisioned? && r.effect.action.target.Some?
    ensures var scope, kind, target := r.env.sandbox.scope, r.effect.action.kind, r.effect.action.target.value;
            && (kind == ReadFile ==> scope.contains(target))
            && (kind == WriteFile ==> scope.containsWrite(target))
            && (kind !in {ReadFile, WriteFile, SpawnProcess} ==> scope.allowNetwork && kind != TmuxAttach)
  {
    OnlySanctionedRuns(env, moves);
  }

  /** In every run: what executed without a user's acceptance was allowed by policy outright, or policy asked, the risk
      gate agreed, and the mode takes that for an answer, Ask mode only for reading and safe commands. */
  lemma UnaskedExactlyAllowed(env: Env, moves: seq<Move>, r: RunRecord)
    requires IsRun(Start(env), moves) && r in After(Start(env), moves).ran && r.direct
    ensures || r.env.policy(r.effect.action).PolicyAllow?
            || (&& r.env.policy(r.effect.action).PolicyNeedsApproval?
                && r.env.risk(r.env.mode, r.effect, None).RiskAllow?
                && (|| r.env.mode in {AcceptEdits, Auto, Bypass}
                    || (&& r.env.mode == Ask
                        && (|| r.effect.action.kind in {ReadFile, WebSearch, WebFetch}
                            || (r.effect.action.kind == SpawnProcess && r.env.safeCommand(r.effect.action))))))
  {
    OnlySanctionedRuns(env, moves);
  }

  function Again(m: Move, n: nat): seq<Move> {
    if n == 0 then [] else [m] + Again(m, n - 1)
  }

  /** One acceptance is not used up: from a state where it runs the effect once, it runs it any number of times. */
  lemma {:induction false} AcceptanceRepeats(s: State, d: Deferred, j: nat, n: nat)
    requires j < |s.resolved| && ApprovedVerdict(s.env, d, s.resolved[j], s.revision).Run?
    ensures IsRun(s, Again(ExecuteApproved(d, j), n))
    ensures |After(s, Again(ExecuteApproved(d, j), n)).ran| == |s.ran| + n
    decreases n
  {
    if n != 0 {
      var m := ExecuteApproved(d, j);
      AcceptanceRepeats(Do(s, m), d, j, n - 1);
      assert Again(m, n)[1..] == Again(m, n - 1);
    }
  }

  /** In Plan mode the direct path runs nothing but reading. */
  lemma PlanModeHoldsDirectly(env: Env, moves: seq<Move>, r: RunRecord)
    requires IsRun(Start(env), moves) && r in After(Start(env), moves).ran && r.direct
    ensures r.env.mode.Plan? ==> r.effect.action.kind in {ReadFile, WebSearch, WebFetch}
    ensures !r.env.risk(r.env.mode, r.effect, None).RiskDeny?
  {
    OnlySanctionedRuns(env, moves);
  }

  /** Two states that differ at most in execution mode and risk gate, and in those under which effects ran. */
  ghost predicate AlikeButMode(s: State, t: State) {
    && t.env.(mode := s.env.mode, risk := s.env.risk) == s.env
    && s.revision == t.revision && s.issued == t.issued && s.resolved == t.resolved
    && |s.ran| == |t.ran| && forall k | 0 <= k < |s.ran| :: s.ran[k].effect == t.ran[k].effect
  }

  /** The approved path consults neither the execution mode nor the risk gate: runs of resolutions, new intents,
      reconfigurations and approved executions execute the same effects under every mode and gate. */
  lemma {:induction false} ApprovalIgnoresModeAndRisk(s: State, t: State, moves: seq<Move>)
    requires AlikeButMode(s, t) && IsRun(s, moves)
    requires forall m | m in moves :: !m.Request? && !m.ExecuteDirect?
    ensures IsRun(t, moves) && AlikeButMode(After(s, moves), After(t, moves))
    decreases |moves|
  {
    if moves != [] {
      assert moves[0] in moves;
      AlikeStep(s, t, moves[0]);
      ApprovalIgnoresModeAndRisk(Do(s, moves[0]), Do(t, moves[0]), moves[1..]);
    }
  }

  lemma AlikeStep(s: State, t: State, m: Move)
    requires AlikeButMode(s, t) && Enabled(s, m) && !m.Request? && !m.ExecuteDirect?
    ensures Enabled(t, m) && AlikeButMode(Do(s, m), Do(t, m))
  {
    if m.ExecuteApproved? {
      var r := s.resolved[m.k];
      assert ApprovedVerdict(s.env, m.deferred, r, s.revision) == ApprovedVerdict(t.env, m.deferred, r, t.revision);
    }
  }

  /** So a write approved before the mode was set to Plan runs in Plan mode, although the direct path
      would deny it. */
  lemma ApprovedWriteRunsInPlanMode(name: string) returns (ask: Env, moves: seq<Move>)
    ensures IsRun(Start(ask), moves)
    ensures exists r :: r in After(Start(ask), moves).ran && r.env.mode.Plan? && r.effect.action.kind == WriteFile
                        && Admit(r.env, r.effect, None).Deny?
  {
    ask := Env(_ => PolicyNeedsApproval("write"), (_, _, _) => RiskNeedsHuman("write"), _ => false,
               Provisioned(Scope(_ => true, _ => true, false)), Ask);
    var plan := ask.(mode := Plan);
    var e := Effect(Agent, WorkspaceWrite, V1, Action(Agent, WriteFile, "write", Some(name)));
    var a := PendingRequest(0, e, "write", 0);
    var d := Deferred(e, a);
    moves := [Request(e, 0, None, 0), UserResolves(0, true), Reconfigure(plan), ExecuteApproved(d, 0)];
    var s1 := Do(Start(ask), moves[0]);
    assert s1.issued == [d];
    var s2 := Do(s1, moves[1]);
    assert s2.resolved == [UserResolution(a, true)];
    var s3 := Do(s2, moves[2]);
    var s4 := Do(s3, moves[3]);
    var r := RunRecord(e, plan, false, Some(UserResolution(a, true)), 0);
    assert s4.ran == [r] && r in s4.ran;
    assert moves[1..][1..] == moves[2..] && moves[2..][1..] == moves[3..] && moves[3..][1..] == [];
    assert IsRun(s4, []) && After(s4, []) == s4;
    assert IsRun(s3, moves[3..]) && After(s3, moves[3..]) == s4;
    assert IsRun(s2, moves[2..]) && After(s2, moves[2..]) == s4;
    assert IsRun(s1, moves[1..]) && After(s1, moves[1..]) == s4;
  }
}
