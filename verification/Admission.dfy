/** Admission of an effect: sandbox, policy, execution mode and risk gate, and what their decisions come to
    (crates/impetus-core/src/effects.rs). Policy, risk gate and the path tests of the scope are arbitrary functions. */
module Admission {
  import opened Text
  import opened EffectFence

  datatype PolicyDecision = PolicyAllow | PolicyNeedsApproval(reason: string) | PolicyDeny(reason: string)

  datatype RiskDecision = RiskAllow | RiskNeedsHuman(reason: string) | RiskDeny(reason: string)

  datatype Mode = Ask | Plan | AcceptEdits | Auto | Bypass

  datatype Scope = Scope(contains: string -> bool, containsWrite: string -> bool, allowNetwork: bool)

  datatype Sandbox = Provisioned(scope: Scope) | Unavailable(why: string)

  type Argv = Option<seq<string>>

  /** Everything admission consults. */
  datatype Env = Env(
    policy: Action -> PolicyDecision,
    risk: (Mode, Effect, Argv) -> RiskDecision,
    safeCommand: Action -> bool,
    sandbox: Sandbox,
    mode: Mode)

  datatype Decision = Allow | NeedsApproval(reason: string) | Deny(reason: string)

  const V1: nat := 1

  predicate IsNetworkKind(k: ActionKind) {
    k in {Connect, SshConnect, SftpTransfer, WebSearch, WebFetch, WebDownload, WebBrowser, WebSubmit, WebUpload}
  }

  const BAD_VERSION := "unsupported capability version"
  const BAD_ORIGIN := "effect origin does not match normalized action origin"
  const NO_TARGET := "effect has no target"
  const NOT_A_READ := "WorkspaceRead capability requires ReadFile action"
  const NOT_A_WRITE := "WorkspaceWrite capability requires WriteFile action"
  const NOT_A_SPAWN := "ProcessSpawn capability requires SpawnProcess action"
  const NOT_NETWORK := "NetworkConnect capability requires network or web action"
  const READ_OUTSIDE := "sandbox cannot prove read target is inside workspace scope"
  const WRITE_OUTSIDE := "sandbox cannot prove write target is inside workspace scope"
  const NETWORK_OFF := "network is disabled in this sandbox scope"
  const PLAN_DENIES := "execution mode PLAN denies mutating effects"

  /** The sandbox gate; `None` admits. */
  function SandboxRefusal(sandbox: Sandbox, e: Effect): Option<string> {
    match sandbox
    case Unavailable(why) => Some("sandbox unavailable: " + why)
    case Provisioned(scope) =>
      if e.version != V1 then Some(BAD_VERSION)
      else if e.origin != e.action.origin then Some(BAD_ORIGIN)
      else if e.action.target.None? then Some(NO_TARGET)
      else
        match e.capability
        case WorkspaceRead =>
          if e.action.kind != ReadFile then Some(NOT_A_READ)
          else if !scope.contains(e.action.target.value) then Some(READ_OUTSIDE)
          else None
        case WorkspaceWrite =>
          if e.action.kind != WriteFile then Some(NOT_A_WRITE)
          else if !scope.containsWrite(e.action.target.value) then Some(WRITE_OUTSIDE)
          else None
        case ProcessSpawn =>
          if e.action.kind != SpawnProcess then Some(NOT_A_SPAWN) else None
        case NetworkConnect =>
          if !IsNetworkKind(e.action.kind) then Some(NOT_NETWORK)
          else if !scope.allowNetwork then Some(NETWORK_OFF)
          else None
  }

  predicate IsMutating(e: Effect) {
    match e.capability
    case WorkspaceWrite => true
    case ProcessSpawn => true
    case NetworkConnect => !e.action.kind.WebSearch? && !e.action.kind.WebFetch?
    case WorkspaceRead => false
  }

  predicate IsReadOnly(env: Env, e: Effect) {
    || e.action.kind.ReadFile? || e.action.kind.WebSearch? || e.action.kind.WebFetch?
    || (e.action.kind.SpawnProcess? && env.safeCommand(e.action))
  }

  predicate RiskAutoAllows(env: Env, e: Effect) {
    match env.mode
    case AcceptEdits => true
    case Auto => true
    case Bypass => true
    case Ask => IsReadOnly(env, e)
    case Plan => false
  }

  function Combine(env: Env, policy: PolicyDecision, risk: RiskDecision, e: Effect): Decision {
    if risk.RiskDeny? then Deny(risk.reason)
    else
      match policy
      case PolicyDeny(reason) => Deny(reason)
      case PolicyAllow => Allow
      case PolicyNeedsApproval(reason) =>
        if risk.RiskNeedsHuman? then NeedsApproval(risk.reason)
        else if RiskAutoAllows(env, e) then Allow
        else NeedsApproval(reason)
  }

  function Admit(env: Env, e: Effect, argv: Argv): Decision {
    var refusal := SandboxRefusal(env.sandbox, e);
    if refusal.Some? then Deny(refusal.value)
    else
      var policy := env.policy(e.action);
      if policy.PolicyDeny? then Deny(policy.reason)
      else if env.mode.Plan? && IsMutating(e) then Deny(PLAN_DENIES)
      else Combine(env, policy, env.risk(env.mode, e, argv), e)
  }

  //
  // What the sandbox admits.
  //

  /** The kind of action each capability stands for. */
  predicate Fits(e: Effect) {
    && e.version == 1 && e.origin == e.action.origin
    && match e.action.kind
       case ReadFile => e.capability == WorkspaceRead
       case WriteFile => e.capability == WorkspaceWrite
       case SpawnProcess => e.capability == ProcessSpawn
       case TmuxAttach => false
       case _ => e.capability == NetworkConnect
  }

  /** An effect of a fitting kind whose target the scope of a provisioned sandbox holds. */
  ghost predicate InScope(sandbox: Sandbox, e: Effect) {
    && sandbox.Provisioned? && Fits(e) && e.action.target.Some?
    && (e.action.kind == ReadFile ==> sandbox.scope.contains(e.action.target.value))
    && (e.action.kind == WriteFile ==> sandbox.scope.containsWrite(e.action.target.value))
    && (e.action.kind !in {ReadFile, WriteFile, SpawnProcess} ==> sandbox.scope.allowNetwork)
  }

  /** A demand of the sandbox, and what it says when it is not met. */
  datatype Demand = Demand(met: bool, otherwise: string)

  /** What a provisioned sandbox demands, in the order it looks. */
  function Demands(scope: Scope, e: Effect): seq<Demand> {
    var target := if e.action.target.Some? then e.action.target.value else "";
    [ Demand(e.version == 1, BAD_VERSION),
      Demand(e.origin == e.action.origin, BAD_ORIGIN),
      Demand(e.action.target.Some?, NO_TARGET),
      Demand(e.capability == WorkspaceRead ==> e.action.kind == ReadFile, NOT_A_READ),
      Demand(e.capability == WorkspaceWrite ==> e.action.kind == WriteFile, NOT_A_WRITE),
      Demand(e.capability == ProcessSpawn ==> e.action.kind == SpawnProcess, NOT_A_SPAWN),
      Demand(e.capability == NetworkConnect ==> e.action.kind !in {ReadFile, WriteFile, SpawnProcess, TmuxAttach},
             NOT_NETWORK),
      Demand(e.capability == WorkspaceRead ==> scope.contains(target), READ_OUTSIDE),
      Demand(e.capability == WorkspaceWrite ==> scope.containsWrite(target), WRITE_OUTSIDE),
      Demand(e.capability == NetworkConnect ==> scope.allowNetwork, NETWORK_OFF) ]
  }

  /** This is the first demand that is not met. */
  ghost predicate FirstUnmet(demands: seq<Demand>, k: nat) {
    k < |demands| && !demands[k].met && forall i | 0 <= i < k :: demands[i].met
  }

  /** The sandbox refuses exactly what is out of scope, and gives the first demand that is not met for its reason. */
  lemma RefusalExact(sandbox: Sandbox, e: Effect)
    ensures SandboxRefusal(sandbox, e).None? <==> InScope(sandbox, e)
    ensures sandbox.Unavailable? ==> SandboxRefusal(sandbox, e) == Some("sandbox unavailable: " + sandbox.why)
    ensures sandbox.Provisioned? && !InScope(sandbox, e) ==>
              exists k: nat :: && FirstUnmet(Demands(sandbox.scope, e), k)
                               && SandboxRefusal(sandbox, e) == Some(Demands(sandbox.scope, e)[k].otherwise)
  {
    if sandbox.Provisioned? && !InScope(sandbox, e) {
      var demands := Demands(sandbox.scope, e);
      var k := if !demands[0].met then 0 else if !demands[1].met then 1 else if !demands[2].met then 2
               else if !demands[3].met then 3 else if !demands[4].met then 4 else if !demands[5].met then 5
               else if !demands[6].met then 6 else if !demands[7].met then 7 else if !demands[8].met then 8 else 9;
      assert FirstUnmet(demands, k);
    }
  }

  //
  // What admission decides.
  //

  /** Reading, of files or of the web: what Plan mode is for. */
  ghost predicate Reads(e: Effect) {
    e.action.kind in {ReadFile, WebSearch, WebFetch}
  }

  /** Nothing stands in the way for good: not policy, not Plan mode, not the risk gate. */
  ghost predicate NotDenied(env: Env, e: Effect, argv: Argv) {
    && !env.policy(e.action).PolicyDeny?
    && (env.mode == Plan ==> Reads(e))
    && !env.risk(env.mode, e, argv).RiskDeny?
  }

  /** A policy that asks is answered without a user: the risk gate agrees, and the mode takes that for an answer. */
  ghost predicate AnsweredByMode(env: Env, e: Effect, argv: Argv) {
    && env.risk(env.mode, e, argv).RiskAllow?
    && (|| env.mode in {AcceptEdits, Auto, Bypass}
        || (env.mode == Ask && (Reads(e) || (e.action.kind == SpawnProcess && env.safeCommand(e.action)))))
  }

  /** An effect in scope goes ahead with nobody asked. */
  ghost predicate GoesAhead(env: Env, e: Effect, argv: Argv) {
    && NotDenied(env, e, argv)
    && (env.policy(e.action).PolicyAllow? || AnsweredByMode(env, e, argv))
  }

  /** A user is asked. */
  ghost predicate Asks(env: Env, e: Effect, argv: Argv) {
    && InScope(env.sandbox, e) && NotDenied(env, e, argv)
    && env.policy(e.action).PolicyNeedsApproval? && !AnsweredByMode(env, e, argv)
  }

  /** What the user is asked for: the risk gate's reason if it has one, else the policy's. */
  function AskedFor(env: Env, e: Effect, argv: Argv): string
    requires env.policy(e.action).PolicyNeedsApproval?
  {
    var risk := env.risk(env.mode, e, argv);
    if risk.RiskNeedsHuman? then risk.reason else env.policy(e.action).reason
  }

  /** Why an effect in scope is denied: policy is heard before the mode, and the mode before the risk gate. */
  ghost predicate DeniedFor(env: Env, e: Effect, argv: Argv, reason: string) {
    var policy, risk := env.policy(e.action), env.risk(env.mode, e, argv);
    || (policy.PolicyDeny? && reason == policy.reason)
    || (!policy.PolicyDeny? && env.mode == Plan && !Reads(e) && reason == PLAN_DENIES)
    || (!policy.PolicyDeny? && (env.mode == Plan ==> Reads(e)) && risk.RiskDeny? && reason == risk.reason)
  }

  lemma KindsExact(env: Env, e: Effect)
    requires Fits(e)
    ensures IsMutating(e) <==> !Reads(e)
    ensures IsReadOnly(env, e) <==> Reads(e) || (e.action.kind == SpawnProcess && env.safeCommand(e.action))
  {
  }

  /** Admission allows, asks and denies exactly when it should, and with the reason it should. */
  lemma AdmitExact(env: Env, e: Effect, argv: Argv)
    ensures Admit(env, e, argv) == Allow <==> InScope(env.sandbox, e) && GoesAhead(env, e, argv)
    ensures Admit(env, e, argv).NeedsApproval? <==> Asks(env, e, argv)
    ensures Asks(env, e, argv) ==> Admit(env, e, argv) == NeedsApproval(AskedFor(env, e, argv))
    ensures Admit(env, e, argv).Deny? ==>
              if InScope(env.sandbox, e) then DeniedFor(env, e, argv, Admit(env, e, argv).reason)
              else SandboxRefusal(env.sandbox, e) == Some(Admit(env, e, argv).reason)
  {
    RefusalExact(env.sandbox, e);
    if InScope(env.sandbox, e) {
      KindsExact(env, e);
    }
  }
}
