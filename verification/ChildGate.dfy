/** The gate that caps concurrent child runs, with one cap over all runs and an optional one per parent
    (crates/impetus-core/src/child_concurrency.rs). The gate keeps a set of runs, a map to parents and a map
    of counters; what it decides is stated over a plain registry of runs, by counting. */
module ChildGate {
  import opened Text

  type RunId = string
  type ParentId = string

  /** The active runs, each with the parent it counts against, if any. */
  type Registry = map<RunId, Option<ParentId>>

  datatype GateError =
    | EmptyRunId
    | EmptyParentId
    | CapReached(active: nat, cap: nat)
    | ParentCapReached(parent: ParentId, parentActive: nat, parentCap: nat)
    | AlreadyAdmitted(run: RunId)
    | UnknownRun(unknown: RunId)

  ghost function Children(reg: Registry, parent: ParentId): set<RunId> {
    set run | run in reg && reg[run] == Some(parent)
  }

  /** The refusal of an admission, decided on the registry alone. */
  ghost function AdmitRefusal(reg: Registry, cap: nat, parentCap: Option<nat>, run: RunId,
                              parent: Option<string>): Option<GateError> {
    if run == "" then Some(EmptyRunId)
    else if run in reg then Some(AlreadyAdmitted(run))
    else if |reg| >= cap then Some(CapReached(|reg|, cap))
    else if parent.None? then None
    else
      var key := Trim(parent.value);
      if key == "" then Some(EmptyParentId)
      else if parentCap.Some? && |Children(reg, key)| >= parentCap.value then
        Some(ParentCapReached(key, |Children(reg, key)|, parentCap.value))
      else None
  }

  ghost function ReleaseRefusal(reg: Registry, run: RunId): Option<GateError> {
    if run == "" then Some(EmptyRunId) else if run !in reg then Some(UnknownRun(run)) else None
  }

  function KeyOf(parent: Option<string>): Option<ParentId> {
    if parent.None? then None else Some(Trim(parent.value))
  }

  /** Neither cap is exceeded. */
  ghost predicate WithinCaps(reg: Registry, cap: nat, parentCap: Option<nat>) {
    && |reg| <= cap
    && (parentCap.Some? ==> forall p :: |Children(reg, p)| <= parentCap.value)
  }

  /** What the three fields hold for a registry. */
  ghost predicate Represents(active: set<RunId>, parentOf: map<RunId, ParentId>, byParent: map<ParentId, nat>,
                             reg: Registry) {
    && active == reg.Keys
    && (forall run :: run in parentOf <==> run in reg && reg[run].Some?)
    && (forall run | run in parentOf :: reg[run] == Some(parentOf[run]))
    && Tallies(byParent, reg)
  }

  /** There is a counter for each parent that has a child, and it counts its children. */
  ghost predicate Tallies(byParent: map<ParentId, nat>, reg: Registry) {
    forall p :: Tally(byParent, p) == |Children(reg, p)| && (p in byParent ==> byParent[p] != 0)
  }

  function Tally(byParent: map<ParentId, nat>, p: ParentId): nat {
    if p in byParent then byParent[p] else 0
  }

  /** The registry fixes the fields: a gate has one state for each registry. */
  lemma RepresentationUnique(active: set<RunId>, parentOf: map<RunId, ParentId>, byParent: map<ParentId, nat>,
                             active': set<RunId>, parentOf': map<RunId, ParentId>, byParent': map<ParentId, nat>,
                             reg: Registry)
    requires Represents(active, parentOf, byParent, reg) && Represents(active', parentOf', byParent', reg)
    ensures active == active' && parentOf == parentOf' && byParent == byParent'
  {
    assert parentOf == parentOf' by {
      forall run | run in parentOf
        ensures run in parentOf' && parentOf'[run] == parentOf[run]
      {
        assert reg[run] == Some(parentOf[run]);
      }
      assert parentOf.Keys == parentOf'.Keys;
    }
    forall p
      ensures p in byParent <==> p in byParent'
      ensures p in byParent ==> byParent[p] == byParent'[p]
    {
      assert Tally(byParent, p) == Tally(byParent', p);
    }
    assert byParent.Keys == byParent'.Keys;
  }

  /** Adding a run adds it to the children of its own parent and no other. */
  lemma ChildrenAdded(reg: Registry, run: RunId, key: Option<ParentId>, p: ParentId)
    requires run !in reg
    ensures |Children(reg[run := key], p)| == |Children(reg, p)| + (if key == Some(p) then 1 else 0)
  {
    var reg' := reg[run := key];
    assert Children(reg', p) == Children(reg, p) + (if key == Some(p) then {run} else {});
  }

  lemma ChildrenRemoved(reg: Registry, run: RunId, p: ParentId)
    requires run in reg
    ensures |Children(reg - {run}, p)| == |Children(reg, p)| - (if reg[run] == Some(p) then 1 else 0)
  {
    var reg' := reg - {run};
    assert Children(reg', p) == Children(reg, p) - {run};
    assert run in Children(reg, p) <==> reg[run] == Some(p);
  }

  lemma TalliesAfterAdd(byParent: map<ParentId, nat>, reg: Registry, run: RunId, key: Option<ParentId>)
    requires Tallies(byParent, reg) && run !in reg
    ensures Tallies(if key.Some? then byParent[key.value := Tally(byParent, key.value) + 1] else byParent,
                    reg[run := key])
  {
    var byParent' := if key.Some? then byParent[key.value := Tally(byParent, key.value) + 1] else byParent;
    forall p
      ensures Tally(byParent', p) == |Children(reg[run := key], p)| && (p in byParent' ==> byParent'[p] != 0)
    {
      ChildrenAdded(reg, run, key, p);
      assert Tally(byParent, p) == |Children(reg, p)|;
    }
  }

  /** The counter of a departing child is there and positive: the saturating subtraction never saturates. */
  lemma TalliesAfterRemove(byParent: map<ParentId, nat>, reg: Registry, run: RunId)
    requires Tallies(byParent, reg) && run in reg
    ensures reg[run].Some? ==>
              var p := reg[run].value;
              && p in byParent && byParent[p] >= 1
              && Tallies(if byParent[p] == 1 then byParent - {p} else byParent[p := byParent[p] - 1], reg - {run})
    ensures reg[run].None? ==> Tallies(byParent, reg - {run})
  {
    forall p
      ensures |Children(reg - {run}, p)| == Tally(byParent, p) - (if reg[run] == Some(p) then 1 else 0)
      ensures reg[run] == Some(p) ==> p in byParent
    {
      ChildrenRemoved(reg, run, p);
      assert Tally(byParent, p) == |Children(reg, p)|;
    }
  }

  lemma RepresentsAfterAdd(active: set<RunId>, parentOf: map<RunId, ParentId>, byParent: map<ParentId, nat>,
                           reg: Registry,
                           run: RunId, key: Option<ParentId>)
    requires Represents(active, parentOf, byParent, reg) && run !in reg
    ensures key.None? ==> Represents(active + {run}, parentOf, byParent, reg[run := key])
    ensures key.Some? ==>
              Represents(active + {run}, parentOf[run := key.value],
                         byParent[key.value := Tally(byParent, key.value) + 1], reg[run := key])
  {
    TalliesAfterAdd(byParent, reg, run, key);
  }

  lemma RepresentsAfterRemove(active: set<RunId>, parentOf: map<RunId, ParentId>, byParent: map<ParentId, nat>,
                              reg: Registry, run: RunId)
    requires Represents(active, parentOf, byParent, reg) && run in reg
    ensures run !in parentOf ==> Represents(active - {run}, parentOf, byParent, reg - {run})
    ensures run in parentOf ==>
              var p := parentOf[run];
              && p in byParent && byParent[p] >= 1
              && Represents(active - {run}, parentOf - {run},
                            if byParent[p] == 1 then byParent - {p} else byParent[p := byParent[p] - 1], reg - {run})
  {
    TalliesAfterRemove(byParent, reg, run);
    assert run in parentOf ==> reg[run] == Some(parentOf[run]);
    assert (reg - {run}).Keys == reg.Keys - {run};
  }

  lemma CapsAfterAdd(reg: Registry, cap: nat, parentCap: Option<nat>, run: RunId, parent: Option<string>)
    requires WithinCaps(reg, cap, parentCap) && AdmitRefusal(reg, cap, parentCap, run, parent).None?
    ensures WithinCaps(reg[run := KeyOf(parent)], cap, parentCap)
  {
    var reg' := reg[run := KeyOf(parent)];
    forall p
      ensures parentCap.Some? ==> |Children(reg', p)| <= parentCap.value
    {
      ChildrenAdded(reg, run, KeyOf(parent), p);
    }
  }

  lemma CapsAfterRemove(reg: Registry, cap: nat, parentCap: Option<nat>, run: RunId)
    requires WithinCaps(reg, cap, parentCap) && run in reg
    ensures WithinCaps(reg - {run}, cap, parentCap)
  {
    var reg' := reg - {run};
    assert reg == reg'[run := reg[run]];
    forall p
      ensures parentCap.Some? ==> |Children(reg', p)| <= parentCap.value
    {
      ChildrenRemoved(reg, run, p);
    }
  }

  class ChildConcurrencyGate {
    const cap: nat
    const parentCap: Option<nat>
    var active: set<RunId>
    var parentOf: map<RunId, ParentId>
    var byParent: map<ParentId, nat>

    /** The registry the fields stand for. */
    ghost var runs: Registry

    /** The fields agree with each other and both caps hold. */
    ghost predicate Valid()
      reads this
    {
      && Represents(active, parentOf, byParent, runs)
      && WithinCaps(runs, cap, parentCap)
    }

    constructor (cap: nat, parentCap: Option<nat>)
      ensures Valid() && this.cap == cap && this.parentCap == parentCap && runs == map[]
    {
      this.cap, this.parentCap := cap, parentCap;
      active, parentOf, byParent, runs := {}, map[], map[], map[];
    }

    /** The stored counters give the number of a parent's active children. */
    method ActiveCountForParent(p: ParentId) returns (n: nat)
      requires Valid()
      ensures n == |Children(runs, p)|
    {
      n := Tally(byParent, p);
    }

    /** Decides as counting the registry would; a refusal changes nothing. */
    method AdmitForParent(run: RunId, parent: Option<string>) returns (r: Result<(), GateError>)
      requires Valid()
      modifies this
      ensures Valid()
      ensures r == (var e := AdmitRefusal(old(runs), cap, parentCap, run, parent);
                    if e.None? then Ok(()) else Err(e.value))
      ensures runs == if r.Ok? then old(runs)[run := KeyOf(parent)] else old(runs)
    {
      if run == "" {
        return Err(EmptyRunId);
      }
      if run in active {
        return Err(AlreadyAdmitted(run));
      }
      if |active| >= cap {
        return Err(CapReached(|active|, cap));
      }
      var key: Option<ParentId> := None;
      if parent.Some? {
        var trimmed := Trim(parent.value);
        if trimmed == "" {
          return Err(EmptyParentId);
        }
        key := Some(trimmed);
      }
      if key.Some? && parentCap.Some? {
        var count := ActiveCountForParent(key.value);
        if count >= parentCap.value {
          return Err(ParentCapReached(key.value, count, parentCap.value));
        }
      }
      CapsAfterAdd(runs, cap, parentCap, run, parent);
      Reserve(run, key);
      return Ok(());
    }

    /** Books a run that passed every check. */
    method Reserve(run: RunId, key: Option<ParentId>)
      requires Represents(active, parentOf, byParent, runs) && run !in runs
      modifies this
      ensures Represents(active, parentOf, byParent, runs)
      ensures runs == old(runs)[run := key]
    {
      RepresentsAfterAdd(active, parentOf, byParent, runs, run, key);
      if key.Some? {
        byParent := byParent[key.value := Tally(byParent, key.value) + 1];
        parentOf := parentOf[run := key.value];
      }
      active, runs := active + {run}, runs[run := key];
    }

    /** Forgets a run; refuses, changing nothing, exactly when it is not active. */
    method Release(run: RunId) returns (r: Result<(), GateError>)
      requires Valid()
      modifies this
      ensures Valid()
      ensures r == (var e := ReleaseRefusal(old(runs), run); if e.None? then Ok(()) else Err(e.value))
      ensures runs == if r.Ok? then old(runs) - {run} else old(runs)
    {
      if run == "" {
        return Err(EmptyRunId);
      }
      if run !in active {
        return Err(UnknownRun(run));
      }
      CapsAfterRemove(runs, cap, parentCap, run);
      Forget(run);
      return Ok(());
    }

    /** Takes an active run off the books. */
    method Forget(run: RunId)
      requires Represents(active, parentOf, byParent, runs) && run in runs
      modifies this
      ensures Represents(active, parentOf, byParent, runs)
      ensures runs == old(runs) - {run}
    {
      RepresentsAfterRemove(active, parentOf, byParent, runs, run);
      active, runs := active - {run}, runs - {run};
      if run in parentOf {
        var parent := parentOf[run];
        parentOf := parentOf - {run};
        if parent in byParent {
          var count := if byParent[parent] >= 1 then byParent[parent] - 1 else 0;
          byParent := if count == 0 then byParent - {parent} else byParent[parent := count];
        }
      }
    }
  }

  lemma AddThenRemove(reg: Registry, run: RunId, key: Option<ParentId>)
    ensures run !in reg ==> reg[run := key] - {run} == reg
  {
  }

  /** A run admitted and released leaves every field as it was. */
  method AdmitThenRelease(gate: ChildConcurrencyGate, run: RunId, parent: Option<string>)
    returns (admitted: Result<(), GateError>, released: Result<(), GateError>)
    requires gate.Valid()
    modifies gate
    ensures gate.Valid()
    ensures admitted.Ok? ==> released.Ok?
    ensures admitted.Ok? ==>
              && gate.active == old(gate.active) && gate.parentOf == old(gate.parentOf)
              && gate.byParent == old(gate.byParent)
  {
    ghost var active, parentOf, byParent, reg := gate.active, gate.parentOf, gate.byParent, gate.runs;
    admitted := gate.AdmitForParent(run, parent);
    AddThenRemove(reg, run, KeyOf(parent));
    released := gate.Release(run);
    if admitted.Ok? {
      RepresentationUnique(active, parentOf, byParent, gate.active, gate.parentOf, gate.byParent, reg);
    }
  }

  datatype Op = Admit(run: RunId, parent: Option<string>) | Free(run: RunId)

  /** The registry after any operations, with no counters kept. */
  ghost function Replayed(reg: Registry, cap: nat, parentCap: Option<nat>, ops: seq<Op>): Registry {
    if ops == [] then reg
    else
      var before := Replayed(reg, cap, parentCap, ops[..|ops| - 1]);
      match ops[|ops| - 1]
      case Admit(run, parent) =>
        if AdmitRefusal(before, cap, parentCap, run, parent).None? then before[run := KeyOf(parent)] else before
      case Free(run) => if ReleaseRefusal(before, run).None? then before - {run} else before
  }

  /** Any operations on the gate do to it what they do to the plain registry, and keep its invariant. */
  method RunAll(gate: ChildConcurrencyGate, ops: seq<Op>)
    requires gate.Valid()
    modifies gate
    ensures gate.Valid() && gate.runs == Replayed(old(gate.runs), gate.cap, gate.parentCap, ops)
  {
    for k := 0 to |ops|
      invariant gate.Valid() && gate.runs == Replayed(old(gate.runs), gate.cap, gate.parentCap, ops[..k])
    {
      assert ops[..k + 1][..k] == ops[..k];
      match ops[k] {
        case Admit(run, parent) => var _ := gate.AdmitForParent(run, parent);
        case Free(run) => var _ := gate.Release(run);
      }
    }
    assert ops[..|ops|] == ops;
  }
}
