/** The table of writer leases, and the scheduler that admits tasks under a lease
    (crates/impetus-core/src/declared_write_set.rs, crates/impetus-core/src/agent_scheduler.rs). */
module WriterLeases {
  import opened Text
  import opened WriteSet
  import opened WriteOverlap
  import opened ScopeSharing

  const U64_MAX: nat := 0xFFFF_FFFF_FFFF_FFFF

  function SaturatingInc(n: nat): nat {
    if n < U64_MAX then n + 1 else n
  }

  datatype HandoffFence = HandoffFence(childId: string, generation: nat, writeSet: DeclaredWriteSet)

  type Leases = map<string, HandoffFence>

  //
  // What each operation does to the table.
  //

  /** Another holder's scope overlaps the fence's. */
  predicate Blocks(active: Leases, fence: HandoffFence, id: string) {
    id in active && id != fence.childId && Overlaps(fence.writeSet, active[id].writeSet)
  }

  predicate Admissible(active: Leases, fence: HandoffFence) {
    && Trim(fence.childId) != ""
    && (fence.childId in active ==> fence.generation > active[fence.childId].generation)
    && forall id | id in active :: !Blocks(active, fence, id)
  }

  function AfterAdmit(active: Leases, fence: HandoffFence): Leases {
    if Admissible(active, fence) then active[fence.childId := fence] else active
  }

  function AfterBump(active: Leases, id: string): Leases {
    if id in active then active[id := active[id].(generation := SaturatingInc(active[id].generation))] else active
  }

  function AfterRelease(active: Leases, id: string): Leases {
    active - {id}
  }

  /** Lease admission first; a scheduler that then refuses gives the lease back. */
  function AfterSchedule(active: Leases, fence: HandoffFence, admitted: bool): Leases {
    if !Admissible(active, fence) then active
    else if admitted then active[fence.childId := fence]
    else active - {fence.childId}
  }

  /** Any two holders have scopes that do not overlap, and each lease is filed under its child. */
  ghost predicate Exclusive(active: Leases) {
    && (forall c, d | c in active && d in active && c != d :: !Overlaps(active[c].writeSet, active[d].writeSet))
    && (forall c | c in active :: active[c].childId == c)
  }

  lemma AdmitKeepsExclusive(active: Leases, fence: HandoffFence)
    requires Exclusive(active) && Admissible(active, fence)
    ensures Exclusive(active[fence.childId := fence])
  {
    var after := active[fence.childId := fence];
    forall c, d | c in after && d in after && c != d
      ensures !Overlaps(after[c].writeSet, after[d].writeSet)
    {
      if c == fence.childId {
        assert !Blocks(active, fence, d);
      } else if d == fence.childId {
        assert !Blocks(active, fence, c);
        OverlapsSymmetric(fence.writeSet, active[c].writeSet);
      }
    }
  }

  //
  // Runs.
  //

  datatype LeaseOp =
    | Admit(fence: HandoffFence)
    | Bump(id: string)
    | Release(id: string)
    | Schedule(fence: HandoffFence, admitted: bool)

  function Step(active: Leases, op: LeaseOp): Leases {
    match op
    case Admit(fence) => AfterAdmit(active, fence)
    case Bump(id) => AfterBump(active, id)
    case Release(id) => AfterRelease(active, id)
    case Schedule(fence, admitted) => AfterSchedule(active, fence, admitted)
  }

  function After(active: Leases, ops: seq<LeaseOp>): Leases
    decreases |ops|
  {
    if ops == [] then active else After(Step(active, ops[0]), ops[1..])
  }

  lemma StepKeepsExclusive(active: Leases, op: LeaseOp)
    requires Exclusive(active)
    ensures Exclusive(Step(active, op))
  {
    if (op.Admit? || op.Schedule?) && Admissible(active, op.fence) {
      AdmitKeepsExclusive(active, op.fence);
    }
  }

  /** In every state reached by admitting, bumping, releasing and scheduling, no two writers overlap. */
  lemma {:induction false} WritersStayExclusive(active: Leases, ops: seq<LeaseOp>)
    requires Exclusive(active)
    ensures Exclusive(After(active, ops))
    decreases |ops|
  {
    if ops != [] {
      StepKeepsExclusive(active, ops[0]);
      WritersStayExclusive(Step(active, ops[0]), ops[1..]);
    }
  }

  lemma HoldersKnown(ops: seq<LeaseOp>, c: string, d: string)
    requires c in After(map[], ops) && d in After(map[], ops) && c != d
    ensures var s, t := After(map[], ops)[c].writeSet, After(map[], ops)[d].writeSet;
            !Overlaps(s, t) && !IsUnknown(s) && !IsUnknown(t)
  {
    WritersStayExclusive(map[], ops);
  }

  /** In every table reached, whatever the scopes, two holders can write a common path if and only if a glob of one
      can be followed through a path of the other or two of their globs cross. */
  lemma TwoWritersExactlyWhen(ops: seq<LeaseOp>, c: string, d: string)
    requires c in After(map[], ops) && d in After(map[], ops) && c != d
    ensures var s, t := After(map[], ops)[c].writeSet, After(map[], ops)[d].writeSet;
            CommonPath(s, t) <==> GlobsReach(s, t) || GlobsReach(t, s) || GlobsCross(s, t)
  {
    HoldersKnown(ops, c, d);
    TestExact(After(map[], ops)[c].writeSet, After(map[], ops)[d].writeSet);
  }

  /** So, for scopes of paths alone, no workspace path is ever open to two writers at once. */
  lemma NoPathHasTwoWriters(ops: seq<LeaseOp>, c: string, d: string, q: Path)
    requires c in After(map[], ops) && d in After(map[], ops) && c != d
    requires After(map[], ops)[c].writeSet.globs == [] && After(map[], ops)[d].writeSet.globs == []
    ensures !(Touches(After(map[], ops)[c].writeSet, q) && Touches(After(map[], ops)[d].writeSet, q))
  {
    TwoWritersExactlyWhen(ops, c, d);
  }

  /** Two crossing globs, leased one after the other: both are admitted, and both holders can write one path. */
  lemma CrossingWritersAdmitted(c: string, d: string)
    requires '/' !in c && '/' !in d && c != "**" && c != "*" && d != "**" && d != "*" && c != "" && d != ""
    ensures var a, b := DeclaredWriteSet([], [c + ['/'] + "*"]), DeclaredWriteSet([], ["*" + ['/'] + d]);
            var leases := After(map[], [Admit(HandoffFence("x", 1, a)), Admit(HandoffFence("y", 1, b))]);
            && "x" in leases && "y" in leases && leases["x"].writeSet == a && leases["y"].writeSet == b
            && Touches(a, [c, d]) && Touches(b, [c, d])
  {
    var a, b := DeclaredWriteSet([], [c + ['/'] + "*"]), DeclaredWriteSet([], ["*" + ['/'] + d]);
    CrossingGlobsMissed(c, d);
    OverlapsSymmetric(a, b);
    var x, y := HandoffFence("x", 1, a), HandoffFence("y", 1, b);
    var ops := [Admit(x), Admit(y)];
    assert Trim("x") == "x" && Trim("y") == "y";
    var one := map["x" := x];
    assert Admissible(map[], x) && Step(map[], ops[0]) == one;
    assert Admissible(one, y);
    assert ops[1..] == [Admit(y)] && ops[1..][1..] == [];
    assert After(one, ops[1..]) == one["y" := y];
  }

  /** The lease of `id` is held at every point of the run. */
  ghost predicate HeldThroughout(active: Leases, ops: seq<LeaseOp>, id: string)
    decreases |ops|
  {
    id in active && (ops == [] || HeldThroughout(Step(active, ops[0]), ops[1..], id))
  }

  lemma StepKeepsGeneration(active: Leases, op: LeaseOp, id: string)
    requires id in active && id in Step(active, op)
    ensures active[id].generation <= Step(active, op)[id].generation
  {
    match op
    case Admit(fence) =>
    case Bump(i) =>
    case Release(i) =>
    case Schedule(fence, admitted) =>
  }

  /** While a lease is held its generation never goes down. */
  lemma {:induction false} GenerationNeverDrops(active: Leases, ops: seq<LeaseOp>, id: string)
    requires HeldThroughout(active, ops, id)
    ensures id in After(active, ops) && active[id].generation <= After(active, ops)[id].generation
    decreases |ops|
  {
    if ops != [] {
      StepKeepsGeneration(active, ops[0], id);
      GenerationNeverDrops(Step(active, ops[0]), ops[1..], id);
    }
  }

  /** A schedule refused after its lease was admitted leaves the table as it was exactly when the child
      held no lease before: a refused handoff drops the lease the child already had. */
  lemma RefusedScheduleRestores(active: Leases, fence: HandoffFence)
    requires Admissible(active, fence)
    ensures AfterSchedule(active, fence, false) == active <==> fence.childId !in active
  {
    if fence.childId !in active {
      assert active - {fence.childId} == active;
    } else {
      assert fence.childId !in AfterSchedule(active, fence, false);
    }
  }

  //
  // The table.
  //

  class WriterLeaseTable {
    var active: Leases

    constructor ()
      ensures active == map[] && Exclusive(active)
    {
      active := map[];
    }

    /** Looks through the holders, in no particular order, for one that blocks the fence. */
    method FindBlocker(fence: HandoffFence) returns (holder: Option<string>)
      ensures holder.None? ==> forall id | id in active :: !Blocks(active, fence, id)
      ensures holder.Some? ==> Blocks(active, fence, holder.value)
    {
      holder := None;
      var left := active.Keys;
      while left != {}
        invariant left <= active.Keys
        invariant forall id | id in active && id !in left :: !Blocks(active, fence, id)
        decreases left
      {
        var id :| id in left;
        if id != fence.childId && Overlaps(fence.writeSet, active[id].writeSet) {
          return Some(id);
        }
        left := left - {id};
      }
    }

    method Admit(fence: HandoffFence) returns (r: Result<(), WriteSetError>)
      requires Exclusive(active)
      modifies this
      ensures Exclusive(active) && active == AfterAdmit(old(active), fence)
      ensures r.Ok? <==> Admissible(old(active), fence)
      ensures r.Err? ==>
                match r.error
                case EmptyChildId => Trim(fence.childId) == ""
                case Stale(c, offered, live) =>
                  && c == fence.childId && c in old(active) && offered == fence.generation
                  && live == old(active)[c].generation && offered < live
                case AlreadyAdmitted(c) =>
                  c == fence.childId && c in old(active) && fence.generation == old(active)[c].generation
                case Conflict(holder) => Blocks(old(active), fence, holder)
                case _ => false
    {
      if Trim(fence.childId) == "" {
        return Err(EmptyChildId);
      }
      if fence.childId in active {
        var existing := active[fence.childId];
        if fence.generation < existing.generation {
          return Err(Stale(fence.childId, fence.generation, existing.generation));
        }
        if fence.generation == existing.generation {
          return Err(AlreadyAdmitted(fence.childId));
        }
      }
      var holder := FindBlocker(fence);
      if holder.Some? {
        return Err(Conflict(holder.value));
      }
      AdmitKeepsExclusive(active, fence);
      active := active[fence.childId := fence];
      return Ok(());
    }

    method AssertLive(childId: string, generation: nat) returns (r: Result<(), WriteSetError>)
      ensures r.Ok? <==> childId in active && active[childId].generation == generation
      ensures childId !in active ==> r == Err(UnknownChild(childId))
      ensures childId in active && r.Err? ==> r == Err(Stale(childId, generation, active[childId].generation))
    {
      if childId !in active {
        return Err(UnknownChild(childId));
      }
      if generation != active[childId].generation {
        return Err(Stale(childId, generation, active[childId].generation));
      }
      return Ok(());
    }

    /** The old generation is dead afterwards, unless the counter was already at its top. */
    method Bump(childId: string) returns (r: Result<HandoffFence, WriteSetError>)
      requires Exclusive(active)
      modifies this
      ensures Exclusive(active) && active == AfterBump(old(active), childId)
      ensures r == if childId in old(active) then Ok(active[childId]) else Err(UnknownChild(childId))
      ensures r.Ok? ==> (r.value.generation != old(active)[childId].generation
                         <==> old(active)[childId].generation < U64_MAX)
    {
      if childId !in active {
        return Err(UnknownChild(childId));
      }
      active := active[childId := active[childId].(generation := SaturatingInc(active[childId].generation))];
      return Ok(active[childId]);
    }

    method Release(childId: string) returns (r: Result<HandoffFence, WriteSetError>)
      requires Exclusive(active)
      modifies this
      ensures Exclusive(active) && active == AfterRelease(old(active), childId)
      ensures r == if childId in old(active) then Ok(old(active)[childId]) else Err(UnknownChild(childId))
    {
      if childId !in active {
        assert active - {childId} == active;
        return Err(UnknownChild(childId));
      }
      r := Ok(active[childId]);
      active := active - {childId};
    }
  }

  //
  // The scheduler.
  //

  datatype ScheduleStatus = Admitted | Completed | Cancelled

  datatype ScheduleTask = ScheduleTask(workflowId: string, stepId: string, role: Option<string>)

  datatype ScheduleRecord = ScheduleRecord(
    task: ScheduleTask, scheduleId: string, resultSlot: string, status: ScheduleStatus, result: Option<string>)

  datatype SchedulerError =
    | Rejected(stepId: string)
    | WriteLease(error: WriteSetError)

  function Zeros(n: nat): string {
    if n == 0 then "" else Zeros(n - 1) + "0"
  }

  /** What `{:04}` prints. */
  function Padded(n: nat): string {
    var d := Decimal(n);
    (if |d| < 4 then Zeros(4 - |d|) else "") + d
  }

  function ScheduleId(n: nat): string {
    "sched-" + Padded(n)
  }

  lemma {:induction false} ZerosParse(k: nat)
    ensures ParseDigits(Zeros(k)) == Some(0)
  {
    if k != 0 {
      ZerosParse(k - 1);
      var z := Zeros(k);
      assert z[..|z|-1] == Zeros(k - 1) && z[|z|-1] == '0';
    }
  }

  lemma {:induction false} PaddedParses(k: nat, n: nat)
    requires n <= USIZE_MAX
    ensures ParseDigits(Zeros(k) + Decimal(n)) == Some(n)
    decreases n
  {
    var s := Zeros(k) + Decimal(n);
    var d := Decimal(n);
    assert s[|s|-1] == d[|d|-1] && s[..|s|-1] == Zeros(k) + d[..|d|-1];
    if n < 10 {
      assert d[..|d|-1] == [];
      assert Zeros(k) + [] == Zeros(k);
      ZerosParse(k);
      assert s[|s|-1] as int - '0' as int == n;
    } else {
      assert d[..|d|-1] == Decimal(n / 10);
      PaddedParses(k, n / 10);
      assert s[|s|-1] as int - '0' as int == n % 10;
    }
  }

  /** Different sequence numbers give different ids. */
  lemma ScheduleIdsDiffer(m: nat, n: nat)
    requires m <= USIZE_MAX && n <= USIZE_MAX && ScheduleId(m) == ScheduleId(n)
    ensures m == n
  {
    assert Padded(m) == ScheduleId(m)[6..] && Padded(n) == ScheduleId(n)[6..];
    PaddedParses(if |Decimal(m)| < 4 then 4 - |Decimal(m)| else 0, m);
    PaddedParses(if |Decimal(n)| < 4 then 4 - |Decimal(n)| else 0, n);
  }

  /** A sequence number above all used ones gives an id not used. */
  lemma FreshId(records: map<string, ScheduleRecord>, n: nat)
    requires forall id | id in records :: exists k: nat :: 1 <= k <= n && id == ScheduleId(k)
    ensures n < U64_MAX ==> ScheduleId(n + 1) !in records
  {
    var id := ScheduleId(n + 1);
    if n < U64_MAX && id in records {
      var k: nat :| 1 <= k <= n && id == ScheduleId(k);
      ScheduleIdsDiffer(k, n + 1);
    }
  }

  class AgentScheduler {
    var nextSeq: nat
    var admit: bool
    var records: map<string, ScheduleRecord>

    /** Ids handed out are those of the sequence numbers so far. */
    ghost predicate Valid()
      reads this
    {
      && nextSeq <= U64_MAX
      && (nextSeq > 0 ==> ScheduleId(nextSeq) in records)
      && forall id | id in records :: exists k: nat :: 1 <= k <= nextSeq && id == ScheduleId(k)
    }

    constructor ()
      ensures Valid() && nextSeq == 0 && admit && records == map[]
    {
      nextSeq, admit, records := 0, true, map[];
    }

    /** Admits a task and records it. Its id was never used before exactly when the counter had not run out;
        every other record stays. */
    method Schedule(task: ScheduleTask) returns (r: Result<(string, string), SchedulerError>)
      requires Valid()
      modifies this
      ensures Valid() && admit == old(admit)
      ensures !old(admit) ==> r == Err(Rejected(task.stepId)) && records == old(records) && nextSeq == old(nextSeq)
      ensures old(admit) ==> r.Ok? && nextSeq == SaturatingInc(old(nextSeq))
      ensures r.Ok? ==> (r.value.0 !in old(records) <==> old(nextSeq) < U64_MAX)
      ensures r.Ok? ==> records == old(records)[r.value.0 := ScheduleRecord(task, r.value.0, r.value.1, Admitted, None)]
    {
      if !admit {
        return Err(Rejected(task.stepId));
      }
      nextSeq := SaturatingInc(nextSeq);
      var id := ScheduleId(nextSeq);
      var slot := "slot-" + task.workflowId + "-" + task.stepId;
      FreshId(records, old(nextSeq));
      records := records[id := ScheduleRecord(task, id, slot, Admitted, None)];
      return Ok((id, slot));
    }

    /** Schedules under a lease: lease errors leave everything as it was, and a refusal by the scheduler
        releases the child's lease, whether or not the child held one before. */
    method ScheduleWithWriteLease(task: ScheduleTask, leases: WriterLeaseTable, fence: HandoffFence)
      returns (r: Result<(string, string), SchedulerError>)
      requires Valid() && Exclusive(leases.active)
      modifies this, leases
      ensures Valid() && Exclusive(leases.active)
      ensures leases.active == AfterSchedule(old(leases.active), fence, old(admit))
      ensures r.Ok? <==> Admissible(old(leases.active), fence) && old(admit)
      ensures r.Err? ==> records == old(records) && nextSeq == old(nextSeq)
      ensures r.Ok? ==> (r.value.0 !in old(records) <==> old(nextSeq) < U64_MAX)
      ensures r.Ok? ==> r.value.0 in records && records[r.value.0].status == Admitted
      ensures r.Err? && r.error.WriteLease? ==> leases.active == old(leases.active)
    {
      var child := fence.childId;
      var lease := leases.Admit(fence);
      if lease.Err? {
        return Err(WriteLease(lease.error));
      }
      r := Schedule(task);
      if r.Err? {
        ghost var before := old(leases.active);
        assert before[child := fence] - {child} == before - {child};
        var _ := leases.Release(child);
      }
    }
  }
}
