/** The write-ahead effect fence: what identifies an effect, the event log, its fold into one record
    per effect, and the replay decision (crates/impetus-core/src/effect_fence.rs). */
module EffectFence {
  import opened Text

  datatype Capability = WorkspaceRead | WorkspaceWrite | ProcessSpawn | NetworkConnect

  datatype ActionKind =
    | ReadFile | WriteFile | SpawnProcess | Connect | SshConnect | SftpTransfer | TmuxAttach
    | WebSearch | WebFetch | WebDownload | WebBrowser | WebSubmit | WebUpload

  datatype Origin = User | Agent

  datatype Action = Action(origin: Origin, kind: ActionKind, summary: string, target: Option<string>)

  datatype Effect = Effect(origin: Origin, capability: Capability, version: nat, action: Action)

  //
  // Identity.
  //

  function CapabilityLabel(c: Capability): string {
    match c
    case WorkspaceRead => "workspace_read"
    case WorkspaceWrite => "workspace_write"
    case ProcessSpawn => "process_spawn"
    case NetworkConnect => "network_connect"
  }

  function OriginLabel(o: Origin): string {
    match o case User => "user" case Agent => "agent"
  }

  function KindLabel(k: ActionKind): string {
    match k
    case ReadFile => "read_file"
    case WriteFile => "write_file"
    case SpawnProcess => "spawn_process"
    case Connect => "network_connect"
    case SshConnect => "ssh_connect"
    case SftpTransfer => "sftp_transfer"
    case TmuxAttach => "tmux_attach"
    case WebSearch => "web_search"
    case WebFetch => "web_fetch"
    case WebDownload => "web_download"
    case WebBrowser => "web_browser"
    case WebSubmit => "web_submit"
    case WebUpload => "web_upload"
  }

  /** Kind label kept beside the digest: capability and action kind. */
  function EffectLabel(e: Effect): string {
    CapabilityLabel(e.capability) + ":" + KindLabel(e.action.kind)
  }

  /** The five fields that identify an effect; an absent target counts as the empty one. */
  datatype Key = Key(capability: Capability, kind: ActionKind, origin: Origin, target: string, version: nat)

  function KeyOf(e: Effect): Key {
    Key(e.capability, e.action.kind, e.origin, if e.action.target.Some? then e.action.target.value else "", e.version)
  }

  /** A digest is represented by the bytes hashed: SHA-256 is taken to be injective. */
  type Digest = string

  function DigestOfKey(k: Key): Digest {
    Join([CapabilityLabel(k.capability), KindLabel(k.kind), OriginLabel(k.origin), k.target, Decimal(k.version)], '\0')
  }

  function ArgsDigest(e: Effect): Digest {
    DigestOfKey(KeyOf(e))
  }

  lemma CapabilityLabels(a: Capability, b: Capability)
    ensures '\0' !in CapabilityLabel(a)
    ensures CapabilityLabel(a) == CapabilityLabel(b) ==> a == b
  {
    var s, t := CapabilityLabel(a), CapabilityLabel(b);
    assert s == t ==> |s| == |t| && s[0] == t[0];
  }

  lemma OriginLabels(a: Origin, b: Origin)
    ensures '\0' !in OriginLabel(a)
    ensures OriginLabel(a) == OriginLabel(b) ==> a == b
  {
    assert |OriginLabel(User)| == 4 && |OriginLabel(Agent)| == 5;
  }

  lemma KindLabelsDiffer(a: ActionKind, b: ActionKind)
    ensures KindLabel(a) == KindLabel(b) ==> a == b
  {
    var s, t := KindLabel(a), KindLabel(b);
    assert s == t ==> |s| == |t| && s[0] == t[0] && s[1] == t[1] && s[4] == t[4] && s[5] == t[5];
  }

  lemma KindLabelPlain(a: ActionKind)
    ensures '\0' !in KindLabel(a)
  {
  }

  /** A prefix free of the separator ends where the first separator stands. */
  lemma HeadUnique(a: string, x: string, b: string, y: string, c: char)
    requires c !in a && c !in b && a + [c] + x == b + [c] + y
    ensures a == b && x == y
  {
    FindInPrefix(a, c, x);
    FindInPrefix(b, c, y);
    var s := a + [c] + x;
    assert |a| == |b|;
    assert a == s[..|a|] && b == s[..|a|];
    assert x == s[|a| + 1..] && y == s[|a| + 1..];
  }

  /** A suffix free of the separator begins after the last separator. */
  lemma TailUnique(x: string, a: string, y: string, b: string, c: char)
    requires c !in a && c !in b && x + [c] + a == y + [c] + b
    ensures a == b && x == y
  {
    var s := x + [c] + a;
    assert s[|x|] == c && s[|y|] == c;
    assert forall i | |x| < i < |s| :: s[i] == a[i - |x| - 1] && a[i - |x| - 1] in a;
    assert forall i | |y| < i < |s| :: s[i] == b[i - |y| - 1] && b[i - |y| - 1] in b;
    assert |x| == |y|;
    PartsOf(x, a, c);
    PartsOf(y, b, c);
  }

  lemma PartsOf(x: string, a: string, c: char)
    ensures var s := x + [c] + a; s[..|x|] == x && s[|x| + 1..] == a
  {
  }

  function FiveParts(a: string, b: string, c: string, d: string, e: string): string {
    a + ['\0'] + (b + ['\0'] + (c + ['\0'] + (d + ['\0'] + e)))
  }

  lemma JoinFive(a: string, b: string, c: string, d: string, e: string)
    ensures Join([a, b, c, d, e], '\0') == FiveParts(a, b, c, d, e)
  {
    assert [a, b, c, d, e][1..] == [b, c, d, e] && [b, c, d, e][1..] == [c, d, e];
    assert [c, d, e][1..] == [d, e] && [d, e][1..] == [e];
    assert Join([d, e], '\0') == d + ['\0'] + e;
    assert Join([c, d, e], '\0') == c + ['\0'] + Join([d, e], '\0');
    assert Join([b, c, d, e], '\0') == b + ['\0'] + Join([c, d, e], '\0');
  }

  lemma VersionPlain(v: nat)
    ensures '\0' !in Decimal(v)
  {
    assert forall c | c in Decimal(v) :: '0' <= c;
  }

  /** Two effects have the same digest exactly when the five fields agree, whatever bytes the targets
      hold: neither the labels nor the version can contain the separator. */
  lemma DigestInjective(k: Key, l: Key)
    ensures DigestOfKey(k) == DigestOfKey(l) <==> k == l
  {
    var a, b := CapabilityLabel(k.capability), CapabilityLabel(l.capability);
    var c, d := KindLabel(k.kind), KindLabel(l.kind);
    var e, f := OriginLabel(k.origin), OriginLabel(l.origin);
    var m, n := Decimal(k.version), Decimal(l.version);
    JoinFive(a, c, e, k.target, m);
    JoinFive(b, d, f, l.target, n);
    if DigestOfKey(k) == DigestOfKey(l) {
      CapabilityLabels(k.capability, l.capability);
      CapabilityLabels(l.capability, k.capability);
      KindLabelPlain(k.kind);
      KindLabelPlain(l.kind);
      KindLabelsDiffer(k.kind, l.kind);
      OriginLabels(k.origin, l.origin);
      OriginLabels(l.origin, k.origin);
      VersionPlain(k.version);
      VersionPlain(l.version);
      HeadUnique(a, c + ['\0'] + (e + ['\0'] + (k.target + ['\0'] + m)),
                 b, d + ['\0'] + (f + ['\0'] + (l.target + ['\0'] + n)), '\0');
      HeadUnique(c, e + ['\0'] + (k.target + ['\0'] + m), d, f + ['\0'] + (l.target + ['\0'] + n), '\0');
      HeadUnique(e, k.target + ['\0'] + m, f, l.target + ['\0'] + n, '\0');
      TailUnique(k.target, m, l.target, n, '\0');
      DecimalInjective(k.version, l.version);
    }
  }

  /** Two effects that agree in all that identifies one: capability, kind of action, origin, target and version. An
      absent target and an empty one are the same. */
  ghost predicate SameCall(e: Effect, f: Effect) {
    && e.capability == f.capability && e.action.kind == f.action.kind && e.origin == f.origin && e.version == f.version
    && (|| e.action.target == f.action.target
        || (e.action.target in {None, Some("")} && f.action.target in {None, Some("")}))
  }

  lemma KeyExact(e: Effect, f: Effect)
    ensures KeyOf(e) == KeyOf(f) <==> SameCall(e, f)
  {
  }

  /** Two effects have one digest if and only if they agree in those fields. */
  lemma DigestExact(e: Effect, f: Effect)
    ensures ArgsDigest(e) == ArgsDigest(f) <==> SameCall(e, f)
  {
    KeyExact(e, f);
    DigestInjective(KeyOf(e), KeyOf(f));
  }

  lemma NoColons(c: Capability)
    ensures ':' !in CapabilityLabel(c)
  {
  }

  /** The label kept beside the digest tells capability and kind of action. */
  lemma LabelExact(e: Effect, f: Effect)
    ensures EffectLabel(e) == EffectLabel(f) <==> e.capability == f.capability && e.action.kind == f.action.kind
  {
    if EffectLabel(e) == EffectLabel(f) {
      NoColons(e.capability);
      NoColons(f.capability);
      assert ":" == [':'];
      HeadUnique(CapabilityLabel(e.capability), KindLabel(e.action.kind),
                 CapabilityLabel(f.capability), KindLabel(f.action.kind), ':');
      CapabilityLabels(e.capability, f.capability);
      KindLabelsDiffer(e.action.kind, f.action.kind);
    }
  }

  //
  // The log and its fold.
  //

  type Id = nat

  datatype FenceState = Prepared | Started | Observed | Failed | Unknown

  datatype Identity = Identity(effectId: Id, digest: Digest, kind: string, target: Option<string>)

  datatype Record = Record(identity: Identity, state: FenceState, summary: Option<string>)

  datatype FenceEvent =
    | PreparedEvent(id: Id, digest: Digest, kind: string, target: Option<string>)
    | StartedEvent(id: Id, digest: Digest)
    | ObservedEvent(id: Id, digest: Digest, summary: string)
    | FailedEvent(id: Id, digest: Digest, reason: string)
    | UnknownEvent(id: Id, digest: Digest, reason: string)

  /** A session event: a fence event, or one the fence skips. */
  datatype Event = Fence(fence: FenceEvent) | Other

  type Records = map<Id, Record>

  /** The record an event updates: the present one, or a blank one for an id not seen before. */
  function Entry(m: Records, id: Id, digest: Digest): Record {
    if id in m then m[id] else Record(Identity(id, digest, "unknown", None), Prepared, None)
  }

  function Moved(r: Record, digest: Digest, state: FenceState, summary: Option<string>): Record {
    r.(identity := r.identity.(digest := digest), state := state, summary := summary)
  }

  function Apply(m: Records, f: FenceEvent): Records {
    match f
    case PreparedEvent(id, digest, kind, target) => m[id := Record(Identity(id, digest, kind, target), Prepared, None)]
    case StartedEvent(id, digest) =>
      var r := Entry(m, id, digest);
      m[id := Moved(r, digest, Started, r.summary)]
    case ObservedEvent(id, digest, summary) => m[id := Moved(Entry(m, id, digest), digest, Observed, Some(summary))]
    case FailedEvent(id, digest, reason) => m[id := Moved(Entry(m, id, digest), digest, Failed, Some(reason))]
    case UnknownEvent(id, digest, reason) => m[id := Moved(Entry(m, id, digest), digest, Unknown, Some(reason))]
  }

  function ApplyEvent(m: Records, e: Event): Records {
    if e.Fence? then Apply(m, e.fence) else m
  }

  function FoldFrom(m: Records, log: seq<Event>): Records {
    if log == [] then m else ApplyEvent(FoldFrom(m, log[..|log|-1]), log[|log|-1])
  }

  function Fold(log: seq<Event>): Records {
    FoldFrom(map[], log)
  }

  /** Folding a log in two parts is folding it at once. */
  lemma {:induction false} FoldInParts(m: Records, a: seq<Event>, b: seq<Event>)
    ensures FoldFrom(m, a + b) == FoldFrom(FoldFrom(m, a), b)
    decreases |b|
  {
    if b == [] {
      assert a + b == a;
    } else {
      var init := b[..|b|-1];
      assert (a + b)[..|a + b| - 1] == a + init && (a + b)[|a + b| - 1] == b[|b|-1];
      FoldInParts(m, a, init);
    }
  }

  method RecordsFromEvents(log: seq<Event>) returns (records: Records)
    ensures records == Fold(log)
  {
    records := map[];
    for k := 0 to |log|
      invariant records == Fold(log[..k])
    {
      assert log[..k + 1][..k] == log[..k];
      if log[k].Fence? {
        records := Apply(records, log[k].fence);
      }
    }
    assert log[..|log|] == log;
  }

  lemma FoldPush(log: seq<Event>, e: Event)
    ensures Fold(log + [e]) == ApplyEvent(Fold(log), e)
  {
    assert (log + [e])[..|log|] == log;
  }

  /** The events of one effect, in order. */
  function Only(log: seq<Event>, id: Id): seq<Event> {
    if log == [] then []
    else
      var e := log[|log|-1];
      Only(log[..|log|-1], id) + if e.Fence? && e.fence.id == id then [e] else []
  }

  ghost predicate SameAt(m: Records, n: Records, id: Id) {
    (id in m <==> id in n) && (id in m ==> m[id] == n[id])
  }

  /** The record of an effect depends on its own events alone, however they are interleaved with others. */
  lemma {:induction false} FoldProjects(log: seq<Event>, id: Id)
    ensures SameAt(Fold(log), Fold(Only(log, id)), id)
    decreases |log|
  {
    if log != [] {
      var init, e := log[..|log|-1], log[|log|-1];
      FoldProjects(init, id);
      assert log == init + [e];
      FoldPush(init, e);
      if e.Fence? && e.fence.id == id {
        FoldPush(Only(init, id), e);
      } else {
        assert Only(log, id) == Only(init, id);
      }
    }
  }

  //
  // The replay decision.
  //

  datatype ReplayDecision =
    | AllowFresh
    | AlreadyObserved(summary: Option<string>)
    | AlreadyFailed(reason: Option<string>)
    | Refuse(why: string)

  const UNFINISHED := "effect Started without Observed, outcome Unknown; refuse blind replay"
  const OUTCOME_UNKNOWN := "effect fence state Unknown, refuse blind idempotent replay"

  function ReconcileForReplay(r: Record, expected: Digest): ReplayDecision {
    if r.identity.digest != expected then Refuse("args_digest mismatch with durable fence record")
    else
      match r.state
      case Prepared => AllowFresh
      case Observed => AlreadyObserved(r.summary)
      case Failed => AlreadyFailed(r.summary)
      case Started => Refuse(UNFINISHED)
      case Unknown => Refuse(OUTCOME_UNKNOWN)
  }

  /** What the scan for a digest may return: records are visited in an order the map does not fix, and
      the last match wins, so any matching record can come out. */
  ghost predicate MayFind(m: Records, digest: Digest, found: Option<Record>) {
    match found
    case None => forall id | id in m :: m[id].identity.digest != digest
    case Some(r) => r.identity.digest == digest && exists id :: id in m && m[id] == r
  }

  function Decision(found: Option<Record>, digest: Digest): ReplayDecision {
    match found case None => AllowFresh case Some(r) => ReconcileForReplay(r, digest)
  }

  /** The scan over the records, in arbitrary order. */
  method LatestForDigest(m: Records, digest: Digest) returns (best: Option<Record>)
    ensures MayFind(m, digest, best)
  {
    best := None;
    var left := m.Keys;
    while left != {}
      invariant left <= m.Keys
      invariant best.Some? ==> MayFind(m, digest, best)
      invariant best.None? ==> forall id | id in m && id !in left :: m[id].identity.digest != digest
      decreases left
    {
      var id :| id in left;
      if m[id].identity.digest == digest {
        best := Some(m[id]);
      }
      left := left - {id};
    }
  }

  method CheckReplaySafe(m: Records, digest: Digest) returns (d: ReplayDecision)
    ensures exists found :: MayFind(m, digest, found) && d == Decision(found, digest)
  {
    var found := LatestForDigest(m, digest);
    d := Decision(found, digest);
  }

  /** Some record of the digest stands, and none of them is an orphan in Prepared. */
  ghost predicate Settled(m: Records, digest: Digest) {
    && (exists id :: id in m && m[id].identity.digest == digest)
    && (forall id | id in m && m[id].identity.digest == digest :: m[id].state != Prepared)
  }

  /** The fence refuses a replay under every map order exactly when the digest is settled: a single
      record left in Prepared is enough to let some order through. */
  lemma RefusesInEveryOrder(m: Records, digest: Digest)
    ensures (forall found | MayFind(m, digest, found) :: Decision(found, digest) != AllowFresh) <==> Settled(m, digest)
  {
    if !Settled(m, digest) {
      if exists id :: id in m && m[id].identity.digest == digest {
        var id :| id in m && m[id].identity.digest == digest && m[id].state == Prepared;
        assert MayFind(m, digest, Some(m[id]));
      } else {
        assert MayFind(m, digest, None);
      }
    }
  }
}
