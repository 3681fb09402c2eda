/** Coalescing streamed text into numbered durable chunks, large ones spilled to artifacts
    (crates/impetus-core/src/agent_loop.rs, crates/impetus-core/src/runtime.rs). Text is kept as its bytes. */
module StreamCoalescer {
  import opened Text
  import opened EventLog
  import opened Utf8
  import opened DurableArtifacts
  import ContextBuilder

  type RunId = nat

  const COALESCE_BYTES: nat := 512
  const MAX_EVENT_BYTES: nat := 16 * 1024
  const PREVIEW_BYTES: nat := 256

  /** The ellipsis a preview ends with. */
  const ELLIPSIS: Bytes := [0xE2, 0x80, 0xA6]

  datatype Event = Chunk(run: RunId, id: nat, text: Bytes, artifact: Option<ArtifactRef>) | OtherEvent

  /** What a provider streams; only text matters here, and which events force a flush. */
  datatype StreamEvent = TextDelta(delta: Bytes) | ToolCall | Usage | Finish | Reasoning(blank: bool)

  predicate Forces(e: StreamEvent) {
    e.ToolCall? || e.Finish? || e.Reasoning?
  }

  /** The text of a stream. */
  function DeltaText(events: seq<StreamEvent>): Bytes {
    if events == [] then []
    else DeltaText(events[..|events|-1]) + Delta(events[|events|-1])
  }

  function Delta(e: StreamEvent): Bytes {
    if e.TextDelta? then e.delta else []
  }

  function Forced(events: seq<StreamEvent>): nat {
    if events == [] then 0
    else Forced(events[..|events|-1]) + if Forces(events[|events|-1]) then 1 else 0
  }

  //
  // What a stream is cut into.
  //

  /** Whether an event flushes a buffer that already holds its text. */
  predicate Flushes(buf: Bytes, e: StreamEvent) {
    buf != [] && (Forces(e) || (e.TextDelta? && |buf| >= COALESCE_BYTES))
  }

  /** What is buffered after the events. */
  function Pending(events: seq<StreamEvent>): Bytes {
    if events == [] then []
    else
      var e := events[|events|-1];
      var buf := Pending(events[..|events|-1]) + Delta(e);
      if Flushes(buf, e) then [] else buf
  }

  /** The buffers flushed by the events. */
  function Buffers(events: seq<StreamEvent>): seq<Bytes> {
    if events == [] then []
    else
      var e := events[|events|-1];
      var buf := Pending(events[..|events|-1]) + Delta(e);
      Buffers(events[..|events|-1]) + if Flushes(buf, e) then [buf] else []
  }

  /** The buffers of a whole stream: at its end, what is left is flushed too. */
  function AllBuffers(events: seq<StreamEvent>): seq<Bytes> {
    Buffers(events) + if Pending(events) != [] then [Pending(events)] else []
  }

  lemma StreamPush(events: seq<StreamEvent>, k: nat)
    requires k < |events|
    ensures DeltaText(events[..k + 1]) == DeltaText(events[..k]) + Delta(events[k])
    ensures Forced(events[..k + 1]) == Forced(events[..k]) + if Forces(events[k]) then 1 else 0
    ensures var buf := Pending(events[..k]) + Delta(events[k]);
            && Pending(events[..k + 1]) == (if Flushes(buf, events[k]) then [] else buf)
            && Buffers(events[..k + 1]) == Buffers(events[..k]) + if Flushes(buf, events[k]) then [buf] else []
  {
    assert events[..k + 1][..k] == events[..k];
  }

  /** The buffers are not empty, spell the text with what is pending, and each but the forced ones is large. */
  lemma {:induction false} BuffersSpell(events: seq<StreamEvent>)
    ensures Concat(Buffers(events)) + Pending(events) == DeltaText(events)
    ensures forall b | b in Buffers(events) :: b != []
    ensures COALESCE_BYTES * |Buffers(events)| <= |Concat(Buffers(events))| + COALESCE_BYTES * Forced(events)
    decreases |events|
  {
    if events != [] {
      var init, e := events[..|events|-1], events[|events|-1];
      BuffersSpell(init);
      var buf := Pending(init) + Delta(e);
      Assoc(Concat(Buffers(init)), Pending(init), Delta(e));
      ConcatAppend(Buffers(init), buf);
      assert Buffers(init) + [] == Buffers(init) && Concat(Buffers(init)) + buf + [] == Concat(Buffers(init)) + buf;
    }
  }

  lemma AllBuffersSpell(events: seq<StreamEvent>)
    ensures Concat(AllBuffers(events)) == DeltaText(events)
    ensures forall b | b in AllBuffers(events) :: b != []
    ensures COALESCE_BYTES * |AllBuffers(events)| <= |DeltaText(events)| + COALESCE_BYTES * (Forced(events) + 1)
  {
    BuffersSpell(events);
    ConcatAppend(Buffers(events), Pending(events));
    assert Buffers(events) + [] == Buffers(events) && Concat(Buffers(events)) + [] == Concat(Buffers(events));
  }

  /** The text, the buffer and the flushed buffers after the first `k` events. */
  predicate At(events: seq<StreamEvent>, k: nat, text: Bytes, buf: Bytes, bodies: seq<Bytes>) {
    k <= |events| && text == DeltaText(events[..k]) && buf == Pending(events[..k]) && bodies == Buffers(events[..k])
  }

  lemma AtNext(events: seq<StreamEvent>, k: nat, text: Bytes, buf: Bytes, bodies: seq<Bytes>)
    requires At(events, k, text, buf, bodies) && k < |events|
    ensures var b := buf + Delta(events[k]);
            && At(events, k + 1, text + Delta(events[k]), if Flushes(b, events[k]) then [] else b,
                  bodies + if Flushes(b, events[k]) then [b] else [])
            && bodies <= AllBuffers(events)
            && (Flushes(b, events[k]) ==> bodies + [b] <= AllBuffers(events))
  {
    StreamPush(events, k);
    BuffersGrow(events, k);
    BuffersGrow(events, k + 1);
  }

  lemma {:induction false} BuffersGrow(events: seq<StreamEvent>, k: nat)
    requires k <= |events|
    ensures Buffers(events[..k]) <= Buffers(events)
    decreases |events| - k
  {
    if k == |events| {
      assert events[..k] == events;
    } else {
      StreamPush(events, k);
      BuffersGrow(events, k + 1);
    }
  }

  //
  // Chunks in the log.
  //

  /** The chunks of one run, in log order. */
  function Chunks(log: seq<Event>, run: RunId): seq<Event> {
    if log == [] then []
    else
      var e := log[|log|-1];
      Chunks(log[..|log|-1], run) + if e.Chunk? && e.run == run then [e] else []
  }

  /** Their ids are 1, 2, and so on, and none of them is empty. */
  predicate Numbered(chunks: seq<Event>) {
    forall k | 0 <= k < |chunks| :: chunks[k].Chunk? && chunks[k].id == k + 1 && chunks[k].text != []
  }

  /** What the events of some chunks say by themselves. */
  function TextOf(chunks: seq<Event>): Bytes {
    if chunks == [] then []
    else TextOf(chunks[..|chunks|-1]) + if chunks[|chunks|-1].Chunk? then chunks[|chunks|-1].text else []
  }

  /** The body of a chunk: its artifact, where it has one. */
  function Body(c: Event, files: map<ArtifactId, Bytes>): Bytes {
    if !c.Chunk? then []
    else if c.artifact.None? then c.text
    else if c.artifact.value.id in files then files[c.artifact.value.id]
    else []
  }

  /** What some chunks say with their artifacts read back. */
  function BodiesOf(chunks: seq<Event>, files: map<ArtifactId, Bytes>): Bytes {
    if chunks == [] then []
    else BodiesOf(chunks[..|chunks|-1], files) + Body(chunks[|chunks|-1], files)
  }

  lemma ChunksPush(log: seq<Event>, e: Event, run: RunId)
    ensures Chunks(log + [e], run) == Chunks(log, run) + if e.Chunk? && e.run == run then [e] else []
  {
    assert (log + [e])[..|log|] == log;
  }

  /** Id of the latest chunk as the projection keeps it: the largest so far, each counted from zero. */
  function ProjectedLast(log: seq<Event>, run: RunId): Option<nat> {
    if log == [] then None
    else
      var before, e := ProjectedLast(log[..|log|-1], run), log[|log|-1];
      if e.Chunk? && e.run == run then
        var last := if before.Some? then before.value else 0;
        Some(if e.id > last then e.id else last)
      else before
  }

  predicate OfRun(e: Event, run: RunId) {
    e.Chunk? && e.run == run
  }

  /** It is the largest id among the run's chunks, in any log. */
  lemma {:induction false} ProjectedIsLargest(log: seq<Event>, run: RunId)
    ensures ProjectedLast(log, run).None? ==> forall e | e in log :: !OfRun(e, run)
    ensures ProjectedLast(log, run).Some? ==>
              && (exists e :: e in log && OfRun(e, run) && e.id == ProjectedLast(log, run).value)
              && forall e | e in log && OfRun(e, run) :: e.id <= ProjectedLast(log, run).value
    decreases |log|
  {
    if log != [] {
      var init, last := log[..|log|-1], log[|log|-1];
      ProjectedIsLargest(init, run);
      assert log == init + [last];
    }
  }

  lemma {:induction false} ProjectedIsCount(log: seq<Event>, run: RunId)
    requires Numbered(Chunks(log, run))
    ensures ProjectedLast(log, run) == if Chunks(log, run) == [] then None else Some(|Chunks(log, run)|)
    decreases |log|
  {
    if log != [] {
      var init, e := log[..|log|-1], log[|log|-1];
      assert log == init + [e];
      ChunksPush(init, e, run);
      assert forall k | 0 <= k < |Chunks(init, run)| :: Chunks(log, run)[k] == Chunks(init, run)[k];
      ProjectedIsCount(init, run);
      if e.Chunk? && e.run == run {
        assert Chunks(log, run)[|Chunks(init, run)|] == e;
      }
    }
  }

  /** The next id, recovered by scanning the log backwards for the run's latest chunk. */
  method RecoverNextId(log: seq<Event>, run: RunId) returns (next: nat)
    requires Numbered(Chunks(log, run))
    ensures next == |Chunks(log, run)| + 1
  {
    var k := |log|;
    assert log[..|log|] == log;
    while k > 0
      invariant 0 <= k <= |log|
      invariant Chunks(log[..k], run) == Chunks(log, run)
    {
      var e := log[k - 1];
      assert log[..k] == log[..k - 1] + [e];
      ChunksPush(log[..k - 1], e, run);
      if e.Chunk? && e.run == run {
        assert Chunks(log, run)[|Chunks(log[..k - 1], run)|] == e;
        return e.id + 1;
      }
      k := k - 1;
    }
    assert log[..0] == [];
    return 1;
  }

  //
  // Spilling.
  //

  predicate Boundary(s: Bytes, i: nat)
    requires i <= |s|
  {
    i == |s| || !Tail(s[i])
  }

  /** The last character boundary up to `end`, or zero. */
  function PreviewEnd(s: Bytes, end: nat): (r: nat)
    requires end <= |s|
    ensures r <= end && (r == 0 || Boundary(s, r)) && forall i | r < i <= end :: !Boundary(s, i)
  {
    if end == 0 || Boundary(s, end) then end else PreviewEnd(s, end - 1)
  }

  function Preview(s: Bytes): Bytes {
    if |s| <= PREVIEW_BYTES then s else s[..PreviewEnd(s, PREVIEW_BYTES)] + ELLIPSIS
  }

  method TruncatePreview(s: Bytes) returns (preview: Bytes)
    ensures preview == Preview(s)
  {
    if |s| <= PREVIEW_BYTES {
      return s;
    }
    var end := PREVIEW_BYTES;
    while end > 0 && !Boundary(s, end)
      invariant 0 <= end <= PREVIEW_BYTES && PreviewEnd(s, end) == PreviewEnd(s, PREVIEW_BYTES)
    {
      end := end - 1;
    }
    return s[..end] + ELLIPSIS;
  }

  /** Valid text cut at a character boundary is valid. */
  lemma {:induction false} CutIsValid(s: Bytes, i: nat)
    requires Validate(s).Valid? && i <= |s| && Boundary(s, i)
    ensures Validate(s[..i]).Valid?
    decreases |s|
  {
    if s == [] || i == 0 {
      assert s[..i] == [];
    } else {
      ContextBuilder.FirstCharacterValid(s);
      var k := ScanFront(s).len;
      InsideCharacter(s, i);
      CutIsValid(s[k..], i - k);
      ContextBuilder.ValidAppend(s[..k], s[k..][..i - k]);
      SliceSplit(s, k, i);
    }
  }

  lemma InsideCharacter(s: Bytes, i: nat)
    requires s != [] && ScanFront(s).Character? && 0 < i <= |s| && Boundary(s, i)
    ensures ScanFront(s).len <= i
  {
    ScanBounds(s);
  }

  /** The preview of valid text is valid, so cutting it does not split a character. */
  lemma PreviewIsValid(s: Bytes)
    requires Validate(s).Valid?
    ensures Validate(Preview(s)).Valid?
  {
    if |s| > PREVIEW_BYTES {
      var end := PreviewEnd(s, PREVIEW_BYTES);
      if end == 0 {
        assert s[..end] == [];
      } else {
        CutIsValid(s, end);
      }
      assert ELLIPSIS[3..] == [];
      ContextBuilder.ValidAppend(s[..end], ELLIPSIS);
    }
  }

  /** Whether a body of this size ends up in the artifact store. */
  predicate Spills(body: Bytes, io: Option<StoreIo>, present: bool) {
    |body| > MAX_EVENT_BYTES && Stores(io, present)
  }

  /** The text and artifact an event is to carry for a body. */
  method BoundAgentChunkText(body: Bytes, store: DurableArtifactStore, io: Option<StoreIo>)
    returns (text: Bytes, artifact: Option<ArtifactRef>)
    requires Injective(store.sha)
    modifies store
    ensures artifact.Some? <==> Spills(body, io, store.sha(body) in old(store.rows))
    ensures artifact.None? ==> text == body
    ensures artifact.Some? ==> text == Preview(body) && artifact.value == ArtifactRef(store.sha(body), |body|)
    ensures |body| <= MAX_EVENT_BYTES ==> store.rows == old(store.rows) && store.files == old(store.files)
    ensures old(store.Valid()) && Calm(io) ==> store.Valid() && store.Kept()
    ensures old(store.Valid()) && artifact.Some? ==>
              store.sha(body) in store.rows && store.sha(body) in store.files && store.files[store.sha(body)] == body
  {
    if |body| <= MAX_EVENT_BYTES || io.None? {
      return body, None;
    }
    var stored := store.StoreWithContentType(body, None, 0, io.value);
    if stored.Err? {
      return body, None;
    }
    text := TruncatePreview(body);
    artifact := Some(stored.value);
  }

  //
  // One model turn.
  //

  /** The chunk recorded for a body: the body itself, or a preview and a reference to it. */
  function ChunkFor(run: RunId, id: nat, body: Bytes, spilled: bool, sha: Bytes -> ArtifactId): Event {
    if spilled then Chunk(run, id, Preview(body), Some(ArtifactRef(sha(body), |body|))) else Chunk(run, id, body, None)
  }

  /** Records a chunk unless one with this id or a later one stands already. */
  method RecordAgentChunk(log: seq<Event>, run: RunId, id: nat, body: Bytes, fate: Fate, store: DurableArtifactStore,
                          io: Option<StoreIo>)
    returns (after: seq<Event>, ok: bool)
    requires Injective(store.sha)
    modifies store
    ensures ProjectedLast(log, run).Some? && ProjectedLast(log, run).value >= id ==>
              after == log && ok && store.rows == old(store.rows) && store.files == old(store.files)
    ensures ProjectedLast(log, run).None? || ProjectedLast(log, run).value < id ==>
              var spilled := Spills(body, io, store.sha(body) in old(store.rows));
              && after == (if fate.Lost? then log else log + [ChunkFor(run, id, body, spilled, store.sha)])
              && ok == fate.Stored?
              && (spilled && old(store.Valid()) ==>
                    && store.sha(body) in store.rows && store.sha(body) in store.files
                    && store.files[store.sha(body)] == body)
    ensures old(store.Valid()) && Calm(io) ==> store.Valid() && store.Kept()
  {
    var last := ProjectedLast(log, run);
    if last.Some? && last.value >= id {
      return log, true;
    }
    var text, artifact := BoundAgentChunkText(body, store, io);
    after := if fate.Lost? then log else log + [Chunk(run, id, text, artifact)];
    ok := fate.Stored?;
  }

  /** A chunk stands for a body: whole, which a large one does only where its store call did not work, or by a
      preview and a reference. */
  ghost predicate Holds(c: Event, id: nat, body: Bytes, sha: Bytes -> ArtifactId, io: Option<StoreIo>) {
    && c.Chunk? && c.id == id && body != []
    && (c.artifact.None? ==> c.text == body && (|body| <= MAX_EVENT_BYTES || !Works(io)))
    && (c.artifact.Some? ==>
          && |body| > MAX_EVENT_BYTES && c.text == Preview(body)
          && c.artifact.value == ArtifactRef(sha(body), |body|))
  }

  ghost predicate AllHold(chunks: seq<Event>, bodies: seq<Bytes>, base: nat, sha: Bytes -> ArtifactId,
                          ios: nat -> Option<StoreIo>) {
    && |chunks| == |bodies|
    && forall k | 0 <= k < |bodies| :: Holds(chunks[k], base + k + 1, bodies[k], sha, ios(base + k + 1))
  }

  /** Since `base` chunks stood, the run has recorded these bodies, one chunk each, the ids going on. */
  ghost predicate Turn(log: seq<Event>, run: RunId, base: nat, bodies: seq<Bytes>, sha: Bytes -> ArtifactId,
                       ios: nat -> Option<StoreIo>) {
    var all := Chunks(log, run);
    Numbered(all) && |all| == base + |bodies| && AllHold(all[base..], bodies, base, sha, ios)
  }

  /** The artifacts of those chunks are indexed and hold the bodies. */
  ghost predicate Readable(chunks: seq<Event>, bodies: seq<Bytes>, rows: map<ArtifactId, Row>,
                           files: map<ArtifactId, Bytes>) {
    && |chunks| == |bodies|
    && forall k | 0 <= k < |bodies| && chunks[k].Chunk? && chunks[k].artifact.Some? ::
         && chunks[k].artifact.value.id in rows && chunks[k].artifact.value.id in files
         && files[chunks[k].artifact.value.id] == bodies[k]
  }

  lemma ReadableGrows(chunks: seq<Event>, bodies: seq<Bytes>, rows: map<ArtifactId, Row>, files: map<ArtifactId, Bytes>,
                      rows': map<ArtifactId, Row>, files': map<ArtifactId, Bytes>, c: Event, body: Bytes)
    requires Readable(chunks, bodies, rows, files) && StillThere(rows, files, rows', files')
    ensures Readable(chunks, bodies, rows', files')
    ensures Readable([c], [body], rows', files') ==> Readable(chunks + [c], bodies + [body], rows', files')
  {
    if Readable([c], [body], rows', files') {
      assert [c][0] == c && [body][0] == body;
    }
  }

  lemma TurnGrows(log: seq<Event>, run: RunId, base: nat, bodies: seq<Bytes>, sha: Bytes -> ArtifactId,
                  ios: nat -> Option<StoreIo>,
                  c: Event, id: nat, body: Bytes, present: bool)
    requires Turn(log, run, base, bodies, sha, ios) && body != [] && id == base + |bodies| + 1
    requires c == ChunkFor(run, id, body, Spills(body, ios(id), present), sha)
    ensures Turn(log + [c], run, base, bodies + [body], sha, ios)
    ensures Chunks(log + [c], run)[base..] == Chunks(log, run)[base..] + [c]
  {
    ChunksPush(log, c, run);
    var all := Chunks(log, run);
    assert (all + [c])[base..] == all[base..] + [c];
    AllHoldPush(all[base..], bodies, base, sha, ios, c, body);
  }

  lemma AllHoldPush(chunks: seq<Event>, bodies: seq<Bytes>, base: nat, sha: Bytes -> ArtifactId,
                    ios: nat -> Option<StoreIo>, c: Event, body: Bytes)
    requires AllHold(chunks, bodies, base, sha, ios)
             && Holds(c, base + |bodies| + 1, body, sha, ios(base + |bodies| + 1))
    ensures AllHold(chunks + [c], bodies + [body], base, sha, ios)
  {
  }

  lemma OtherGrows(log: seq<Event>, run: RunId)
    ensures Chunks(log + [OtherEvent], run) == Chunks(log, run)
  {
    ChunksPush(log, OtherEvent, run);
  }

  /** Flushes the buffer when forced or large enough. */
  method FlushCoalescedChunk(log: seq<Event>, run: RunId, buf: Bytes, next: nat, force: bool, fate: Fate,
                             store: DurableArtifactStore, ios: nat -> Option<StoreIo>, ghost base: nat,
                             ghost bodies: seq<Bytes>)
    returns (log': seq<Event>, buf': Bytes, next': nat, ok: bool, ghost bodies': seq<Bytes>)
    requires Injective(store.sha)
    requires Turn(log, run, base, bodies, store.sha, ios) && next == base + |bodies| + 1
    modifies store
    ensures log <= log' && Turn(log', run, base, bodies', store.sha, ios)
    ensures buf == [] || (!force && |buf| < COALESCE_BYTES)
            ==> ok && log' == log && buf' == buf && next' == next && bodies' == bodies
    ensures buf != [] && (force || |buf| >= COALESCE_BYTES) ==>
              && (ok ==> bodies' == bodies + [buf] && buf' == [] && next' == next + 1)
              && (ok <== fate.Stored?)
              && (bodies' == bodies || bodies' == bodies + [buf])
    ensures old(store.Valid()) && old(Readable(Chunks(log, run)[base..], bodies, store.rows, store.files))
            && Calm(ios(next)) ==>
              store.Valid() && store.Kept() && Readable(Chunks(log', run)[base..], bodies', store.rows, store.files)
  {
    log', buf', next', ok, bodies' := log, buf, next, true, bodies;
    if buf == [] || (!force && |buf| < COALESCE_BYTES) {
      return;
    }
    ProjectedIsCount(log, run);
    ghost var present := store.sha(buf) in store.rows;
    ghost var c := ChunkFor(run, next, buf, Spills(buf, ios(next), present), store.sha);
    TurnGrows(log, run, base, bodies, store.sha, ios, c, next, buf, present);
    buf', next' := [], next + 1;
    log', ok := RecordAgentChunk(log, run, next, buf, fate, store, ios(next));
    ghost var since := Chunks(log, run)[base..];
    if !fate.Lost? {
      assert log' == log + [c];
      bodies' := bodies + [buf];
    }
    if old(store.Valid()) && old(Readable(since, bodies, store.rows, store.files)) && Calm(ios(next)) {
      assert Readable([c], [buf], store.rows, store.files);
      ReadableGrows(since, bodies, old(store.rows), old(store.files), store.rows, store.files, c, buf);
    }
  }

  /** Handles one streamed event: text is buffered, everything but usage flushes. */
  method OnEvent(log: seq<Event>, run: RunId, buf: Bytes, next: nat, text: Bytes, e: StreamEvent,
                 fate0: Fate, fate1: Fate,
                 store: DurableArtifactStore, ios: nat -> Option<StoreIo>, ghost base: nat, ghost bodies: seq<Bytes>)
    returns (log': seq<Event>, buf': Bytes, next': nat, text': Bytes, ok: bool, ghost bodies': seq<Bytes>)
    requires Injective(store.sha)
    requires Turn(log, run, base, bodies, store.sha, ios) && next == base + |bodies| + 1
    modifies store
    ensures log <= log' && Turn(log', run, base, bodies', store.sha, ios)
    ensures fate0.Stored? && fate1.Stored? ==> ok
    ensures ok ==> text' == text + Delta(e) && next' == base + |bodies'| + 1
    ensures var b := buf + Delta(e);
            && (ok ==>
                  && buf' == (if Flushes(b, e) then [] else b)
                  && bodies' == bodies + if Flushes(b, e) then [b] else [])
            && (bodies' == bodies || (Flushes(b, e) && bodies' == bodies + [b]))
    ensures old(store.Valid()) && old(Readable(Chunks(log, run)[base..], bodies, store.rows, store.files))
            && Calm(ios(next)) ==>
              store.Valid() && store.Kept() && Readable(Chunks(log', run)[base..], bodies', store.rows, store.files)
  {
    log', buf', next', text', ok, bodies' := log, buf, next, text, true, bodies;
    assert text + [] == text && buf + [] == buf;
    match e {
      case TextDelta(delta) =>
        log', buf', next', ok, bodies' := FlushCoalescedChunk(log, run, buf + delta, next, false, fate0, store, ios,
                                                              base, bodies);
        text' := text + delta;
      case Usage =>
      case Reasoning(blank) =>
        log', buf', next', ok, bodies' := FlushCoalescedChunk(log, run, buf, next, true, fate0, store, ios, base,
                                                              bodies);
        if ok && !blank {
          OtherGrows(log', run);
          ok := fate1.Stored?;
          log' := if fate1.Lost? then log' else log' + [OtherEvent];
        }
      case _ =>
        log', buf', next', ok, bodies' := FlushCoalescedChunk(log, run, buf, next, true, fate0, store, ios, base,
                                                              bodies);
    }
  }

  //
  // What the chunks of a turn say.
  //

  predicate Spilled(c: Event) {
    c.Chunk? && c.artifact.Some?
  }

  predicate AnySpilled(chunks: seq<Event>) {
    chunks != [] && (Spilled(chunks[|chunks|-1]) || AnySpilled(chunks[..|chunks|-1]))
  }

  lemma {:induction false} AnySpilledMeans(chunks: seq<Event>)
    ensures AnySpilled(chunks) <==> exists c :: c in chunks && Spilled(c)
    decreases |chunks|
  {
    if chunks != [] {
      AnySpilledMeans(chunks[..|chunks|-1]);
      assert chunks == chunks[..|chunks|-1] + [chunks[|chunks|-1]];
    }
  }

  lemma HeldText(c: Event, id: nat, body: Bytes, sha: Bytes -> ArtifactId, io: Option<StoreIo>)
    requires Holds(c, id, body, sha, io)
    ensures if Spilled(c) then |c.text| < |body| else c.text == body
  {
  }

  lemma AllHoldInit(chunks: seq<Event>, bodies: seq<Bytes>, base: nat, sha: Bytes -> ArtifactId,
                    ios: nat -> Option<StoreIo>)
    requires AllHold(chunks, bodies, base, sha, ios) && chunks != []
    ensures AllHold(chunks[..|chunks|-1], bodies[..|chunks|-1], base, sha, ios)
  {
  }

  lemma LastBody(bodies: seq<Bytes>)
    requires bodies != []
    ensures Concat(bodies) == Concat(bodies[..|bodies|-1]) + bodies[|bodies|-1]
  {
    var n := |bodies| - 1;
    assert bodies == bodies[..n] + [bodies[n]];
    ConcatAppend(bodies[..n], bodies[n]);
  }

  /** The events alone spell the bodies exactly when none was spilled; a preview is shorter than its body. */
  lemma {:induction false} TextsSpellExactly(chunks: seq<Event>, bodies: seq<Bytes>, base: nat,
                                             sha: Bytes -> ArtifactId, ios: nat -> Option<StoreIo>)
    requires AllHold(chunks, bodies, base, sha, ios)
    ensures |TextOf(chunks)| <= |Concat(bodies)|
    ensures if AnySpilled(chunks) then |TextOf(chunks)| < |Concat(bodies)| else TextOf(chunks) == Concat(bodies)
    decreases |chunks|
  {
    if chunks != [] {
      var n := |chunks| - 1;
      AllHoldInit(chunks, bodies, base, sha, ios);
      TextsSpellExactly(chunks[..n], bodies[..n], base, sha, ios);
      LastBody(bodies);
      HeldText(chunks[n], base + n + 1, bodies[n], sha, ios(base + n + 1));
    }
  }

  /** With the artifacts read back, the chunks are the bodies. */
  lemma {:induction false} BodiesReadBack(chunks: seq<Event>, bodies: seq<Bytes>, base: nat, sha: Bytes -> ArtifactId,
                                          ios: nat -> Option<StoreIo>, rows: map<ArtifactId, Row>,
                                          files: map<ArtifactId, Bytes>)
    requires AllHold(chunks, bodies, base, sha, ios) && Readable(chunks, bodies, rows, files)
    ensures BodiesOf(chunks, files) == Concat(bodies)
    decreases |chunks|
  {
    if chunks != [] {
      var n := |chunks| - 1;
      AllHoldInit(chunks, bodies, base, sha, ios);
      BodiesReadBack(chunks[..n], bodies[..n], base, sha, ios, rows, files);
      LastBody(bodies);
      assert Holds(chunks[n], base + n + 1, bodies[n], sha, ios(base + n + 1));
    }
  }

  lemma {:induction false} ConcatPrefix(a: seq<Bytes>, b: seq<Bytes>)
    requires a <= b
    ensures Concat(a) <= Concat(b)
    decreases |b|
  {
    if a != b {
      var init := b[..|b|-1];
      assert b == init + [b[|b|-1]] && a <= init;
      ConcatPrefix(a, init);
      ConcatAppend(init, b[|b|-1]);
    }
  }

  /** What the chunks since `base` say, on a stream whose buffers begin with the bodies they hold. */
  lemma SinceSays(since: seq<Event>, bodies: seq<Bytes>, base: nat, sha: Bytes -> ArtifactId,
                  ios: nat -> Option<StoreIo>, events: seq<StreamEvent>)
    requires AllHold(since, bodies, base, sha, ios) && bodies <= AllBuffers(events)
    ensures Concat(bodies) <= DeltaText(events)
    ensures bodies == AllBuffers(events) ==>
              && (TextOf(since) == DeltaText(events) <==> forall c | c in since :: !Spilled(c))
              && ((forall n :: Works(ios(n))) ==>
                    (TextOf(since) == DeltaText(events)
                     <==> forall b | b in AllBuffers(events) :: |b| <= MAX_EVENT_BYTES))
    ensures COALESCE_BYTES * |bodies| <= |DeltaText(events)| + COALESCE_BYTES * (Forced(events) + 1)
  {
    AllBuffersSpell(events);
    ConcatPrefix(bodies, AllBuffers(events));
    TextsSpellExactly(since, bodies, base, sha, ios);
    AnySpilledMeans(since);
    if bodies == AllBuffers(events) && forall n :: Works(ios(n)) {
      SpilledExactlyLarge(since, bodies, base, sha, ios);
    }
  }

  /** With a store that works, the large bodies are the ones spilled. */
  lemma SpilledExactlyLarge(since: seq<Event>, bodies: seq<Bytes>, base: nat, sha: Bytes -> ArtifactId,
                            ios: nat -> Option<StoreIo>)
    requires AllHold(since, bodies, base, sha, ios) && forall n :: Works(ios(n))
    ensures (forall c | c in since :: !Spilled(c)) <==> forall b | b in bodies :: |b| <= MAX_EVENT_BYTES
  {
    assert forall k | 0 <= k < |bodies| :: Spilled(since[k]) <==> |bodies[k]| > MAX_EVENT_BYTES;
    if k :| 0 <= k < |bodies| && Spilled(since[k]) {
      assert since[k] in since && bodies[k] in bodies;
    }
  }

  /** One call of the model. Wherever an append or a store call fails, the chunks recorded hold the first buffers
      the stream is cut into, under ids that run on without a gap, none of them empty; a call that succeeds has
      recorded all of them. The texts of the events alone spell the stream exactly when none of its buffers was
      spilled, and with a store that works exactly when none is over the bound. With the artifacts read back the
      chunks spell the stream, or the part of it recorded, if the index was sound and no store call was torn. */
  method CallModel(log: seq<Event>, run: RunId, events: seq<StreamEvent>, fates: nat -> Fate,
                   store: DurableArtifactStore, ios: nat -> Option<StoreIo>)
    returns (log': seq<Event>, ok: bool, text: Bytes, ghost bodies: seq<Bytes>)
    requires Injective(store.sha) && Numbered(Chunks(log, run))
    modifies store
    ensures log <= log' && Turn(log', run, |Chunks(log, run)|, bodies, store.sha, ios)
    ensures bodies <= AllBuffers(events)
    ensures ok ==> bodies == AllBuffers(events) && text == DeltaText(events)
    ensures (forall k :: fates(k).Stored?) ==> ok
    ensures COALESCE_BYTES * (|Chunks(log', run)| - |Chunks(log, run)|)
            <= |DeltaText(events)| + COALESCE_BYTES * (Forced(events) + 1)
    ensures ok ==> (TextOf(Chunks(log', run)[|Chunks(log, run)|..]) == DeltaText(events)
                    <==> forall c | c in Chunks(log', run)[|Chunks(log, run)|..] :: !Spilled(c))
    ensures ok && (forall n :: Works(ios(n))) ==>
              (TextOf(Chunks(log', run)[|Chunks(log, run)|..]) == DeltaText(events)
               <==> forall b | b in AllBuffers(events) :: |b| <= MAX_EVENT_BYTES)
    ensures old(store.Valid()) && (forall n :: Calm(ios(n))) ==>
              && store.Valid() && store.Kept()
              && BodiesOf(Chunks(log', run)[|Chunks(log, run)|..], store.files) <= DeltaText(events)
              && (ok ==> BodiesOf(Chunks(log', run)[|Chunks(log, run)|..], store.files) == DeltaText(events))
  {
    ghost var base := |Chunks(log, run)|;
    var next := RecoverNextId(log, run);
    log', ok, text, bodies := StreamTurn(log, run, next, events, fates, store, ios, base);
    ghost var since := Chunks(log', run)[base..];
    SinceSays(since, bodies, base, store.sha, ios, events);
    AllBuffersSpell(events);
    if old(store.Valid()) && forall n :: Calm(ios(n)) {
      BodiesReadBack(since, bodies, base, store.sha, ios, store.rows, store.files);
    }
  }

  /** The callback loop and the last flush. */
  method StreamTurn(log: seq<Event>, run: RunId, first: nat, events: seq<StreamEvent>, fates: nat -> Fate,
                    store: DurableArtifactStore, ios: nat -> Option<StoreIo>, ghost base: nat)
    returns (log': seq<Event>, ok: bool, text: Bytes, ghost bodies: seq<Bytes>)
    requires Injective(store.sha) && Numbered(Chunks(log, run)) && base == |Chunks(log, run)| && first == base + 1
    modifies store
    ensures log <= log' && Turn(log', run, base, bodies, store.sha, ios)
    ensures bodies <= AllBuffers(events)
    ensures ok ==> bodies == AllBuffers(events) && text == DeltaText(events)
    ensures (forall k :: fates(k).Stored?) ==> ok
    ensures old(store.Valid()) && (forall n :: Calm(ios(n))) ==>
              store.Valid() && store.Kept() && Readable(Chunks(log', run)[base..], bodies, store.rows, store.files)
  {
    var buf: Bytes, next := [], first;
    log', ok, text, bodies := log, true, [], [];
    assert Chunks(log, run)[base..] == [];
    for k := 0 to |events|
      invariant log <= log' && Turn(log', run, base, bodies, store.sha, ios) && next == base + |bodies| + 1
      invariant At(events, k, text, buf, bodies)
      invariant old(store.Valid()) && (forall n :: Calm(ios(n))) ==>
                  store.Valid() && store.Kept() && Readable(Chunks(log', run)[base..], bodies, store.rows, store.files)
    {
      AtNext(events, k, text, buf, bodies);
      log', buf, next, text, ok, bodies :=
        OnEvent(log', run, buf, next, text, events[k], fates(2 * k), fates(2 * k + 1), store, ios, base, bodies);
      if !ok {
        return;
      }
    }
    assert events[..|events|] == events;
    log', buf, next, ok, bodies := FlushCoalescedChunk(log', run, buf, next, true, fates(2 * |events|), store, ios,
                                                       base, bodies);
  }

  /** One large delta, everything working: the call succeeds, its one event does not say the text, and the
      artifact it names does. */
  method LargeDeltaIsSpilled(log: seq<Event>, run: RunId, delta: Bytes, store: DurableArtifactStore)
    returns (log': seq<Event>)
    requires store.Valid() && Numbered(Chunks(log, run)) && |delta| > MAX_EVENT_BYTES
    modifies store
    ensures |Chunks(log', run)| == |Chunks(log, run)| + 1
    ensures var since := Chunks(log', run)[|Chunks(log, run)|..];
            TextOf(since) != delta && BodiesOf(since, store.files) == delta
  {
    OneDelta(delta);
    var ok, text;
    ghost var bodies;
    log', ok, text, bodies := CallModel(log, run, [TextDelta(delta)], _ => Stored, store, _ => Some(WORKING));
    assert delta in AllBuffers([TextDelta(delta)]);
  }

  lemma OneDelta(delta: Bytes)
    requires |delta| >= COALESCE_BYTES
    ensures AllBuffers([TextDelta(delta)]) == [delta] && DeltaText([TextDelta(delta)]) == delta
  {
    var events := [TextDelta(delta)];
    assert events[..0] == [] && [] + delta == delta;
    assert Buffers(events) == [delta] && Pending(events) == [];
  }

  /** Many calls, turns and retries alike, with any other events of the session in between: the ids of
      the run stay 1, 2, ... throughout, earlier chunks stay where they are, and so do their artifacts. */
  method CallModelRepeatedly(log: seq<Event>, run: RunId, turns: seq<seq<StreamEvent>>, between: seq<seq<Event>>,
                             fates: nat -> nat -> Fate, store: DurableArtifactStore, ios: nat -> nat -> Option<StoreIo>)
    returns (log': seq<Event>)
    requires Injective(store.sha) && Numbered(Chunks(log, run)) && |between| == |turns|
    requires forall k, e | 0 <= k < |between| && e in between[k] :: !(e.Chunk? && e.run == run)
    modifies store
    ensures log <= log' && Numbered(Chunks(log', run))
    ensures old(store.Valid()) && (forall k, n :: Calm(ios(k)(n))) ==> store.Valid() && store.Kept()
  {
    log' := log;
    for k := 0 to |turns|
      invariant log <= log' && Numbered(Chunks(log', run))
      invariant old(store.Valid()) && (forall k, n :: Calm(ios(k)(n))) ==> store.Valid() && store.Kept()
    {
      ForeignEvents(log', between[k], run);
      var ok, text;
      ghost var bodies;
      log', ok, text, bodies := CallModel(log' + between[k], run, turns[k], fates(k), store, ios(k));
    }
  }

  lemma {:induction false} ForeignEvents(log: seq<Event>, more: seq<Event>, run: RunId)
    requires forall e | e in more :: !(e.Chunk? && e.run == run)
    ensures Chunks(log + more, run) == Chunks(log, run)
    decreases |more|
  {
    if more == [] {
      assert log + more == log;
    } else {
      var init, e := more[..|more|-1], more[|more|-1];
      assert log + more == (log + init) + [e];
      ForeignEvents(log, init, run);
      ChunksPush(log + init, e, run);
    }
  }
}
