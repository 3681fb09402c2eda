/** Where a stream is cut into chunks, said of the stream itself
    (crates/impetus-core/src/agent_loop.rs). */
module StreamCuts {
  import opened Text
  import opened Utf8
  import opened StreamCoalescer

  /** The text of the events from `a` to `b`. */
  function Stretch(events: seq<StreamEvent>, a: nat, b: nat): Bytes
    requires a <= b <= |events|
    decreases b - a
  {
    if a == b then [] else Stretch(events, a, b - 1) + match events[b - 1] case TextDelta(t) => t case _ => []
  }

  /** The text since the last cut at `a` is due after event `b`: a tool call, the end, or reasoning calls for it, or it
      has just reached 512 bytes. */
  predicate Due(events: seq<StreamEvent>, a: nat, b: nat)
    requires a < b <= |events|
  {
    && Stretch(events, a, b) != []
    && match events[b - 1]
       case TextDelta(_) => |Stretch(events, a, b)| >= 512
       case Usage => false
       case _ => true
  }

  /** From a cut at `a` to `b` nothing was due. */
  ghost predicate Undue(events: seq<StreamEvent>, a: nat, b: nat)
    requires a <= b <= |events|
  {
    forall j: nat | a < j <= b :: !Due(events, a, j)
  }

  /** A cut after event `b`, the one before it at `a`: due there, and not before. */
  ghost predicate CutHere(events: seq<StreamEvent>, a: nat, b: nat) {
    a < b <= |events| && Due(events, a, b) && Undue(events, a, b - 1)
  }

  /** From `a` to `n` the events are cut at `ends`, each time as soon as it is due, into these buffers, and what is
      pending is the text since. */
  ghost predicate CutInto(events: seq<StreamEvent>, a: nat, n: nat, ends: seq<nat>, buffers: seq<Bytes>, pending: Bytes)
    decreases |ends|
  {
    if ends == [] then buffers == [] && a <= n <= |events| && Undue(events, a, n) && pending == Stretch(events, a, n)
    else
      && buffers != [] && ends[0] <= n && CutHere(events, a, ends[0]) && buffers[0] == Stretch(events, a, ends[0])
      && CutInto(events, ends[0], n, ends[1..], buffers[1..], pending)
  }

  function LastCut(a: nat, ends: seq<nat>): nat {
    if ends == [] then a else ends[|ends|-1]
  }

  lemma {:induction false} SinceLastCut(events: seq<StreamEvent>, a: nat, n: nat, ends: seq<nat>, buffers: seq<Bytes>,
                                        pending: Bytes)
    requires CutInto(events, a, n, ends, buffers, pending)
    ensures var c := LastCut(a, ends); c <= n <= |events| && Undue(events, c, n) && pending == Stretch(events, c, n)
    decreases |ends|
  {
    if ends != [] {
      SinceLastCut(events, ends[0], n, ends[1..], buffers[1..], pending);
    }
  }

  /** Event `n - 1`, with a cut after it if that is due. */
  lemma {:induction false} CutDue(events: seq<StreamEvent>, a: nat, n: nat, ends: seq<nat>, buffers: seq<Bytes>,
                                  pending: Bytes, buf: Bytes)
    requires 0 < n <= |events| && CutInto(events, a, n - 1, ends, buffers, pending)
    requires var c := LastCut(a, ends); c < n && Due(events, c, n) && buf == Stretch(events, c, n)
    ensures CutInto(events, a, n, ends + [n], buffers + [buf], [])
    decreases |ends|
  {
    if ends == [] {
      assert [n][1..] == [] && [buf][1..] == [];
      assert CutInto(events, n, n, [], [], []);
    } else {
      CutDue(events, ends[0], n, ends[1..], buffers[1..], pending, buf);
      TailOfAppend(ends, [n]);
      TailOfAppend(buffers, [buf]);
    }
  }

  lemma {:induction false} CutWaits(events: seq<StreamEvent>, a: nat, n: nat, ends: seq<nat>, buffers: seq<Bytes>,
                                    pending: Bytes, buf: Bytes)
    requires 0 < n <= |events| && CutInto(events, a, n - 1, ends, buffers, pending)
    requires var c := LastCut(a, ends); c < n && !Due(events, c, n) && buf == Stretch(events, c, n)
    ensures CutInto(events, a, n, ends, buffers, buf)
    decreases |ends|
  {
    if ends != [] {
      CutWaits(events, ends[0], n, ends[1..], buffers[1..], pending, buf);
    }
  }

  /** The same, as the buffers have it. */
  lemma CutNext(events: seq<StreamEvent>, n: nat, ends: seq<nat>, buffers: seq<Bytes>, pending: Bytes, buf: Bytes)
    returns (ends': seq<nat>, buffers': seq<Bytes>, pending': Bytes)
    requires 0 < n <= |events| && CutInto(events, 0, n - 1, ends, buffers, pending)
    requires buf == pending + Delta(events[n - 1])
    ensures buffers' == buffers + if Flushes(buf, events[n - 1]) then [buf] else []
    ensures pending' == if Flushes(buf, events[n - 1]) then [] else buf
    ensures CutInto(events, 0, n, ends', buffers', pending')
  {
    SinceLastCut(events, 0, n - 1, ends, buffers, pending);
    FlushesWhenDue(events, LastCut(0, ends), n, pending);
    if Flushes(buf, events[n - 1]) {
      CutDue(events, 0, n, ends, buffers, pending, buf);
      ends', buffers', pending' := ends + [n], buffers + [buf], [];
    } else {
      CutWaits(events, 0, n, ends, buffers, pending, buf);
      ends', buffers', pending' := ends, buffers, buf;
    }
  }

  lemma NothingCut(events: seq<StreamEvent>)
    ensures CutInto(events, 0, 0, [], [], [])
  {
  }

  lemma {:induction false} CutUpTo(events: seq<StreamEvent>, n: nat)
    returns (ends: seq<nat>, buffers: seq<Bytes>, pending: Bytes)
    requires n <= |events|
    ensures buffers == Buffers(events[..n]) && pending == Pending(events[..n])
    ensures CutInto(events, 0, n, ends, buffers, pending)
    decreases n
  {
    if n == 0 {
      NothingCut(events);
      ends, buffers, pending := [], [], [];
    } else {
      var e, b, p := CutUpTo(events, n - 1);
      ends, buffers, pending := CutNext(events, n, e, b, p, p + Delta(events[n - 1]));
      BuffersNext(events, n, b, p, buffers, pending);
    }
  }

  lemma BuffersNext(events: seq<StreamEvent>, n: nat, buffers: seq<Bytes>, pending: Bytes,
                    buffers': seq<Bytes>, pending': Bytes)
    requires 0 < n <= |events| && buffers == Buffers(events[..n - 1]) && pending == Pending(events[..n - 1])
    requires var buf := pending + Delta(events[n - 1]);
             && buffers' == buffers + (if Flushes(buf, events[n - 1]) then [buf] else [])
             && pending' == if Flushes(buf, events[n - 1]) then [] else buf
    ensures buffers' == Buffers(events[..n]) && pending' == Pending(events[..n])
  {
    StreamPush(events, n - 1);
  }

  /** The buffer is flushed exactly when it is due. */
  lemma FlushesWhenDue(events: seq<StreamEvent>, c: nat, n: nat, pending: Bytes)
    requires c < n <= |events| && pending == Stretch(events, c, n - 1)
    ensures var buf := pending + Delta(events[n - 1]);
            buf == Stretch(events, c, n) && (Flushes(buf, events[n - 1]) <==> Due(events, c, n))
  {
  }

  /** Every stream is cut into its buffers each time as soon as that is due, and what is pending is the text since. */
  lemma StreamIsCut(events: seq<StreamEvent>) returns (ends: seq<nat>)
    ensures CutInto(events, 0, |events|, ends, Buffers(events), Pending(events))
  {
    var buffers, pending;
    ends, buffers, pending := CutUpTo(events, |events|);
    assert events[..|events|] == events;
  }

  /** Two cuts with the same one before them are at the same place. */
  lemma SameCut(events: seq<StreamEvent>, a: nat, b: nat, c: nat)
    requires CutHere(events, a, b) && CutHere(events, a, c)
    ensures b == c
  {
  }

  /** There is only one way to cut a stream so. */
  lemma {:induction false} CutsUnique(events: seq<StreamEvent>, a: nat, n: nat, ends: seq<nat>, buffers: seq<Bytes>,
                                      pending: Bytes, ends': seq<nat>, buffers': seq<Bytes>, pending': Bytes)
    requires CutInto(events, a, n, ends, buffers, pending) && CutInto(events, a, n, ends', buffers', pending')
    ensures ends == ends' && buffers == buffers' && pending == pending'
    decreases |ends|
  {
    if ends != [] && ends' != [] {
      SameCut(events, a, ends[0], ends'[0]);
      CutsUnique(events, ends[0], n, ends[1..], buffers[1..], pending, ends'[1..], buffers'[1..], pending');
      assert ends == [ends[0]] + ends[1..] && ends' == [ends'[0]] + ends'[1..];
      assert buffers == [buffers[0]] + buffers[1..] && buffers' == [buffers'[0]] + buffers'[1..];
    }
  }

  lemma PendingShort(events: seq<StreamEvent>, a: nat, n: nat)
    requires a <= n <= |events| && Undue(events, a, n)
    ensures |Stretch(events, a, n)| < 512
    decreases n - a
  {
    if a < n {
      PendingShort(events, a, n - 1);
      assert !Due(events, a, n);
    }
  }

  /** After any events less than 512 bytes are pending, and none after a tool call, the end or reasoning. */
  lemma PendingInTime(events: seq<StreamEvent>)
    ensures |Pending(events)| < 512
    ensures events != [] && !events[|events|-1].TextDelta? && !events[|events|-1].Usage? ==> Pending(events) == []
  {
    var ends := StreamIsCut(events);
    SinceLastCut(events, 0, |events|, ends, Buffers(events), Pending(events));
    var c := LastCut(0, ends);
    PendingShort(events, c, |events|);
    assert c < |events| ==> !Due(events, c, |events|);
  }

  /** A text delta flushes what was pending together with it exactly when that comes to 512 bytes, which it had not
      before; and usage flushes nothing. */
  lemma FlushedInTime(events: seq<StreamEvent>, e: StreamEvent)
    ensures var before, text := Pending(events), Delta(e);
            && |before| < 512
            && (e.TextDelta? || e.Usage? ==>
                  && Buffers(events + [e]) == Buffers(events) + (if |before + text| >= 512 then [before + text] else [])
                  && Pending(events + [e]) == if |before + text| >= 512 then [] else before + text)
  {
    PendingInTime(events);
    assert (events + [e])[..|events|] == events;
  }
}
