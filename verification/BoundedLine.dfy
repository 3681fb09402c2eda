/** Reading one bounded line from a buffered stream (crates/impetus-client/src/unix.rs). */
module BoundedLine {
  import opened Text
  import opened Utf8

  const MAX_IPC_LINE_BYTES: nat := 65536

  datatype LineError = ConnectionClosed | LineTooLong | NotUtf8

  /** A stream as it arrives: the fragments successive `fill_buf` calls see. None of them is empty,
      for an empty one means the end. */
  class BufReader {
    var buffers: seq<Bytes>

    ghost predicate Valid()
      reads this
    {
      forall b | b in buffers :: b != []
    }

    ghost function Stream(): Bytes
      reads this
    {
      Concat(buffers)
    }

    constructor (buffers: seq<Bytes>)
      requires forall b | b in buffers :: b != []
      ensures Valid() && this.buffers == buffers
    {
      this.buffers := buffers;
    }

    method FillBuf() returns (available: Bytes)
      requires Valid()
      ensures available == if buffers == [] then [] else buffers[0]
      ensures available == [] <==> buffers == []
    {
      assert buffers != [] ==> buffers[0] in buffers;
      available := if buffers == [] then [] else buffers[0];
    }

    /** Drops `n` bytes of the current fragment. */
    method Consume(n: nat)
      requires Valid() && n <= (if buffers == [] then 0 else |buffers[0]|)
      modifies this
      ensures Valid() && n <= |old(Stream())| && Stream() == old(Stream())[n..]
      ensures |buffers| <= |old(buffers)|
      ensures old(buffers) != [] && n == |old(buffers)[0]| ==> buffers == old(buffers)[1..]
    {
      if buffers != [] {
        var first := buffers[0];
        assert forall b | b in buffers[1..] :: b in buffers;
        if n == |first| {
          buffers := buffers[1..];
        } else {
          ghost var rest := buffers[1..];
          buffers := [first[n..]] + buffers[1..];
          assert buffers[1..] == rest;
        }
      }
    }
  }

  /** Length of the line at the front of a stream: up to and including the first newline, or all of it. */
  function LineLength(s: Bytes): (n: nat)
    ensures n <= |s|
    ensures NEWLINE in s ==> 0 < n && s[n - 1] == NEWLINE && NEWLINE !in s[..n - 1]
    ensures NEWLINE !in s ==> n == |s|
  {
    if s == [] then 0
    else if s[0] == NEWLINE then 1
    else
      var m := LineLength(s[1..]);
      assert s == [s[0]] + s[1..];
      assert m > 0 ==> s[..m] == [s[0]] + s[1..][..m - 1];
      m + 1
  }

  lemma LineLengthIs(x: Bytes, rest: Bytes)
    requires NEWLINE !in x
    ensures LineLength(x + [NEWLINE] + rest) == |x| + 1
  {
    var s := x + [NEWLINE] + rest;
    var n := LineLength(s);
    assert s[|x|] == NEWLINE && NEWLINE in s;
    assert forall i | 0 <= i < |x| :: s[i] == x[i] && x[i] in x;
    assert forall i | 0 <= i < n - 1 :: s[i] in s[..n - 1];
  }

  lemma NoNewlineLength(x: Bytes)
    requires NEWLINE !in x
    ensures LineLength(x) == |x|
  {
  }

  /** First newline of a fragment, or its length. */
  function Position(s: Bytes): (k: nat)
    ensures k <= |s| && NEWLINE !in s[..k] && (k < |s| ==> s[k] == NEWLINE)
  {
    if s == [] || s[0] == NEWLINE then 0
    else
      var k := Position(s[1..]);
      assert s[..k + 1] == [s[0]] + s[1..][..k];
      k + 1
  }

  /** The outcome of reading a line, as a function of the stream. `firstOver` tells whether the fragment
      at hand is over the bound by itself. */
  function Outcome(s: Bytes, firstOver: bool): Result<Bytes, LineError> {
    var line := s[..LineLength(s)];
    if line == [] then Err(ConnectionClosed)
    else if |line| > MAX_IPC_LINE_BYTES then
      Err(if firstOver && NEWLINE !in s then ConnectionClosed else LineTooLong)
    else if Validate(line).Valid? then Ok(line)
    else Err(NotUtf8)
  }

  /** How a stream is cut into fragments shows in one case only: for an oversized last line without a
      newline, the kind of error depends on whether the first fragment was over the bound. */
  lemma FragmentsShowOnlyInOneError(s: Bytes)
    ensures Outcome(s, true) == Outcome(s, false) <==> NEWLINE in s || |s| <= MAX_IPC_LINE_BYTES
    ensures Outcome(s, true).Ok? <==> Outcome(s, false).Ok?
    ensures NEWLINE in s && LineLength(s) > MAX_IPC_LINE_BYTES ==> forall f :: Outcome(s, f) == Err(LineTooLong)
  {
    assert s[..|s|] == s;
  }

  /** Reads one line, draining whatever exceeds the bound: the line at the front of the stream is taken
      off, however the stream is cut into fragments, and the outcome is that of the stream. */
  method ReadBoundedLine(reader: BufReader) returns (r: Result<Bytes, LineError>)
    requires reader.Valid()
    modifies reader
    ensures reader.Valid()
    ensures reader.Stream() == old(reader.Stream())[LineLength(old(reader.Stream()))..]
    ensures r == Outcome(old(reader.Stream()),
                         old(reader.buffers) != [] && |old(reader.buffers)[0]| > MAX_IPC_LINE_BYTES)
  {
    var output: Bytes := [];
    var exceeded := false;
    ghost var s := reader.Stream();
    ghost var taken: Bytes := [];
    ghost var first := if reader.buffers == [] then [] else reader.buffers[0];
    while true
      invariant reader.Valid() && ReadOff(s, taken, reader.Stream()) && NEWLINE !in taken
      invariant Kept(taken, output, exceeded)
      invariant taken != [] ==> (output == [] <==> |first| > MAX_IPC_LINE_BYTES)
      invariant taken == [] ==> first == if reader.buffers == [] then [] else reader.buffers[0]
      decreases |reader.buffers|
    {
      ghost var left := reader.Stream();
      var chunk, complete := NextChunk(reader, s, taken);
      if chunk == [] {
        AtEnd(s, taken, output, exceeded, first);
        if output == [] {
          return Err(ConnectionClosed);
        }
      }
      ReadOffStep(s, taken, chunk, left);
      reader.Consume(|chunk|);
      if exceeded || |output| + |chunk| > MAX_IPC_LINE_BYTES {
        exceeded := true;
      } else {
        output := output + chunk;
      }
      taken := taken + chunk;
      if complete {
        Completed(s, taken, output, exceeded, first);
        if exceeded {
          return Err(LineTooLong);
        }
        return if Validate(output).Valid? then Ok(output) else Err(NotUtf8);
      }
    }
  }

  /** The next piece of the line: up to a newline, or all that is at hand; nothing means the end. */
  method NextChunk(reader: BufReader, ghost s: Bytes, ghost taken: Bytes) returns (chunk: Bytes, complete: bool)
    requires reader.Valid() && ReadOff(s, taken, reader.Stream()) && NEWLINE !in taken
    ensures chunk <= reader.Stream() && |chunk| <= (if reader.buffers == [] then 0 else |reader.buffers[0]|)
    ensures chunk == [] <==> reader.buffers == []
    ensures chunk == [] ==> complete && reader.Stream() == []
    ensures chunk != [] && complete ==> NEWLINE in s && LineLength(s) == |taken + chunk|
    ensures !complete ==> NEWLINE !in taken + chunk && reader.buffers != [] && chunk == reader.buffers[0]
  {
    var available := reader.FillBuf();
    FrontFragment(reader.buffers);
    if available == [] {
      return [], true;
    }
    var k := Position(available);
    if k < |available| {
      LineEndsHere(s, taken, available, k, reader.Stream());
      return available[..k + 1], true;
    }
    assert available[..k] == available;
    return available, false;
  }

  /** At the end of input everything has been taken, and nothing kept means nothing came or the first
      fragment was over the bound. */
  lemma AtEnd(s: Bytes, taken: Bytes, output: Bytes, exceeded: bool, first: Bytes)
    requires ReadOff(s, taken, []) && NEWLINE !in taken && Kept(taken, output, exceeded)
    requires taken == [] ==> first == []
    requires taken != [] ==> (output == [] <==> |first| > MAX_IPC_LINE_BYTES)
    ensures s == taken && LineLength(s) == |s| && s[LineLength(s)..] == []
    ensures output == [] ==> Outcome(s, |first| > MAX_IPC_LINE_BYTES) == Err(ConnectionClosed)
    ensures output != [] ==> |first| <= MAX_IPC_LINE_BYTES
  {
    assert taken + [] == taken;
    NoNewlineLength(s);
    assert s[..|s|] == s;
    assert output == [] && taken != [] ==> exceeded;
  }

  lemma Completed(s: Bytes, taken: Bytes, output: Bytes, exceeded: bool, first: Bytes)
    requires |taken| == LineLength(s) && s[..LineLength(s)] == taken && taken != []
    requires Kept(taken, output, exceeded)
    requires NEWLINE in s || |first| <= MAX_IPC_LINE_BYTES
    ensures Outcome(s, |first| > MAX_IPC_LINE_BYTES) ==
            if exceeded then Err(LineTooLong) else if Validate(output).Valid? then Ok(output) else Err(NotUtf8)
  {
  }

  /** `taken` has been read off the front of `s`, and `left` is still to come. */
  ghost predicate ReadOff(s: Bytes, taken: Bytes, left: Bytes) {
    s == taken + left
  }

  lemma ReadOffStep(s: Bytes, taken: Bytes, chunk: Bytes, left: Bytes)
    requires ReadOff(s, taken, left) && chunk <= left
    ensures ReadOff(s, taken + chunk, left[|chunk|..])
    ensures s[..|taken + chunk|] == taken + chunk && s[|taken + chunk|..] == left[|chunk|..]
  {
    assert left == chunk + left[|chunk|..];
    Assoc(taken, chunk, left[|chunk|..]);
  }

  /** What the reader holds of the bytes taken: all of them, or less once they are over the bound. */
  ghost predicate Kept(taken: Bytes, output: Bytes, exceeded: bool) {
    && (!exceeded ==> output == taken && |taken| <= MAX_IPC_LINE_BYTES)
    && (exceeded ==> |taken| > MAX_IPC_LINE_BYTES)
  }

  lemma FrontFragment(buffers: seq<Bytes>)
    requires forall b | b in buffers :: b != []
    ensures buffers == [] <==> Concat(buffers) == []
    ensures buffers != [] ==> buffers[0] <= Concat(buffers)
  {
    if buffers != [] {
      assert buffers[0] in buffers;
    }
  }

  lemma LineEndsHere(s: Bytes, taken: Bytes, available: Bytes, k: nat, left: Bytes)
    requires ReadOff(s, taken, left) && available <= left
    requires NEWLINE !in taken && k < |available| && NEWLINE !in available[..k] && available[k] == NEWLINE
    ensures NEWLINE in s && LineLength(s) == |taken| + k + 1
  {
    var rest := left[k + 1..];
    assert left == available[..k] + ([NEWLINE] + rest);
    Assoc(taken, available[..k], [NEWLINE] + rest);
    Assoc(taken + available[..k], [NEWLINE], rest);
    LineLengthIs(taken + available[..k], rest);
  }

  /** After an oversized line the next one is intact. */
  method OversizedLineIsDrained(x: Bytes, rest: Bytes, reader: BufReader) returns (r: Result<Bytes, LineError>)
    requires reader.Valid() && NEWLINE !in x && |x| >= MAX_IPC_LINE_BYTES
    requires reader.Stream() == x + [NEWLINE] + rest
    modifies reader
    ensures reader.Valid() && r == Err(LineTooLong) && reader.Stream() == rest
  {
    LineLengthIs(x, rest);
    assert NEWLINE in reader.Stream();
    ghost var s := reader.Stream();
    r := ReadBoundedLine(reader);
    assert s[|x| + 1..] == rest;
  }
}
