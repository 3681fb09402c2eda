/** Reading an artifact in windows, carrying a character cut off by a window's end into the next
    (crates/impetus-core/src/context_builder.rs). Redaction and reduction are arbitrary functions. */
module ContextBuilder {
  import opened Text
  import opened Utf8
  import DurableArtifacts

  //
  // One window.
  //

  /** The text of a window, and the bytes of a character its end cut off. */
  function SplitUtf8Prefix(s: Bytes): (Bytes, Bytes)
    decreases |s|
  {
    match Validate(s)
    case Valid => (s, [])
    case Incomplete(v) => ValidateBounds(s); (s[..v], s[v..])
    case Invalid(v, n) =>
      ValidateBounds(s);
      var (more, carry) := SplitUtf8Prefix(s[v + n..]);
      (s[..v] + REPLACEMENT + more, carry)
  }

  /** The valid prefix ends where the scan stops, and what stops it is what stands there. */
  lemma {:induction false} ValidateBounds(s: Bytes)
    ensures var v := Validate(s);
            && (v.Invalid? ==> 0 < v.errorLen && v.validUpTo + v.errorLen <= |s|)
            && (v.Invalid? ==> ScanFront(s[v.validUpTo..]) == Malformed(v.errorLen))
            && (v.Incomplete? ==> v.validUpTo < |s| && ScanFront(s[v.validUpTo..]).CutOff?)
    decreases |s|
  {
    if s != [] {
      ScanBounds(s);
      if ScanFront(s).Character? {
        var k := ScanFront(s).len;
        ValidateBounds(s[k..]);
        var v := Validate(s[k..]);
        if !v.Valid? {
          assert s[k..][v.validUpTo..] == s[k + v.validUpTo..];
        }
      }
    }
  }

  function ValidPrefix(s: Bytes): (v: nat)
    ensures v <= |s|
  {
    ValidateBounds(s);
    match Validate(s) case Valid => |s| case Invalid(v, _) => v case Incomplete(v) => v
  }

  lemma LossyCharacter(s: Bytes, t: Bytes)
    requires s != [] && ScanFront(s).Character?
    ensures var k := ScanFront(s).len; k <= |s| && Lossy(s + t) == s[..k] + Lossy(s[k..] + t)
  {
    ScanBounds(s);
    ScanStable(s, t);
    var k := ScanFront(s).len;
    assert (s + t)[..k] == s[..k] && (s + t)[k..] == s[k..] + t;
  }

  lemma LossyMalformed(s: Bytes, t: Bytes)
    requires s != [] && ScanFront(s).Malformed?
    ensures var n := ScanFront(s).len; n <= |s| && Lossy(s + t) == REPLACEMENT + Lossy(s[n..] + t)
  {
    ScanBounds(s);
    ScanStable(s, t);
    var n := ScanFront(s).len;
    assert (s + t)[n..] == s[n..] + t;
  }

  /** Lossy decoding keeps the valid prefix, whatever follows. */
  lemma {:induction false} ValidPrefixKept(s: Bytes, t: Bytes)
    ensures var v := ValidPrefix(s); Lossy(s + t) == s[..v] + Lossy(s[v..] + t)
    decreases |s|
  {
    var v := ValidPrefix(s);
    if s == [] || !ScanFront(s).Character? {
      assert v == 0 && s[..0] == [] && s[0..] == s;
    } else {
      ScanBounds(s);
      var k := ScanFront(s).len;
      var rest := s[k..];
      var w := ValidPrefix(rest);
      assert v == k + w;
      LossyCharacter(s, t);
      ValidPrefixKept(rest, t);
      SliceSplit(s, k, v);
      Assoc(s[..k], rest[..w], Lossy(rest[w..] + t));
    }
  }

  lemma {:induction false} ValidPrefixValid(s: Bytes)
    ensures Validate(s[..ValidPrefix(s)]).Valid?
    decreases |s|
  {
    var v := ValidPrefix(s);
    if s == [] || !ScanFront(s).Character? {
      assert v == 0 && s[..0] == [];
    } else {
      ScanBounds(s);
      var k := ScanFront(s).len;
      ValidPrefixValid(s[k..]);
      PrefixScans(s, k, v);
    }
  }

  lemma PrefixScans(s: Bytes, k: nat, v: nat)
    requires s != [] && ScanFront(s) == Character(k) && k <= v <= |s|
    requires Validate(s[k..][..v - k]).Valid?
    ensures Validate(s[..v]).Valid?
  {
    ScanBounds(s);
    ScanCharacter(s);
    assert s[..v][..k] == s[..k];
    CharacterUnique(s[..v], k);
    assert s[..v][k..] == s[k..][..v - k];
  }

  /** The first character of valid text is valid by itself, and so is what follows. */
  lemma FirstCharacterValid(text: Bytes)
    requires text != [] && Validate(text).Valid?
    ensures ScanFront(text).Character? && 0 < ScanFront(text).len <= |text|
    ensures Validate(text[..ScanFront(text).len]).Valid? && Validate(text[ScanFront(text).len..]).Valid?
  {
    ScanBounds(text);
    var k := ScanFront(text).len;
    ScanCharacter(text);
    CharacterUnique(text[..k], k) by { assert text[..k][..k] == text[..k]; }
    assert text[..k][k..] == [];
  }

  lemma DropAppend(a: Bytes, b: Bytes, k: nat)
    requires k <= |a|
    ensures (a + b)[k..] == a[k..] + b
  {
  }

  lemma {:induction false} ValidAppend(a: Bytes, b: Bytes)
    requires Validate(a).Valid? && Validate(b).Valid?
    ensures Validate(a + b).Valid?
    decreases |a|
  {
    if a == [] {
      assert a + b == b;
    } else {
      FirstCharacterValid(a);
      var k := ScanFront(a).len;
      ScanStable(a, b);
      DropAppend(a, b, k);
      ValidAppend(a[k..], b);
      assert Validate(a + b) == Shift(Validate((a + b)[k..]), k);
    }
  }

  lemma ReplacementValid()
    ensures Validate(REPLACEMENT).Valid?
  {
    assert REPLACEMENT[3..] == [];
  }

  /** A malformed run after a valid prefix decodes to that prefix, a replacement, and the decoding of what follows. */
  lemma MalformedInside(s: Bytes, t: Bytes, v: nat, n: nat)
    requires Validate(s) == Invalid(v, n)
    ensures v + n <= |s| && Lossy(s + t) == s[..v] + (REPLACEMENT + Lossy(s[v + n..] + t))
  {
    ValidateBounds(s);
    ValidPrefixKept(s, t);
    LossyMalformed(s[v..], t);
    assert s[v..][n..] == s[v + n..];
  }

  lemma Regroup(a: Bytes, b: Bytes, c: Bytes, d: Bytes)
    ensures a + (b + (c + d)) == (a + b + c) + d
  {
  }

  /** Decoding a window, with the carry put before the next bytes, is decoding the whole. */
  lemma {:induction false} SplitPreservesDecoding(s: Bytes, t: Bytes)
    ensures var (text, carry) := SplitUtf8Prefix(s); Lossy(s + t) == text + Lossy(carry + t)
    decreases |s|
  {
    ValidateBounds(s);
    match Validate(s) {
      case Valid =>
        ValidPrefixKept(s, t);
        assert s[..|s|] == s && s[|s|..] == [];
      case Incomplete(v) =>
        ValidPrefixKept(s, t);
      case Invalid(v, n) =>
        var (more, carry) := SplitUtf8Prefix(s[v + n..]);
        SplitPreservesDecoding(s[v + n..], t);
        MalformedInside(s, t, v, n);
        Regroup(s[..v], REPLACEMENT, more, Lossy(carry + t));
    }
  }

  /** The text of a window is valid UTF-8, and the carry is at most three bytes of one unfinished character. */
  lemma {:induction false} SplitIsClean(s: Bytes)
    ensures var (text, carry) := SplitUtf8Prefix(s);
            && IsUtf8(text) && Validate(text).Valid?
            && |carry| <= 3 && (carry == [] || ScanFront(carry).CutOff?)
    decreases |s|
  {
    ValidateBounds(s);
    ValidPrefixValid(s);
    match Validate(s) {
      case Valid =>
      case Incomplete(v) =>
        ScanBounds(s[v..]);
      case Invalid(v, n) =>
        var (more, carry) := SplitUtf8Prefix(s[v + n..]);
        SplitIsClean(s[v + n..]);
        ReplacementValid();
        ValidAppend(s[..v], REPLACEMENT);
        ValidAppend(s[..v] + REPLACEMENT, more);
    }
    ValidIsUtf8(SplitUtf8Prefix(s).0);
  }

  //
  // The whole artifact.
  //

  datatype Reduced = Reduced(content: Bytes, truncated: bool, originalTokens: nat)

  datatype Materialized = Materialized(
    content: Bytes, truncated: bool, chunksRead: nat, byteCount: nat, originalTokens: nat, reducedTokens: nat)

  datatype BuilderError = MissingArtifact | StoreFailed

  /** The working string while windows come in. */
  datatype Assembly = Assembly(text: Bytes, truncated: bool, lastTokens: nat)

  /** Appends one decoded piece, redacted, and reduces. */
  function Absorb(a: Assembly, piece: Bytes, redact: Bytes -> Bytes, reduce: Bytes -> Reduced): Assembly {
    var text := a.text + redact(piece);
    var r := reduce(text);
    if r.truncated then Assembly(r.content, true, r.originalTokens) else Assembly(text, a.truncated, r.originalTokens)
  }

  function AbsorbAll(pieces: seq<Bytes>, redact: Bytes -> Bytes, reduce: Bytes -> Reduced): Assembly {
    if pieces == [] then Assembly([], false, 0)
    else Absorb(AbsorbAll(pieces[..|pieces|-1], redact, reduce), pieces[|pieces|-1], redact, reduce)
  }

  /** Clips text to `maxTokens` tokens of four characters each. */
  function EnforceTokenCeiling(text: Bytes, maxTokens: nat): (Bytes, nat, bool) {
    if |text| <= maxTokens * 4 then (text, (|text| + 3) / 4, false)
    else
      var content := TakeChars(text, maxTokens * 4);
      (content, Min((|content| + 3) / 4, maxTokens), true)
  }

  /** `text.chars().take(n)`. */
  function TakeChars(text: Bytes, n: nat): Bytes
    decreases |text|
  {
    if text == [] || n == 0 || !ScanFront(text).Character? then []
    else
      ScanBounds(text);
      text[..ScanFront(text).len] + TakeChars(text[ScanFront(text).len..], n - 1)
  }

  /** The bytes an artifact read covers: those the index promises, as far as the file has them. */
  function Covered(file: Bytes, total: nat): Bytes {
    file[..Min(total, |file|)]
  }

  /** How far the reading loop is: the pieces decoded, the bytes carried over, what is still to come, and the
      whole. */
  datatype Progress = Progress(pieces: seq<Bytes>, carry: Bytes, rest: Bytes, whole: Bytes)

  ghost predicate IsLossy(s: Bytes, out: Bytes) {
    out == Lossy(s)
  }

  /** The pieces are valid, and followed by the decoding of what is left they are the decoding of the whole. */
  ghost predicate OnTrack(d: Progress) {
    && |d.carry| <= 3
    && (forall p | p in d.pieces :: Validate(p).Valid?)
    && forall out | IsLossy(d.carry + d.rest, out) :: IsLossy(d.whole, Concat(d.pieces) + out)
  }

  /** What a range read gives is the next slice of the bytes covered, and is empty only at their end. */
  lemma RangeIsSlice(file: Bytes, total: nat, offset: nat, want: nat)
    requires offset <= |Covered(file, total)| && 0 < want && offset + want <= total
    ensures var body, bytes := Covered(file, total), DurableArtifacts.Range(file, offset, want);
            && offset + |bytes| <= |body| && body[offset..] == bytes + body[offset + |bytes|..]
            && |bytes| == Min(want, |body| - offset)
  {
  }

  /** How many windows `size` bytes fill. */
  function Windows(size: nat, chunkSize: nat): nat
    requires chunkSize >= 1
  {
    if size == 0 then 0 else 1 + Windows(size - Min(chunkSize, size), chunkSize)
  }

  /** The windows are as many as are needed and no more. */
  lemma {:induction false} WindowsCover(size: nat, chunkSize: nat)
    requires chunkSize >= 1
    ensures var n := Windows(size, chunkSize); n * chunkSize < size + chunkSize && size <= n * chunkSize
    decreases size
  {
    if size != 0 {
      WindowsCover(size - Min(chunkSize, size), chunkSize);
      var n := Windows(size, chunkSize);
      assert n * chunkSize == (n - 1) * chunkSize + chunkSize;
    }
  }

  /** The reads it takes to get `size` bytes of `total`: a file shorter than promised costs one more, which is empty. */
  function Reads(size: nat, total: nat, chunkSize: nat): nat
    requires chunkSize >= 1
  {
    Windows(size, chunkSize) + if size < total then 1 else 0
  }

  /** Splitting off what is complete does not change the decoding of the whole. */
  lemma WindowStep(d: Progress, bytes: Bytes, rest: Bytes)
    requires OnTrack(d) && d.rest == bytes + rest
    ensures var (text, left) := SplitUtf8Prefix(d.carry + bytes);
            OnTrack(Progress(d.pieces + [text], left, rest, d.whole))
  {
    var (text, left) := SplitUtf8Prefix(d.carry + bytes);
    SplitIsClean(d.carry + bytes);
    Assoc(d.carry, bytes, rest);
    SplitPreservesDecoding(d.carry + bytes, rest);
    ConcatAppend(d.pieces, text);
    forall out | IsLossy(left + rest, out)
      ensures IsLossy(d.whole, Concat(d.pieces + [text]) + out)
    {
      assert IsLossy(d.carry + d.rest, text + out);
      Assoc(Concat(d.pieces), text, out);
    }
  }

  /** One window: the carried bytes go first, and what is not complete is carried on. */
  method DecodeWindow(carry: Bytes, bytes: Bytes, ghost d: Progress, ghost rest: Bytes)
    returns (text: Bytes, left: Bytes, ghost d': Progress)
    requires OnTrack(d) && d.carry == carry && d.rest == bytes + rest
    ensures OnTrack(d') && d' == Progress(d.pieces + [text], left, rest, d.whole)
  {
    WindowStep(d, bytes, rest);
    var split := SplitUtf8Prefix(carry + bytes);
    text, left := split.0, split.1;
    d' := Progress(d.pieces + [text], left, rest, d.whole);
  }

  lemma AbsorbPush(pieces: seq<Bytes>, p: Bytes, redact: Bytes -> Bytes, reduce: Bytes -> Reduced)
    ensures AbsorbAll(pieces + [p], redact, reduce) == Absorb(AbsorbAll(pieces, redact, reduce), p, redact, reduce)
  {
    assert (pieces + [p])[..|pieces|] == pieces;
  }

  /** What is reported of an artifact whose decoded pieces are these: all of them absorbed, reduced once more and
      clipped to the budget. */
  function Summary(pieces: seq<Bytes>, budget: nat, redact: Bytes -> Bytes, reduce: Bytes -> Reduced,
                   chunksRead: nat, byteCount: nat): Materialized {
    var a := AbsorbAll(pieces, redact, reduce);
    var last := reduce(a.text);
    var (content, tokens, hard) := EnforceTokenCeiling(last.content, budget);
    Materialized(content, a.truncated || last.truncated || hard, chunksRead, byteCount,
                 if last.originalTokens < a.lastTokens then a.lastTokens else last.originalTokens, tokens)
  }

  /** So far no read failed, and those still needed are for the bytes still to come. */
  ghost predicate Counted(n: nat, left: nat, size: nat, chunkSize: nat, fails: nat -> bool)
    requires chunkSize >= 1
  {
    n + Windows(left, chunkSize) == Windows(size, chunkSize) && forall i | 0 <= i < n :: !fails(i)
  }

  lemma CountedStep(n: nat, left: nat, size: nat, chunkSize: nat, fails: nat -> bool)
    requires chunkSize >= 1 && left > 0 && Counted(n, left, size, chunkSize, fails)
    ensures n < Windows(size, chunkSize)
    ensures !fails(n) ==> Counted(n + 1, left - Min(chunkSize, left), size, chunkSize, fails)
  {
  }

  /** Where the reading loop is after some windows. */
  ghost predicate Reading(d: Progress, a: Assembly, carry: Bytes, body: Bytes, offset: nat,
                          redact: Bytes -> Bytes, reduce: Bytes -> Reduced) {
    && OnTrack(d)
    && offset <= |body| && d.carry == carry && d.rest == body[offset..] && d.whole == body
    && a == AbsorbAll(d.pieces, redact, reduce)
  }

  /** Takes in the bytes of one window. */
  method TakeWindow(bytes: Bytes, a: Assembly, carry: Bytes, ghost body: Bytes, ghost offset: nat, ghost d: Progress,
                    redact: Bytes -> Bytes, reduce: Bytes -> Reduced)
    returns (a': Assembly, carry': Bytes, ghost d': Progress)
    requires Reading(d, a, carry, body, offset, redact, reduce)
    requires offset + |bytes| <= |body| && body[offset..] == bytes + body[offset + |bytes|..]
    ensures Reading(d', a', carry', body, offset + |bytes|, redact, reduce)
  {
    var text;
    text, carry', d' := DecodeWindow(carry, bytes, d, body[offset + |bytes|..]);
    AbsorbPush(d.pieces, text, redact, reduce);
    a' := Absorb(a, text, redact, reduce);
  }

  /** Reads the windows of an artifact and absorbs what each decodes to, carrying an unfinished character over.
      `fails(n)` says whether the n-th read fails, which ends the whole. */
  method ReadWindows(file: Bytes, total: nat, chunkSize: nat, fails: nat -> bool,
                     redact: Bytes -> Bytes, reduce: Bytes -> Reduced)
    returns (ok: bool, a: Assembly, carry: Bytes, chunksRead: nat, ghost d: Progress)
    requires chunkSize >= 1
    ensures ok <==> forall n | 0 <= n < Reads(|Covered(file, total)|, total, chunkSize) :: !fails(n)
    ensures ok ==> chunksRead == Reads(|Covered(file, total)|, total, chunkSize)
    ensures ok ==> Reading(d, a, carry, Covered(file, total), |Covered(file, total)|, redact, reduce)
  {
    ok, carry, chunksRead := true, [], 0;
    var offset := 0;
    a := Assembly([], false, 0);
    ghost var body := Covered(file, total);
    d := Progress([], [], body, body);
    NothingReadYet(body);
    while offset < total
      invariant Reading(d, a, carry, body, offset, redact, reduce)
      invariant Counted(chunksRead, |body| - offset, |body|, chunkSize, fails)
      decreases total - offset
    {
      if offset < |body| {
        CountedStep(chunksRead, |body| - offset, |body|, chunkSize, fails);
      }
      if fails(chunksRead) {
        return false, a, carry, chunksRead, d;
      }
      var want := Min(chunkSize, total - offset);
      var bytes := DurableArtifacts.Range(file, offset, want);
      RangeIsSlice(file, total, offset, want);
      chunksRead := chunksRead + 1;
      if |bytes| == 0 {
        break;
      }
      a, carry, d := TakeWindow(bytes, a, carry, body, offset, d, redact, reduce);
      offset := offset + |bytes|;
    }
  }

  lemma NothingReadYet(body: Bytes)
    ensures OnTrack(Progress([], [], body, body))
  {
    assert [] + body == body;
    assert forall out: Bytes :: Concat([]) + out == out;
  }

  /** A carry left at the end is decoded by itself. */
  lemma LastCarry(d: Progress)
    requires OnTrack(d) && d.rest == []
    ensures d.carry == [] ==> Concat(d.pieces) == Lossy(d.whole)
    ensures d.carry != [] ==> Concat(d.pieces + [Lossy(d.carry)]) == Lossy(d.whole)
    ensures forall p | p in d.pieces + [Lossy(d.carry)] :: Validate(p).Valid?
  {
    assert d.carry + [] == d.carry && IsLossy(d.carry, Lossy(d.carry));
    ConcatAppend(d.pieces, Lossy(d.carry));
    LossyValid(d.carry);
    assert Concat(d.pieces) + [] == Concat(d.pieces);
  }

  /** Materialises an artifact window by window. The pieces handed to redaction are valid UTF-8 and
      together are the one-shot lossy decoding of the bytes covered, whatever the window size. */
  method Materialize(meta: Result<Option<nat>, BuilderError>, file: Bytes, fails: nat -> bool, chunkSize: nat,
                     budget: nat, redact: Bytes -> Bytes, reduce: Bytes -> Reduced)
    returns (r: Result<Materialized, BuilderError>, ghost pieces: seq<Bytes>)
    requires chunkSize >= 1
    ensures meta.Err? ==> r == Err(meta.error)
    ensures meta == Ok(None) ==> r == Err(MissingArtifact)
    ensures meta.Ok? && meta.value.Some? ==>
              var total := meta.value.value;
              var body := Covered(file, total);
              if exists n :: 0 <= n < Reads(|body|, total, chunkSize) && fails(n) then r == Err(StoreFailed)
              else
                && Concat(pieces) == Lossy(body)
                && r == Ok(Summary(pieces, budget, redact, reduce, Reads(|body|, total, chunkSize), total))
    ensures forall p | p in pieces :: Validate(p).Valid?
  {
    pieces := [];
    if meta.Err? {
      return Err(meta.error), pieces;
    }
    if meta.value.None? {
      return Err(MissingArtifact), pieces;
    }
    var ok, a, carry, chunksRead;
    ghost var d;
    ok, a, carry, chunksRead, d := ReadWindows(file, meta.value.value, chunkSize, fails, redact, reduce);
    if !ok {
      return Err(StoreFailed), pieces;
    }
    assert d.rest == [];
    LastCarry(d);
    pieces := d.pieces;
    if carry != [] {
      var lossy := Lossy(carry);
      AbsorbPush(pieces, lossy, redact, reduce);
      a := Absorb(a, lossy, redact, reduce);
      pieces := pieces + [lossy];
    }
    var final := reduce(a.text);
    var (content, reducedTokens, hardTruncated) := EnforceTokenCeiling(final.content, budget);
    var originalTokens := if final.originalTokens >= a.lastTokens then final.originalTokens else a.lastTokens;
    r := Ok(Materialized(content, a.truncated || final.truncated || hardTruncated, chunksRead, meta.value.value,
                         originalTokens, reducedTokens));
  }

  /** The working text after each piece: it is appended redacted, and replaced by its reduction when that truncates. */
  ghost predicate Worked(pieces: seq<Bytes>, texts: seq<Bytes>, redact: Bytes -> Bytes, reduce: Bytes -> Reduced) {
    && |texts| == |pieces| + 1 && texts[0] == []
    && forall k | 0 <= k < |pieces| ::
         var longer := texts[k] + redact(pieces[k]);
         texts[k + 1] == if reduce(longer).truncated then reduce(longer).content else longer
  }

  /** Appending this piece made the text too long. */
  ghost predicate CutAt(pieces: seq<Bytes>, texts: seq<Bytes>, k: int, redact: Bytes -> Bytes,
                        reduce: Bytes -> Reduced) {
    0 <= k < |pieces| && k < |texts| && reduce(texts[k] + redact(pieces[k])).truncated
  }

  /** What the assembly says of the working texts: the last one, whether one was ever too long, and the token count
      before the last reduction. */
  ghost predicate Tells(a: Assembly, pieces: seq<Bytes>, texts: seq<Bytes>, redact: Bytes -> Bytes,
                        reduce: Bytes -> Reduced) {
    && Worked(pieces, texts, redact, reduce) && a.text == texts[|pieces|]
    && (a.truncated <==> exists k :: CutAt(pieces, texts, k, redact, reduce))
    && a.lastTokens == if pieces == [] then 0
                       else reduce(texts[|pieces|-1] + redact(pieces[|pieces|-1])).originalTokens
  }

  lemma WorkedOn(init: seq<Bytes>, p: Bytes, texts: seq<Bytes>, a: Assembly, redact: Bytes -> Bytes,
                 reduce: Bytes -> Reduced)
    requires Tells(a, init, texts, redact, reduce)
    ensures var b := Absorb(a, p, redact, reduce); Tells(b, init + [p], texts + [b.text], redact, reduce)
  {
    var pieces, b := init + [p], Absorb(a, p, redact, reduce);
    var all := texts + [b.text];
    assert forall k | 0 <= k < |init| :: pieces[k] == init[k];
    assert forall k | 0 <= k < |texts| :: all[k] == texts[k];
    assert pieces[|init|] == p && all[|init|] == texts[|init|];
    assert forall k | CutAt(init, texts, k, redact, reduce) :: CutAt(pieces, all, k, redact, reduce);
    assert forall k | 0 <= k < |init| && CutAt(pieces, all, k, redact, reduce) :: CutAt(init, texts, k, redact, reduce);
    assert CutAt(pieces, all, |init|, redact, reduce) <==> reduce(a.text + redact(p)).truncated;
  }

  lemma {:induction false} AssemblyTells(pieces: seq<Bytes>, redact: Bytes -> Bytes, reduce: Bytes -> Reduced)
    returns (a: Assembly, texts: seq<Bytes>)
    ensures a == AbsorbAll(pieces, redact, reduce) && Tells(a, pieces, texts, redact, reduce)
    decreases |pieces|
  {
    if pieces == [] {
      a, texts := Assembly([], false, 0), [[]];
    } else {
      var init, p := pieces[..|pieces|-1], pieces[|pieces|-1];
      var b;
      b, texts := AssemblyTells(init, redact, reduce);
      WorkedOn(init, p, texts, b, redact, reduce);
      a := Absorb(b, p, redact, reduce);
      texts := texts + [a.text];
      assert pieces == init + [p];
    }
  }

  /** The report: its content is the last working text, reduced once more and clipped; it is marked truncated exactly
      when some reduction truncated or the clipping did; and the original token count is the larger of the last two. */
  lemma SummaryTells(pieces: seq<Bytes>, budget: nat, redact: Bytes -> Bytes, reduce: Bytes -> Reduced,
                     chunksRead: nat, byteCount: nat)
    returns (texts: seq<Bytes>)
    ensures Worked(pieces, texts, redact, reduce)
    ensures var m, last := Summary(pieces, budget, redact, reduce, chunksRead, byteCount), reduce(texts[|pieces|]);
            && m.content == EnforceTokenCeiling(last.content, budget).0
            && (m.truncated <==> || (exists k :: CutAt(pieces, texts, k, redact, reduce)) || last.truncated
                                 || |last.content| > budget * 4)
            && m.chunksRead == chunksRead && m.byteCount == byteCount
            && last.originalTokens <= m.originalTokens
            && (pieces != [] ==>
                  var before := reduce(texts[|pieces|-1] + redact(pieces[|pieces|-1])).originalTokens;
                  before <= m.originalTokens && m.originalTokens in {before, last.originalTokens})
  {
    var a;
    a, texts := AssemblyTells(pieces, redact, reduce);
  }

  lemma {:induction false} LossyValid(s: Bytes)
    ensures Validate(Lossy(s)).Valid?
    decreases |s|
  {
    if s != [] {
      ScanBounds(s);
      ReplacementValid();
      match ScanFront(s) {
        case Character(k) =>
          LossyValid(s[k..]);
          ScanCharacter(s);
          CharacterUnique(s[..k], k) by { assert s[..k][..k] == s[..k]; }
          assert s[..k][k..] == [];
          ValidAppend(s[..k], Lossy(s[k..]));
        case Malformed(n) =>
          LossyValid(s[n..]);
          ValidAppend(REPLACEMENT, Lossy(s[n..]));
        case CutOff =>
      }
    }
  }

  //
  // The token ceiling.
  //

  lemma TakeCharsStep(text: Bytes, n: nat)
    requires text != [] && Validate(text).Valid? && n > 0
    ensures var k := ScanFront(text).len;
            && 0 < k <= |text| && (k == 1 <==> text[0] < 0x80)
            && Validate(text[..k]).Valid? && Validate(text[k..]).Valid?
            && TakeChars(text, n) == text[..k] + TakeChars(text[k..], n - 1)
  {
    FirstCharacterValid(text);
  }

  /** A prefix of whole characters that either is the whole text or has a byte per character taken. */
  ghost predicate Taken(text: Bytes, n: nat, out: Bytes) {
    out <= text && Validate(out).Valid? && (out == text || |out| >= n)
  }

  lemma TakenStep(text: Bytes, n: nat, k: nat, rest: Bytes)
    requires 0 < k <= |text| && n > 0 && Validate(text[..k]).Valid? && Taken(text[k..], n - 1, rest)
    ensures Taken(text, n, text[..k] + rest)
  {
    ValidAppend(text[..k], rest);
    PrefixAfter(text, k, rest);
  }

  /** Taking characters yields such a prefix. */
  lemma {:induction false} TakeCharsPrefix(text: Bytes, n: nat)
    requires Validate(text).Valid?
    ensures Taken(text, n, TakeChars(text, n))
    decreases |text|
  {
    if text != [] && n != 0 {
      TakeCharsStep(text, n);
      var k := ScanFront(text).len;
      TakeCharsPrefix(text[k..], n - 1);
      TakenStep(text, n, k, TakeChars(text[k..], n - 1));
    }
  }

  lemma PrefixAfter(text: Bytes, k: nat, rest: Bytes)
    requires k <= |text| && rest <= text[k..]
    ensures text[..k] + rest <= text
    ensures rest == text[k..] ==> text[..k] + rest == text
  {
  }

  ghost predicate Ascii(text: Bytes, n: nat)
    requires n <= |text|
  {
    forall k | 0 <= k < n :: text[k] < 0x80
  }

  lemma AsciiStep(text: Bytes, n: nat)
    requires 0 < n <= |text|
    ensures Ascii(text, n) <==> text[0] < 0x80 && Ascii(text[1..], n - 1)
  {
    assert forall k | 0 < k < n :: text[k] == text[1..][k - 1];
  }

  /** What was taken is at most `n` bytes if and only if the text is, or its first `n` bytes are ASCII. */
  ghost predicate Within(text: Bytes, n: nat, out: Bytes) {
    |out| <= n <==> |text| <= n || Ascii(text, n)
  }

  lemma WithinStep(text: Bytes, n: nat, k: nat, rest: Bytes)
    requires 0 < k <= |text| && n > 0 && (k == 1 <==> text[0] < 0x80)
    requires Taken(text[k..], n - 1, rest) && (k == 1 ==> Within(text[k..], n - 1, rest))
    ensures Within(text, n, text[..k] + rest)
  {
    if n < |text| {
      AsciiStep(text, n);
    }
  }

  lemma {:induction false} TakeCharsWithin(text: Bytes, n: nat)
    requires Validate(text).Valid?
    ensures Within(text, n, TakeChars(text, n))
    decreases |text|
  {
    if text != [] && n != 0 {
      TakeCharsStep(text, n);
      var k := ScanFront(text).len;
      TakeCharsPrefix(text[k..], n - 1);
      TakeCharsWithin(text[k..], n - 1);
      WithinStep(text, n, k, TakeChars(text[k..], n - 1));
    }
  }

  /** The token count keeps to the ceiling: it is the least number of four-byte tokens that holds the text, or the
      ceiling itself if the text was clipped. The clipped text keeps within four bytes per token if and only if it was
      short enough to begin with or its first `4 * maxTokens` bytes are all ASCII: characters are counted, not bytes. */
  lemma CeilingHolds(text: Bytes, maxTokens: nat)
    requires Validate(text).Valid?
    ensures var (content, tokens, hard) := EnforceTokenCeiling(text, maxTokens);
            && tokens <= maxTokens
            && (if hard then tokens == maxTokens else |content| <= 4 * tokens < |content| + 4)
            && content <= text && Validate(content).Valid?
            && (!hard <==> content == text && |text| <= maxTokens * 4)
            && (|content| <= maxTokens * 4
                <==> |text| <= maxTokens * 4 || Ascii(text, maxTokens * 4))
  {
    TakeCharsPrefix(text, maxTokens * 4);
    TakeCharsWithin(text, maxTokens * 4);
  }

  /** Three two-byte characters clipped to one token keep all their six bytes. */
  lemma CeilingOvershoots()
    ensures var text := [0xC3, 0xA9, 0xC3, 0xA9, 0xC3, 0xA9];
            Validate(text).Valid? && |EnforceTokenCeiling(text, 1).0| == 6 && EnforceTokenCeiling(text, 1).1 == 1
  {
    var text: Bytes := [0xC3, 0xA9, 0xC3, 0xA9, 0xC3, 0xA9];
    assert text[2..] == [0xC3, 0xA9, 0xC3, 0xA9];
    assert text[2..][2..] == [0xC3, 0xA9];
    assert text[2..][2..][2..] == [];
    assert |TakeChars([0xC3, 0xA9], 2)| == 2;
  }
}
