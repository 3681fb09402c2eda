/** Patching with hunks as they are shown: cut at the bound on preview lines, and read back as `lines` reads a preview
    (crates/impetus-core/src/diff_observation.rs). */
module ShownHunks {
  import opened Text
  import opened LineDiff
  import opened DiffHunks
  import opened HunkReplay

  /** A text given as lines. */
  predicate Unfed(ls: seq<Line>) {
    forall l | l in ls :: '\n' !in l
  }

  lemma {:induction false} LinesUnfed(s: string)
    ensures Unfed(Lines(s))
    decreases |s|
  {
    if s != [] {
      var k := Find(s, '\n');
      if k == |s| {
        assert s[..k] == s;
      } else {
        LinesUnfed(s[k + 1..]);
        assert StripCr(s[..k]) <= s[..k];
      }
    }
  }

  /** The line an edit shows. */
  function TextOf(before: seq<Line>, after: seq<Line>, e: Edit): Line {
    if e.Insert? then LineAt(after, e.ai) else LineAt(before, e.bi)
  }

  /** The edits a hunk shows: those of its group, up to the bound on preview lines. */
  function ShownEdits(edits: seq<Edit>, s: Span): seq<Edit>
    requires s.lo <= s.hi <= |edits|
  {
    edits[s.lo..s.lo + Min(s.hi - s.lo, MAX_HUNK_PREVIEW_LINES)]
  }

  lemma ShownIs(before: seq<Line>, after: seq<Line>, edits: seq<Edit>, s: Span)
    requires s.lo <= s.hi <= |edits|
    ensures Clip(Render(before, after, edits[s.lo..s.hi])) == Render(before, after, ShownEdits(edits, s))
  {
  }

  /** No line shown ends in a carriage return, but perhaps the last one where that may stay. */
  predicate NoCrShown(before: seq<Line>, after: seq<Line>, shown: seq<Edit>, last: bool) {
    forall i | 0 <= i < |shown| && EndsCr(TextOf(before, after, shown[i])) :: last && i == |shown| - 1
  }

  //
  // Lines that lost a carriage return.
  //

  ghost predicate Faded(a: string, b: string) {
    b == a || b == StripCr(a)
  }

  ghost predicate FadedAll(a: seq<string>, b: seq<string>) {
    |a| == |b| && forall k | 0 <= k < |a| :: Faded(a[k], b[k])
  }

  ghost predicate FadedPiece(a: Piece, b: Piece) {
    a.oldStart == b.oldStart && a.oldLines == b.oldLines && FadedAll(a.body, b.body)
  }

  /** What a body yields when lines of it faded: nothing, or as many lines, not all the same. */
  ghost predicate Fades(r: Option<(seq<Line>, nat)>, out: seq<Line>, p: nat, same: bool) {
    r.None? || (r.value.1 == p && |r.value.0| == |out| && (r.value.0 == out ==> same))
  }

  lemma FadedTail(a: seq<string>, b: seq<string>)
    requires FadedAll(a, b) && a != []
    ensures FadedAll(a[1..], b[1..]) && Faded(a[0], b[0])
    ensures a == b <==> a[0] == b[0] && a[1..] == b[1..]
  {
    assert a == [a[0]] + a[1..] && b == [b[0]] + b[1..];
  }

  /** A marked line that faded keeps its mark and not its text. */
  lemma FadedLine(a: string, b: string)
    requires a != [] && a[0] != '\r' && Faded(a, b) && b != a
    ensures b != [] && b[0] == a[0] && b[1..] != a[1..]
  {
    assert |b| == |a| - 1;
  }

  lemma HeadsApart(x: Line, y: Line, a: seq<Line>, b: seq<Line>)
    ensures [x] + a == [y] + b <==> x == y && a == b
  {
    assert ([x] + a)[0] == x && ([y] + b)[0] == y;
    assert ([x] + a)[1..] == a && ([y] + b)[1..] == b;
  }

  lemma {:induction false} FadedBody(before: seq<Line>, i: nat, a: seq<string>, b: seq<string>, out: seq<Line>, p: nat)
    requires ApplyBody(before, i, a) == Some((out, p)) && FadedAll(a, b)
    ensures Fades(ApplyBody(before, i, b), out, p, a == b)
    decreases |a|
  {
    if a != [] {
      FadedTail(a, b);
      var mark, text := a[0][0], a[0][1..];
      var i' := if mark == '+' then i else i + 1;
      var (rest, _) := ApplyBody(before, i', a[1..]).value;
      FadedBody(before, i', a[1..], b[1..], rest, p);
      var r := ApplyBody(before, i', b[1..]);
      if b[0] != a[0] {
        FadedLine(a[0], b[0]);
      }
      if r.Some? {
        HeadsApart(text, b[0][1..], rest, r.value.0);
        assert [] + rest == rest && [] + r.value.0 == r.value.0;
      }
    }
  }

  /** Where the old text is taken up again after some pieces. */
  function Stop(pos: nat, pieces: seq<Piece>): int {
    if pieces == [] then pos else pieces[|pieces|-1].oldStart - 1 + pieces[|pieces|-1].oldLines
  }

  /** Two texts of one length that differ before their last `tail` lines. */
  ghost predicate Apart(a: seq<Line>, b: seq<Line>, tail: int) {
    |a| == |b| && 0 <= tail <= |a| && a[..|a| - tail] != b[..|b| - tail]
  }

  /** What a patch yields when its pieces faded: nothing, or what the pieces yield, with lines changed by them. */
  ghost predicate FadesPatch(r: Option<seq<Line>>, r': Option<seq<Line>>, tail: int, same: bool) {
    r'.None? || (r.Some? && |r.value| == |r'.value| && 0 <= tail <= |r.value|
                 && (same || Apart(r.value, r'.value, tail)))
  }

  lemma ApartFrom(x: seq<Line>, a: seq<Line>, b: seq<Line>, out: seq<Line>, out': seq<Line>, tail: int)
    requires |a| == |b| && |out| == |out'| && 0 <= tail <= |a|
    requires out != out' || Apart(a, b, tail)
    ensures Apart(x + out + a, x + out' + b, tail)
  {
    var n := |a| - tail;
    var all, all' := x + out + a, x + out' + b;
    assert all[..|all| - tail] == x + out + a[..n] && all'[..|all| - tail] == x + out' + b[..n];
    var front, front' := x + out + a[..n], x + out' + b[..n];
    assert front[|x|..|x| + |out|] == out && front'[|x|..|x| + |out|] == out';
    assert front[|x| + |out|..] == a[..n] && front'[|x| + |out|..] == b[..n];
  }

  ghost predicate Applies(before: seq<Line>, h: Piece) {
    h.oldStart >= 1 && ApplyBody(before, h.oldStart - 1, h.body).Some?
  }

  /** Copied lines, one piece, and what the pieces after it yield. */
  function Resume(before: seq<Line>, pos: nat, h: Piece, rest: Option<seq<Line>>): Option<seq<Line>> {
    if h.oldStart == 0 || h.oldStart - 1 < pos || h.oldStart - 1 > |before| then None
    else
      match ApplyBody(before, h.oldStart - 1, h.body)
      case None => None
      case Some((out, p)) =>
        if p != h.oldStart - 1 + h.oldLines || rest.None? then None
        else Some(before[pos..h.oldStart - 1] + out + rest.value)
  }

  lemma PatchResumes(before: seq<Line>, pos: nat, pieces: seq<Piece>, rest: Option<seq<Line>>)
    requires pieces != [] && pieces[0].oldStart >= 1
    requires rest == PatchWith(before, pieces[0].oldStart - 1 + pieces[0].oldLines, pieces[1..])
    ensures PatchWith(before, pos, pieces) == Resume(before, pos, pieces[0], rest)
  {
  }

  ghost predicate FadedPieces(before: seq<Line>, a: seq<Piece>, b: seq<Piece>) {
    |a| == |b| && forall k | 0 <= k < |a| :: Applies(before, a[k]) && FadedPiece(a[k], b[k])
  }

  lemma FadedPiecesTail(before: seq<Line>, a: seq<Piece>, b: seq<Piece>, pos: nat)
    requires FadedPieces(before, a, b) && a != []
    ensures Applies(before, a[0]) && FadedPiece(a[0], b[0]) && FadedPieces(before, a[1..], b[1..])
    ensures a == b <==> a[0] == b[0] && a[1..] == b[1..]
    ensures Stop(a[0].oldStart - 1 + a[0].oldLines, a[1..]) == Stop(pos, a)
  {
    assert a == [a[0]] + a[1..] && b == [b[0]] + b[1..];
  }

  /** The results of two lists of pieces are as they are when the one is the other faded. */
  ghost predicate FadesTo(before: seq<Line>, pos: nat, a: seq<Piece>, b: seq<Piece>, r: Option<seq<Line>>,
                          r': Option<seq<Line>>) {
    FadesPatch(r, r', |before| - Stop(pos, a), a == b)
  }

  lemma {:induction false} FadedPatch(before: seq<Line>, pos: nat, a: seq<Piece>, b: seq<Piece>)
    returns (r: Option<seq<Line>>, r': Option<seq<Line>>)
    requires FadedPieces(before, a, b)
    ensures r == PatchWith(before, pos, a) && r' == PatchWith(before, pos, b) && FadesTo(before, pos, a, b, r, r')
    decreases |a|
  {
    if a == [] {
      assert b == [];
      r, r' := PatchWith(before, pos, a), PatchWith(before, pos, a);
    } else {
      FadedPiecesTail(before, a, b, pos);
      var next := a[0].oldStart - 1 + a[0].oldLines;
      var rest, rest' := FadedPatch(before, next, a[1..], b[1..]);
      PatchResumes(before, pos, a, rest);
      PatchResumes(before, pos, b, rest');
      r, r' := Resume(before, pos, a[0], rest), Resume(before, pos, b[0], rest');
      FadedPut(before, pos, a, b, next, rest, rest');
    }
  }

  lemma FadedPut(before: seq<Line>, pos: nat, a: seq<Piece>, b: seq<Piece>, next: nat, r: Option<seq<Line>>,
                 r': Option<seq<Line>>)
    requires FadedPieces(before, a, b) && a != [] && next == a[0].oldStart - 1 + a[0].oldLines
    requires FadesTo(before, next, a[1..], b[1..], r, r')
    ensures FadesTo(before, pos, a, b, Resume(before, pos, a[0], r), Resume(before, pos, b[0], r'))
  {
    FadedPiecesTail(before, a, b, pos);
    FadedStep(before, pos, a[0], b[0], r, r', |before| - Stop(pos, a), a[1..] == b[1..]);
  }

  lemma FadedStep(before: seq<Line>, pos: nat, h: Piece, h': Piece, r: Option<seq<Line>>, r': Option<seq<Line>>,
                  tail: int, same: bool)
    requires Applies(before, h) && FadedPiece(h, h') && FadesPatch(r, r', tail, same)
    ensures FadesPatch(Resume(before, pos, h, r), Resume(before, pos, h', r'), tail, h == h' && same)
  {
    var start := h.oldStart - 1;
    var (out, p) := ApplyBody(before, start, h.body).value;
    FadedBody(before, start, h.body, h'.body, out, p);
    var applied := ApplyBody(before, start, h'.body);
    if pos <= start <= |before| && applied.Some? {
      FadedJoin(before[pos..start], r, r', out, applied.value.0, tail, same);
    }
  }

  lemma FadedJoin(x: seq<Line>, r: Option<seq<Line>>, r': Option<seq<Line>>, out: seq<Line>, out': seq<Line>,
                  tail: int, same: bool)
    requires FadesPatch(r, r', tail, same) && |out| == |out'|
    ensures r'.Some? ==> FadesPatch(Some(x + out + r.value), Some(x + out' + r'.value), tail, out == out' && same)
  {
    if r'.Some? && !(out == out' && same) {
      ApartFrom(x, r.value, r'.value, out, out', tail);
    }
  }

  //
  // Faded pieces of groups.
  //

  lemma GroupApplies(before: seq<Line>, after: seq<Line>, edits: seq<Edit>, s: Span, cap: nat)
    requires FullScript(before, after, edits) && DeletesLead(edits) && ValidSpan(edits, s)
    ensures var h := CutPiece(before, after, edits, s, cap);
            Applies(before, h) && h.oldStart - 1 + h.oldLines == OldBefore(edits, s.hi)
  {
    CutStands(before, after, edits, s, cap, CutPiece(before, after, edits, s, cap), s.lo + Min(s.hi - s.lo, cap));
  }

  lemma GroupsApply(before: seq<Line>, after: seq<Line>, edits: seq<Edit>, spans: seq<Span>, cap: nat,
                    pieces: seq<Piece>)
    requires FullScript(before, after, edits) && DeletesLead(edits)
    requires Grouped(edits, spans) && CutPieces(before, after, edits, spans, cap, pieces) && spans != []
    ensures forall k | 0 <= k < |pieces| :: Applies(before, pieces[k])
    ensures Stop(0, pieces) == OldBefore(edits, End(spans))
  {
    forall k | 0 <= k < |pieces|
      ensures Applies(before, pieces[k])
      ensures k == |pieces| - 1 ==> Stop(0, pieces) == OldBefore(edits, End(spans))
    {
      assert spans[k] in spans;
      GroupApplies(before, after, edits, spans[k], cap);
    }
    assert Stop(0, pieces) == OldBefore(edits, End(spans)) by {
      var k := |pieces| - 1;
      assert spans[k] in spans;
      GroupApplies(before, after, edits, spans[k], cap);
    }
  }

  /** A text apart from the target of the groups is not the new text. */
  lemma ApartIsNotAfter(after: seq<Line>, rest: seq<Line>, j: nat, r': seq<Line>)
    requires j <= |after| && Apart(after[0..j] + rest, r', |rest|)
    ensures r' != after
  {
    assert (after[0..j] + rest)[..j] == after[..j];
  }

  /** With a line of theirs faded, the pieces of groups do not yield the new text. */
  lemma FadedMisses(before: seq<Line>, after: seq<Line>, edits: seq<Edit>, spans: seq<Span>, cap: nat,
                    a: seq<Piece>, b: seq<Piece>)
    requires FullScript(before, after, edits) && DeletesLead(edits)
    requires Grouped(edits, spans) && CutPieces(before, after, edits, spans, cap, a)
    requires |a| == |b| && (forall k | 0 <= k < |a| :: FadedPiece(a[k], b[k])) && a != b
    ensures PatchWith(before, 0, b) != Some(after)
  {
    GroupsApply(before, after, edits, spans, cap, a);
    assert FadedPieces(before, a, b);
    var r, r' := FadedPatch(before, 0, a, b);
    PatchFrom(before, after, edits, spans, cap, a, 0);
    assert spans[..0] == [] && a[0..] == a;
    var end := End(spans);
    TargetIsAfter(before, after, edits, end);
    if r'.Some? {
      if AllShort(spans, 0, cap) {
        ApartIsNotAfter(after, before[OldBefore(edits, end)..], NewBefore(edits, end), r'.value);
      } else {
        assert Quiet(edits, |edits|, |edits|);
      }
    }
  }

  //
  // Previews.
  //

  lemma RenderFed(before: seq<Line>, after: seq<Line>, s: seq<Edit>)
    requires Unfed(before) && Unfed(after)
    ensures FedLines(Render(before, after, s))
  {
    var r := Render(before, after, s);
    forall k | 0 <= k < |r|
      ensures Fed(r[k])
    {
      assert r[k] == [r[k][0]] + TextOf(before, after, s[k]);
    }
  }

  lemma AsReadAt(ls: seq<string>, i: nat)
    requires i < |ls|
    ensures AsRead(ls)[i] == if i < |ls| - 1 then StripCr(ls[i]) else ls[i]
  {
  }

  /** What `lines` reads differs exactly where a line but the last ends in a carriage return. */
  lemma AsReadFades(ls: seq<string>)
    ensures FadedAll(ls, AsRead(ls))
    ensures AsRead(ls) == ls <==> forall i | 0 <= i < |ls| - 1 :: !EndsCr(ls[i])
  {
    var read := AsRead(ls);
    forall i | 0 <= i < |ls|
      ensures Faded(ls[i], read[i])
      ensures read[i] == ls[i] <==> i == |ls| - 1 || !EndsCr(ls[i])
    {
      AsReadAt(ls, i);
    }
  }

  lemma RenderedCr(before: seq<Line>, after: seq<Line>, e: Edit)
    ensures EndsCr(RenderLine(before, after, e)) <==> EndsCr(TextOf(before, after, e))
  {
    var line, text := RenderLine(before, after, e), TextOf(before, after, e);
    assert line == [line[0]] + text;
  }

  /** A hunk's preview reads as its slice, cut at the bound, with carriage returns lost but for the last line's. */
  lemma PreviewReads(file: string, before: seq<Line>, after: seq<Line>, edits: seq<Edit>, s: Span, h: DiffHunk)
    requires Unfed(before) && Unfed(after) && s.lo < s.hi <= |edits| && h == HunkAt(file, before, after, edits, s)
    ensures var whole, read := CutPiece(before, after, edits, s, MAX_HUNK_PREVIEW_LINES),
                               Piece(h.oldStart, h.oldLines, Lines(h.preview));
            FadedPiece(whole, read) && (read == whole <==> NoCrShown(before, after, ShownEdits(edits, s), true))
  {
    var body := Render(before, after, ShownEdits(edits, s));
    ShownIs(before, after, edits, s);
    RenderFed(before, after, ShownEdits(edits, s));
    LinesOfJoinAny(body);
    AsReadFades(body);
    forall i | 0 <= i < |body|
      ensures EndsCr(body[i]) <==> EndsCr(TextOf(before, after, ShownEdits(edits, s)[i]))
    {
      RenderedCr(before, after, ShownEdits(edits, s)[i]);
    }
  }

  /** Each hunk keeps the carriage returns of the lines it shows: only its last line may end in one. */
  ghost predicate CrKept(before: seq<Line>, after: seq<Line>, edits: seq<Edit>, spans: seq<Span>) {
    forall k | 0 <= k < |spans| ::
      spans[k].lo <= spans[k].hi <= |edits| && NoCrShown(before, after, ShownEdits(edits, spans[k]), true)
  }

  /** The cut slices behind hunks, which the hunks are exactly when carriage returns are kept. */
  lemma PreviewsFade(file: string, before: seq<Line>, after: seq<Line>, edits: seq<Edit>, spans: seq<Span>,
                     hunks: seq<DiffHunk>)
    returns (a: seq<Piece>)
    requires Unfed(before) && Unfed(after) && HunksOf(file, before, after, edits, spans, hunks)
    ensures CutPieces(before, after, edits, spans, MAX_HUNK_PREVIEW_LINES, a)
    ensures |a| == |PiecesOf(hunks)| && forall k | 0 <= k < |a| :: FadedPiece(a[k], PiecesOf(hunks)[k])
    ensures a == PiecesOf(hunks) <==> CrKept(before, after, edits, spans)
  {
    a := seq(|spans|, k requires 0 <= k < |spans| => CutPiece(before, after, edits, spans[k], MAX_HUNK_PREVIEW_LINES));
    forall k | 0 <= k < |spans|
      ensures FadedPiece(a[k], PiecesOf(hunks)[k])
      ensures a[k] == PiecesOf(hunks)[k] <==> NoCrShown(before, after, ShownEdits(edits, spans[k]), true)
    {
      PreviewReads(file, before, after, edits, spans[k], hunks[k]);
    }
  }

  /** Patching the old text with hunks as they are shown yields the new text exactly when no change was left out, no
      hunk was cut, and in each no line shown but the last ends in a carriage return. */
  lemma PatchYieldsAfter(file: string, before: seq<Line>, after: seq<Line>, edits: seq<Edit>, spans: seq<Span>,
                         hunks: seq<DiffHunk>)
    requires Cheapest(before, after, edits) && DeletesLead(edits)
    requires Unfed(before) && Unfed(after)
    requires Grouped(edits, spans) && HunksOf(file, before, after, edits, spans, hunks)
    ensures Patch(before, hunks) == Some(after)
            <==> && AllCovered(edits, spans) && AllShort(spans, 0, MAX_HUNK_PREVIEW_LINES)
                 && CrKept(before, after, edits, spans)
  {
    var a := PreviewsFade(file, before, after, edits, spans, hunks);
    if CrKept(before, after, edits, spans) {
      PatchAll(before, after, edits, spans, MAX_HUNK_PREVIEW_LINES, a);
    } else {
      FadedMisses(before, after, edits, spans, MAX_HUNK_PREVIEW_LINES, a, PiecesOf(hunks));
    }
  }

  //
  // Files written anew.
  //

  lemma {:induction false} OnlyInserts(after: seq<Line>, s: seq<Edit>, j: nat)
    requires Script([], after, s, 0, 0, j, |after|)
    ensures |s| == |after| - j && forall k | 0 <= k < |s| :: s[k].Insert?
    decreases |s|
  {
    if s != [] {
      ScriptHead([], after, s, 0, 0, j, |after|);
      OnlyInserts(after, s[1..], j + 1);
      assert forall k | 0 < k < |s| :: s[k] == s[1..][k - 1];
    }
  }

  lemma OneGroup(edits: seq<Edit>, spans: seq<Span>)
    requires edits != [] && forall k | 0 <= k < |edits| :: edits[k].Insert?
    requires Grouped(edits, spans) && AllCovered(edits, spans)
    ensures spans == [Span(0, 0, |edits| - 1, |edits|)]
  {
    var s := Span(0, 0, |edits| - 1, |edits|);
    assert ValidSpan(edits, s) by {
      forall p: nat | p + 2 * CONTEXT <= s.last
        ensures !QuietRun(edits, p)
      {
        assert edits[p].Insert?;
      }
    }
    assert Grouped(edits, [s]) && AllCovered(edits, [s]);
    GroupingUnique(edits, spans, [s], 0);
  }

  /** More than eighty lines written to an empty file do not survive: whatever the script and its groups, the hunks
      shown do not patch the empty text to the new one. */
  lemma LongHunkIsCut(file: string, after: seq<Line>, edits: seq<Edit>, spans: seq<Span>, hunks: seq<DiffHunk>)
    requires Cheapest([], after, edits) && DeletesLead(edits) && Unfed(after) && |after| > MAX_HUNK_PREVIEW_LINES
    requires Grouped(edits, spans) && AllCovered(edits, spans) && HunksOf(file, [], after, edits, spans, hunks)
    ensures Patch([], hunks) != Some(after)
  {
    OnlyInserts(after, edits, 0);
    OneGroup(edits, spans);
    PatchYieldsAfter(file, [], after, edits, spans, hunks);
    assert !Short(spans[0], MAX_HUNK_PREVIEW_LINES);
  }

  /** Nor do two lines of which the first ends in a carriage return. */
  lemma CarriageReturnIsLost(file: string, after: seq<Line>, edits: seq<Edit>, spans: seq<Span>, hunks: seq<DiffHunk>)
    requires Cheapest([], after, edits) && DeletesLead(edits) && Unfed(after) && |after| >= 2 && EndsCr(after[0])
    requires Grouped(edits, spans) && AllCovered(edits, spans) && HunksOf(file, [], after, edits, spans, hunks)
    ensures Patch([], hunks) != Some(after)
  {
    OnlyInserts(after, edits, 0);
    ScriptHead([], after, edits, 0, 0, 0, |after|);
    OneGroup(edits, spans);
    PatchYieldsAfter(file, [], after, edits, spans, hunks);
    assert ShownEdits(edits, spans[0])[0] == Insert(0);
    assert !NoCrShown([], after, ShownEdits(edits, spans[0]), true);
  }
}
