/** The whole diff pipeline: two texts to hunks, hunks to text, text back to hunks, and the
    old text patched with them (crates/impetus-core/src/diff_observation.rs). */
module DiffPipeline {
  import opened Text
  import opened LineDiff
  import opened DiffHunks
  import opened HunkReplay
  import opened ShownHunks
  import opened UnifiedDiff

  /** A changed line that looks like a file header once it carries its mark. */
  predicate LooksLikeHeader(before: seq<Line>, after: seq<Line>, e: Edit) {
    (e.Delete? && "-- " <= LineAt(before, e.bi)) || (e.Insert? && "++ " <= LineAt(after, e.ai))
  }

  lemma RenderedLine(before: seq<Line>, after: seq<Line>, e: Edit)
    ensures Marked(RenderLine(before, after, e))
    ensures Misread(RenderLine(before, after, e)) <==> LooksLikeHeader(before, after, e)
    ensures EndsCr(RenderLine(before, after, e)) <==> EndsCr(TextOf(before, after, e))
  {
    RenderedCr(before, after, e);
    var line := RenderLine(before, after, e);
    var text := line[1..];
    assert text == TextOf(before, after, e);
    assert "--- " == ['-'] + "-- " && "+++ " == ['+'] + "++ ";
    assert "--- " <= line <==> line[0] == '-' && "-- " <= text;
    assert "+++ " <= line <==> line[0] == '+' && "++ " <= text;
  }

  /** The line numbers of a hunk stay within the texts. */
  lemma StartsBounded(file: string, before: seq<Line>, after: seq<Line>, edits: seq<Edit>, s: Span)
    requires FullScript(before, after, edits) && DeletesLead(edits) && ValidSpan(edits, s)
    ensures var h := HunkAt(file, before, after, edits, s);
            && h.oldStart <= |before| + 1 && h.newStart <= |after| + 1
            && h.oldLines <= |before| && h.newLines <= |after| && h.oldLines + h.newLines > 0
  {
    OldStartExact(file, before, after, edits, s);
    ScriptSlice(before, after, edits, s.lo, s.hi);
    var slice := edits[s.lo..s.hi];
    SideLengths(slice);
    assert OldIndex(slice[0]) != [] || NewIndex(slice[0]) != [];
    EditIndex(before, after, edits, s.lo);
    if slice[0].Delete? {
      AfterLineAtHead(edits);
      assert slice[0].bi == 0 by {
        assert s.lo == 0 && edits[..0] == [];
      }
      var k := FirstKeep(edits);
      if k < |edits| {
        EditIndex(before, after, edits, k);
      }
    }
  }

  lemma RenderUnfed(before: seq<Line>, after: seq<Line>, s: seq<Edit>)
    requires Unfed(before) && Unfed(after)
    ensures forall l | l in Render(before, after, s) :: '\n' !in l && Marked(l)
  {
    var r := Render(before, after, s);
    forall k | 0 <= k < |r|
      ensures '\n' !in r[k] && Marked(r[k])
    {
      RenderedLine(before, after, s[k]);
      assert r[k] == [r[k][0]] + TextOf(before, after, s[k]);
    }
  }

  lemma PreviewShows(file: string, before: seq<Line>, after: seq<Line>, edits: seq<Edit>, s: Span)
    requires FullScript(before, after, edits) && ValidSpan(edits, s) && Unfed(before) && Unfed(after)
    ensures var lines := Render(before, after, ShownEdits(edits, s));
            && Shown(HunkAt(file, before, after, edits, s)) == lines
            && forall l | l in lines :: '\n' !in l && Marked(l)
  {
    ShownIs(before, after, edits, s);
    RenderUnfed(before, after, ShownEdits(edits, s));
    SplitOfJoin(Render(before, after, ShownEdits(edits, s)), '\n');
  }

  /** A hunk prints as a clean hunk, and its lines are those of the edits it shows. */
  lemma HunkIsClean(file: string, before: seq<Line>, after: seq<Line>, edits: seq<Edit>, s: Span)
    requires FullScript(before, after, edits) && DeletesLead(edits) && ValidSpan(edits, s)
    requires Unfed(before) && Unfed(after) && CleanPath(file)
    requires |before| < USIZE_MAX && |after| < USIZE_MAX
    ensures CleanHunk(HunkAt(file, before, after, edits, s))
    ensures Shown(HunkAt(file, before, after, edits, s)) == Render(before, after, ShownEdits(edits, s))
  {
    StartsBounded(file, before, after, edits, s);
    PreviewShows(file, before, after, edits, s);
  }

  /** No edit shown looks like a file header. */
  predicate NoLookalike(before: seq<Line>, after: seq<Line>, shown: seq<Edit>) {
    forall i | 0 <= i < |shown| :: !LooksLikeHeader(before, after, shown[i])
  }

  lemma ShownClear(before: seq<Line>, after: seq<Line>, shown: seq<Edit>, h: DiffHunk)
    requires Shown(h) == Render(before, after, shown)
    ensures Clear(h) <==> NoLookalike(before, after, shown)
  {
    var lines := Shown(h);
    forall i | 0 <= i < |shown|
      ensures Misread(lines[i]) <==> LooksLikeHeader(before, after, shown[i])
    {
      RenderedLine(before, after, shown[i]);
    }
  }

  lemma ShownCr(before: seq<Line>, after: seq<Line>, shown: seq<Edit>, h: DiffHunk, last: bool)
    requires Shown(h) == Render(before, after, shown)
    ensures NoCr(Shown(h), last) <==> NoCrShown(before, after, shown, last)
  {
    var lines := Shown(h);
    forall i | 0 <= i < |shown|
      ensures EndsCr(lines[i]) <==> EndsCr(TextOf(before, after, shown[i]))
    {
      RenderedLine(before, after, shown[i]);
    }
  }

  /** The hunks of a diff, hunk by hunk: clean, and spoilt in print exactly as their edits say. */
  lemma HunkPrints(file: string, before: seq<Line>, after: seq<Line>, edits: seq<Edit>, spans: seq<Span>,
                   hunks: seq<DiffHunk>, k: nat)
    requires FullScript(before, after, edits) && DeletesLead(edits) && Grouped(edits, spans)
    requires Unfed(before) && Unfed(after) && CleanPath(file)
    requires |before| < USIZE_MAX && |after| < USIZE_MAX
    requires HunksOf(file, before, after, edits, spans, hunks) && k < |hunks|
    ensures CleanHunk(hunks[k])
    ensures Clear(hunks[k]) <==> NoLookalike(before, after, ShownEdits(edits, spans[k]))
    ensures NoCr(Shown(hunks[k]), k == |hunks| - 1)
            <==> NoCrShown(before, after, ShownEdits(edits, spans[k]), k == |hunks| - 1)
  {
    assert spans[k] in spans;
    HunkIsClean(file, before, after, edits, spans[k]);
    ShownClear(before, after, ShownEdits(edits, spans[k]), hunks[k]);
    ShownCr(before, after, ShownEdits(edits, spans[k]), hunks[k], k == |hunks| - 1);
  }

  ghost predicate PrintsClear(before: seq<Line>, after: seq<Line>, edits: seq<Edit>, spans: seq<Span>) {
    forall k | 0 <= k < |spans| ::
      && spans[k].lo <= spans[k].hi <= |edits|
      && NoLookalike(before, after, ShownEdits(edits, spans[k]))
      && NoCrShown(before, after, ShownEdits(edits, spans[k]), k == |spans| - 1)
  }

  /** Diff two texts and print the hunks: parsing the print gives the hunks back exactly when no line shown looks
      like a file header once it carries its mark, and none but the very last ends in a carriage return. */
  lemma PrintedDiffReadsBack(file: string, before: seq<Line>, after: seq<Line>, edits: seq<Edit>, spans: seq<Span>,
                             hunks: seq<DiffHunk>)
    requires FullScript(before, after, edits) && DeletesLead(edits) && Grouped(edits, spans)
    requires Unfed(before) && Unfed(after) && CleanPath(file)
    requires |before| < USIZE_MAX && |after| < USIZE_MAX
    requires HunksOf(file, before, after, edits, spans, hunks) && |hunks| <= MAX_HUNKS
    ensures Parse(Join(Printed(hunks), '\n')) == hunks <==> PrintsClear(before, after, edits, spans)
  {
    forall k | 0 <= k < |hunks|
      ensures CleanHunk(hunks[k])
      ensures Clear(hunks[k]) <==> NoLookalike(before, after, ShownEdits(edits, spans[k]))
      ensures NoCr(Shown(hunks[k]), k == |hunks| - 1)
              <==> NoCrShown(before, after, ShownEdits(edits, spans[k]), k == |hunks| - 1)
    {
      HunkPrints(file, before, after, edits, spans, hunks, k);
    }
    PrintParseRoundTrip(hunks);
    if Parse(Join(Printed(hunks), '\n')) == hunks {
      forall k | 0 <= k < |spans|
        ensures NoLookalike(before, after, ShownEdits(edits, spans[k]))
        ensures NoCrShown(before, after, ShownEdits(edits, spans[k]), k == |spans| - 1)
      {
        assert Clear(hunks[k]);
      }
    }
  }

  /** A clear print keeps the carriage returns of each hunk. */
  lemma ClearKeepsCr(before: seq<Line>, after: seq<Line>, edits: seq<Edit>, spans: seq<Span>)
    requires PrintsClear(before, after, edits, spans)
    ensures CrKept(before, after, edits, spans)
  {
    forall k | 0 <= k < |spans|
      ensures spans[k].lo <= spans[k].hi <= |edits| && NoCrShown(before, after, ShownEdits(edits, spans[k]), true)
    {
      assert NoCrShown(before, after, ShownEdits(edits, spans[k]), k == |spans| - 1);
    }
  }

  /** Texts diffed, printed and parsed: where the print is read back, patching the old text with what was parsed
      yields the new text exactly when no change was left out and no hunk was cut. */
  lemma PrintedDiffPatches(file: string, before: seq<Line>, after: seq<Line>, edits: seq<Edit>, spans: seq<Span>,
                           hunks: seq<DiffHunk>, read: seq<DiffHunk>)
    requires Cheapest(before, after, edits) && DeletesLead(edits) && Grouped(edits, spans)
    requires Unfed(before) && Unfed(after) && CleanPath(file)
    requires |before| < USIZE_MAX && |after| < USIZE_MAX
    requires HunksOf(file, before, after, edits, spans, hunks) && |hunks| <= MAX_HUNKS
    requires PrintsClear(before, after, edits, spans) && read == Parse(Join(Printed(hunks), '\n'))
    ensures Patch(before, read) == Some(after)
            <==> AllCovered(edits, spans) && AllShort(spans, 0, MAX_HUNK_PREVIEW_LINES)
  {
    PrintedDiffReadsBack(file, before, after, edits, spans, hunks);
    PatchRead(file, before, after, edits, spans, hunks, read);
  }

  lemma PatchRead(file: string, before: seq<Line>, after: seq<Line>, edits: seq<Edit>, spans: seq<Span>,
                  hunks: seq<DiffHunk>, read: seq<DiffHunk>)
    requires Cheapest(before, after, edits) && DeletesLead(edits)
    requires Unfed(before) && Unfed(after) && PrintsClear(before, after, edits, spans)
    requires Grouped(edits, spans) && HunksOf(file, before, after, edits, spans, hunks) && read == hunks
    ensures Patch(before, read) == Some(after)
            <==> AllCovered(edits, spans) && AllShort(spans, 0, MAX_HUNK_PREVIEW_LINES)
  {
    ClearKeepsCr(before, after, edits, spans);
    PatchYieldsAfter(file, before, after, edits, spans, hunks);
  }

  /** Hunks and change counts between two texts. The counts are the least any script needs. The full slices behind
      the hunks patch the old lines to the new ones exactly when there are no more groups than hunks allowed, and
      the hunks as shown do so exactly when, besides, none was cut and none lost a carriage return. */
  method FromTexts(file: string, before: string, after: string)
    returns (hunks: seq<DiffHunk>, insertions: nat, deletions: nat, filesChanged: nat,
             ghost edits: seq<Edit>, ghost spans: seq<Span>, ghost all: seq<Span>)
    ensures filesChanged == if before == after then 0 else 1
    ensures Cheapest(Lines(before), Lines(after), edits) && insertions == Inserts(edits) && deletions == Deletes(edits)
    ensures |Lines(before)| + insertions == |Lines(after)| + deletions
    ensures FirstGroups(edits, spans, all) && HunksOf(file, Lines(before), Lines(after), edits, spans, hunks)
    ensures forall pieces | CutPieces(Lines(before), Lines(after), edits, spans, |edits|, pieces) ::
              PatchWith(Lines(before), 0, pieces) == Some(Lines(after)) <==> |all| <= MAX_HUNKS
    ensures Patch(Lines(before), hunks) == Some(Lines(after))
            <==> && |all| <= MAX_HUNKS && AllShort(spans, 0, MAX_HUNK_PREVIEW_LINES)
                 && CrKept(Lines(before), Lines(after), edits, spans)
    ensures CleanPath(file) && |Lines(before)| < USIZE_MAX && |Lines(after)| < USIZE_MAX ==>
              (Parse(Join(Printed(hunks), '\n')) == hunks <==> PrintsClear(Lines(before), Lines(after), edits, spans))
  {
    var b, a := Lines(before), Lines(after);
    var script := LineEdits(b, a);
    hunks, spans, all := EditsToHunks(file, b, a, script);
    insertions, deletions := CountInsertDelete(script);
    filesChanged := if before != after then 1 else 0;
    edits := script;
    SideLengths(script);
    forall pieces | CutPieces(b, a, script, spans, |script|, pieces)
      ensures PatchWith(b, 0, pieces) == Some(a) <==> |all| <= MAX_HUNKS
    {
      SlicesYieldAfter(b, a, script, spans, pieces);
    }
    LinesUnfed(before);
    LinesUnfed(after);
    PatchYieldsAfter(file, b, a, script, spans, hunks);
    if CleanPath(file) && |b| < USIZE_MAX && |a| < USIZE_MAX {
      PrintedDiffReadsBack(file, b, a, script, spans, hunks);
    }
  }
}
