/** Where hunks sit in the two texts, and what patching the old text with them yields. */
module HunkReplay {
  import opened Text
  import opened LineDiff
  import opened DiffHunks

  /** Old and new lines used up by the first `k` edits. */
  function OldBefore(edits: seq<Edit>, k: nat): nat
    requires k <= |edits|
  {
    |OldSide(edits[..k])|
  }

  function NewBefore(edits: seq<Edit>, k: nat): nat
    requires k <= |edits|
  {
    |NewSide(edits[..k])|
  }

  /** A slice of a full script is a script between the lines its ends stand at. */
  lemma ScriptSlice(before: seq<Line>, after: seq<Line>, edits: seq<Edit>, lo: nat, hi: nat)
    requires FullScript(before, after, edits) && lo <= hi <= |edits|
    ensures OldBefore(edits, lo) <= OldBefore(edits, hi) <= |before|
    ensures NewBefore(edits, lo) <= NewBefore(edits, hi) <= |after|
    ensures Script(before, after, edits[lo..hi], OldBefore(edits, lo), OldBefore(edits, hi),
                   NewBefore(edits, lo), NewBefore(edits, hi))
    ensures |OldSide(edits[lo..hi])| == OldBefore(edits, hi) - OldBefore(edits, lo)
    ensures |NewSide(edits[lo..hi])| == NewBefore(edits, hi) - NewBefore(edits, lo)
  {
    assert edits == edits[..hi] + edits[hi..];
    assert edits[..hi] == edits[..lo] + edits[lo..hi];
    SidesAppend(edits[..hi], edits[hi..]);
    SidesAppend(edits[..lo], edits[lo..hi]);
    CountsSplit(OldSide(edits[..hi]), OldSide(edits[hi..]), 0, |before|);
    CountsSplit(NewSide(edits[..hi]), NewSide(edits[hi..]), 0, |after|);
    CountsSplit(OldSide(edits[..lo]), OldSide(edits[lo..hi]), 0, OldBefore(edits, hi));
    CountsSplit(NewSide(edits[..lo]), NewSide(edits[lo..hi]), 0, NewBefore(edits, hi));
  }

  /** The indices an edit carries are the numbers of lines used up before it. */
  lemma EditIndex(before: seq<Line>, after: seq<Line>, edits: seq<Edit>, k: nat)
    requires FullScript(before, after, edits) && k < |edits|
    ensures !edits[k].Insert? ==> edits[k].bi == OldBefore(edits, k) < |before|
    ensures !edits[k].Delete? ==> edits[k].ai == NewBefore(edits, k) < |after|
  {
    ScriptSlice(before, after, edits, k, k + 1);
    assert edits[k..k + 1] == [edits[k]];
    ScriptHead(before, after, [edits[k]], OldBefore(edits, k), OldBefore(edits, k + 1),
               NewBefore(edits, k), NewBefore(edits, k + 1));
  }

  //
  // Line numbers.
  //

  lemma {:induction false} HeadKeepIsFirstLine(before: seq<Line>, after: seq<Line>, s: seq<Edit>, j: nat, x: nat)
    requires Script(before, after, s, 0, |before|, j, |after|)
    requires NoDeleteAtHead(s) && x <= j
    ensures BeforeLineForInsert(s, x) == 1
    decreases |s|
  {
    if s != [] {
      ScriptHead(before, after, s, 0, |before|, j, |after|);
      if s[0].Insert? {
        HeadKeepIsFirstLine(before, after, s[1..], j + 1, x);
      }
    }
  }

  /** `old_start - 1` is the number of old lines before the hunk, for every hunk. */
  lemma OldStartExact(file: string, before: seq<Line>, after: seq<Line>, edits: seq<Edit>, s: Span)
    requires FullScript(before, after, edits) && DeletesLead(edits) && ValidSpan(edits, s)
    ensures HunkAt(file, before, after, edits, s).oldStart == OldBefore(edits, s.lo) + 1
  {
    var e := edits[s.lo];
    assert edits[s.lo..s.hi][0] == e;
    EditIndex(before, after, edits, s.lo);
    if e.Insert? {
      assert s.lo == 0;
      assert edits[..0] == [];
      ScriptHead(before, after, edits, 0, |before|, 0, |after|);
      HeadKeepIsFirstLine(before, after, edits[1..], 1, 0);
    }
  }

  /** Index of the first Keep, or the length. */
  function FirstKeep(edits: seq<Edit>): (k: nat)
    ensures k <= |edits|
    ensures k < |edits| ==> edits[k].Keep?
    ensures forall i | 0 <= i < k :: !edits[i].Keep?
  {
    if edits == [] || edits[0].Keep? then 0 else 1 + FirstKeep(edits[1..])
  }

  lemma {:induction false} AfterLineAtHead(edits: seq<Edit>)
    ensures var k := FirstKeep(edits);
            AfterLineForDelete(edits, 0) == if k < |edits| then edits[k].ai + 1 else 1
  {
    if edits != [] && !edits[0].Keep? {
      AfterLineAtHead(edits[1..]);
    }
  }

  lemma {:induction false} NoKeeps(s: seq<Edit>)
    requires forall k | 0 <= k < |s| :: !s[k].Keep?
    ensures Keeps(s) == 0
  {
    if s != [] {
      assert forall k | 0 <= k < |s[1..]| :: s[1..][k] == s[k + 1];
      NoKeeps(s[1..]);
    }
  }

  /** The guard of the branch that misplaces a hunk: the script opens with a deletion, and an
      insertion comes before its first Keep. */
  predicate OpensWithReplacement(edits: seq<Edit>) {
    && edits != [] && edits[0].Delete?
    && FirstKeep(edits) < |edits|
    && Inserts(edits[..FirstKeep(edits)]) > 0
  }

  /** `new_start - 1` is the number of new lines before the hunk, except for a hunk at the very
      start of a script that opens with a replacement. */
  lemma NewStartExact(file: string, before: seq<Line>, after: seq<Line>, edits: seq<Edit>, s: Span)
    requires FullScript(before, after, edits) && ValidSpan(edits, s)
    ensures HunkAt(file, before, after, edits, s).newStart == NewBefore(edits, s.lo) + 1
            <==> !(s.lo == 0 && OpensWithReplacement(edits))
  {
    var e := edits[s.lo];
    assert edits[s.lo..s.hi][0] == e;
    EditIndex(before, after, edits, s.lo);
    if e.Delete? {
      assert s.lo == 0 && edits[..0] == [];
      AfterLineAtHead(edits);
      var k := FirstKeep(edits);
      if k < |edits| {
        EditIndex(before, after, edits, k);
        NoKeeps(edits[..k]);
        SideLengths(edits[..k]);
      }
    }
  }

  /** Replacing the first line of a two-line text puts `new_start` at 2 although no new line precedes the hunk,
      whichever cheapest script of its shape the differ finds: there is only one. */
  lemma NewStartMisplaced(edits: seq<Edit>)
    requires Cheapest(["a", "c"], ["b", "c"], edits) && DeletesLead(edits)
    ensures edits == [Delete(0), Insert(0), Keep(1, 1)] && ValidSpan(edits, Span(0, 0, 1, 3))
    ensures HunkAt("f", ["a", "c"], ["b", "c"], edits, Span(0, 0, 1, 3)).newStart == 2 && NewBefore(edits, 0) == 0
  {
    ReplacementScript();
    OnlyReplacement(edits);
    assert edits[1..] == [Insert(0), Keep(1, 1)];
    assert edits[1..][1..] == [Keep(1, 1)];
    assert edits[0..3] == edits && edits[..0] == [];
    assert AfterLineForDelete([Keep(1, 1)], 0) == 2;
  }

  lemma ReplacementScript()
    ensures var edits := [Delete(0), Insert(0), Keep(1, 1)];
            FullScript(["a", "c"], ["b", "c"], edits) && Cost(edits) == 2
  {
    var edits := [Delete(0), Insert(0), Keep(1, 1)];
    assert edits[1..] == [Insert(0), Keep(1, 1)];
    assert edits[1..][1..] == [Keep(1, 1)];
    assert OldSide([Keep(1, 1)]) == [1] && NewSide([Keep(1, 1)]) == [1] && Cost([Keep(1, 1)]) == 0;
    assert OldSide(edits) == [0, 1] && NewSide(edits) == [0, 1];
  }

  lemma OnlyReplacement(edits: seq<Edit>)
    requires FullScript(["a", "c"], ["b", "c"], edits) && Cost(edits) <= 2 && DeletesLead(edits)
    ensures edits == [Delete(0), Insert(0), Keep(1, 1)]
  {
    var before, after := ["a", "c"], ["b", "c"];
    SideLengths(edits);
    ScriptHead(before, after, edits, 0, 2, 0, 2);
    var s1 := edits[1..];
    if edits[0].Insert? {
      NoDeleteNoScript(s1);
    } else {
      assert edits[0] == Delete(0);
      SideLengths(s1);
      ScriptHead(before, after, s1, 1, 2, 0, 2);
      var s2 := s1[1..];
      assert s1[0] == Insert(0);
      SideLengths(s2);
      ScriptHead(before, after, s2, 1, 2, 1, 2);
      assert s2[0] == Keep(1, 1);
      SideLengths(s2[1..]);
      NoCostNoEdits(s2[1..]);
      assert s2 == [s2[0]] + s2[1..] && s1 == [s1[0]] + s2 && edits == [edits[0]] + s1;
    }
  }

  lemma NoCostNoEdits(s: seq<Edit>)
    requires OldSide(s) == [] && NewSide(s) == []
    ensures s == []
  {
  }

  lemma NoDeleteNoScript(s: seq<Edit>)
    requires NoDeleteAtHead(s)
    ensures !Script(["a", "c"], ["b", "c"], s, 0, 2, 1, 2)
  {
    var before, after := ["a", "c"], ["b", "c"];
    if Script(before, after, s, 0, 2, 1, 2) {
      ScriptHead(before, after, s, 0, 2, 1, 2);
      if s[1..] != [] {
        ScriptHead(before, after, s[1..], 0, 2, 2, 2);
      }
    }
  }

  //
  // Patching.
  //

  /** Runs the body of a hunk on the old text from line `pos`, checking context and deleted lines.
      Yields the new lines and the old line reached. */
  function ApplyBody(before: seq<Line>, pos: nat, body: seq<string>): Option<(seq<Line>, nat)>
    decreases |body|
  {
    if body == [] then Some(([], pos))
    else if body[0] == [] then None
    else
      var mark, text := body[0][0], body[0][1..];
      if mark == '+' then
        match ApplyBody(before, pos, body[1..])
        case None => None
        case Some((out, p)) => Some(([text] + out, p))
      else if (mark == ' ' || mark == '-') && pos < |before| && before[pos] == text then
        match ApplyBody(before, pos + 1, body[1..])
        case None => None
        case Some((out, p)) => Some(((if mark == ' ' then [text] else []) + out, p))
      else None
  }

  /** A piece of a patch: where it applies, how many old lines it uses up, and its lines. */
  datatype Piece = Piece(oldStart: nat, oldLines: nat, body: seq<string>)

  /** Patches the old text from line `pos` on: lines up to each piece are copied, and each piece
      must apply where it says and use up as many old lines as it says. */
  function PatchWith(before: seq<Line>, pos: nat, pieces: seq<Piece>): Option<seq<Line>>
    decreases |pieces|
  {
    if pieces == [] then
      if pos <= |before| then Some(before[pos..]) else None
    else
      var h := pieces[0];
      if h.oldStart == 0 || h.oldStart - 1 < pos || h.oldStart - 1 > |before| then None
      else
        match ApplyBody(before, h.oldStart - 1, h.body)
        case None => None
        case Some((out, p)) =>
          if p != h.oldStart - 1 + h.oldLines then None
          else
            match PatchWith(before, p, pieces[1..])
            case None => None
            case Some(rest) => Some(before[pos..h.oldStart - 1] + out + rest)
  }

  /** What hunks say as a patch. */
  function PiecesOf(hunks: seq<DiffHunk>): (r: seq<Piece>)
    ensures |r| == |hunks|
    ensures forall k | 0 <= k < |hunks| ::
              r[k] == Piece(hunks[k].oldStart, hunks[k].oldLines, Lines(hunks[k].preview))
  {
    if hunks == [] then []
    else
      var h := hunks[|hunks|-1];
      PiecesOf(hunks[..|hunks|-1]) + [Piece(h.oldStart, h.oldLines, Lines(h.preview))]
  }

  function Patch(before: seq<Line>, hunks: seq<DiffHunk>): Option<seq<Line>> {
    PatchWith(before, 0, PiecesOf(hunks))
  }

  /** The piece of a group, cut after `cap` lines. */
  function CutPiece(before: seq<Line>, after: seq<Line>, edits: seq<Edit>, s: Span, cap: nat): Piece
    requires s.lo < s.hi <= |edits|
  {
    var slice := edits[s.lo..s.hi];
    Piece(OldStart(edits, slice[0]), |OldSide(slice)|, Render(before, after, slice)[..Min(|slice|, cap)])
  }

  ghost predicate CutPieces(before: seq<Line>, after: seq<Line>, edits: seq<Edit>, spans: seq<Span>, cap: nat,
                            pieces: seq<Piece>) {
    && |pieces| == |spans|
    && forall k | 0 <= k < |spans| ::
         spans[k].lo < spans[k].hi <= |edits| && pieces[k] == CutPiece(before, after, edits, spans[k], cap)
  }

  predicate Short(s: Span, cap: nat) {
    s.hi - s.lo <= cap
  }

  lemma TakeFirst(s: seq<Line>, j0: nat, j1: nat)
    requires j0 <= j1 <= |s|
    ensures j0 < j1 ==> s[j0..j1] == [s[j0]] + s[j0 + 1..j1]
  {
  }

  lemma ApplyKept(before: seq<Line>, i: nat, body: seq<string>, out: seq<Line>, p: nat)
    requires i < |before| && body != [] && body[0] == [' '] + before[i]
    requires ApplyBody(before, i + 1, body[1..]) == Some((out, p))
    ensures ApplyBody(before, i, body) == Some(([before[i]] + out, p))
  {
    assert body[0][1..] == before[i];
  }

  lemma ApplyDeleted(before: seq<Line>, i: nat, body: seq<string>, out: seq<Line>, p: nat)
    requires i < |before| && body != [] && body[0] == ['-'] + before[i]
    requires ApplyBody(before, i + 1, body[1..]) == Some((out, p))
    ensures ApplyBody(before, i, body) == Some((out, p))
  {
    assert body[0][1..] == before[i] && [] + out == out;
  }

  lemma ApplyInserted(before: seq<Line>, i: nat, line: Line, body: seq<string>, out: seq<Line>, p: nat)
    requires body != [] && body[0] == ['+'] + line
    requires ApplyBody(before, i, body[1..]) == Some((out, p))
    ensures ApplyBody(before, i, body) == Some(([line] + out, p))
  {
    assert body[0][1..] == line;
  }

  /** The first line of a body does what its edit says. */
  lemma ApplyHead(before: seq<Line>, after: seq<Line>, e: Edit, body: seq<string>,
                  i0: nat, i: nat, i1: nat, j0: nat, j: nat, j1: nat)
    requires i == i0 + |OldIndex(e)| && j == j0 + |NewIndex(e)|
    requires body != [] && body[0] == RenderLine(before, after, e) && j0 <= j <= j1 <= |after|
    requires !e.Insert? ==> e.bi == i0 < |before|
    requires !e.Delete? ==> e.ai == j0 < j1
    requires e.Keep? ==> before[i0] == after[j0]
    requires ApplyBody(before, i, body[1..]) == Some((after[j..j1], i1))
    ensures ApplyBody(before, i0, body) == Some((after[j0..j1], i1))
  {
    TakeFirst(after, j0, j1);
    match e {
      case Keep(_, _) => ApplyKept(before, i0, body, after[j0 + 1..j1], i1);
      case Delete(_) => ApplyDeleted(before, i0, body, after[j0..j1], i1);
      case Insert(_) => ApplyInserted(before, i0, after[j0], body, after[j0 + 1..j1], i1);
    }
  }

  /** The body printed for a script takes its old lines to its new lines. */
  lemma {:induction false} BodyReplays(before: seq<Line>, after: seq<Line>, s: seq<Edit>, body: seq<string>,
                                       i0: nat, i1: nat, j0: nat, j1: nat)
    requires Script(before, after, s, i0, i1, j0, j1)
    requires |body| == |s| && forall k | 0 <= k < |s| :: body[k] == RenderLine(before, after, s[k])
    ensures ApplyBody(before, i0, body) == Some((after[j0..j1], i1))
    decreases |s|
  {
    if s == [] {
      assert after[j0..j1] == [];
    } else {
      var e := s[0];
      var i, j := i0 + |OldIndex(e)|, j0 + |NewIndex(e)|;
      ScriptHead(before, after, s, i0, i1, j0, j1);
      BodyReplays(before, after, s[1..], body[1..], i, i1, j, j1);
      assert body[0] == RenderLine(before, after, e);
      ApplyHead(before, after, e, body, i0, i, i1, j0, j, j1);
    }
  }

  /** A stretch of Keeps leaves the lines as they are. */
  lemma {:induction false} QuietCopies(before: seq<Line>, after: seq<Line>, s: seq<Edit>,
                                       i0: nat, i1: nat, j0: nat, j1: nat)
    requires Script(before, after, s, i0, i1, j0, j1)
    requires forall k | 0 <= k < |s| :: s[k].Keep?
    ensures before[i0..i1] == after[j0..j1]
    decreases |s|
  {
    if s != [] {
      ScriptHead(before, after, s, i0, i1, j0, j1);
      QuietCopies(before, after, s[1..], i0 + 1, i1, j0 + 1, j1);
      TakeFirst(before, i0, i1);
      TakeFirst(after, j0, j1);
    }
  }

  lemma QuietSlice(before: seq<Line>, after: seq<Line>, edits: seq<Edit>, lo: nat, hi: nat)
    requires FullScript(before, after, edits) && lo <= hi <= |edits| && Quiet(edits, lo, hi)
    ensures OldBefore(edits, lo) <= OldBefore(edits, hi) <= |before|
    ensures NewBefore(edits, lo) <= NewBefore(edits, hi) <= |after|
    ensures before[OldBefore(edits, lo)..OldBefore(edits, hi)] == after[NewBefore(edits, lo)..NewBefore(edits, hi)]
  {
    ScriptSlice(before, after, edits, lo, hi);
    var s := edits[lo..hi];
    forall k | 0 <= k < |s|
      ensures s[k].Keep?
    {
      assert s[k] == edits[lo + k];
    }
    QuietCopies(before, after, s, OldBefore(edits, lo), OldBefore(edits, hi),
                NewBefore(edits, lo), NewBefore(edits, hi));
  }

  /** The first lines of a rendered slice take its first old lines to its first new ones. */
  lemma CutApplies(before: seq<Line>, after: seq<Line>, edits: seq<Edit>, lo: nat, mid: nat, hi: nat)
    requires FullScript(before, after, edits) && lo <= mid <= hi <= |edits|
    ensures NewBefore(edits, lo) <= NewBefore(edits, mid) <= |after|
    ensures ApplyBody(before, OldBefore(edits, lo), Render(before, after, edits[lo..hi])[..mid - lo])
            == Some((after[NewBefore(edits, lo)..NewBefore(edits, mid)], OldBefore(edits, mid)))
  {
    var body := Render(before, after, edits[lo..hi])[..mid - lo];
    assert forall k | 0 <= k < mid - lo :: body[k] == RenderLine(before, after, edits[lo..mid][k]);
    ScriptSlice(before, after, edits, lo, mid);
    BodyReplays(before, after, edits[lo..mid], body, OldBefore(edits, lo), OldBefore(edits, mid),
                NewBefore(edits, lo), NewBefore(edits, mid));
  }

  /** The cut piece of a group applies at its place, as far as it goes. */
  lemma CutStands(before: seq<Line>, after: seq<Line>, edits: seq<Edit>, s: Span, cap: nat, h: Piece, mid: nat)
    requires FullScript(before, after, edits) && DeletesLead(edits) && ValidSpan(edits, s)
    requires h == CutPiece(before, after, edits, s, cap) && mid == s.lo + Min(s.hi - s.lo, cap)
    ensures h.oldStart == OldBefore(edits, s.lo) + 1 && h.oldLines == OldBefore(edits, s.hi) - OldBefore(edits, s.lo)
    ensures NewBefore(edits, s.lo) <= NewBefore(edits, mid) <= |after|
    ensures ApplyBody(before, OldBefore(edits, s.lo), h.body)
            == Some((after[NewBefore(edits, s.lo)..NewBefore(edits, mid)], OldBefore(edits, mid)))
  {
    CutPlace(before, after, edits, s, cap, h);
    assert h.body == Render(before, after, edits[s.lo..s.hi])[..mid - s.lo];
    CutApplies(before, after, edits, s.lo, mid, s.hi);
  }

  lemma CutPlace(before: seq<Line>, after: seq<Line>, edits: seq<Edit>, s: Span, cap: nat, h: Piece)
    requires FullScript(before, after, edits) && DeletesLead(edits) && ValidSpan(edits, s)
    requires h == CutPiece(before, after, edits, s, cap)
    ensures h.oldStart == OldBefore(edits, s.lo) + 1 && h.oldLines == OldBefore(edits, s.hi) - OldBefore(edits, s.lo)
  {
    OldStartExact("", before, after, edits, s);
    ScriptSlice(before, after, edits, s.lo, s.hi);
  }

  /** How one edit moves on in the two texts. */
  lemma OneEdit(before: seq<Line>, after: seq<Line>, edits: seq<Edit>, k: nat)
    requires FullScript(before, after, edits) && k < |edits|
    ensures OldBefore(edits, k + 1) == OldBefore(edits, k) + |OldIndex(edits[k])|
    ensures NewBefore(edits, k + 1) == NewBefore(edits, k) + |NewIndex(edits[k])|
  {
    ScriptSlice(before, after, edits, k, k + 1);
    assert edits[k..k + 1] == [edits[k]];
  }

  /** A group whose tail uses up no old line ends the script. */
  lemma TailWithoutOldLines(before: seq<Line>, after: seq<Line>, edits: seq<Edit>, s: Span, mid: nat)
    requires FullScript(before, after, edits) && ValidSpan(edits, s) && s.lo <= mid < s.hi
    requires OldBefore(edits, mid) == OldBefore(edits, s.hi)
    ensures s.hi == |edits| && NewBefore(edits, mid) < NewBefore(edits, s.hi) <= |after|
  {
    Onward(before, after, edits, mid, s.hi - 1);
    Onward(before, after, edits, s.hi - 1, s.hi);
    OneEdit(before, after, edits, s.hi - 1);
    assert edits[s.hi - 1].Insert?;
  }

  lemma Onward(before: seq<Line>, after: seq<Line>, edits: seq<Edit>, lo: nat, hi: nat)
    requires FullScript(before, after, edits) && lo <= hi <= |edits|
    ensures OldBefore(edits, lo) <= OldBefore(edits, hi) <= |before|
    ensures NewBefore(edits, lo) <= NewBefore(edits, hi) <= |after|
  {
    ScriptSlice(before, after, edits, lo, hi);
  }

  /** What the pieces of some groups do, from line `i0` on: copied lines, the first piece, and the rest. */
  lemma PatchStep(before: seq<Line>, copied: seq<Line>, pieces: seq<Piece>, i0: nat, i1: nat, out: seq<Line>, p: nat)
    requires pieces != [] && i0 <= i1 <= |before| && before[i0..i1] == copied
    requires pieces[0].oldStart == i1 + 1 && ApplyBody(before, i1, pieces[0].body) == Some((out, p))
    ensures PatchWith(before, i0, pieces) ==
            if p != i1 + pieces[0].oldLines then None
            else
              match PatchWith(before, p, pieces[1..])
              case None => None
              case Some(rest) => Some(copied + out + rest)
  {
  }

  /** Where the groups end. */
  function End(spans: seq<Span>): nat {
    if spans == [] then 0 else spans[|spans|-1].hi
  }

  /** What the groups are to make of the old text from edit `e` on: the new lines up to their end, and the old ones
      after it. */
  function Target(before: seq<Line>, after: seq<Line>, edits: seq<Edit>, e: nat, end: nat): seq<Line>
    requires e <= end <= |edits|
    requires NewBefore(edits, e) <= NewBefore(edits, end) <= |after| && OldBefore(edits, end) <= |before|
  {
    after[NewBefore(edits, e)..NewBefore(edits, end)] + before[OldBefore(edits, end)..]
  }

  /** A patch that fails, or at the end of a script loses lines. */
  ghost predicate FallsShort(r: Option<seq<Line>>, target: seq<Line>, atEnd: bool) {
    r.None? || (atEnd && |r.value| < |target|)
  }

  /** Before a group there are only Keeps since the one before it, and it ends before the next one begins. */
  lemma GapBefore(edits: seq<Edit>, spans: seq<Span>, k: nat)
    requires Grouped(edits, spans) && k < |spans|
    ensures ValidSpan(edits, spans[k])
    ensures End(spans[..k]) <= spans[k].lo && Quiet(edits, End(spans[..k]), spans[k].lo)
    ensures End(spans[..k + 1]) == spans[k].hi
  {
    assert spans[k] in spans;
    if k > 0 {
      assert spans[k - 1] in spans && Separated(edits, spans[k - 1], spans[k]);
    }
  }

  lemma EndAfter(edits: seq<Edit>, spans: seq<Span>, k: nat)
    requires Grouped(edits, spans) && k < |spans|
    ensures spans[k].hi <= End(spans) <= |edits|
    ensures k + 1 < |spans| ==> spans[k].hi < |edits|
  {
    var last := |spans| - 1;
    assert spans[k] in spans && spans[last] in spans;
    if k < last {
      SpansOrdered(edits, spans, k, last);
    }
  }

  /** A piece that does all it says, between copied lines and what the pieces after it yield. */
  lemma WholePiece(before: seq<Line>, after: seq<Line>, pieces: seq<Piece>, i0: nat, i1: nat, i2: nat, j0: nat, j1: nat,
                   j2: nat)
    requires pieces != [] && i0 <= i1 <= i2 && i1 <= |before| && j0 <= j1 <= j2 <= |after|
    requires before[i0..i1] == after[j0..j1]
    requires pieces[0].oldStart == i1 + 1 && pieces[0].oldLines == i2 - i1
    requires ApplyBody(before, i1, pieces[0].body) == Some((after[j1..j2], i2))
    ensures var rest, r := PatchWith(before, i2, pieces[1..]), PatchWith(before, i0, pieces);
            if rest.None? then r == None else r == Some(after[j0..j2] + rest.value)
  {
    PatchStep(before, after[j0..j1], pieces, i0, i1, after[j1..j2], i2);
    assert after[j0..j1] + after[j1..j2] == after[j0..j2];
  }

  lemma WholeGroup(before: seq<Line>, after: seq<Line>, edits: seq<Edit>, s: Span, cap: nat, pieces: seq<Piece>, e: nat)
    requires FullScript(before, after, edits) && DeletesLead(edits) && ValidSpan(edits, s) && Short(s, cap)
    requires e <= s.lo && Quiet(edits, e, s.lo)
    requires pieces != [] && pieces[0] == CutPiece(before, after, edits, s, cap)
    ensures NewBefore(edits, e) <= NewBefore(edits, s.hi) <= |after|
    ensures var rest, r := PatchWith(before, OldBefore(edits, s.hi), pieces[1..]),
            PatchWith(before, OldBefore(edits, e), pieces);
            if rest.None? then r == None else r == Some(after[NewBefore(edits, e)..NewBefore(edits, s.hi)] + rest.value)
  {
    QuietSlice(before, after, edits, e, s.lo);
    CutStands(before, after, edits, s, cap, pieces[0], s.hi);
    Onward(before, after, edits, s.lo, s.hi);
    WholePiece(before, after, pieces, OldBefore(edits, e), OldBefore(edits, s.lo), OldBefore(edits, s.hi),
               NewBefore(edits, e), NewBefore(edits, s.lo), NewBefore(edits, s.hi));
  }

  /** Prefixing both a patch and its target. */
  lemma OutcomeGrows(after: seq<Line>, j0: nat, j2: nat, j3: nat, tail: seq<Line>, rest: Option<seq<Line>>, atEnd: bool)
    requires j0 <= j2 <= j3 <= |after|
    ensures rest == Some(after[j2..j3] + tail) ==> after[j0..j2] + rest.value == after[j0..j3] + tail
    ensures rest.Some? && FallsShort(rest, after[j2..j3] + tail, atEnd)
            ==> FallsShort(Some(after[j0..j2] + rest.value), after[j0..j3] + tail, atEnd)
  {
    assert after[j0..j3] + tail == after[j0..j2] + (after[j2..j3] + tail);
  }

  /** A last piece that uses up the old text but misses new lines leaves them out. */
  lemma LastPieceLoses(before: seq<Line>, after: seq<Line>, pieces: seq<Piece>, i0: nat, i1: nat, j0: nat, j1: nat,
                       jm: nat)
    requires pieces != [] && pieces[1..] == [] && i0 <= i1 <= |before| && j0 <= j1 <= jm < |after|
    requires before[i0..i1] == after[j0..j1]
    requires pieces[0].oldStart == i1 + 1 && pieces[0].oldLines == |before| - i1
    requires ApplyBody(before, i1, pieces[0].body) == Some((after[j1..jm], |before|))
    ensures var r := PatchWith(before, i0, pieces); r.Some? && |r.value| < |after| - j0
  {
    PatchStep(before, after[j0..j1], pieces, i0, i1, after[j1..jm], |before|);
  }

  /** A piece that was cut fails, or loses the inserted lines a script ends with. */
  lemma PatchCut(before: seq<Line>, after: seq<Line>, edits: seq<Edit>, s: Span, cap: nat, pieces: seq<Piece>, e: nat)
    requires FullScript(before, after, edits) && DeletesLead(edits) && ValidSpan(edits, s) && !Short(s, cap)
    requires e <= s.lo && Quiet(edits, e, s.lo)
    requires pieces != [] && pieces[0] == CutPiece(before, after, edits, s, cap)
    requires s.hi == |edits| ==> pieces[1..] == []
    ensures var r := PatchWith(before, OldBefore(edits, e), pieces);
            r.None? || (s.hi == |edits| && |r.value| < |after| - NewBefore(edits, e))
  {
    var mid := s.lo + cap;
    QuietSlice(before, after, edits, e, s.lo);
    CutStands(before, after, edits, s, cap, pieces[0], mid);
    var i0, i1, im := OldBefore(edits, e), OldBefore(edits, s.lo), OldBefore(edits, mid);
    var j0, j1, jm := NewBefore(edits, e), NewBefore(edits, s.lo), NewBefore(edits, mid);
    if im == OldBefore(edits, s.hi) {
      TailWithoutOldLines(before, after, edits, s, mid);
      WholeScriptEnds(before, after, edits);
      LastPieceLoses(before, after, pieces, i0, i1, j0, j1, jm);
    } else {
      PatchStep(before, after[j0..j1], pieces, i0, i1, after[j1..jm], im);
    }
  }

  predicate AllShort(spans: seq<Span>, k: nat, cap: nat) {
    forall j | k <= j < |spans| :: Short(spans[j], cap)
  }

  /** The patch yields its target if no piece was cut, and falls short of it otherwise. */
  ghost predicate Outcome(before: seq<Line>, after: seq<Line>, edits: seq<Edit>, pieces: seq<Piece>, e: nat, end: nat,
                          whole: bool) {
    && e <= end <= |edits|
    && NewBefore(edits, e) <= NewBefore(edits, end) <= |after| && OldBefore(edits, end) <= |before|
    && var r, target := PatchWith(before, OldBefore(edits, e), pieces), Target(before, after, edits, e, end);
       if whole then r == Some(target) else FallsShort(r, target, end == |edits|)
  }

  lemma NothingLeft(before: seq<Line>, after: seq<Line>, edits: seq<Edit>, e: nat)
    requires FullScript(before, after, edits) && e <= |edits|
    ensures Outcome(before, after, edits, [], e, e, true)
  {
    Onward(before, after, edits, e, |edits|);
    assert after[NewBefore(edits, e)..NewBefore(edits, e)] + before[OldBefore(edits, e)..]
           == before[OldBefore(edits, e)..];
  }

  /** One group more. */
  lemma OutcomeStep(before: seq<Line>, after: seq<Line>, edits: seq<Edit>, s: Span, cap: nat, pieces: seq<Piece>,
                    e: nat, end: nat, whole: bool)
    requires FullScript(before, after, edits) && DeletesLead(edits) && ValidSpan(edits, s)
    requires e <= s.lo && s.hi <= end <= |edits| && Quiet(edits, e, s.lo)
    requires pieces != [] && pieces[0] == CutPiece(before, after, edits, s, cap)
    requires s.hi == |edits| ==> pieces[1..] == []
    requires Outcome(before, after, edits, pieces[1..], s.hi, end, whole)
    ensures Outcome(before, after, edits, pieces, e, end, whole && Short(s, cap))
  {
    if Short(s, cap) {
      OutcomeWhole(before, after, edits, s, cap, pieces, e, end, whole);
    } else {
      OutcomeCut(before, after, edits, s, cap, pieces, e, end);
    }
  }

  lemma OutcomeWhole(before: seq<Line>, after: seq<Line>, edits: seq<Edit>, s: Span, cap: nat, pieces: seq<Piece>,
                     e: nat, end: nat, whole: bool)
    requires FullScript(before, after, edits) && DeletesLead(edits) && ValidSpan(edits, s) && Short(s, cap)
    requires e <= s.lo && s.hi <= end <= |edits| && Quiet(edits, e, s.lo)
    requires pieces != [] && pieces[0] == CutPiece(before, after, edits, s, cap)
    requires Outcome(before, after, edits, pieces[1..], s.hi, end, whole)
    ensures Outcome(before, after, edits, pieces, e, end, whole)
  {
    Onward(before, after, edits, e, s.hi);
    WholeGroup(before, after, edits, s, cap, pieces, e);
    OutcomeGrows(after, NewBefore(edits, e), NewBefore(edits, s.hi), NewBefore(edits, end),
                 before[OldBefore(edits, end)..], PatchWith(before, OldBefore(edits, s.hi), pieces[1..]),
                     end == |edits|);
  }

  lemma OutcomeCut(before: seq<Line>, after: seq<Line>, edits: seq<Edit>, s: Span, cap: nat, pieces: seq<Piece>,
                   e: nat, end: nat)
    requires FullScript(before, after, edits) && DeletesLead(edits) && ValidSpan(edits, s) && !Short(s, cap)
    requires e <= s.lo && s.hi <= end <= |edits| && Quiet(edits, e, s.lo)
    requires pieces != [] && pieces[0] == CutPiece(before, after, edits, s, cap)
    requires s.hi == |edits| ==> pieces[1..] == []
    ensures Outcome(before, after, edits, pieces, e, end, false)
  {
    Onward(before, after, edits, e, end);
    PatchCut(before, after, edits, s, cap, pieces, e);
    WholeScriptEnds(before, after, edits);
  }

  /** Patching with the pieces of groups, cut at `cap` lines, from the end of the first `k` groups on. */
  lemma {:induction false} PatchFrom(before: seq<Line>, after: seq<Line>, edits: seq<Edit>, spans: seq<Span>, cap: nat,
                                     pieces: seq<Piece>, k: nat)
    requires FullScript(before, after, edits) && DeletesLead(edits)
    requires Grouped(edits, spans) && CutPieces(before, after, edits, spans, cap, pieces) && k <= |spans|
    ensures Outcome(before, after, edits, pieces[k..], End(spans[..k]), End(spans), AllShort(spans, k, cap))
    decreases |spans| - k
  {
    if k == |spans| {
      assert spans[..k] == spans && pieces[k..] == [];
      if k > 0 {
        EndAfter(edits, spans, k - 1);
      }
      NothingLeft(before, after, edits, End(spans));
    } else {
      GapBefore(edits, spans, k);
      EndAfter(edits, spans, k);
      PatchFrom(before, after, edits, spans, cap, pieces, k + 1);
      var rest := pieces[k..];
      assert rest[0] == pieces[k] && rest[1..] == pieces[k + 1..];
      OutcomeStep(before, after, edits, spans[k], cap, rest, End(spans[..k]), End(spans), AllShort(spans, k + 1, cap));
      assert AllShort(spans, k, cap) == (AllShort(spans, k + 1, cap) && Short(spans[k], cap));
    }
  }

  lemma WholeScriptEnds(before: seq<Line>, after: seq<Line>, edits: seq<Edit>)
    requires FullScript(before, after, edits)
    ensures OldBefore(edits, |edits|) == |before| && NewBefore(edits, |edits|) == |after|
  {
    assert edits[..|edits|] == edits;
  }

  //
  // What patching yields.
  //

  lemma CoveredFromEnd(edits: seq<Edit>, spans: seq<Span>)
    requires Grouped(edits, spans)
    ensures End(spans) <= |edits|
    ensures AllCovered(edits, spans) <==> Quiet(edits, End(spans), |edits|)
  {
    if spans != [] {
      assert spans[|spans|-1] in spans;
    }
  }

  /** A row of `n` Keeps. */
  function KeepRun(i: nat, j: nat, n: nat): (r: seq<Edit>)
    ensures |r| == n && forall k | 0 <= k < n :: r[k] == Keep(i + k, j + k)
    decreases n
  {
    if n == 0 then [] else [Keep(i, j)] + KeepRun(i + 1, j + 1, n - 1)
  }

  lemma {:induction false} KeepRunSides(i: nat, j: nat, n: nat)
    ensures Counts(OldSide(KeepRun(i, j, n)), i, i + n) && Counts(NewSide(KeepRun(i, j, n)), j, j + n)
    ensures Cost(KeepRun(i, j, n)) == 0
    decreases n
  {
    if n != 0 {
      KeepRunSides(i + 1, j + 1, n - 1);
      CountsPrepend([i], OldSide(KeepRun(i + 1, j + 1, n - 1)), i, i + n);
      CountsPrepend([j], NewSide(KeepRun(i + 1, j + 1, n - 1)), j, j + n);
    }
  }

  lemma CostAppend(s: seq<Edit>, t: seq<Edit>)
    ensures Cost(s + t) == Cost(s) + Cost(t)
  {
    SidesAppend(s, t);
    SideLengths(s);
    SideLengths(t);
    SideLengths(s + t);
  }

  lemma {:induction false} FreeIsQuiet(s: seq<Edit>)
    requires Cost(s) == 0
    ensures forall k | 0 <= k < |s| :: s[k].Keep?
  {
    if s != [] {
      FreeIsQuiet(s[1..]);
    }
  }

  /** From where the texts agree on, a script could keep every line. */
  lemma KeepTheRest(before: seq<Line>, after: seq<Line>, edits: seq<Edit>, e: nat) returns (t: seq<Edit>)
    requires FullScript(before, after, edits) && e <= |edits|
    requires OldBefore(edits, e) <= |before| && NewBefore(edits, e) <= |after|
    requires before[OldBefore(edits, e)..] == after[NewBefore(edits, e)..]
    ensures FullScript(before, after, t) && Cost(t) == Cost(edits[..e])
  {
    var i, j := OldBefore(edits, e), NewBefore(edits, e);
    var n := |before| - i;
    assert |before[i..]| == |after[j..]|;
    var run := KeepRun(i, j, n);
    t := edits[..e] + run;
    ScriptSlice(before, after, edits, 0, e);
    assert edits[0..e] == edits[..e] && edits[..0] == [];
    KeepRunSides(i, j, n);
    SidesAppend(edits[..e], run);
    CountsPrepend(OldSide(edits[..e]), OldSide(run), 0, |before|);
    CountsPrepend(NewSide(edits[..e]), NewSide(run), 0, |after|);
    CostAppend(edits[..e], run);
    KeptAgree(before, after, edits, e, run, i, j);
  }

  lemma KeptAgree(before: seq<Line>, after: seq<Line>, edits: seq<Edit>, e: nat, run: seq<Edit>, i: nat, j: nat)
    requires KeepsAgree(before, after, edits) && e <= |edits| && i + |run| <= |before| && j + |run| <= |after|
    requires before[i..] == after[j..] && forall k | 0 <= k < |run| :: run[k] == Keep(i + k, j + k)
    ensures KeepsAgree(before, after, edits[..e] + run)
  {
    var t := edits[..e] + run;
    forall c | c in t && c.Keep?
      ensures c.bi < |before| && c.ai < |after| && before[c.bi] == after[c.ai]
    {
      var k :| 0 <= k < |t| && t[k] == c;
      if k < e {
        assert c in edits;
      } else {
        assert c == run[k - e];
        assert before[i..][k - e] == after[j..][k - e];
      }
    }
  }

  /** A cheapest script changes nothing from where the texts agree on. */
  lemma CheapestIsQuiet(before: seq<Line>, after: seq<Line>, edits: seq<Edit>, e: nat)
    requires Cheapest(before, after, edits) && e <= |edits|
    requires OldBefore(edits, e) <= |before| && NewBefore(edits, e) <= |after|
    requires before[OldBefore(edits, e)..] == after[NewBefore(edits, e)..]
    ensures Quiet(edits, e, |edits|)
  {
    var t := KeepTheRest(before, after, edits, e);
    assert edits == edits[..e] + edits[e..];
    CostAppend(edits[..e], edits[e..]);
    FreeIsQuiet(edits[e..]);
    assert forall k | e <= k < |edits| :: edits[k] == edits[e..][k - e];
  }

  /** The target of all groups is the new text exactly when they cover every change. */
  lemma TargetIsAfter(before: seq<Line>, after: seq<Line>, edits: seq<Edit>, end: nat)
    requires FullScript(before, after, edits) && end <= |edits|
    ensures NewBefore(edits, 0) == OldBefore(edits, 0) == 0
    ensures NewBefore(edits, end) <= |after| && OldBefore(edits, end) <= |before|
    ensures Quiet(edits, end, |edits|) ==> Target(before, after, edits, 0, end) == after
    ensures Cheapest(before, after, edits) && Target(before, after, edits, 0, end) == after
            ==> Quiet(edits, end, |edits|)
  {
    assert edits[..0] == [];
    Onward(before, after, edits, end, |edits|);
    WholeScriptEnds(before, after, edits);
    var i, j := OldBefore(edits, end), NewBefore(edits, end);
    assert after == after[0..j] + after[j..];
    if Quiet(edits, end, |edits|) {
      QuietSlice(before, after, edits, end, |edits|);
      assert before[i..|before|] == before[i..] && after[j..|after|] == after[j..];
    }
    if Cheapest(before, after, edits) && Target(before, after, edits, 0, end) == after {
      assert Target(before, after, edits, 0, end)[j..] == before[i..];
      CheapestIsQuiet(before, after, edits, end);
    }
  }

  lemma PatchAll(before: seq<Line>, after: seq<Line>, edits: seq<Edit>, spans: seq<Span>, cap: nat, pieces: seq<Piece>)
    requires FullScript(before, after, edits) && DeletesLead(edits)
    requires Grouped(edits, spans) && CutPieces(before, after, edits, spans, cap, pieces)
    ensures AllShort(spans, 0, cap) && AllCovered(edits, spans) ==> PatchWith(before, 0, pieces) == Some(after)
    ensures !AllShort(spans, 0, cap) ==> PatchWith(before, 0, pieces) != Some(after)
    ensures Cheapest(before, after, edits) && !AllCovered(edits, spans) ==> PatchWith(before, 0, pieces) != Some(after)
  {
    PatchFrom(before, after, edits, spans, cap, pieces, 0);
    CoveredFromEnd(edits, spans);
    TargetIsAfter(before, after, edits, End(spans));
    assert spans[..0] == [] && pieces[0..] == pieces;
    if End(spans) == |edits| {
      assert Quiet(edits, End(spans), |edits|);
    }
  }

  /** Patching the old text with the full slices of groups yields the new text whenever they cover every change,
      and for a cheapest script exactly then. */
  lemma SlicesYieldAfter(before: seq<Line>, after: seq<Line>, edits: seq<Edit>, spans: seq<Span>, pieces: seq<Piece>)
    requires FullScript(before, after, edits) && DeletesLead(edits)
    requires Grouped(edits, spans) && CutPieces(before, after, edits, spans, |edits|, pieces)
    ensures AllCovered(edits, spans) ==> PatchWith(before, 0, pieces) == Some(after)
    ensures Cheapest(before, after, edits)
            ==> (PatchWith(before, 0, pieces) == Some(after) <==> AllCovered(edits, spans))
  {
    PatchAll(before, after, edits, spans, |edits|, pieces);
    assert AllShort(spans, 0, |edits|);
  }
}
