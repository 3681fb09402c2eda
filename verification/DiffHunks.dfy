/** Grouping an edit script into hunks with three lines of context
    (crates/impetus-core/src/diff_observation.rs). */
module DiffHunks {
  import opened Text
  import opened LineDiff

  const MAX_HUNK_PREVIEW_LINES: nat := 80
  const MAX_HUNKS: nat := 64
  const CONTEXT: nat := 3

  datatype DiffHunk = DiffHunk(
    file: string, oldStart: nat, oldLines: nat, newStart: nat, newLines: nat, preview: string)

  function SaturatingSub(x: nat, y: nat): nat {
    if x <= y then 0 else x - y
  }

  //
  // Which edits belong together.
  //

  /** One group: edits `lo..hi`, whose first and last changes are at `first` and `last`. */
  datatype Span = Span(lo: nat, first: nat, last: nat, hi: nat)

  predicate IsChange(edits: seq<Edit>, k: nat)
    requires k < |edits|
  {
    !edits[k].Keep?
  }

  /** No change in `p..q`. */
  predicate Quiet(edits: seq<Edit>, p: nat, q: nat) {
    forall k: nat | p <= k < q && k < |edits| :: edits[k].Keep?
  }

  /** Six edits in a row, all Keep. */
  predicate QuietRun(edits: seq<Edit>, p: nat) {
    Quiet(edits, p, p + 2 * CONTEXT)
  }

  /** A group reaches three edits beyond its outermost changes, as far as there are any, and
      never contains six Keeps in a row between two of its changes. */
  predicate ValidSpan(edits: seq<Edit>, s: Span) {
    && s.first <= s.last < |edits|
    && s.lo == SaturatingSub(s.first, CONTEXT)
    && s.hi == Min(s.last + 1 + CONTEXT, |edits|)
    && IsChange(edits, s.first) && IsChange(edits, s.last)
    && Quiet(edits, s.lo, s.first)
    && Quiet(edits, s.last + 1, s.hi)
    && (forall p: nat | s.first <= p && p + 2 * CONTEXT <= s.last :: !QuietRun(edits, p))
  }

  /** Neighbouring groups are split by six Keeps or more. */
  predicate Separated(edits: seq<Edit>, s: Span, t: Span) {
    s.last + 2 * CONTEXT < t.first && Quiet(edits, s.last + 1, t.first)
  }

  predicate Grouped(edits: seq<Edit>, spans: seq<Span>) {
    && (forall s | s in spans :: ValidSpan(edits, s))
    && (spans != [] ==> Quiet(edits, 0, spans[0].first))
    && (forall k | 0 <= k < |spans| - 1 :: Separated(edits, spans[k], spans[k + 1]))
  }

  /** No change is left after the last group. */
  predicate AllCovered(edits: seq<Edit>, spans: seq<Span>) {
    Quiet(edits, if spans == [] then 0 else spans[|spans|-1].last + 1, |edits|)
  }

  /** Groups are in order and do not overlap. */
  lemma {:induction false} SpansOrdered(edits: seq<Edit>, spans: seq<Span>, k: nat, l: nat)
    requires Grouped(edits, spans) && k < l < |spans|
    ensures spans[k].hi <= spans[l].lo
    decreases l - k
  {
    assert ValidSpan(edits, spans[k]) && ValidSpan(edits, spans[k + 1]);
    assert Separated(edits, spans[k], spans[k + 1]);
    if k + 1 < l {
      SpansOrdered(edits, spans, k + 1, l);
    }
  }

  /** Every change before the end of the last group lies in some group. */
  lemma {:induction false} ChangesCovered(edits: seq<Edit>, spans: seq<Span>, p: nat)
    requires Grouped(edits, spans) && AllCovered(edits, spans)
    requires p < |edits| && IsChange(edits, p)
    ensures exists s :: s in spans && s.lo <= p < s.hi
  {
    assert spans != [];
    var k := 0;
    while p > spans[k].last
      invariant k < |spans| && p >= spans[k].first
      decreases |spans| - k
    {
      assert k + 1 < |spans|;
      assert Separated(edits, spans[k], spans[k + 1]);
      k := k + 1;
    }
    assert ValidSpan(edits, spans[k]);
    assert spans[k] in spans && spans[k].lo <= p < spans[k].hi;
  }

  //
  // What a group is printed as.
  //

  /** `lines.get(i).copied().unwrap_or("")`. */
  function LineAt(lines: seq<Line>, i: nat): Line {
    if i < |lines| then lines[i] else ""
  }

  function RenderLine(before: seq<Line>, after: seq<Line>, e: Edit): string {
    match e
    case Keep(bi, _) => [' '] + LineAt(before, bi)
    case Delete(bi) => ['-'] + LineAt(before, bi)
    case Insert(ai) => ['+'] + LineAt(after, ai)
  }

  function Render(before: seq<Line>, after: seq<Line>, s: seq<Edit>): (r: seq<string>)
    ensures |r| == |s| && forall k | 0 <= k < |s| :: r[k] == RenderLine(before, after, s[k])
  {
    if s == [] then [] else Render(before, after, s[..|s|-1]) + [RenderLine(before, after, s[|s|-1])]
  }

  /** New line number for a deletion: that of the first Keep at or after the deleted line, else 1. */
  function AfterLineForDelete(edits: seq<Edit>, bi: nat): nat {
    if edits == [] then 1
    else if edits[0].Keep? && edits[0].bi >= bi then edits[0].ai + 1
    else AfterLineForDelete(edits[1..], bi)
  }

  /** Old line number for an insertion: that of the first Keep at or after the inserted line, else 1. */
  function BeforeLineForInsert(edits: seq<Edit>, ai: nat): nat {
    if edits == [] then 1
    else if edits[0].Keep? && edits[0].ai >= ai then edits[0].bi + 1
    else BeforeLineForInsert(edits[1..], ai)
  }

  function OldStart(edits: seq<Edit>, e: Edit): nat {
    match e
    case Keep(bi, _) => bi + 1
    case Delete(bi) => bi + 1
    case Insert(ai) => BeforeLineForInsert(edits, ai)
  }

  function NewStart(edits: seq<Edit>, e: Edit): nat {
    match e
    case Keep(_, ai) => ai + 1
    case Delete(bi) => AfterLineForDelete(edits, bi)
    case Insert(ai) => ai + 1
  }

  function Clip(lines: seq<string>): seq<string> {
    lines[..Min(|lines|, MAX_HUNK_PREVIEW_LINES)]
  }

  function HunkAt(file: string, before: seq<Line>, after: seq<Line>, edits: seq<Edit>, s: Span): DiffHunk
    requires s.lo < s.hi <= |edits|
  {
    var slice := edits[s.lo..s.hi];
    DiffHunk(file, OldStart(edits, slice[0]), |OldSide(slice)|, NewStart(edits, slice[0]), |NewSide(slice)|,
             Join(Clip(Render(before, after, slice)), '\n'))
  }

  ghost predicate HunksOf(file: string, before: seq<Line>, after: seq<Line>, edits: seq<Edit>,
                          spans: seq<Span>, hunks: seq<DiffHunk>)
  {
    && |hunks| == |spans|
    && forall k | 0 <= k < |spans| ::
         spans[k].lo < spans[k].hi <= |edits| && hunks[k] == HunkAt(file, before, after, edits, spans[k])
  }

  //
  // The grouping loops.
  //

  method ChangeFlags(edits: seq<Edit>) returns (flags: array<bool>)
    ensures fresh(flags) && flags.Length == |edits|
    ensures forall k: nat | k < |edits| :: flags[k] == IsChange(edits, k)
  {
    flags := new bool[|edits|](_ => false);
    for idx := 0 to |edits|
      invariant forall k: nat | k < idx :: flags[k] == IsChange(edits, k)
    {
      flags[idx] := !edits[idx].Keep?;
    }
  }

  /** Where a group whose first change is at `i` begins. */
  method HunkStart(flags: array<bool>, i: nat) returns (start: nat)
    requires i < flags.Length
    ensures start <= SaturatingSub(i, CONTEXT)
    ensures forall k | start <= k < SaturatingSub(i, CONTEXT) :: flags[k]
    ensures start > 0 ==> !flags[start - 1]
  {
    start := SaturatingSub(i, CONTEXT);
    while start > 0 && flags[start - 1]
      invariant start <= SaturatingSub(i, CONTEXT)
      invariant forall k | start <= k < SaturatingSub(i, CONTEXT) :: flags[k]
    {
      start := start - 1;
    }
  }

  /** Looks for a change among the next six edits. */
  method PeekChange(edits: seq<Edit>, flags: array<bool>, end: nat) returns (found: bool, peek: nat)
    requires flags.Length == |edits| && forall k: nat | k < |edits| :: flags[k] == IsChange(edits, k)
    requires end < |edits|
    ensures end <= peek <= Min(|edits|, end + 2 * CONTEXT)
    ensures Quiet(edits, end, peek)
    ensures found ==> peek < |edits| && peek < end + 2 * CONTEXT && IsChange(edits, peek)
    ensures !found ==> Quiet(edits, end, end + 2 * CONTEXT)
  {
    peek := end;
    found := false;
    while peek < |edits| && peek < end + CONTEXT * 2
      invariant end <= peek <= Min(|edits|, end + 2 * CONTEXT)
      invariant Quiet(edits, end, peek)
    {
      if flags[peek] {
        found := true;
        break;
      }
      peek := peek + 1;
    }
  }

  /** Where a group whose first change is at `i` ends. */
  method HunkEnd(edits: seq<Edit>, flags: array<bool>, i: nat) returns (end: nat, ghost last: nat)
    requires flags.Length == |edits| && forall k: nat | k < |edits| :: flags[k] == IsChange(edits, k)
    requires i < |edits| && IsChange(edits, i)
    ensures i <= last < |edits| && IsChange(edits, last)
    ensures end == Min(last + 1 + CONTEXT, |edits|)
    ensures Quiet(edits, last + 1, last + 1 + 2 * CONTEXT)
    ensures forall p: nat | i <= p && p + 2 * CONTEXT <= last :: !QuietRun(edits, p)
  {
    end := i + 1;
    last := i;
    while end < |edits|
      invariant i <= last < |edits| && IsChange(edits, last) && end == last + 1
      invariant forall p: nat | i <= p && p + 2 * CONTEXT <= last :: !QuietRun(edits, p)
      decreases |edits| - end
    {
      ghost var prev := last;
      if flags[end] {
        last := end;
        end := end + 1;
      } else {
        var found, peek := PeekChange(edits, flags, end);
        if found {
          last := peek;
          end := peek + 1;
        } else {
          end := Min(end + CONTEXT, |edits|);
          return;
        }
      }
      WindowsStayLoud(edits, i, prev, last);
    }
  }

  /** Extending a group from one change to the next adds no run of six Keeps. */
  lemma WindowsStayLoud(edits: seq<Edit>, i: nat, prev: nat, last: nat)
    requires i <= prev < last <= prev + 2 * CONTEXT && last < |edits|
    requires IsChange(edits, prev) && IsChange(edits, last)
    requires forall p: nat | i <= p && p + 2 * CONTEXT <= prev :: !QuietRun(edits, p)
    ensures forall p: nat | i <= p && p + 2 * CONTEXT <= last :: !QuietRun(edits, p)
  {
    forall p: nat | i <= p && p + 2 * CONTEXT <= last
      ensures !QuietRun(edits, p)
    {
      if p + 2 * CONTEXT > prev {
        assert p <= prev < p + 2 * CONTEXT;
        assert IsChange(edits, prev);
      }
    }
  }

  lemma RenderStep(before: seq<Line>, after: seq<Line>, s: seq<Edit>, k: nat)
    requires k < |s|
    ensures |OldSide(s[..k + 1])| == |OldSide(s[..k])| + |OldIndex(s[k])|
    ensures |NewSide(s[..k + 1])| == |NewSide(s[..k])| + |NewIndex(s[k])|
    ensures Clip(Render(before, after, s[..k + 1])) ==
            var body := Clip(Render(before, after, s[..k]));
            if |body| < MAX_HUNK_PREVIEW_LINES then body + [RenderLine(before, after, s[k])] else body
  {
    assert s[..k + 1] == s[..k] + [s[k]];
    SidesAppend(s[..k], [s[k]]);
    assert OldSide([s[k]]) == OldIndex(s[k]) && NewSide([s[k]]) == NewIndex(s[k]);
    assert Render(before, after, s[..k + 1]) == Render(before, after, s[..k]) + [RenderLine(before, after, s[k])];
    ClipStep(Render(before, after, s[..k]), RenderLine(before, after, s[k]));
  }

  lemma ClipStep(lines: seq<string>, l: string)
    ensures Clip(lines + [l]) == if |Clip(lines)| < MAX_HUNK_PREVIEW_LINES then Clip(lines) + [l] else Clip(lines)
  {
  }

  /** Counts and body of one group. */
  method RenderHunk(before: seq<Line>, after: seq<Line>, slice: seq<Edit>)
    returns (oldLines: nat, newLines: nat, preview: seq<string>)
    ensures oldLines == |OldSide(slice)| && newLines == |NewSide(slice)|
    ensures preview == Clip(Render(before, after, slice))
  {
    oldLines, newLines, preview := 0, 0, [];
    for k := 0 to |slice|
      invariant oldLines == |OldSide(slice[..k])| && newLines == |NewSide(slice[..k])|
      invariant preview == Clip(Render(before, after, slice[..k]))
    {
      RenderStep(before, after, slice, k);
      match slice[k] {
        case Keep(bi, _) =>
          oldLines, newLines := oldLines + 1, newLines + 1;
          if |preview| < MAX_HUNK_PREVIEW_LINES {
            preview := preview + [[' '] + LineAt(before, bi)];
          }
        case Delete(bi) =>
          oldLines := oldLines + 1;
          if |preview| < MAX_HUNK_PREVIEW_LINES {
            preview := preview + [['-'] + LineAt(before, bi)];
          }
        case Insert(ai) =>
          newLines := newLines + 1;
          if |preview| < MAX_HUNK_PREVIEW_LINES {
            preview := preview + [['+'] + LineAt(after, ai)];
          }
      }
    }
    assert slice[..|slice|] == slice;
  }

  method BuildHunk(file: string, before: seq<Line>, after: seq<Line>, edits: seq<Edit>, start: nat, end: nat,
                   ghost s: Span)
    returns (hunk: DiffHunk)
    requires start < end <= |edits| && s.lo == start && s.hi == end
    ensures hunk == HunkAt(file, before, after, edits, s)
  {
    var slice := edits[start..end];
    var oldLines, newLines, preview := RenderHunk(before, after, slice);
    hunk := DiffHunk(file, OldStart(edits, slice[0]), oldLines, NewStart(edits, slice[0]), newLines,
                     Join(preview, '\n'));
  }

  /** First edit not yet known to be settled by the groups so far. */
  ghost function Settled(spans: seq<Span>): nat {
    if spans == [] then 0 else spans[|spans|-1].last + 1
  }

  /** The grouping loop stands at edit `i`: everything before it is grouped or quiet. */
  ghost predicate Grouping(edits: seq<Edit>, spans: seq<Span>, i: nat) {
    && i <= |edits| && Settled(spans) <= i
    && Grouped(edits, spans)
    && Quiet(edits, Settled(spans), i)
    && (spans != [] ==> Quiet(edits, Settled(spans), Settled(spans) + 2 * CONTEXT))
  }

  /** The groups of a script, which cover all its changes, and the first of them up to the bound on hunks, which
      do so exactly when there are no more. */
  ghost predicate FirstGroups(edits: seq<Edit>, spans: seq<Span>, all: seq<Span>) {
    && Grouped(edits, all) && AllCovered(edits, all)
    && spans == all[..Min(|all|, MAX_HUNKS)]
    && Grouped(edits, spans) && (AllCovered(edits, spans) <==> |all| <= MAX_HUNKS)
  }

  /** Where the group of the change at `i` has its last change. */
  lemma GroupEnd(edits: seq<Edit>, i: nat) returns (last: nat)
    requires i < |edits| && IsChange(edits, i)
    ensures i <= last < |edits| && IsChange(edits, last)
    ensures Quiet(edits, last + 1, last + 1 + 2 * CONTEXT)
    ensures forall p: nat | i <= p && p + 2 * CONTEXT <= last :: !QuietRun(edits, p)
  {
    last := i;
    while !Quiet(edits, last + 1, last + 1 + 2 * CONTEXT)
      invariant i <= last < |edits| && IsChange(edits, last)
      invariant forall p: nat | i <= p && p + 2 * CONTEXT <= last :: !QuietRun(edits, p)
      decreases |edits| - last
    {
      var next: nat :| last + 1 <= next < last + 1 + 2 * CONTEXT && next < |edits| && !edits[next].Keep?;
      WindowsStayLoud(edits, i, last, next);
      last := next;
    }
  }

  /** A grouping under way can be finished. */
  lemma {:induction false} RestOfGroups(edits: seq<Edit>, spans: seq<Span>, i: nat) returns (all: seq<Span>)
    requires Grouping(edits, spans, i)
    ensures spans <= all && Grouped(edits, all) && AllCovered(edits, all)
    decreases |edits| - i
  {
    if i == |edits| {
      all := spans;
    } else if !IsChange(edits, i) {
      all := RestOfGroups(edits, spans, i + 1);
    } else {
      var last := GroupEnd(edits, i);
      var start, end := SaturatingSub(i, CONTEXT), Min(last + 1 + CONTEXT, |edits|);
      NextGroup(edits, spans, i, start, last, end);
      all := RestOfGroups(edits, spans + [Span(start, i, last, end)], end);
    }
  }

  /** The groups of a script are determined: there is one way to cover all its changes. */
  lemma {:induction false} GroupingUnique(edits: seq<Edit>, a: seq<Span>, b: seq<Span>, k: nat)
    requires Grouped(edits, a) && AllCovered(edits, a) && Grouped(edits, b) && AllCovered(edits, b)
    requires k <= |a| && k <= |b| && a[..k] == b[..k]
    ensures a == b
    decreases |a| - k
  {
    if k < |a| {
      SpanAt(edits, a, k);
      NoGroupLeft(edits, b, a, k);
      SpanAt(edits, b, k);
      SameSpan(edits, a, b, k);
      assert a[..k + 1] == a[..k] + [a[k]] && b[..k + 1] == b[..k] + [b[k]];
      GroupingUnique(edits, a, b, k + 1);
    } else if k < |b| {
      NoGroupLeft(edits, a, b, k);
      assert false;
    }
  }

  /** What stands around the k-th group. */
  lemma SpanAt(edits: seq<Edit>, spans: seq<Span>, k: nat)
    requires Grouped(edits, spans) && AllCovered(edits, spans) && k < |spans|
    ensures ValidSpan(edits, spans[k])
    ensures Quiet(edits, Settled(spans[..k]), spans[k].first)
    ensures k > 0 ==> spans[k - 1].last < spans[k].first
    ensures Quiet(edits, spans[k].last + 1, spans[k].last + 1 + 2 * CONTEXT)
  {
    assert spans[k] in spans;
    if k > 0 {
      assert Separated(edits, spans[k - 1], spans[k]);
    }
    if k + 1 < |spans| {
      assert Separated(edits, spans[k], spans[k + 1]);
    }
  }

  /** A grouping that agrees so far and is at its end leaves no further change to another. */
  lemma NoGroupLeft(edits: seq<Edit>, done: seq<Span>, other: seq<Span>, k: nat)
    requires Grouped(edits, done) && AllCovered(edits, done) && Grouped(edits, other) && AllCovered(edits, other)
    requires k <= |done| && k < |other| && done[..k] == other[..k]
    ensures k < |done|
  {
    SpanAt(edits, other, k);
    assert k > 0 ==> done[..k][k - 1] == other[..k][k - 1];
    assert IsChange(edits, other[k].first);
  }

  lemma SameSpan(edits: seq<Edit>, a: seq<Span>, b: seq<Span>, k: nat)
    requires k < |a| && k < |b| && a[..k] == b[..k]
    requires ValidSpan(edits, a[k]) && ValidSpan(edits, b[k])
    requires Quiet(edits, Settled(a[..k]), a[k].first) && Quiet(edits, Settled(b[..k]), b[k].first)
    requires k > 0 ==> a[k - 1].last < a[k].first && b[k - 1].last < b[k].first
    requires Quiet(edits, a[k].last + 1, a[k].last + 1 + 2 * CONTEXT)
    requires Quiet(edits, b[k].last + 1, b[k].last + 1 + 2 * CONTEXT)
    ensures a[k] == b[k]
  {
    var s, t := a[k], b[k];
    assert Settled(a[..k]) <= s.first && Settled(b[..k]) <= t.first;
    assert s.first == t.first by {
      assert IsChange(edits, s.first) && IsChange(edits, t.first);
    }
    LastNotEarlier(edits, s, t);
    LastNotEarlier(edits, t, s);
  }

  lemma LastNotEarlier(edits: seq<Edit>, s: Span, t: Span)
    requires ValidSpan(edits, s) && ValidSpan(edits, t) && s.first == t.first
    requires Quiet(edits, s.last + 1, s.last + 1 + 2 * CONTEXT)
    ensures s.last >= t.last
  {
    if s.last < t.last {
      assert IsChange(edits, t.last);
      assert QuietRun(edits, s.last + 1);
    }
  }

  /** One hunk more: that of the group whose first change is at `i`. */
  method AddHunk(file: string, before: seq<Line>, after: seq<Line>, edits: seq<Edit>, flags: array<bool>, i: nat,
                 hunks: seq<DiffHunk>, ghost spans: seq<Span>)
    returns (hunks': seq<DiffHunk>, ghost spans': seq<Span>, end: nat)
    requires flags.Length == |edits| && forall k: nat | k < |edits| :: flags[k] == IsChange(edits, k)
    requires HunksOf(file, before, after, edits, spans, hunks) && Grouping(edits, spans, i)
    requires i < |edits| && flags[i]
    ensures HunksOf(file, before, after, edits, spans', hunks') && Grouping(edits, spans', end)
    ensures i < end <= |edits| && |hunks'| == |hunks| + 1
  {
    var start := HunkStart(flags, i);
    ghost var last;
    end, last := HunkEnd(edits, flags, i);
    NextGroup(edits, spans, i, start, last, end);
    ghost var span := Span(start, i, last, end);
    var hunk := BuildHunk(file, before, after, edits, start, end, span);
    HunksExtend(file, before, after, edits, spans, hunks, span, hunk);
    hunks', spans' := hunks + [hunk], spans + [span];
  }

  /** Groups a script into at most `MAX_HUNKS` hunks. The ghost results name the groups of the script, which
      cover all its changes, and those that became hunks: the first ones, up to the bound. */
  method EditsToHunks(file: string, before: seq<Line>, after: seq<Line>, edits: seq<Edit>)
    returns (hunks: seq<DiffHunk>, ghost spans: seq<Span>, ghost all: seq<Span>)
    ensures HunksOf(file, before, after, edits, spans, hunks)
    ensures FirstGroups(edits, spans, all)
  {
    hunks, spans, all := [], [], [];
    if forall e | e in edits :: e.Keep? {
      return;
    }
    var flags := ChangeFlags(edits);
    var i := 0;
    while i < |edits|
      invariant 0 <= i <= |edits| && |hunks| < MAX_HUNKS
      invariant HunksOf(file, before, after, edits, spans, hunks)
      invariant Grouping(edits, spans, i)
      invariant forall k: nat | k < |edits| :: flags[k] == IsChange(edits, k)
      decreases |edits| - i
    {
      if !flags[i] {
        i := i + 1;
        continue;
      }
      var end;
      hunks, spans, end := AddHunk(file, before, after, edits, flags, i, hunks, spans);
      if |hunks| >= MAX_HUNKS {
        all := FinishGroups(edits, spans, end);
        return;
      }
      i := end;
    }
    all := FinishGroups(edits, spans, i);
  }

  lemma FinishGroups(edits: seq<Edit>, spans: seq<Span>, i: nat) returns (all: seq<Span>)
    requires Grouping(edits, spans, i) && (|spans| == MAX_HUNKS || (i == |edits| && |spans| < MAX_HUNKS))
    ensures FirstGroups(edits, spans, all)
  {
    if i == |edits| {
      all := spans;
    } else {
      all := RestOfGroups(edits, spans, i);
      CoveredExactlyWhen(edits, spans, all);
    }
  }

  /** The first groups cover all changes only if they are all the groups. */
  lemma CoveredExactlyWhen(edits: seq<Edit>, spans: seq<Span>, all: seq<Span>)
    requires Grouped(edits, spans) && Grouped(edits, all) && AllCovered(edits, all) && spans <= all
    ensures AllCovered(edits, spans) <==> spans == all
  {
    if AllCovered(edits, spans) {
      assert spans[..|spans|] == all[..|spans|];
      GroupingUnique(edits, spans, all, |spans|);
    }
  }

  /** The group built at change `i` is valid, separate from the ones before, and settles everything up to its end. */
  lemma NextGroup(edits: seq<Edit>, spans: seq<Span>, i: nat, start: nat, last: nat, end: nat)
    requires Grouping(edits, spans, i)
    requires i <= last < |edits| && IsChange(edits, i) && IsChange(edits, last)
    requires start <= SaturatingSub(i, CONTEXT)
    requires forall k: nat | start <= k < SaturatingSub(i, CONTEXT) :: IsChange(edits, k)
    requires start > 0 ==> !IsChange(edits, start - 1)
    requires end == Min(last + 1 + CONTEXT, |edits|)
    requires Quiet(edits, last + 1, last + 1 + 2 * CONTEXT)
    requires forall p: nat | i <= p && p + 2 * CONTEXT <= last :: !QuietRun(edits, p)
    ensures start < end && i < end
    ensures Grouping(edits, spans + [Span(start, i, last, end)], end)
  {
    var s := Span(start, i, last, end);
    assert spans != [] ==> Settled(spans) + 2 * CONTEXT <= i;
    assert start < SaturatingSub(i, CONTEXT) ==> IsChange(edits, SaturatingSub(i, CONTEXT) - 1);
    assert start == SaturatingSub(i, CONTEXT);
    assert Quiet(edits, start, i);
    assert ValidSpan(edits, s);
    GroupedExtend(edits, spans, s);
  }

  lemma HunksExtend(file: string, before: seq<Line>, after: seq<Line>, edits: seq<Edit>,
                    spans: seq<Span>, hunks: seq<DiffHunk>, s: Span, h: DiffHunk)
    requires HunksOf(file, before, after, edits, spans, hunks)
    requires s.lo < s.hi <= |edits| && h == HunkAt(file, before, after, edits, s)
    ensures HunksOf(file, before, after, edits, spans + [s], hunks + [h])
  {
    var ss, hs := spans + [s], hunks + [h];
    forall k | 0 <= k < |ss|
      ensures ss[k].lo < ss[k].hi <= |edits| && hs[k] == HunkAt(file, before, after, edits, ss[k])
    {
      if k < |spans| {
        assert hs[k] == hunks[k] && ss[k] == spans[k];
      }
    }
  }

  lemma GroupedExtend(edits: seq<Edit>, spans: seq<Span>, s: Span)
    requires Grouped(edits, spans) && ValidSpan(edits, s)
    requires Quiet(edits, if spans == [] then 0 else spans[|spans|-1].last + 1, s.first)
    requires spans != [] ==> Separated(edits, spans[|spans|-1], s)
    ensures Grouped(edits, spans + [s])
  {
    var all := spans + [s];
    assert forall k | 0 <= k < |spans| :: all[k] == spans[k];
    forall k | 0 <= k < |all| - 1
      ensures Separated(edits, all[k], all[k + 1])
    {
      if k < |spans| - 1 {
        assert Separated(edits, spans[k], spans[k + 1]);
      }
    }
  }
}
