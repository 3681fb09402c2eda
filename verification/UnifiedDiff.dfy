/** Printing hunks as unified-diff text and parsing such text back
    (crates/impetus-core/src/diff_observation.rs). */
module UnifiedDiff {
  import opened Text
  import opened DiffHunks

  //
  // Printing.
  //

  function RangeText(start: nat, count: nat): string {
    Decimal(start) + [','] + Decimal(count)
  }

  function HeaderTail(h: DiffHunk): string {
    TwoWords(['-'] + RangeText(h.oldStart, h.oldLines), ['+'] + RangeText(h.newStart, h.newLines))
  }

  function TwoWords(v: string, w: string): string {
    [' '] + (v + ([' '] + (w + " @@")))
  }

  function OldFileLine(f: string): string {
    "--- " + (['a', '/'] + f)
  }

  function NewFileLine(f: string): string {
    "+++ " + (['b', '/'] + f)
  }

  function HeaderLine(h: DiffHunk): string {
    "@@" + HeaderTail(h)
  }

  function HunkHeader(h: DiffHunk): seq<string> {
    [OldFileLine(h.file), NewFileLine(h.file), HeaderLine(h)]
  }

  function Body(h: DiffHunk): seq<string> {
    Lines(h.preview)
  }

  function HunkText(h: DiffHunk): seq<string> {
    HunkHeader(h) + Body(h)
  }

  /** The lines of an untruncated preview. */
  function Printed(hunks: seq<DiffHunk>): seq<string> {
    if hunks == [] then [] else HunkText(hunks[0]) + Printed(hunks[1..])
  }

  lemma {:induction false} PrintedAppend(a: seq<DiffHunk>, b: seq<DiffHunk>)
    ensures Printed(a + b) == Printed(a) + Printed(b)
    decreases |a|
  {
    if a == [] {
      assert a + b == b;
    } else {
      TailOfAppend(a, b);
      PrintedAppend(a[1..], b);
      Assoc(HunkText(a[0]), Printed(a[1..]), Printed(b));
    }
  }

  lemma PrintedNext(hunks: seq<DiffHunk>, k: nat)
    requires k < |hunks|
    ensures Printed(hunks[..k + 1]) == Printed(hunks[..k]) + HunkText(hunks[k])
  {
    var one := [hunks[k]];
    assert hunks[..k + 1] == hunks[..k] + one;
    PrintedAppend(hunks[..k], one);
    assert one[1..] == [];
    assert Printed(one) == HunkText(hunks[k]);
  }

  lemma PrintedPrefix(hunks: seq<DiffHunk>, k: nat)
    requires k <= |hunks|
    ensures Printed(hunks[..k]) <= Printed(hunks)
  {
    assert hunks == hunks[..k] + hunks[k..];
    PrintedAppend(hunks[..k], hunks[k..]);
  }

  /** Prints body lines until the limit is reached. */
  method PrintBody(start: seq<string>, body: seq<string>, maxLines: nat)
    returns (out: seq<string>, cut: bool, ghost b: nat)
    ensures b <= |body| && out == start + body[..b]
    ensures !cut ==> b == |body| && (body != [] ==> |out| < maxLines)
    ensures cut ==> |out| >= maxLines && 0 < b && (b > 1 ==> |out| == maxLines)
  {
    out, cut, b := start, false, 0;
    for k := 0 to |body|
      invariant b == k && out == start + body[..k]
      invariant k > 0 ==> |out| < maxLines
    {
      out := out + [body[k]];
      b := k + 1;
      if |out| >= maxLines {
        cut := true;
        return;
      }
    }
  }

  lemma HunkPrinted(hunks: seq<DiffHunk>, k: nat, done: seq<string>, out: seq<string>, b: nat)
    requires k < |hunks| && done == Printed(hunks[..k]) && b <= |Body(hunks[k])|
    requires out == done + HunkHeader(hunks[k]) + Body(hunks[k])[..b]
    ensures out <= Printed(hunks)
    ensures b == |Body(hunks[k])| ==> out == Printed(hunks[..k + 1])
  {
    PrintedNext(hunks, k);
    PrintedPrefix(hunks, k + 1);
    PartOfBody(done, HunkHeader(hunks[k]), Body(hunks[k]), b);
    PrefixThrough(out, Printed(hunks[..k + 1]), Printed(hunks));
  }

  lemma PartOfBody(done: seq<string>, header: seq<string>, body: seq<string>, b: nat)
    requires b <= |body|
    ensures done + header + body[..b] <= done + (header + body)
    ensures b == |body| ==> done + header + body[..b] == done + (header + body)
  {
    var some, more := body[..b], body[b..];
    assert body == some + more;
    assert done + (header + body) == done + header + some + more;
  }

  lemma PrefixThrough(a: seq<string>, b: seq<string>, c: seq<string>)
    requires a <= b <= c
    ensures a <= c
  {
  }

  const TRUNCATED: string := "... (truncated)"

  /** A prefix of the print, and the marker. */
  ghost predicate MarkedCut(lines: seq<string>, printed: seq<string>) {
    0 < |lines| <= |printed| + 1 && lines == printed[..|lines| - 1] + [TRUNCATED]
  }

  lemma CutMarked(out: seq<string>, printed: seq<string>)
    requires out <= printed
    ensures |out| <= |printed| && MarkedCut(out + [TRUNCATED], printed)
  {
  }

  /** Prints one more hunk after those before it. */
  method PrintHunk(hunks: seq<DiffHunk>, k: nat, done: seq<string>, maxLines: nat)
    returns (out: seq<string>, stop: bool)
    requires k < |hunks| && done == Printed(hunks[..k])
    ensures out <= Printed(hunks)
    ensures !stop ==> out == Printed(hunks[..k + 1]) && out != [] && (Body(hunks[k]) != [] ==> |out| < maxLines)
    ensures stop ==> maxLines <= |out| && (|out| <= maxLines || |out| <= |done| + 4)
  {
    ghost var b: nat;
    out, stop, b := PrintBody(done + HunkHeader(hunks[k]), Body(hunks[k]), maxLines);
    HunkPrinted(hunks, k, done, out, b);
  }

  ghost predicate NoneEmpty(hunks: seq<DiffHunk>) {
    forall h | h in hunks :: Body(h) != []
  }

  /** Prints hunks, stopping with a marker once `maxLines` lines are out. Without a cut the text is
      the whole print; with one it is a prefix of it that reaches past the limit by three lines at most. */
  method UnifiedPreview(hunks: seq<DiffHunk>, summary: string, maxLines: nat)
    returns (text: string, ghost lines: seq<string>, ghost cut: bool)
    ensures text == if hunks == [] then summary else Join(lines, '\n')
    ensures !cut ==> lines == Printed(hunks)
    ensures cut ==> maxLines < |lines| && MarkedCut(lines, Printed(hunks))
    ensures NoneEmpty(hunks) ==> |lines| <= maxLines + 5
    ensures hunks != [] && NoneEmpty(hunks) ==> (cut <==> |Printed(hunks)| >= maxLines)
  {
    var out: seq<string> := [];
    for k := 0 to |hunks|
      invariant out == Printed(hunks[..k])
      invariant k == 0 <==> out == []
      invariant k > 0 && NoneEmpty(hunks) ==> |out| < maxLines
    {
      var stop: bool;
      assert hunks[k] in hunks;
      out, stop := PrintHunk(hunks, k, out, maxLines);
      if stop {
        CutMarked(out, Printed(hunks));
        out := out + [TRUNCATED];
        text, lines, cut := Join(out, '\n'), out, true;
        return;
      }
    }
    assert hunks[..|hunks|] == hunks;
    lines, cut := out, false;
    if |out| == 0 {
      text := summary;
    } else {
      text := Join(out, '\n');
    }
  }

  //
  // Parsing.
  //

  /** `path.trim()`, up to a tab, without a leading `a/` or `b/`. */
  function StripAbPrefix(path: string): string {
    var p := Split(Trim(path), '\t')[0];
    if "a/" <= p || "b/" <= p then p[2..] else p
  }

  function ParseRange(s: string): Option<(nat, nat)> {
    var k := Find(s, ',');
    if k < |s| then
      match (ParseUsize(s[..k]), ParseUsize(s[k + 1..]))
      case (Some(start), Some(count)) => Some((start, count))
      case _ => None
    else
      match ParseUsize(s)
      case Some(start) => Some((start, 1))
      case None => None
  }

  function ParseHunkHeader(rest: string): Option<(nat, nat, nat, nat)> {
    var parts := SplitWhitespace(rest);
    if |parts| < 2 || !("-" <= parts[0]) || !("+" <= parts[1]) then None
    else
      match (ParseRange(parts[0][1..]), ParseRange(parts[1][1..]))
      case (Some((os, ol)), Some((ns, nl))) => Some((os, ol, ns, nl))
      case _ => None
  }

  /** The cursors of the parsing loop. */
  datatype Parser = Parser(
    hunks: seq<DiffHunk>, file: string, oldStart: nat, oldLines: nat, newStart: nat, newLines: nat,
    preview: seq<string>, inHunk: bool)

  const START: Parser := Parser([], "unknown", 1, 0, 1, 0, [], false)

  function Flush(p: Parser): Parser {
    if p.preview == [] && p.oldLines == 0 && p.newLines == 0 then p
    else p.(hunks := p.hunks + [DiffHunk(p.file, p.oldStart, p.oldLines, p.newStart, p.newLines,
                                         Join(p.preview, '\n'))],
            preview := [])
  }

  predicate Marked(line: string) {
    line != [] && (line[0] == '+' || line[0] == '-' || line[0] == ' ')
  }

  function Step(p: Parser, line: string): Parser {
    if "--- " <= line then
      (if p.inHunk then Flush(p).(inHunk := false) else p).(file := StripAbPrefix(line[4..]))
    else if "+++ " <= line then
      p.(file := StripAbPrefix(line[4..]))
    else if "@@" <= line then
      var q := if p.inHunk then Flush(p) else p;
      (match ParseHunkHeader(line[2..])
       case Some((os, ol, ns, nl)) => q.(oldStart := os, oldLines := ol, newStart := ns, newLines := nl)
       case None => q).(inHunk := true, preview := [])
    else if !p.inHunk then p
    else if Marked(line) then
      if |p.preview| < MAX_HUNK_PREVIEW_LINES then p.(preview := p.preview + [line]) else p
    else if "diff " <= line then
      Flush(p).(inHunk := false)
    else p
  }

  /** The loop over lines, left once `MAX_HUNKS` hunks are out. */
  function Run(p: Parser, lines: seq<string>): Parser
    decreases |lines|
  {
    if lines == [] then p
    else
      var q := Step(p, lines[0]);
      if |q.hunks| >= MAX_HUNKS then q else Run(q, lines[1..])
  }

  function Finish(p: Parser): seq<DiffHunk> {
    if p.inHunk then Flush(p).hunks else p.hunks
  }

  function Parse(unified: string): seq<DiffHunk> {
    Finish(Run(START, Lines(unified)))
  }

  method ParseUnifiedHunks(unified: string) returns (hunks: seq<DiffHunk>)
    ensures hunks == Parse(unified)
  {
    var p := START;
    var lines := Lines(unified);
    var k := 0;
    while k < |lines|
      invariant 0 <= k <= |lines| && |p.hunks| < MAX_HUNKS
      invariant Run(START, lines) == Run(p, lines[k..])
      decreases |lines| - k
    {
      assert lines[k..][1..] == lines[k + 1..];
      p := Step(p, lines[k]);
      if |p.hunks| >= MAX_HUNKS {
        break;
      }
      k := k + 1;
    }
    hunks := Finish(p);
  }

  //
  // Reading back what was printed.
  //

  /** A path the header lines give back. */
  predicate CleanPath(f: string) {
    '\n' !in f && '\t' !in f && (f == [] || !IsWhitespace(f[|f|-1]))
  }

  /** The lines a preview is made of, as they are. */
  function Shown(h: DiffHunk): seq<string> {
    Split(h.preview, '\n')
  }

  /** A hunk whose header is read back, and whose lines are marked and within the bound. */
  predicate CleanHunk(h: DiffHunk) {
    && CleanPath(h.file)
    && h.oldStart <= USIZE_MAX && h.oldLines <= USIZE_MAX && h.newStart <= USIZE_MAX && h.newLines <= USIZE_MAX
    && h.oldLines + h.newLines > 0
    && |Shown(h)| <= MAX_HUNK_PREVIEW_LINES
    && forall l | l in Shown(h) :: Marked(l)
  }

  /** A body line the parser takes for a file header. */
  predicate Misread(line: string) {
    "--- " <= line || "+++ " <= line
  }

  /** A body the parser collects line by line, up to misread ones. */
  predicate MarkedBody(body: seq<string>) {
    0 < |body| <= MAX_HUNK_PREVIEW_LINES && forall l | l in body :: Marked(l) && Fed(l)
  }

  predicate GoodBody(body: seq<string>) {
    MarkedBody(body) && forall l | l in body :: !Misread(l)
  }

  lemma StripsPrefix(f: string, letter: char)
    requires CleanPath(f) && (letter == 'a' || letter == 'b')
    ensures StripAbPrefix([letter, '/'] + f) == f
  {
    var s := [letter, '/'] + f;
    assert s[|s|-1] == if f == [] then '/' else f[|f|-1];
    assert Trim(s) == s;
    assert '\t' !in s;
    FindInPrefix(s, '\t', "");
    assert s[2..] == f;
  }

  lemma DigitsAreWords(n: nat)
    ensures forall c | c in Decimal(n) :: !IsWhitespace(c) && c != ','
  {
  }

  lemma RangeReadsBack(start: nat, count: nat)
    requires start <= USIZE_MAX && count <= USIZE_MAX
    ensures ParseRange(RangeText(start, count)) == Some((start, count))
  {
    DigitsAreWords(start);
    var s := RangeText(start, count);
    FindInPrefix(Decimal(start), ',', Decimal(count));
    assert s[..|Decimal(start)|] == Decimal(start) && s[|Decimal(start)| + 1..] == Decimal(count);
    ParseOfDecimal(start);
    ParseOfDecimal(count);
  }

  lemma RangeIsWord(start: nat, count: nat)
    ensures forall c | c in RangeText(start, count) :: !IsWhitespace(c) && c != '\n'
  {
    DigitsAreWords(start);
    DigitsAreWords(count);
  }

  lemma TwoWordsSplit(v: string, w: string)
    requires v != [] && forall c | c in v :: !IsWhitespace(c)
    requires w != [] && forall c | c in w :: !IsWhitespace(c)
    ensures |SplitWhitespace(TwoWords(v, w))| >= 2
    ensures SplitWhitespace(TwoWords(v, w))[0] == v && SplitWhitespace(TwoWords(v, w))[1] == w
  {
    var tail := w + " @@";
    SplitSkipsSpace(v + ([' '] + tail));
    SplitWord(v, [' '] + tail);
    SplitSkipsSpace(tail);
    SplitWord(w, " @@");
  }

  lemma HeaderReadsBack(h: DiffHunk)
    requires CleanHunk(h)
    ensures ParseHunkHeader(HeaderTail(h)) == Some((h.oldStart, h.oldLines, h.newStart, h.newLines))
  {
    var v, w := ['-'] + RangeText(h.oldStart, h.oldLines), ['+'] + RangeText(h.newStart, h.newLines);
    RangeIsWord(h.oldStart, h.oldLines);
    RangeIsWord(h.newStart, h.newLines);
    TwoWordsSplit(v, w);
    assert v[1..] == RangeText(h.oldStart, h.oldLines) && w[1..] == RangeText(h.newStart, h.newLines);
    RangeReadsBack(h.oldStart, h.oldLines);
    RangeReadsBack(h.newStart, h.newLines);
  }

  lemma {:induction false} RunAppend(p: Parser, a: seq<string>, b: seq<string>)
    ensures |Run(p, a).hunks| < MAX_HUNKS ==> Run(p, a + b) == Run(Run(p, a), b)
    ensures |Run(p, a).hunks| >= MAX_HUNKS && a != [] ==> Run(p, a + b) == Run(p, a)
    decreases |a|
  {
    if a == [] {
      assert a + b == b;
    } else {
      assert (a + b)[1..] == a[1..] + b;
      var q := Step(p, a[0]);
      if |q.hunks| < MAX_HUNKS {
        RunAppend(q, a[1..], b);
      }
    }
  }

  /** Hunks already out stay out. */
  lemma {:induction false} RunKeepsHunks(p: Parser, lines: seq<string>)
    ensures p.hunks <= Run(p, lines).hunks
    ensures p.hunks <= Finish(Run(p, lines))
    decreases |lines|
  {
    if lines != [] {
      var q := Step(p, lines[0]);
      assert p.hunks <= q.hunks;
      if |q.hunks| < MAX_HUNKS {
        RunKeepsHunks(q, lines[1..]);
      }
    }
  }

  /** A body free of misread lines is collected as it is. */
  lemma {:induction false} RunBody(p: Parser, body: seq<string>)
    requires p.inHunk && |p.hunks| < MAX_HUNKS
    requires |p.preview| + |body| <= MAX_HUNK_PREVIEW_LINES
    requires forall l | l in body :: Marked(l) && !Misread(l)
    ensures Run(p, body) == p.(preview := p.preview + body)
    decreases |body|
  {
    if body == [] {
      assert p.preview + body == p.preview;
    } else {
      assert body[0] in body && forall l | l in body[1..] :: l in body;
      StepBody(p, body[0]);
      RunBody(p.(preview := p.preview + [body[0]]), body[1..]);
      assert p.preview + [body[0]] + body[1..] == p.preview + body;
    }
  }

  lemma StepBody(p: Parser, l: string)
    requires p.inHunk && |p.hunks| < MAX_HUNKS && |p.preview| < MAX_HUNK_PREVIEW_LINES && Marked(l) && !Misread(l)
    ensures Step(p, l) == p.(preview := p.preview + [l])
  {
  }

  /** What the parser holds after the three header lines of a hunk. */
  function Opened(p: Parser, h: DiffHunk): Parser {
    Parser(Finish(p), h.file, h.oldStart, h.oldLines, h.newStart, h.newLines, [], true)
  }

  lemma StepOldFile(p: Parser, f: string)
    requires CleanPath(f)
    ensures Step(p, OldFileLine(f)) == (if p.inHunk then Flush(p).(inHunk := false) else p).(file := f)
  {
    StripsPrefix(f, 'a');
    assert OldFileLine(f)[4..] == ['a', '/'] + f;
  }

  lemma StepNewFile(p: Parser, f: string)
    requires CleanPath(f)
    ensures Step(p, NewFileLine(f)) == p.(file := f)
  {
    StripsPrefix(f, 'b');
    assert NewFileLine(f)[0] == '+';
    assert NewFileLine(f)[4..] == ['b', '/'] + f;
  }

  lemma StepHeader(p: Parser, h: DiffHunk)
    requires CleanHunk(h) && !p.inHunk
    ensures Step(p, HeaderLine(h)) ==
            Parser(p.hunks, p.file, h.oldStart, h.oldLines, h.newStart, h.newLines, [], true)
  {
    HeaderReadsBack(h);
    assert HeaderLine(h)[0] == '@';
    assert HeaderLine(h)[2..] == HeaderTail(h);
  }

  lemma RunThree(p: Parser, a: string, b: string, c: string)
    requires |Step(p, a).hunks| < MAX_HUNKS
    requires |Step(Step(p, a), b).hunks| < MAX_HUNKS
    ensures Run(p, [a, b, c]) == Step(Step(Step(p, a), b), c)
  {
    assert [a, b, c][1..] == [b, c] && [b, c][1..] == [c] && [c][1..] == [];
    var q := Step(Step(p, a), b);
    assert Run(q, [c]) == Step(q, c);
    assert Run(Step(p, a), [b, c]) == Run(q, [c]);
  }

  lemma RunHeader(p: Parser, h: DiffHunk)
    requires CleanHunk(h) && |Finish(p)| < MAX_HUNKS
    ensures Run(p, HunkHeader(h)) == Opened(p, h)
  {
    StepOldFile(p, h.file);
    var p1 := Step(p, OldFileLine(h.file));
    StepNewFile(p1, h.file);
    StepHeader(Step(p1, NewFileLine(h.file)), h);
    RunThree(p, OldFileLine(h.file), NewFileLine(h.file), HeaderLine(h));
  }

  lemma RunOpened(p: Parser, h: DiffHunk, body: seq<string>, rest: seq<string>)
    requires CleanHunk(h) && |Finish(p)| < MAX_HUNKS
    ensures Run(p, HunkHeader(h) + body + rest) == Run(Opened(p, h), body + rest)
  {
    RunHeader(p, h);
    RunAppend(p, HunkHeader(h), body + rest);
    Assoc(HunkHeader(h), body, rest);
  }

  /** The hunk read when its body comes as these lines. */
  function Reread(h: DiffHunk, body: seq<string>): DiffHunk {
    h.(preview := Join(body, '\n'))
  }

  /** A hunk with no misread line comes out whole. */
  lemma RunGoodHunk(p: Parser, h: DiffHunk, body: seq<string>, rest: seq<string>) returns (q: Parser)
    requires CleanHunk(h) && GoodBody(body) && |Finish(p)| < MAX_HUNKS
    ensures Run(p, HunkHeader(h) + body + rest) == Run(q, rest)
    ensures q.inHunk && q.hunks == Finish(p) && Finish(q) == Finish(p) + [Reread(h, body)]
  {
    RunOpened(p, h, body, rest);
    RunBody(Opened(p, h), body);
    q := Opened(p, h).(preview := body);
    assert [] + body == body;
    RunAppend(Opened(p, h), body, rest);
  }

  /** Headers with bodies, as text. */
  function Layout(hunks: seq<DiffHunk>, bodies: seq<seq<string>>): seq<string>
    requires |hunks| == |bodies|
  {
    if hunks == [] then [] else HunkHeader(hunks[0]) + bodies[0] + Layout(hunks[1..], bodies[1..])
  }

  function RereadAll(hunks: seq<DiffHunk>, bodies: seq<seq<string>>): (r: seq<DiffHunk>)
    requires |hunks| == |bodies|
    ensures |r| == |hunks| && forall k | 0 <= k < |r| :: r[k] == Reread(hunks[k], bodies[k])
  {
    if hunks == [] then [] else [Reread(hunks[0], bodies[0])] + RereadAll(hunks[1..], bodies[1..])
  }

  lemma HeadTail(base: seq<DiffHunk>, hunks: seq<DiffHunk>)
    requires hunks != []
    ensures base + [hunks[0]] + hunks[1..] == base + hunks
  {
  }

  function UpTo(hunks: seq<DiffHunk>): seq<DiffHunk> {
    hunks[..Min(|hunks|, MAX_HUNKS)]
  }

  /** Good hunks come out in order, up to the bound. */
  lemma {:induction false} RunGoodHunks(p: Parser, hunks: seq<DiffHunk>, bodies: seq<seq<string>>)
    requires |hunks| == |bodies| && |p.hunks| < MAX_HUNKS && |Finish(p)| <= MAX_HUNKS
    requires forall k | 0 <= k < |hunks| :: CleanHunk(hunks[k]) && GoodBody(bodies[k])
    ensures Finish(Run(p, Layout(hunks, bodies))) == UpTo(Finish(p) + RereadAll(hunks, bodies))
    decreases |hunks|
  {
    var base := Finish(p);
    if hunks == [] {
      assert base + [] == base && base[..|base|] == base;
    } else if |base| < MAX_HUNKS {
      var q := RunGoodHunk(p, hunks[0], bodies[0], Layout(hunks[1..], bodies[1..]));
      RunGoodHunks(q, hunks[1..], bodies[1..]);
      HeadTail(base, RereadAll(hunks, bodies));
    } else {
      StopsHere(p, hunks, bodies);
      assert (base + RereadAll(hunks, bodies))[..MAX_HUNKS] == base;
    }
  }

  /** With the last allowed hunk open, the next header ends the run. */
  lemma StopsHere(p: Parser, hunks: seq<DiffHunk>, bodies: seq<seq<string>>)
    requires hunks != [] && |hunks| == |bodies| && CleanHunk(hunks[0])
    requires |p.hunks| < MAX_HUNKS && |Finish(p)| == MAX_HUNKS
    ensures Finish(Run(p, Layout(hunks, bodies))) == Finish(p)
  {
    StepOldFile(p, hunks[0].file);
    assert Layout(hunks, bodies)[0] == OldFileLine(hunks[0].file);
  }

  //
  // A misread line always spoils the result.
  //

  /** The hunk at place `k` is still open, or already out, with fewer than `n` body lines. */
  ghost predicate Short(p: Parser, base: seq<DiffHunk>, n: nat) {
    || (&& p.inHunk && p.hunks == base && |p.preview| < n && p.oldLines + p.newLines > 0 && FedLines(p.preview))
    || ShortOut(p.hunks, base, n)
  }

  ghost predicate ShortOut(hunks: seq<DiffHunk>, base: seq<DiffHunk>, n: nat) {
    |base| < |hunks| && base <= hunks && LineCount(hunks[|base|].preview) < n
  }

  function LineCount(s: string): nat {
    if s == [] then 0 else |Split(s, '\n')|
  }

  lemma CountOfJoin(ls: seq<string>)
    requires FedLines(ls)
    ensures LineCount(Join(ls, '\n')) == |ls|
  {
    if ls != [] {
      assert ls[0] in ls && ls[0] <= Join(ls, '\n');
      SplitOfJoin(ls, '\n');
    }
  }

  /** Flushing an open short hunk puts it out short. */
  lemma FlushShort(p: Parser, n: nat)
    requires |p.preview| < n && p.oldLines + p.newLines > 0 && FedLines(p.preview)
    ensures ShortOut(Flush(p).hunks, p.hunks, n)
  {
    CountOfJoin(p.preview);
  }

  /** Whatever marked lines follow, a hunk that has already lost a line stays short. */
  lemma {:induction false} RunShort(p: Parser, base: seq<DiffHunk>, lines: seq<string>, m: nat, n: nat)
    requires Short(p, base, m) && m + |lines| <= n
    requires forall l | l in lines :: Marked(l) && Fed(l)
    ensures Short(Run(p, lines), base, n)
    decreases |lines|
  {
    if ShortOut(p.hunks, base, m) {
      RunKeepsHunks(p, lines);
    } else if lines != [] {
      var l := lines[0];
      assert l in lines && forall x | x in lines[1..] :: x in lines;
      var q := Step(p, l);
      if "--- " <= l {
        FlushShort(p, m);
      }
      assert Short(q, base, m + 1);
      if |q.hunks| < MAX_HUNKS {
        RunShort(q, base, lines[1..], m + 1, n);
      }
    }
  }

  /** Index of the first misread line. */
  lemma FirstMisread(body: seq<string>) returns (k: nat)
    requires exists l :: l in body && Misread(l)
    ensures k < |body| && Misread(body[k])
    ensures forall l | l in body[..k] :: !Misread(l)
  {
    k := 0;
    while !Misread(body[k])
      invariant k < |body| && forall l | l in body[..k] :: !Misread(l)
      invariant exists l :: l in body[k..] && Misread(l)
      decreases |body| - k
    {
      assert body[k..] == [body[k]] + body[k + 1..];
      assert body[..k + 1] == body[..k] + [body[k]];
      k := k + 1;
    }
  }

  lemma MarkedParts(body: seq<string>, k: nat)
    requires MarkedBody(body) && k <= |body|
    ensures forall l | l in body[..k] :: Marked(l) && Fed(l)
    ensures forall l | l in body[k..] :: Marked(l) && Fed(l)
  {
  }

  /** A hunk with a misread line is short once its body has been read. */
  lemma RunBadBody(p: Parser, h: DiffHunk, body: seq<string>)
    requires h.oldLines + h.newLines > 0 && MarkedBody(body) && |Finish(p)| < MAX_HUNKS
    requires exists l :: l in body && Misread(l)
    ensures Short(Run(Opened(p, h), body), Finish(p), |body|)
  {
    var good, bad := PartsAtMisread(body);
    RunBadParts(Opened(p, h), good, bad, body);
  }

  lemma PartsAtMisread(body: seq<string>) returns (good: seq<string>, bad: seq<string>)
    requires MarkedBody(body) && exists l :: l in body && Misread(l)
    ensures body == good + bad && |good| <= MAX_HUNK_PREVIEW_LINES && bad != [] && Misread(bad[0])
    ensures forall l | l in good :: Marked(l) && Fed(l) && !Misread(l)
    ensures forall l | l in bad :: Marked(l) && Fed(l)
  {
    var k := FirstMisread(body);
    MarkedParts(body, k);
    good, bad := body[..k], body[k..];
  }

  lemma RunBadParts(o: Parser, good: seq<string>, bad: seq<string>, body: seq<string>)
    requires o.inHunk && |o.hunks| < MAX_HUNKS && o.preview == [] && o.oldLines + o.newLines > 0
    requires body == good + bad && |good| <= MAX_HUNK_PREVIEW_LINES && bad != [] && Misread(bad[0])
    requires forall l | l in good :: Marked(l) && Fed(l) && !Misread(l)
    requires forall l | l in bad :: Marked(l) && Fed(l)
    ensures Short(Run(o, body), o.hunks, |body|)
  {
    RunGoodPart(o, good, bad, body);
    MisreadShortens(o.(preview := good), bad, |body|);
  }

  lemma RunGoodPart(o: Parser, good: seq<string>, bad: seq<string>, body: seq<string>)
    requires o.inHunk && |o.hunks| < MAX_HUNKS && o.preview == [] && |good| <= MAX_HUNK_PREVIEW_LINES
    requires (forall l | l in good :: Marked(l) && !Misread(l)) && body == good + bad
    ensures Run(o, body) == Run(o.(preview := good), bad)
  {
    RunBody(o, good);
    assert [] + good == good;
    RunAppend(o, good, bad);
  }

  /** Reading a misread line, and whatever marked lines follow, leaves the open hunk short. */
  lemma MisreadShortens(q: Parser, bad: seq<string>, n: nat)
    requires bad != [] && Misread(bad[0]) && |q.hunks| < MAX_HUNKS
    requires q.inHunk && q.oldLines + q.newLines > 0 && FedLines(q.preview)
    requires |q.preview| + |bad| == n
    requires forall l | l in bad :: Marked(l) && Fed(l)
    ensures Short(Run(q, bad), q.hunks, n)
  {
    var r, m := Step(q, bad[0]), |q.preview| + 1;
    if "--- " <= bad[0] {
      FlushShort(q, m);
    }
    assert Short(r, q.hunks, m);
    if |r.hunks| < MAX_HUNKS {
      assert forall l | l in bad[1..] :: l in bad;
      RunShort(r, q.hunks, bad[1..], m, n);
    }
  }

  /** After a short hunk nothing that follows makes the hunk whole again. */
  lemma ShortStaysShort(p: Parser, base: seq<DiffHunk>, n: nat, hunks: seq<DiffHunk>, bodies: seq<seq<string>>)
    requires Short(p, base, n) && |hunks| == |bodies|
    ensures ShortOut(Finish(Run(p, Layout(hunks, bodies))), base, n)
  {
    var lines := Layout(hunks, bodies);
    if ShortOut(p.hunks, base, n) {
      RunKeepsHunks(p, lines);
    } else {
      FlushShort(p, n);
      if hunks != [] {
        assert lines[0] == OldFileLine(hunks[0].file);
        var q := Step(p, lines[0]);
        assert "--- " <= lines[0];
        assert q.hunks == Flush(p).hunks;
        RunKeepsHunks(q, lines[1..]);
      }
    }
  }

  lemma RunBadHunk(p: Parser, h: DiffHunk, body: seq<string>, hunks: seq<DiffHunk>, bodies: seq<seq<string>>)
    requires CleanHunk(h) && MarkedBody(body) && !GoodBody(body) && |Finish(p)| < MAX_HUNKS && |hunks| == |bodies|
    ensures ShortOut(Finish(Run(p, HunkHeader(h) + body + Layout(hunks, bodies))), Finish(p), |body|)
  {
    RunOpened(p, h, body, Layout(hunks, bodies));
    RunBadBody(p, h, body);
    var r := Run(Opened(p, h), body);
    RunAppend(Opened(p, h), body, Layout(hunks, bodies));
    if |r.hunks| < MAX_HUNKS {
      ShortStaysShort(r, Finish(p), |body|, hunks, bodies);
    } else {
      ShortStaysShort(r, Finish(p), |body|, [], []);
    }
  }

  lemma ShortDiffers(read: seq<DiffHunk>, base: seq<DiffHunk>, want: seq<DiffHunk>, n: nat)
    requires ShortOut(read, base, n) && want != [] && LineCount(want[0].preview) == n
    ensures read != base + want
  {
    assert (base + want)[|base|] == want[0];
  }

  lemma OtherFirst(read: seq<DiffHunk>, base: seq<DiffHunk>, first: DiffHunk, want: seq<DiffHunk>)
    requires base + [first] <= read && want != [] && want[0] != first
    ensures read != base + want
  {
    assert (base + want)[|base|] == want[0] && (base + [first])[|base|] == first;
  }

  /** A misread line in one of some bodies. */
  ghost predicate AnyBad(bodies: seq<seq<string>>) {
    bodies != [] && (!GoodBody(bodies[0]) || AnyBad(bodies[1..]))
  }

  ghost predicate Wanted(hunks: seq<DiffHunk>, bodies: seq<seq<string>>, want: seq<DiffHunk>) {
    && |hunks| == |bodies| == |want|
    && forall k | 0 <= k < |hunks| ::
         && CleanHunk(hunks[k]) && MarkedBody(bodies[k])
         && LineCount(want[k].preview) == |bodies[k]|
  }

  /** With a misread line, what is read differs from any hunks that have as many lines each as were printed. */
  lemma {:induction false} RunBadHunks(p: Parser, hunks: seq<DiffHunk>, bodies: seq<seq<string>>, want: seq<DiffHunk>)
    requires Wanted(hunks, bodies, want) && AnyBad(bodies) && |Finish(p)| + |hunks| <= MAX_HUNKS
    ensures Finish(Run(p, Layout(hunks, bodies))) != Finish(p) + want
    decreases |hunks|
  {
    var rest := Layout(hunks[1..], bodies[1..]);
    if GoodBody(bodies[0]) {
      var q := RunGoodHunk(p, hunks[0], bodies[0], rest);
      if want[0] == Reread(hunks[0], bodies[0]) {
        RunBadHunks(q, hunks[1..], bodies[1..], want[1..]);
        HeadTail(Finish(p), want);
      } else {
        FirstStays(p, q, hunks[0], bodies[0], hunks[1..], bodies[1..]);
        OtherFirst(Finish(Run(q, rest)), Finish(p), Reread(hunks[0], bodies[0]), want);
      }
    } else {
      RunBadHunk(p, hunks[0], bodies[0], hunks[1..], bodies[1..]);
      ShortDiffers(Finish(Run(p, Layout(hunks, bodies))), Finish(p), want, |bodies[0]|);
    }
  }

  /** A hunk that came out whole is there in the end. */
  lemma FirstStays(p: Parser, q: Parser, h: DiffHunk, body: seq<string>, hunks: seq<DiffHunk>, bodies: seq<seq<string>>)
    requires |hunks| == |bodies| && q.inHunk && q.hunks == Finish(p) && Finish(q) == Finish(p) + [Reread(h, body)]
    ensures Finish(q) <= Finish(Run(q, Layout(hunks, bodies)))
  {
    if hunks != [] {
      var lines := Layout(hunks, bodies);
      assert lines[0] == OldFileLine(hunks[0].file) && "--- " <= lines[0];
      RunKeepsHunks(Step(q, lines[0]), lines[1..]);
    }
  }

  //
  // The round trip.
  //

  lemma PlainAppend(a: string, b: string)
    requires '\n' !in a && (b != [] || PlainLine(a)) && (b == [] || PlainLine(b))
    ensures PlainLine(a + b)
  {
    assert b == [] ==> a + b == a;
    assert b != [] ==> (a + b)[|a + b| - 1] == b[|b| - 1];
  }

  lemma HeaderPlain(h: DiffHunk)
    requires CleanHunk(h)
    ensures PlainLines(HunkHeader(h))
  {
    var f := h.file;
    assert f != [] ==> f[|f|-1] != '\r';
    PlainAppend(['a', '/'], f);
    PlainAppend("--- ", ['a', '/'] + f);
    PlainAppend(['b', '/'], f);
    PlainAppend("+++ ", ['b', '/'] + f);
    var v, w := ['-'] + RangeText(h.oldStart, h.oldLines), ['+'] + RangeText(h.newStart, h.newLines);
    RangeIsWord(h.oldStart, h.oldLines);
    RangeIsWord(h.newStart, h.newLines);
    PlainAppend(w, " @@");
    PlainAppend([' '], w + " @@");
    PlainAppend(v, [' '] + (w + " @@"));
    PlainAppend([' '], v + ([' '] + (w + " @@")));
    PlainAppend("@@", TwoWords(v, w));
  }

  function Bodies(hunks: seq<DiffHunk>): (r: seq<seq<string>>)
    ensures |r| == |hunks| && forall k | 0 <= k < |r| :: r[k] == Body(hunks[k])
  {
    if hunks == [] then [] else [Body(hunks[0])] + Bodies(hunks[1..])
  }

  /** Bodies as they are read: every line but the very last loses a carriage return at its end. */
  function ReadBodies(bodies: seq<seq<string>>): (r: seq<seq<string>>)
    ensures |r| == |bodies|
    ensures forall k | 0 <= k < |r| :: r[k] == if k == |r| - 1 then AsRead(bodies[k]) else StripAll(bodies[k])
  {
    seq(|bodies|, k requires 0 <= k < |bodies| =>
      if k == |bodies| - 1 then AsRead(bodies[k]) else StripAll(bodies[k]))
  }

  lemma {:induction false} PrintedIsLayout(hunks: seq<DiffHunk>)
    ensures Printed(hunks) == Layout(hunks, Bodies(hunks))
    decreases |hunks|
  {
    if hunks != [] {
      PrintedIsLayout(hunks[1..]);
      assert Bodies(hunks)[1..] == Bodies(hunks[1..]);
    }
  }

  lemma AsReadAppend(a: seq<string>, b: seq<string>)
    requires b != []
    ensures AsRead(a + b) == StripAll(a) + AsRead(b)
  {
    var init, last := b[..|b| - 1], [b[|b| - 1]];
    assert (a + b)[..|a + b| - 1] == a + init;
    StripAppend(a, init);
    Assoc(StripAll(a), StripAll(init), last);
  }

  lemma StripPlain(ls: seq<string>)
    requires PlainLines(ls)
    ensures StripAll(ls) == ls
  {
    assert forall k | 0 <= k < |ls| :: ls[k] in ls;
  }

  lemma StripAppend(a: seq<string>, b: seq<string>)
    ensures StripAll(a + b) == StripAll(a) + StripAll(b)
  {
  }

  lemma ReadBodiesTail(bodies: seq<seq<string>>)
    requires |bodies| > 1
    ensures ReadBodies(bodies)[0] == StripAll(bodies[0]) && ReadBodies(bodies)[1..] == ReadBodies(bodies[1..])
  {
  }

  /** Reading the print of hunks gives their headers with the bodies as they are read. */
  lemma {:induction false} ReadLayout(hunks: seq<DiffHunk>, bodies: seq<seq<string>>)
    requires |hunks| == |bodies| && forall k | 0 <= k < |hunks| :: CleanHunk(hunks[k]) && bodies[k] != []
    ensures AsRead(Layout(hunks, bodies)) == Layout(hunks, ReadBodies(bodies))
    decreases |hunks|
  {
    if hunks != [] {
      var header, body := HunkHeader(hunks[0]), bodies[0];
      HeaderPlain(hunks[0]);
      StripPlain(header);
      var rest := Layout(hunks[1..], bodies[1..]);
      if |hunks| == 1 {
        assert header + body + rest == header + body;
        AsReadAppend(header, body);
        LastLayout(hunks[0], AsRead(body), ReadBodies(bodies));
      } else {
        ReadLayout(hunks[1..], bodies[1..]);
        StripAppend(header, body);
        AsReadAppend(header + body, rest);
        ReadBodiesTail(bodies);
      }
    }
  }

  lemma LastLayout(h: DiffHunk, body: seq<string>, bodies: seq<seq<string>>)
    requires bodies == [body]
    ensures Layout([h], bodies) == HunkHeader(h) + body
  {
    assert [h][1..] == [] && bodies[1..] == [];
  }

  lemma {:induction false} LayoutFed(hunks: seq<DiffHunk>, bodies: seq<seq<string>>)
    requires |hunks| == |bodies| && forall k | 0 <= k < |hunks| :: CleanHunk(hunks[k]) && FedLines(bodies[k])
    ensures FedLines(Layout(hunks, bodies))
    decreases |hunks|
  {
    if hunks != [] {
      HeaderPlain(hunks[0]);
      LayoutFed(hunks[1..], bodies[1..]);
    }
  }

  lemma StripCrKeeps(l: string)
    ensures StripCr(l) <= l && (StripCr(l) == l <==> !EndsCr(l))
    ensures Marked(l) ==> Marked(StripCr(l))
    ensures '\n' !in l ==> '\n' !in StripCr(l)
    ensures Misread(StripCr(l)) <==> Misread(l)
  {
  }

  /** The body of a clean hunk is its lines, all but the last without a carriage return at their end. */
  lemma BodyOfShown(h: DiffHunk)
    requires CleanHunk(h)
    ensures Body(h) == AsRead(Shown(h)) && h.preview == Join(Shown(h), '\n') && FedLines(Shown(h))
  {
    JoinOfSplit(h.preview, '\n');
    LinesOfJoinAny(Shown(h));
  }

  /** A line as it is read: the line itself, or without the carriage return at its end. */
  predicate LineSeen(b: string, l: string, keep: bool) {
    Marked(b) && Fed(b) && (Misread(b) <==> Misread(l)) && (b == l <==> !EndsCr(l) || keep)
  }

  /** A body as it is read; its last line is kept as it is where it is the last of the print. */
  predicate BodySeen(body: seq<string>, shown: seq<string>, last: bool) {
    |body| == |shown| && forall i | 0 <= i < |shown| :: LineSeen(body[i], shown[i], last && i == |shown| - 1)
  }

  lemma ReadBodySeen(hunks: seq<DiffHunk>, k: nat)
    requires k < |hunks| && CleanHunk(hunks[k])
    ensures BodySeen(ReadBodies(Bodies(hunks))[k], Shown(hunks[k]), k == |hunks| - 1)
  {
    var h, body, last := hunks[k], ReadBodies(Bodies(hunks))[k], k == |hunks| - 1;
    BodyOfShown(h);
    assert body == if last then AsRead(AsRead(Shown(h))) else StripAll(AsRead(Shown(h)));
    TwiceRead(Shown(h));
  }

  lemma TwiceRead(shown: seq<string>)
    requires FedLines(shown) && forall l | l in shown :: Marked(l)
    ensures BodySeen(AsRead(AsRead(shown)), shown, true) && BodySeen(StripAll(AsRead(shown)), shown, false)
  {
    var once := AsRead(shown);
    forall i | 0 <= i < |shown|
      ensures LineSeen(AsRead(once)[i], shown[i], i == |shown| - 1) && LineSeen(StripAll(once)[i], shown[i], false)
    {
      assert shown[i] in shown;
      StripCrKeeps(shown[i]);
      StripCrKeeps(StripCr(shown[i]));
    }
  }

  /** No line begins like a file header. */
  predicate Clear(h: DiffHunk) {
    ClearLines(Shown(h))
  }

  predicate ClearLines(lines: seq<string>) {
    forall i | 0 <= i < |lines| :: !Misread(lines[i])
  }

  lemma SeenMarked(body: seq<string>, shown: seq<string>, last: bool)
    requires BodySeen(body, shown, last) && 0 < |shown| <= MAX_HUNK_PREVIEW_LINES
    ensures MarkedBody(body)
    ensures GoodBody(body) <==> ClearLines(shown)
  {
    forall i | 0 <= i < |shown|
      ensures Marked(body[i]) && Fed(body[i]) && (Misread(body[i]) <==> Misread(shown[i])) && body[i] in body
    {
      assert LineSeen(body[i], shown[i], last && i == |shown| - 1);
    }
  }

  /** No line ends in a carriage return, but perhaps the last one where that may stay. */
  predicate NoCr(shown: seq<string>, last: bool) {
    forall i | 0 <= i < |shown| && EndsCr(shown[i]) :: last && i == |shown| - 1
  }

  /** No line of the print ends in a carriage return, but perhaps the very last. */
  predicate CrFree(hunks: seq<DiffHunk>) {
    forall k | 0 <= k < |hunks| :: NoCr(Shown(hunks[k]), k == |hunks| - 1)
  }

  lemma SeenSame(h: DiffHunk, body: seq<string>, last: bool)
    requires CleanHunk(h) && BodySeen(body, Shown(h), last)
    ensures Reread(h, body) == h <==> NoCr(Shown(h), last)
    ensures LineCount(h.preview) == |body|
  {
    BodyOfShown(h);
    CountOfJoin(Shown(h));
    SeenFed(body, Shown(h), last);
    SplitOfJoin(body, '\n');
    SeenEqual(body, Shown(h), last);
  }

  lemma SeenFed(body: seq<string>, shown: seq<string>, last: bool)
    requires BodySeen(body, shown, last)
    ensures FedLines(body)
  {
    forall i | 0 <= i < |body|
      ensures Fed(body[i])
    {
      assert LineSeen(body[i], shown[i], last && i == |shown| - 1);
    }
  }

  lemma SeenEqual(body: seq<string>, shown: seq<string>, last: bool)
    requires BodySeen(body, shown, last)
    ensures body == shown <==> NoCr(shown, last)
  {
    if NoCr(shown, last) {
      forall i | 0 <= i < |shown|
        ensures body[i] == shown[i]
      {
        assert LineSeen(body[i], shown[i], last && i == |shown| - 1);
      }
    } else {
      var i :| 0 <= i < |shown| && EndsCr(shown[i]) && !(last && i == |shown| - 1);
      assert LineSeen(body[i], shown[i], false);
    }
  }

  /** Clean hunks, and their bodies as they are read. */
  ghost predicate SeenAll(hunks: seq<DiffHunk>, bodies: seq<seq<string>>) {
    && |hunks| == |bodies|
    && forall k | 0 <= k < |hunks| :: CleanHunk(hunks[k]) && BodySeen(bodies[k], Shown(hunks[k]), k == |hunks| - 1)
  }

  lemma SeenWanted(hunks: seq<DiffHunk>, bodies: seq<seq<string>>)
    requires SeenAll(hunks, bodies)
    ensures Wanted(hunks, bodies, hunks)
  {
    forall k | 0 <= k < |hunks|
      ensures MarkedBody(bodies[k]) && LineCount(hunks[k].preview) == |bodies[k]|
    {
      SeenMarked(bodies[k], Shown(hunks[k]), k == |hunks| - 1);
      SeenSame(hunks[k], bodies[k], k == |hunks| - 1);
    }
  }

  lemma SeenGood(hunks: seq<DiffHunk>, bodies: seq<seq<string>>, k: nat)
    requires SeenAll(hunks, bodies) && k < |hunks|
    ensures GoodBody(bodies[k]) <==> Clear(hunks[k])
  {
    SeenMarked(bodies[k], Shown(hunks[k]), k == |hunks| - 1);
  }

  lemma SeenReread(hunks: seq<DiffHunk>, bodies: seq<seq<string>>)
    requires SeenAll(hunks, bodies)
    ensures RereadAll(hunks, bodies) == hunks <==> CrFree(hunks)
  {
    var all := RereadAll(hunks, bodies);
    forall k | 0 <= k < |hunks|
      ensures all[k] == hunks[k] <==> NoCr(Shown(hunks[k]), k == |hunks| - 1)
    {
      SeenSame(hunks[k], bodies[k], k == |hunks| - 1);
    }
    if CrFree(hunks) {
      assert all == hunks;
    }
  }

  /** Parsing a print runs over the headers with the bodies as they are read. */
  lemma ParseOfPrint(hunks: seq<DiffHunk>) returns (bodies: seq<seq<string>>)
    requires forall h | h in hunks :: CleanHunk(h)
    ensures SeenAll(hunks, bodies)
    ensures Parse(Join(Printed(hunks), '\n')) == Finish(Run(START, Layout(hunks, bodies)))
  {
    bodies := ReadBodies(Bodies(hunks));
    PrintedIsLayout(hunks);
    forall k | 0 <= k < |hunks|
      ensures CleanHunk(hunks[k]) && FedLines(Bodies(hunks)[k]) && Bodies(hunks)[k] != []
      ensures BodySeen(bodies[k], Shown(hunks[k]), k == |hunks| - 1)
    {
      assert hunks[k] in hunks;
      BodyFed(hunks[k]);
      ReadBodySeen(hunks, k);
    }
    LayoutFed(hunks, Bodies(hunks));
    LinesOfJoinAny(Printed(hunks));
    ReadLayout(hunks, Bodies(hunks));
  }

  lemma BodyFed(h: DiffHunk)
    requires CleanHunk(h)
    ensures FedLines(Body(h)) && Body(h) != []
  {
    BodyOfShown(h);
    forall i | 0 <= i < |Shown(h)|
      ensures Fed(Body(h)[i])
    {
      assert Shown(h)[i] in Shown(h);
      StripCrKeeps(Shown(h)[i]);
    }
  }

  lemma {:induction false} AnyBadMeans(bodies: seq<seq<string>>)
    ensures AnyBad(bodies) <==> exists k :: 0 <= k < |bodies| && !GoodBody(bodies[k])
    decreases |bodies|
  {
    if bodies != [] {
      AnyBadMeans(bodies[1..]);
      if k :| 0 <= k < |bodies| && !GoodBody(bodies[k]) && k > 0 {
        assert bodies[1..][k - 1] == bodies[k];
      }
      if AnyBad(bodies[1..]) {
        var k :| 0 <= k < |bodies[1..]| && !GoodBody(bodies[1..][k]);
        assert bodies[k + 1] == bodies[1..][k];
      }
    }
  }

  lemma ReadGood(hunks: seq<DiffHunk>, bodies: seq<seq<string>>)
    requires SeenAll(hunks, bodies) && forall k | 0 <= k < |hunks| :: Clear(hunks[k])
    ensures Finish(Run(START, Layout(hunks, bodies))) == UpTo(RereadAll(hunks, bodies))
  {
    forall k | 0 <= k < |hunks|
      ensures GoodBody(bodies[k])
    {
      SeenGood(hunks, bodies, k);
    }
    RunGoodHunks(START, hunks, bodies);
    assert [] + RereadAll(hunks, bodies) == RereadAll(hunks, bodies);
  }

  lemma ReadBad(hunks: seq<DiffHunk>, bodies: seq<seq<string>>, k: nat)
    requires SeenAll(hunks, bodies) && k < |hunks| <= MAX_HUNKS && !Clear(hunks[k])
    ensures Finish(Run(START, Layout(hunks, bodies))) != hunks
  {
    SeenGood(hunks, bodies, k);
    AnyBadMeans(bodies);
    SeenWanted(hunks, bodies);
    RunBadHunks(START, hunks, bodies, hunks);
    assert [] + hunks == hunks;
  }

  /** Parsing the untruncated print of clean hunks gives the hunks back if and only if no line begins like a file
      header and none but the very last ends in a carriage return. */
  lemma PrintParseRoundTrip(hunks: seq<DiffHunk>)
    requires |hunks| <= MAX_HUNKS && forall h | h in hunks :: CleanHunk(h)
    ensures Parse(Join(Printed(hunks), '\n')) == hunks
            <==> CrFree(hunks) && forall k | 0 <= k < |hunks| :: Clear(hunks[k])
  {
    var bodies := ParseOfPrint(hunks);
    LayoutRoundTrip(hunks, bodies, Parse(Join(Printed(hunks), '\n')));
  }

  lemma LayoutRoundTrip(hunks: seq<DiffHunk>, bodies: seq<seq<string>>, read: seq<DiffHunk>)
    requires SeenAll(hunks, bodies) && |hunks| <= MAX_HUNKS && read == Finish(Run(START, Layout(hunks, bodies)))
    ensures read == hunks <==> CrFree(hunks) && forall k | 0 <= k < |hunks| :: Clear(hunks[k])
  {
    if k :| 0 <= k < |hunks| && !Clear(hunks[k]) {
      ReadBad(hunks, bodies, k);
    } else {
      ReadGood(hunks, bodies);
      SeenReread(hunks, bodies);
    }
  }

  /** Of more hunks than the bound, the print gives back the first ones. */
  lemma ParseStopsAtBound(hunks: seq<DiffHunk>)
    requires forall h | h in hunks :: CleanHunk(h)
    requires CrFree(hunks) && forall k | 0 <= k < |hunks| :: Clear(hunks[k])
    ensures Parse(Join(Printed(hunks), '\n')) == UpTo(hunks)
  {
    var bodies := ParseOfPrint(hunks);
    ReadGood(hunks, bodies);
    SeenReread(hunks, bodies);
  }

  /** Deleting an SQL comment breaks the round trip. */
  lemma DeletedCommentIsMisread()
    ensures var h := DiffHunk("q", 1, 1, 1, 0, "--- x");
            CleanHunk(h) && Parse(Join(Printed([h]), '\n')) != [h]
  {
    var h := DiffHunk("q", 1, 1, 1, 0, "--- x");
    CommentShown(h);
    PrintParseRoundTrip([h]);
    assert Misread(Shown(h)[0]) && !Clear([h][0]);
  }

  lemma CommentShown(h: DiffHunk)
    requires h == DiffHunk("q", 1, 1, 1, 0, "--- x")
    ensures CleanHunk(h) && Shown(h) == ["--- x"]
  {
    var line := "--- x";
    assert line[0] == '-' && line[1] == '-' && line[2] == '-' && line[3] == ' ' && line[4] == 'x';
    SplitOfJoin([line], '\n');
  }
}
