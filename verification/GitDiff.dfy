/** Reading a diff laid out as git prints it: introductions, one pair of name lines per file, and any number of hunks
    under it (crates/impetus-core/src/diff_observation.rs). */
module GitDiff {
  import opened Text
  import opened DiffHunks
  import opened UnifiedDiff

  //
  // The layout.
  //

  /** The two names of a file, `None` standing for `/dev/null`; a tab and a stamp may follow, the stamp being empty
      where git ends a name that has blanks. */
  datatype Names = Names(before: Option<string>, after: Option<string>, stamp: Option<string>)

  /** A hunk as printed: its ranges, whether a count of one is left out, the text after the ranges, and its lines. */
  datatype GitHunk = GitHunk(
    oldStart: nat, oldLines: nat, newStart: nat, newLines: nat, oldBrief: bool, newBrief: bool,
    heading: string, body: seq<string>)

  /** A diff is a row of these: for each file an introduction, its names, and its hunks. */
  datatype Item =
    | Intro(lines: seq<string>)
    | Named(names: Names)
    | Changes(hunk: GitHunk)

  function Stamp(stamp: Option<string>): string {
    if stamp.Some? then ['\t'] + stamp.value else ""
  }

  function NameText(letter: char, name: Option<string>, stamp: Option<string>): string {
    (if name.Some? then [letter, '/'] + name.value else "/dev/null") + Stamp(stamp)
  }

  function OldNameLine(n: Names): string {
    "--- " + NameText('a', n.before, n.stamp)
  }

  function NewNameLine(n: Names): string {
    "+++ " + NameText('b', n.after, n.stamp)
  }

  function RangeShown(start: nat, count: nat, brief: bool): string {
    if brief && count == 1 then Decimal(start) else RangeText(start, count)
  }

  function Ranges(h: GitHunk): string {
    var v := ['-'] + RangeShown(h.oldStart, h.oldLines, h.oldBrief);
    var w := ['+'] + RangeShown(h.newStart, h.newLines, h.newBrief);
    [' '] + (v + ([' '] + (w + " @@")))
  }

  function ItemLines(i: Item): seq<string> {
    match i
    case Intro(lines) => lines
    case Named(n) => [OldNameLine(n), NewNameLine(n)]
    case Changes(h) => ["@@" + (Ranges(h) + h.heading)] + h.body
  }

  function DiffLines(items: seq<Item>): seq<string> {
    if items == [] then [] else ItemLines(items[0]) + DiffLines(items[1..])
  }

  /** Every line ended by a line feed. */
  function Ended(lines: seq<string>): string {
    if lines == [] then "" else lines[0] + ['\n'] + Ended(lines[1..])
  }

  /** A line of a hunk that counts, or one such as `\ No newline at end of file` that does not. */
  predicate HunkLine(l: string) {
    Marked(l) || (!("@@" <= l) && !("diff " <= l))
  }

  predicate BodyLine(l: string) {
    HunkLine(l) && !Misread(l)
  }

  /** An introduction begins with `diff `; its other lines are anything but name lines and hunk headers. */
  predicate IntroLines(lines: seq<string>) {
    && lines != [] && "diff " <= lines[0]
    && forall l | l in lines :: !Misread(l) && !("@@" <= l)
  }

  predicate CleanName(name: Option<string>) {
    name.Some? ==> CleanPath(name.value)
  }

  predicate LaidOut(i: Item) {
    match i
    case Intro(lines) => IntroLines(lines)
    case Named(n) => CleanName(n.before) && CleanName(n.after)
    case Changes(h) =>
      && h.oldStart <= USIZE_MAX && h.oldLines <= USIZE_MAX && h.newStart <= USIZE_MAX && h.newLines <= USIZE_MAX
      && h.oldLines + h.newLines > 0
      && forall l | l in h.body :: HunkLine(l)
  }

  /** A hunk with a line that looks like a name line. */
  predicate Mistakable(i: Item) {
    i.Changes? && exists l :: l in i.hunk.body && Misread(l)
  }

  predicate CleanItem(i: Item) {
    LaidOut(i) && !Mistakable(i)
  }

  //
  // What is to be read.
  //

  function Counting(body: seq<string>): seq<string> {
    if body == [] then [] else (if Marked(body[0]) then [body[0]] else []) + Counting(body[1..])
  }

  function ReadHunk(h: GitHunk, file: string): DiffHunk {
    DiffHunk(file, h.oldStart, h.oldLines, h.newStart, h.newLines, Join(Clip(Counting(h.body)), '\n'))
  }

  /** A hunk read, and whether it is the first since an introduction or a pair of names. */
  datatype Entry = Entry(hunk: DiffHunk, first: bool)

  /** The hunks of a diff in order, each with the new name of its file. */
  function Entries(items: seq<Item>, file: string, first: bool): seq<Entry> {
    if items == [] then []
    else
      match items[0]
      case Intro(_) => Entries(items[1..], file, true)
      case Named(n) => Entries(items[1..], if n.after.Some? then n.after.value else "/dev/null", true)
      case Changes(h) => [Entry(ReadHunk(h, file), first)] + Entries(items[1..], file, false)
  }

  /** What comes out: the hunks up to the bound. A further hunk of the file at hand leaves an empty trace. */
  function Taken(base: seq<DiffHunk>, entries: seq<Entry>): seq<DiffHunk>
    decreases |entries|
  {
    if entries == [] then base
    else if |base| < MAX_HUNKS then Taken(base + [entries[0].hunk], entries[1..])
    else if entries[0].first then base
    else base + [entries[0].hunk.(preview := "")]
  }

  function Hunks(entries: seq<Entry>): (r: seq<DiffHunk>)
    ensures |r| == |entries| && forall k | 0 <= k < |r| :: r[k] == entries[k].hunk
  {
    if entries == [] then [] else [entries[0].hunk] + Hunks(entries[1..])
  }

  /** The same from nothing: all hunks, or the first 64 and the trace of the next. */
  function Bounded(entries: seq<Entry>): seq<DiffHunk> {
    if |entries| <= MAX_HUNKS then Hunks(entries)
    else
      Hunks(entries)[..MAX_HUNKS]
      + if entries[MAX_HUNKS].first then [] else [entries[MAX_HUNKS].hunk.(preview := "")]
  }

  lemma {:induction false} TakenIs(base: seq<DiffHunk>, entries: seq<Entry>)
    requires |base| <= MAX_HUNKS
    ensures |base| + |entries| <= MAX_HUNKS ==> Taken(base, entries) == base + Hunks(entries)
    ensures var n := MAX_HUNKS - |base|;
            n < |entries| ==>
              Taken(base, entries) == base + Hunks(entries)[..n]
                                      + if entries[n].first then [] else [entries[n].hunk.(preview := "")]
    decreases |entries|
  {
    var n := MAX_HUNKS - |base|;
    if entries == [] {
      assert base + [] == base;
    } else if |base| < MAX_HUNKS {
      TakenIs(base + [entries[0].hunk], entries[1..]);
      Assoc(base, [entries[0].hunk], Hunks(entries[1..]));
      if n < |entries| {
        assert Hunks(entries)[..n] == [entries[0].hunk] + Hunks(entries[1..])[..n - 1];
        Assoc(base, [entries[0].hunk], Hunks(entries[1..])[..n - 1]);
      }
    } else {
      assert base + Hunks(entries)[..0] == base && base + [] == base;
    }
  }

  lemma TakenIsBounded(entries: seq<Entry>)
    ensures Taken([], entries) == Bounded(entries)
  {
    TakenIs([], entries);
    assert [] + Hunks(entries) == Hunks(entries);
    if |entries| > MAX_HUNKS {
      assert [] + Hunks(entries)[..MAX_HUNKS] == Hunks(entries)[..MAX_HUNKS];
    }
  }

  //
  // Reading one item.
  //

  /** Where the parser stands between items: what is out or open, and the file at hand. */
  ghost predicate Between(p: Parser) {
    |p.hunks| < MAX_HUNKS && (p.inHunk ==> p.oldLines + p.newLines > 0)
  }

  /** The open hunk, if there is one, put out. */
  function Closed(p: Parser): Parser {
    if p.inHunk then Flush(p).(inHunk := false) else p
  }

  lemma ClosedIs(p: Parser)
    requires Between(p)
    ensures Closed(p).hunks == Finish(p) == Finish(Closed(p)) && !Closed(p).inHunk && Closed(p).file == p.file
    ensures |Finish(p)| == |p.hunks| + if p.inHunk then 1 else 0
  {
  }

  lemma {:induction false} RunIgnored(p: Parser, lines: seq<string>)
    requires !p.inHunk && |p.hunks| < MAX_HUNKS && forall l | l in lines :: !Misread(l) && !("@@" <= l)
    ensures Run(p, lines) == p
    decreases |lines|
  {
    if lines != [] {
      assert lines[0] in lines;
      assert Step(p, lines[0]) == p;
      RunIgnored(p, lines[1..]);
    }
  }

  lemma StepIntro(p: Parser, l: string)
    requires "diff " <= l
    ensures Step(p, l) == Closed(p)
  {
    assert l[0] == 'd';
  }

  lemma RunIntro(p: Parser, lines: seq<string>, rest: seq<string>)
    requires Between(p) && IntroLines(lines)
    ensures if |Finish(p)| < MAX_HUNKS then Run(p, lines + rest) == Run(Closed(p), rest)
            else Finish(Run(p, lines + rest)) == Finish(p)
  {
    StepIntro(p, lines[0]);
    ClosedIs(p);
    TailOfAppend(lines, rest);
    if |Finish(p)| < MAX_HUNKS {
      RunIgnored(Closed(p), lines[1..]);
      RunAppend(Closed(p), lines[1..], rest);
    }
  }

  lemma {:induction false} TrimEndKeeps(s: string, y: string) returns (z: string)
    requires s != [] && !IsWhitespace(s[|s|-1])
    ensures z <= y && TrimEnd(s + y) == s + z
    decreases |y|
  {
    var t := s + y;
    if y == [] {
      z := [];
      assert t == s && s + z == s;
    } else if IsWhitespace(t[|t|-1]) {
      assert t[..|t|-1] == s + y[..|y|-1];
      z := TrimEndKeeps(s, y[..|y|-1]);
    } else {
      z := y;
    }
  }

  /** What follows a name after a tab does not matter. */
  lemma StampDropped(s: string, stamp: Option<string>)
    requires s != [] && !IsWhitespace(s[0]) && !IsWhitespace(s[|s|-1]) && '\t' !in s
    ensures StripAbPrefix(s + Stamp(stamp)) == StripAbPrefix(s)
  {
    var t := s + Stamp(stamp);
    assert t[0] == s[0] && TrimStart(t) == t;
    var z := TrimEndKeeps(s, Stamp(stamp));
    assert Trim(s) == s;
    FirstField(s, z);
    FirstField(s, []);
    assert s + [] == s;
  }

  lemma FirstField(s: string, z: string)
    requires '\t' !in s && (z == [] || z[0] == '\t')
    ensures Split(s + z, '\t')[0] == s
  {
    if z == [] {
      assert s + z == s;
      FindInPrefix(s, '\t', "");
    } else {
      assert s + z == s + ['\t'] + z[1..];
      FindInPrefix(s, '\t', z[1..]);
      assert (s + z)[..|s|] == s;
    }
  }

  lemma BareName(s: string)
    requires s != [] && s[0] == '/' && !IsWhitespace(s[|s|-1]) && '\t' !in s
    ensures StripAbPrefix(s) == s
  {
    assert Trim(s) == s;
    FindInPrefix(s, '\t', "");
  }

  lemma NullRead(s: string, stamp: Option<string>)
    requires s == "/dev/null"
    ensures StripAbPrefix(s + Stamp(stamp)) == s
  {
    assert s[0] == '/' && s[|s|-1] == 'l';
    StampDropped(s, stamp);
    BareName(s);
  }

  lemma PathRead(s: string, letter: char, f: string, stamp: Option<string>)
    requires CleanPath(f) && (letter == 'a' || letter == 'b') && s == [letter, '/'] + f
    ensures StripAbPrefix(s + Stamp(stamp)) == f
  {
    assert s[|s|-1] == if f == [] then '/' else f[|f|-1];
    StampDropped(s, stamp);
    StripsPrefix(f, letter);
  }

  /** A name line gives its name. */
  lemma NameRead(letter: char, name: Option<string>, stamp: Option<string>)
    requires CleanName(name) && (letter == 'a' || letter == 'b')
    ensures StripAbPrefix(NameText(letter, name, stamp)) == if name.Some? then name.value else "/dev/null"
  {
    if name.Some? {
      PathRead([letter, '/'] + name.value, letter, name.value, stamp);
    } else {
      NullRead("/dev/null", stamp);
    }
  }

  lemma StepOldName(p: Parser, n: Names)
    requires CleanName(n.before)
    ensures Step(p, OldNameLine(n)) == Closed(p).(file := if n.before.Some? then n.before.value else "/dev/null")
  {
    NameRead('a', n.before, n.stamp);
    assert OldNameLine(n)[4..] == NameText('a', n.before, n.stamp);
  }

  lemma StepNewName(p: Parser, n: Names)
    requires CleanName(n.after)
    ensures Step(p, NewNameLine(n)) == p.(file := if n.after.Some? then n.after.value else "/dev/null")
  {
    NameRead('b', n.after, n.stamp);
    assert NewNameLine(n)[0] == '+';
    assert NewNameLine(n)[4..] == NameText('b', n.after, n.stamp);
  }

  lemma RunNames(p: Parser, n: Names, rest: seq<string>)
    requires Between(p) && CleanName(n.before) && CleanName(n.after)
    ensures var lines := [OldNameLine(n), NewNameLine(n)] + rest;
            if |Finish(p)| < MAX_HUNKS
            then Run(p, lines) == Run(Closed(p).(file := if n.after.Some? then n.after.value else "/dev/null"), rest)
            else Finish(Run(p, lines)) == Finish(p)
  {
    var lines := [OldNameLine(n), NewNameLine(n)] + rest;
    assert lines[0] == OldNameLine(n) && lines[1..] == [NewNameLine(n)] + rest && lines[1..][1..] == rest;
    ClosedIs(p);
    StepOldName(p, n);
    var q := Step(p, OldNameLine(n));
    StepNewName(q, n);
    if |Finish(p)| < MAX_HUNKS {
      assert Run(q, lines[1..]) == Run(Step(q, NewNameLine(n)), rest);
    }
  }

  lemma BriefReads(start: nat, count: nat, brief: bool)
    requires start <= USIZE_MAX && count <= USIZE_MAX
    ensures ParseRange(RangeShown(start, count, brief)) == Some((start, count))
    ensures forall c | c in RangeShown(start, count, brief) :: !IsWhitespace(c)
  {
    RangeIsWord(start, count);
    DigitsAreWords(start);
    if brief && count == 1 {
      FindInPrefix(Decimal(start), ',', "");
      ParseOfDecimal(start);
    } else {
      RangeReadsBack(start, count);
    }
  }

  lemma WordsThenMore(v: string, w: string, end: string)
    requires v != [] && forall c | c in v :: !IsWhitespace(c)
    requires w != [] && forall c | c in w :: !IsWhitespace(c)
    requires end != [] && IsWhitespace(end[0])
    ensures var words := SplitWhitespace([' '] + (v + ([' '] + (w + end))));
            |words| >= 2 && words[0] == v && words[1] == w
  {
    SplitSkipsSpace(v + ([' '] + (w + end)));
    SplitWord(v, [' '] + (w + end));
    SplitSkipsSpace(w + end);
    SplitWord(w, end);
  }

  lemma Regrouped(v: string, w: string, end: string, more: string)
    ensures [' '] + (v + ([' '] + (w + end))) + more == [' '] + (v + ([' '] + (w + (end + more))))
  {
  }

  lemma RangesRead(h: GitHunk)
    requires LaidOut(Changes(h))
    ensures ParseHunkHeader(Ranges(h) + h.heading) == Some((h.oldStart, h.oldLines, h.newStart, h.newLines))
  {
    var v := ['-'] + RangeShown(h.oldStart, h.oldLines, h.oldBrief);
    var w := ['+'] + RangeShown(h.newStart, h.newLines, h.newBrief);
    BriefReads(h.oldStart, h.oldLines, h.oldBrief);
    BriefReads(h.newStart, h.newLines, h.newBrief);
    Regrouped(v, w, " @@", h.heading);
    WordsThenMore(v, w, " @@" + h.heading);
    assert v[1..] == RangeShown(h.oldStart, h.oldLines, h.oldBrief);
    assert w[1..] == RangeShown(h.newStart, h.newLines, h.newBrief);
  }

  /** The parser with this hunk open and no line of it read. */
  function Opening(p: Parser, h: GitHunk): Parser {
    Parser(Finish(p), p.file, h.oldStart, h.oldLines, h.newStart, h.newLines, [], true)
  }

  lemma StepRanges(p: Parser, h: GitHunk)
    requires Between(p) && LaidOut(Changes(h))
    ensures Step(p, "@@" + (Ranges(h) + h.heading)) == Opening(p, h)
  {
    RangesRead(h);
    StepAt(p, Ranges(h) + h.heading);
  }

  lemma StepAt(p: Parser, rest: string)
    requires ParseHunkHeader(rest).Some?
    ensures var (os, ol, ns, nl) := ParseHunkHeader(rest).value;
            Step(p, "@@" + rest) == (if p.inHunk then Flush(p) else p).(
              oldStart := os, oldLines := ol, newStart := ns, newLines := nl, inHunk := true, preview := [])
  {
    var line := "@@" + rest;
    assert line[0] == '@' && line[2..] == rest;
  }

  lemma StepBodyLine(p: Parser, l: string)
    requires p.inHunk && BodyLine(l) && |p.preview| <= MAX_HUNK_PREVIEW_LINES
    ensures Step(p, l) == if Marked(l) then p.(preview := Clip(p.preview + [l])) else p
  {
    if |p.preview| == MAX_HUNK_PREVIEW_LINES {
      assert Clip(p.preview + [l]) == p.preview;
    } else {
      assert Clip(p.preview + [l]) == p.preview + [l];
    }
  }

  lemma ClipTwice(a: seq<string>, b: seq<string>)
    ensures Clip(Clip(a) + b) == Clip(a + b)
  {
  }

  lemma {:induction false} RunBodyLines(p: Parser, body: seq<string>)
    requires p.inHunk && |p.hunks| < MAX_HUNKS && |p.preview| <= MAX_HUNK_PREVIEW_LINES
    requires forall l | l in body :: BodyLine(l)
    ensures Run(p, body) == p.(preview := Clip(p.preview + Counting(body)))
    decreases |body|
  {
    if body == [] {
      assert Clip(p.preview + []) == p.preview;
    } else {
      assert body[0] in body && forall l | l in body[1..] :: l in body;
      StepBodyLine(p, body[0]);
      var q := Step(p, body[0]);
      RunBodyLines(q, body[1..]);
      if Marked(body[0]) {
        ClipTwice(p.preview + [body[0]], Counting(body[1..]));
        Assoc(p.preview, [body[0]], Counting(body[1..]));
      } else {
        assert [] + Counting(body[1..]) == Counting(body[1..]);
      }
    }
  }

  lemma RunChanges(p: Parser, h: GitHunk, rest: seq<string>)
    requires Between(p) && CleanItem(Changes(h)) && |Finish(p)| <= MAX_HUNKS
    ensures var lines := ItemLines(Changes(h)) + rest;
            if |Finish(p)| < MAX_HUNKS
            then Run(p, lines) == Run(Opening(p, h).(preview := Clip(Counting(h.body))), rest)
            else Finish(Run(p, lines)) == Finish(p) + [ReadHunk(h, p.file).(preview := "")]
  {
    var lines := ItemLines(Changes(h)) + rest;
    assert lines[0] == "@@" + (Ranges(h) + h.heading) && lines[1..] == h.body + rest;
    StepRanges(p, h);
    var q := Opening(p, h);
    if |Finish(p)| < MAX_HUNKS {
      RunBodyLines(q, h.body);
      assert [] + Counting(h.body) == Counting(h.body);
      RunAppend(q, h.body, rest);
    } else {
      assert Run(p, lines) == q;
    }
  }

  //
  // Reading the whole.
  //

  lemma {:induction false} RunItems(p: Parser, items: seq<Item>)
    requires Between(p) && |Finish(p)| <= MAX_HUNKS && forall i | i in items :: CleanItem(i)
    ensures Finish(Run(p, DiffLines(items))) == Taken(Finish(p), Entries(items, p.file, !p.inHunk))
    decreases |items|
  {
    ClosedIs(p);
    if items != [] {
      assert items[0] in items && forall i | i in items[1..] :: i in items;
      var rest := DiffLines(items[1..]);
      match items[0] {
        case Intro(lines) =>
          RunIntro(p, lines, rest);
          if |Finish(p)| < MAX_HUNKS {
            RunItems(Closed(p), items[1..]);
          } else {
            NothingMore(Finish(p), items[1..], p.file);
          }
        case Named(n) =>
          var file := if n.after.Some? then n.after.value else "/dev/null";
          RunNames(p, n, rest);
          if |Finish(p)| < MAX_HUNKS {
            RunItems(Closed(p).(file := file), items[1..]);
          } else {
            NothingMore(Finish(p), items[1..], file);
          }
        case Changes(h) =>
          RunChanges(p, h, rest);
          if |Finish(p)| < MAX_HUNKS {
            RunItems(Opening(p, h).(preview := Clip(Counting(h.body))), items[1..]);
          }
      }
    }
  }

  /** At the bound, what begins with an introduction or names adds nothing. */
  lemma {:induction false} NothingMore(base: seq<DiffHunk>, items: seq<Item>, file: string)
    requires |base| == MAX_HUNKS
    ensures Taken(base, Entries(items, file, true)) == base
    decreases |items|
  {
    if items != [] {
      match items[0] {
        case Intro(_) => NothingMore(base, items[1..], file);
        case Named(n) => NothingMore(base, items[1..], if n.after.Some? then n.after.value else "/dev/null");
        case Changes(_) =>
      }
    }
  }

  //
  // A line that looks like a name line spoils the result.
  //

  lemma ShortLonger(p: Parser, base: seq<DiffHunk>, m: nat, n: nat)
    requires Short(p, base, m) && m <= n
    ensures Short(p, base, n)
  {
  }

  /** One more line of a hunk that has lost one already. */
  lemma StepShort(p: Parser, base: seq<DiffHunk>, l: string, m: nat)
    requires Short(p, base, m) && HunkLine(l) && '\n' !in l
    ensures Short(Step(p, l), base, if Marked(l) then m + 1 else m)
  {
    if !ShortOut(p.hunks, base, m) {
      FlushShort(p, m);
      if Marked(l) {
        assert "--- " <= l ==> ShortOut(Step(p, l).hunks, base, m + 1);
        assert !("--- " <= l) ==> Short(Step(p, l), base, m + 1);
      } else {
        assert Step(p, l) == p;
      }
    } else {
      RunKeepsHunks(p, [l]);
      assert p.hunks <= Step(p, l).hunks;
    }
  }

  lemma {:induction false} RunShortLines(p: Parser, base: seq<DiffHunk>, lines: seq<string>, m: nat)
    requires Short(p, base, m) && forall l | l in lines :: HunkLine(l) && '\n' !in l
    ensures Short(Run(p, lines), base, m + |Counting(lines)|)
    decreases |lines|
  {
    if lines != [] {
      assert lines[0] in lines && forall l | l in lines[1..] :: l in lines;
      StepShort(p, base, lines[0], m);
      var q, n := Step(p, lines[0]), if Marked(lines[0]) then m + 1 else m;
      if |q.hunks| < MAX_HUNKS {
        RunShortLines(q, base, lines[1..], n);
      } else {
        ShortLonger(q, base, n, m + |Counting(lines)|);
      }
    }
  }

  /** A hunk open with all its lines so far. */
  ghost predicate Whole(p: Parser, base: seq<DiffHunk>) {
    && p.inHunk && p.hunks == base && |base| < MAX_HUNKS && p.oldLines + p.newLines > 0
    && FedLines(p.preview) && |p.preview| <= MAX_HUNK_PREVIEW_LINES
  }

  lemma StepMisread(p: Parser, base: seq<DiffHunk>, l: string)
    requires Whole(p, base) && Misread(l)
    ensures Short(Step(p, l), base, |p.preview| + 1) && Marked(l)
  {
    FlushShort(p, |p.preview| + 1);
  }

  lemma {:induction false} RunMistaken(p: Parser, base: seq<DiffHunk>, body: seq<string>)
    requires Whole(p, base) && |p.preview| + |Counting(body)| <= MAX_HUNK_PREVIEW_LINES
    requires (forall l | l in body :: HunkLine(l) && '\n' !in l) && exists l :: l in body && Misread(l)
    ensures Short(Run(p, body), base, |p.preview| + |Counting(body)|)
    decreases |body|
  {
    var l, rest := body[0], body[1..];
    assert body == [l] + rest && l in body && forall x | x in rest :: x in body;
    if Misread(l) {
      StepMisread(p, base, l);
      var q := Step(p, l);
      if |q.hunks| < MAX_HUNKS {
        RunShortLines(q, base, rest, |p.preview| + 1);
      } else {
        ShortLonger(q, base, |p.preview| + 1, |p.preview| + |Counting(body)|);
      }
    } else {
      StepBodyLine(p, l);
      RunMistaken(Step(p, l), base, rest);
    }
  }

  /** What follows puts a short hunk out as it is. */
  lemma ShortEnds(p: Parser, base: seq<DiffHunk>, n: nat, items: seq<Item>)
    requires Short(p, base, n) && forall i | i in items :: LaidOut(i)
    ensures ShortOut(Finish(Run(p, DiffLines(items))), base, n)
  {
    var lines := DiffLines(items);
    if ShortOut(p.hunks, base, n) {
      RunKeepsHunks(p, lines);
    } else {
      FlushShort(p, n);
      if items != [] {
        assert items[0] in items;
        PutsOut(p, items[0]);
        assert lines[0] == ItemLines(items[0])[0];
        RunKeepsHunks(Step(p, lines[0]), lines[1..]);
      }
    }
  }

  /** The first line of an item puts an open hunk out. */
  lemma PutsOut(p: Parser, i: Item)
    requires LaidOut(i) && p.inHunk
    ensures ItemLines(i) != [] && Step(p, ItemLines(i)[0]).hunks == Flush(p).hunks
  {
    var l := ItemLines(i)[0];
    match i {
      case Intro(_) => StepIntro(p, l);
      case Named(n) => assert l[0] == '-' && "--- " <= l;
      case Changes(h) => assert l[0] == '@' && "@@" <= l;
    }
  }

  lemma RunMistakenItem(p: Parser, h: GitHunk, items: seq<Item>)
    requires Between(p) && |Finish(p)| < MAX_HUNKS && LaidOut(Changes(h)) && Mistakable(Changes(h))
    requires |Counting(h.body)| <= MAX_HUNK_PREVIEW_LINES && OneLined(Changes(h))
    requires forall i | i in items :: LaidOut(i)
    ensures ShortOut(Finish(Run(p, ItemLines(Changes(h)) + DiffLines(items))), Finish(p), |Counting(h.body)|)
  {
    RunOpening(p, h, DiffLines(items));
    assert forall l | l in h.body :: l in ItemLines(Changes(h));
    RunMistaken(Opening(p, h), Finish(p), h.body);
    ShortBodyEnds(Opening(p, h), Finish(p), h.body, |Counting(h.body)|, items);
  }

  lemma RunOpening(p: Parser, h: GitHunk, rest: seq<string>)
    requires Between(p) && |Finish(p)| < MAX_HUNKS && LaidOut(Changes(h))
    ensures Run(p, ItemLines(Changes(h)) + rest) == Run(Opening(p, h), h.body + rest)
  {
    var lines := ItemLines(Changes(h)) + rest;
    assert lines[0] == "@@" + (Ranges(h) + h.heading) && lines[1..] == h.body + rest;
    StepRanges(p, h);
  }

  lemma ShortBodyEnds(o: Parser, base: seq<DiffHunk>, body: seq<string>, n: nat, items: seq<Item>)
    requires Short(Run(o, body), base, n) && |o.hunks| < MAX_HUNKS && forall i | i in items :: LaidOut(i)
    ensures ShortOut(Finish(Run(o, body + DiffLines(items))), base, n)
  {
    var r := Run(o, body);
    RunAppend(o, body, DiffLines(items));
    if |r.hunks| < MAX_HUNKS {
      ShortEnds(r, base, n, items);
    } else {
      ShortEnds(r, base, n, []);
    }
  }

  ghost predicate Presentable(i: Item) {
    LaidOut(i) && OneLined(i) && (i.Changes? ==> |Counting(i.hunk.body)| <= MAX_HUNK_PREVIEW_LINES)
  }

  lemma {:induction false} CountingFed(body: seq<string>)
    requires forall l | l in body :: '\n' !in l
    ensures FedLines(Counting(body))
    decreases |body|
  {
    if body != [] {
      assert body[0] in body && forall l | l in body[1..] :: l in body;
      CountingFed(body[1..]);
    }
  }

  lemma LinesOfHunk(h: GitHunk, file: string)
    requires Presentable(Changes(h))
    ensures LineCount(ReadHunk(h, file).preview) == |Counting(h.body)|
  {
    assert forall l | l in h.body :: l in ItemLines(Changes(h));
    CountingFed(h.body);
    CountOfJoin(Counting(h.body));
    assert Clip(Counting(h.body)) == Counting(h.body);
  }

  lemma {:induction false} MistakenDiffers(p: Parser, items: seq<Item>)
    requires Between(p) && |Finish(p)| + |Entries(items, p.file, !p.inHunk)| <= MAX_HUNKS
    requires (forall i | i in items :: Presentable(i)) && exists i :: i in items && Mistakable(i)
    ensures Finish(Run(p, DiffLines(items))) != Finish(p) + Hunks(Entries(items, p.file, !p.inHunk))
    decreases |items|
  {
    var i, more := items[0], items[1..];
    var rest, entries := DiffLines(more), Entries(items, p.file, !p.inHunk);
    assert items == [i] + more && i in items && forall x | x in more :: x in items;
    ClosedIs(p);
    SomeEntry(items, p.file, !p.inHunk);
    match i {
      case Intro(lines) =>
        RunIntro(p, lines, rest);
        MistakenDiffers(Closed(p), more);
      case Named(n) =>
        RunNames(p, n, rest);
        MistakenDiffers(Closed(p).(file := if n.after.Some? then n.after.value else "/dev/null"), more);
      case Changes(h) =>
        LinesOfHunk(h, p.file);
        if Mistakable(i) {
          RunMistakenItem(p, h, more);
          ShortDiffers(Finish(Run(p, DiffLines(items))), Finish(p), Hunks(entries), |Counting(h.body)|);
        } else {
          RunChanges(p, h, rest);
          MistakenDiffers(Opening(p, h).(preview := Clip(Counting(h.body))), more);
          HeadTail(Finish(p), Hunks(entries));
        }
    }
  }

  lemma {:induction false} SomeEntry(items: seq<Item>, file: string, first: bool)
    requires exists i :: i in items && Mistakable(i)
    ensures Entries(items, file, first) != []
    decreases |items|
  {
    if !items[0].Changes? {
      assert items == [items[0]] + items[1..];
      SomeEntry(items[1..], if items[0].Named? && items[0].names.after.Some? then items[0].names.after.value
                            else if items[0].Named? then "/dev/null" else file, true);
    }
  }

  //
  // From text.
  //

  /** The same diff with the carriage returns before line feeds dropped. */
  function Dropped(i: Item): Item {
    match i
    case Intro(lines) => Intro(StripAll(lines))
    case Named(n) => Named(n.(stamp := DroppedStamp(n.stamp)))
    case Changes(h) => Changes(h.(heading := StripCr(h.heading), body := StripAll(h.body)))
  }

  function DroppedAll(items: seq<Item>): (r: seq<Item>)
    ensures |r| == |items| && forall k | 0 <= k < |r| :: r[k] == Dropped(items[k])
  {
    if items == [] then [] else [Dropped(items[0])] + DroppedAll(items[1..])
  }

  predicate OneLined(i: Item) {
    forall l | l in ItemLines(i) :: '\n' !in l
  }

  lemma {:induction false} LinesOfEnded(ls: seq<string>)
    requires forall l | l in ls :: '\n' !in l
    ensures Lines(Ended(ls)) == StripAll(ls)
    decreases |ls|
  {
    if ls != [] {
      assert ls[0] in ls;
      var s, rest := Ended(ls), Ended(ls[1..]);
      FindInPrefix(ls[0], '\n', rest);
      assert s[..|ls[0]|] == ls[0] && s[|ls[0]| + 1..] == rest;
      LinesOfEnded(ls[1..]);
    }
  }

  lemma StripAppended(a: string, b: string)
    requires a != [] && !EndsCr(a)
    ensures StripCr(a + b) == a + StripCr(b)
  {
    if b != [] {
      assert (a + b)[|a + b| - 1] == b[|b|-1] && (a + b)[..|a + b| - 1] == a + b[..|b|-1];
    } else {
      assert a + b == a;
    }
  }

  function DroppedStamp(stamp: Option<string>): Option<string> {
    if stamp.Some? then Some(StripCr(stamp.value)) else None
  }

  lemma NameDropped(mark: string, letter: char, name: Option<string>, stamp: Option<string>)
    requires CleanName(name) && letter != '\r'
    ensures StripCr(mark + NameText(letter, name, stamp)) == mark + NameText(letter, name, DroppedStamp(stamp))
  {
    var s := if name.Some? then [letter, '/'] + name.value else "/dev/null";
    NameEnd(s, letter, name);
    if stamp.Some? {
      var front := mark + s + ['\t'];
      assert front[|front|-1] == '\t';
      StripAppended(front, stamp.value);
      assert mark + (s + (['\t'] + stamp.value)) == front + stamp.value;
      assert mark + (s + (['\t'] + StripCr(stamp.value))) == front + StripCr(stamp.value);
    } else {
      assert s + "" == s && (mark + s)[|mark + s| - 1] == s[|s|-1];
    }
  }

  lemma NameEnd(s: string, letter: char, name: Option<string>)
    requires CleanName(name) && letter != '\r'
    requires s == if name.Some? then [letter, '/'] + name.value else "/dev/null"
    ensures s != [] && s[|s|-1] != '\r'
  {
    if name.Some? && name.value != [] {
      assert s[|s|-1] == name.value[|name.value|-1];
    } else if name.Some? {
      assert s[|s|-1] == '/';
    } else {
      assert s[|s|-1] == 'l';
    }
  }

  lemma ItemDropped(i: Item)
    requires LaidOut(i)
    ensures ItemLines(Dropped(i)) == StripAll(ItemLines(i)) && LaidOut(Dropped(i))
    ensures Mistakable(Dropped(i)) <==> Mistakable(i)
  {
    match i {
      case Intro(lines) =>
        DroppedIntro(lines);
      case Named(n) =>
        NameDropped("--- ", 'a', n.before, n.stamp);
        NameDropped("+++ ", 'b', n.after, n.stamp);
      case Changes(h) =>
        DroppedHunk(h);
    }
  }

  lemma StrippedLine(l: string)
    ensures Misread(StripCr(l)) <==> Misread(l)
    ensures Marked(StripCr(l)) <==> Marked(l)
    ensures ("@@" <= StripCr(l) <==> "@@" <= l) && ("diff " <= StripCr(l) <==> "diff " <= l)
    ensures HunkLine(StripCr(l)) <==> HunkLine(l)
  {
    StripCrKeeps(l);
  }

  lemma DroppedIntro(lines: seq<string>)
    requires IntroLines(lines)
    ensures IntroLines(StripAll(lines))
  {
    var r := StripAll(lines);
    forall k | 0 <= k < |r|
      ensures !Misread(r[k]) && !("@@" <= r[k]) && (k == 0 ==> "diff " <= r[k])
    {
      assert lines[k] in lines;
      StrippedLine(lines[k]);
    }
  }

  lemma DroppedHunk(h: GitHunk)
    requires LaidOut(Changes(h))
    ensures ItemLines(Dropped(Changes(h))) == StripAll(ItemLines(Changes(h))) && LaidOut(Dropped(Changes(h)))
    ensures Mistakable(Dropped(Changes(h))) <==> Mistakable(Changes(h))
  {
    var ranges := "@@" + Ranges(h);
    assert ranges[|ranges|-1] == '@';
    StripAppended(ranges, h.heading);
    Assoc("@@", Ranges(h), h.heading);
    Assoc("@@", Ranges(h), StripCr(h.heading));
    DroppedBody(h.body);
  }

  lemma DroppedBody(body: seq<string>)
    requires forall l | l in body :: HunkLine(l)
    ensures forall l | l in StripAll(body) :: HunkLine(l)
    ensures (exists l :: l in StripAll(body) && Misread(l)) <==> exists l :: l in body && Misread(l)
  {
    var r := StripAll(body);
    forall k | 0 <= k < |r|
      ensures HunkLine(r[k])
    {
      assert body[k] in body;
      StrippedLine(body[k]);
    }
    if l :| l in body && Misread(l) {
      var k :| 0 <= k < |body| && body[k] == l;
      StrippedLine(l);
      assert r[k] in r;
    }
    if l :| l in r && Misread(l) {
      var k :| 0 <= k < |r| && r[k] == l;
      StrippedLine(body[k]);
      assert body[k] in body;
    }
  }

  lemma {:induction false} DiffDropped(items: seq<Item>)
    requires forall i | i in items :: LaidOut(i)
    ensures DiffLines(DroppedAll(items)) == StripAll(DiffLines(items))
    ensures forall i | i in DroppedAll(items) :: LaidOut(i)
    decreases |items|
  {
    if items != [] {
      assert items[0] in items && forall i | i in items[1..] :: i in items;
      ItemDropped(items[0]);
      DiffDropped(items[1..]);
      StripAppend(ItemLines(items[0]), DiffLines(items[1..]));
    }
  }

  lemma DroppedMistakable(items: seq<Item>)
    requires forall i | i in items :: LaidOut(i)
    ensures (exists i :: i in DroppedAll(items) && Mistakable(i)) <==> exists i :: i in items && Mistakable(i)
  {
    var r := DroppedAll(items);
    forall k | 0 <= k < |items|
      ensures Mistakable(r[k]) <==> Mistakable(items[k])
      ensures r[k] in r && items[k] in items
    {
      assert items[k] in items;
      ItemDropped(items[k]);
    }
  }

  lemma {:induction false} DiffOneLined(items: seq<Item>)
    requires forall i | i in items :: OneLined(i)
    ensures forall l | l in DiffLines(items) :: '\n' !in l
    decreases |items|
  {
    if items != [] {
      assert items[0] in items && forall i | i in items[1..] :: i in items;
      DiffOneLined(items[1..]);
    }
  }

  /** Parsing the text is running over the lines of the diff without its carriage returns. */
  lemma TextIsRun(items: seq<Item>)
    requires forall i | i in items :: LaidOut(i) && OneLined(i)
    ensures Parse(Ended(DiffLines(items))) == Finish(Run(START, DiffLines(DroppedAll(items))))
  {
    DiffOneLined(items);
    LinesOfEnded(DiffLines(items));
    DiffDropped(items);
  }

  /** Any diff so laid out, as text: the hunks come back in order, each with the new name of its file, its ranges and
      its first eighty lines that count, carriage returns dropped. Up to 64 of them; a sixty-fifth adds nothing if it
      is the first after an introduction or names, and otherwise one more hunk without lines. */
  lemma GitDiffReads(items: seq<Item>)
    requires forall i | i in items :: CleanItem(i) && OneLined(i)
    ensures Parse(Ended(DiffLines(items))) == Bounded(Entries(DroppedAll(items), "unknown", true))
  {
    TextIsRun(items);
    DiffDropped(items);
    DroppedMistakable(items);
    RunItems(START, DroppedAll(items));
    TakenIsBounded(Entries(DroppedAll(items), "unknown", true));
  }

  lemma MistakenRun(items: seq<Item>, entries: seq<Entry>)
    requires (forall i | i in items :: Presentable(i)) && exists i :: i in items && Mistakable(i)
    requires entries == Entries(items, "unknown", true) && |entries| <= MAX_HUNKS
    ensures Finish(Run(START, DiffLines(items))) != Hunks(entries)
  {
    MistakenDiffers(START, items);
    assert [] + Hunks(entries) == Hunks(entries);
  }

  lemma MistakenText(items: seq<Item>, entries: seq<Entry>)
    requires (forall i | i in items :: Presentable(i)) && exists i :: i in items && Mistakable(i)
    requires entries == Entries(DroppedAll(items), "unknown", true) && |entries| <= MAX_HUNKS
    ensures Parse(Ended(DiffLines(items))) != Hunks(entries)
  {
    TextIsRun(items);
    DroppedMistakable(items);
    DroppedPresentable(items);
    MistakenRun(DroppedAll(items), entries);
  }

  /** With hunks of at most eighty lines, and no more than 64 of them, all come back if and only if no line looks like
      a name line. */
  lemma GitDiffReadsExactlyWhen(items: seq<Item>, entries: seq<Entry>)
    requires forall i | i in items :: Presentable(i)
    requires entries == Entries(DroppedAll(items), "unknown", true) && |entries| <= MAX_HUNKS
    ensures Parse(Ended(DiffLines(items))) == Hunks(entries) <==> forall i | i in items :: !Mistakable(i)
  {
    if i :| i in items && Mistakable(i) {
      MistakenText(items, entries);
    } else {
      GitDiffReads(items);
    }
  }

  lemma DroppedPresentable(items: seq<Item>)
    requires forall i | i in items :: Presentable(i)
    ensures forall i | i in DroppedAll(items) :: Presentable(i)
  {
    forall k | 0 <= k < |items|
      ensures Presentable(Dropped(items[k]))
    {
      assert items[k] in items;
      ItemDropped(items[k]);
      StrippedOneLined(ItemLines(items[k]));
      if items[k].Changes? {
        CountingDropped(items[k].hunk.body);
      }
    }
  }

  lemma StrippedOneLined(lines: seq<string>)
    requires forall l | l in lines :: '\n' !in l
    ensures forall l | l in StripAll(lines) :: '\n' !in l
  {
    forall k | 0 <= k < |lines|
      ensures '\n' !in StripAll(lines)[k]
    {
      assert lines[k] in lines;
      StripCrKeeps(lines[k]);
    }
  }

  lemma {:induction false} CountingDropped(body: seq<string>)
    ensures Counting(StripAll(body)) == StripAll(Counting(body))
    decreases |body|
  {
    if body != [] {
      StrippedLine(body[0]);
      CountingDropped(body[1..]);
    }
  }

  //
  // One file.
  //

  function FileItems(n: Names, hunks: seq<GitHunk>): (r: seq<Item>)
    ensures |r| == |hunks| + 1 && r[0] == Named(n) && forall k | 0 <= k < |hunks| :: r[k + 1] == Changes(hunks[k])
  {
    [Named(n)] + seq(|hunks|, k requires 0 <= k < |hunks| => Changes(hunks[k]))
  }

  lemma {:induction false} FileEntries(items: seq<Item>, file: string, first: bool)
    requires forall k | 0 <= k < |items| :: items[k].Changes?
    ensures var entries := Entries(items, file, first);
            && |entries| == |items|
            && forall k | 0 <= k < |items| ::
                 entries[k] == Entry(ReadHunk(items[k].hunk, file), if k == 0 then first else false)
    decreases |items|
  {
    if items != [] {
      FileEntries(items[1..], file, false);
    }
  }

  /** One file with any number of hunks, free of carriage returns: up to 64 hunks all come back under its new name,
      which is `/dev/null` for a deleted one; of more, the first 64 and an empty one. */
  lemma FileReads(n: Names, hunks: seq<GitHunk>, read: seq<DiffHunk>, file: string)
    requires forall i | i in FileItems(n, hunks) :: CleanItem(i) && OneLined(i) && Dropped(i) == i
    requires read == Parse(Ended(DiffLines(FileItems(n, hunks))))
    requires file == if n.after.Some? then n.after.value else "/dev/null"
    ensures |read| == Min(|hunks|, MAX_HUNKS + 1)
    ensures forall k | 0 <= k < |read| ::
              read[k] == if k < MAX_HUNKS then ReadHunk(hunks[k], file) else ReadHunk(hunks[k], file).(preview := "")
  {
    var items := FileItems(n, hunks);
    NothingDropped(items);
    GitDiffReads(items);
    FileBounded(items[1..], hunks, file);
    assert Entries(items, "unknown", true) == Entries(items[1..], file, true);
  }

  lemma FileBounded(items: seq<Item>, hunks: seq<GitHunk>, file: string)
    requires |items| == |hunks| && forall k | 0 <= k < |hunks| :: items[k] == Changes(hunks[k])
    ensures var read := Bounded(Entries(items, file, true));
            && |read| == Min(|hunks|, MAX_HUNKS + 1)
            && forall k | 0 <= k < |read| ::
                 read[k] == if k < MAX_HUNKS then ReadHunk(hunks[k], file) else ReadHunk(hunks[k], file).(preview := "")
  {
    FileEntries(items, file, true);
  }

  lemma NothingDropped(items: seq<Item>)
    requires forall i | i in items :: Dropped(i) == i
    ensures DroppedAll(items) == items
  {
    forall k | 0 <= k < |items|
      ensures DroppedAll(items)[k] == items[k]
    {
      assert items[k] in items;
    }
  }
}
