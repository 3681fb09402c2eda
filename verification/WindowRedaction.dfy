/** Whether the windows an artifact is read in show in what is redacted: redaction starts afresh in each
    (crates/impetus-core/src/context_builder.rs, crates/impetus-core/src/tools.rs). */
module WindowRedaction {
  import opened Text
  import opened Utf8
  import opened ContextBuilder

  /** Redacting up to each cut between pieces, and from it on, is redacting across it; and nothing so far is over
      the budget. */
  ghost predicate CleanCuts(pieces: seq<Bytes>, redact: Bytes -> Bytes, reduce: Bytes -> Reduced) {
    && redact([]) == []
    && forall k | 0 <= k < |pieces| ::
         var before := Concat(pieces[..k]);
         && redact(before + pieces[k]) == redact(before) + redact(pieces[k])
         && !reduce(redact(before + pieces[k])).truncated
  }

  lemma FirstCutsClean(init: seq<Bytes>, last: Bytes, redact: Bytes -> Bytes, reduce: Bytes -> Reduced)
    requires CleanCuts(init + [last], redact, reduce)
    ensures CleanCuts(init, redact, reduce)
    ensures var before := Concat(init);
            && redact(before + last) == redact(before) + redact(last) && !reduce(redact(before + last)).truncated
  {
    var pieces := init + [last];
    assert pieces[..|init|] == init && pieces[|init|] == last;
    assert forall k | 0 <= k < |init| :: init[..k] == pieces[..k] && init[k] == pieces[k];
  }

  /** When the cuts between the pieces are clean, the windows do not show: what was assembled is the redacted decoding
      of the whole. */
  lemma {:induction false} WindowsDoNotShow(pieces: seq<Bytes>, redact: Bytes -> Bytes, reduce: Bytes -> Reduced)
    requires CleanCuts(pieces, redact, reduce)
    ensures AbsorbAll(pieces, redact, reduce).text == redact(Concat(pieces))
    ensures !AbsorbAll(pieces, redact, reduce).truncated
    decreases |pieces|
  {
    if pieces != [] {
      var init, last := pieces[..|pieces|-1], pieces[|pieces|-1];
      assert pieces == init + [last];
      FirstCutsClean(init, last, redact, reduce);
      WindowsDoNotShow(init, redact, reduce);
      ConcatAppend(init, last);
    }
  }

  //
  // Redaction line by line.
  //

  /** Redaction line by line: how one line is rewritten, which lines open and close a block of which every line is
      replaced, and by what. */
  datatype Redactor = Redactor(
    opens: Bytes -> bool, closes: Bytes -> bool, rewrite: Bytes -> Bytes, opening: Bytes, hidden: Bytes)

  /** Where the first line ends, its newline included. */
  function LineEnd(s: Bytes): (k: nat)
    ensures k <= |s| && (s != [] ==> 0 < k)
  {
    if s == [] then 0 else if s[0] == NEWLINE then 1 else 1 + LineEnd(s[1..])
  }

  /** A line without its newline, and its newline if it has one. */
  function LineText(segment: Bytes): Bytes {
    if segment != [] && segment[|segment|-1] == NEWLINE then segment[..|segment|-1] else segment
  }

  function RedactOne(r: Redactor, segment: Bytes, inBlock: bool): (Bytes, bool) {
    var line := LineText(segment);
    var newline := segment[|line|..];
    if r.opens(line) then (r.opening + newline, true)
    else if inBlock then (r.hidden + newline, !r.closes(line))
    else (r.rewrite(line) + newline, false)
  }

  /** The redacted text, and whether a block is still open at its end. */
  function RedactFrom(r: Redactor, s: Bytes, inBlock: bool): (Bytes, bool)
    decreases |s|
  {
    if s == [] then ([], inBlock)
    else
      var (head, open) := RedactOne(r, s[..LineEnd(s)], inBlock);
      var (tail, end) := RedactFrom(r, s[LineEnd(s)..], open);
      (head + tail, end)
  }

  function RedactText(r: Redactor, s: Bytes): Bytes {
    RedactFrom(r, s, false).0
  }

  ghost predicate WholeLines(s: Bytes) {
    s == [] || s[|s|-1] == NEWLINE
  }

  lemma {:induction false} LineEndStays(x: Bytes, y: Bytes)
    requires x != [] && WholeLines(x)
    ensures LineEnd(x + y) == LineEnd(x) && WholeLines(x[LineEnd(x)..])
    decreases |x|
  {
    if x[0] != NEWLINE {
      assert (x + y)[1..] == x[1..] + y;
      LineEndStays(x[1..], y);
      assert x[LineEnd(x)..] == x[1..][LineEnd(x[1..])..];
    }
  }

  lemma {:induction false} RedactInParts(r: Redactor, x: Bytes, y: Bytes, inBlock: bool)
    requires WholeLines(x)
    ensures RedactFrom(r, x + y, inBlock).0
            == RedactFrom(r, x, inBlock).0 + RedactFrom(r, y, RedactFrom(r, x, inBlock).1).0
    decreases |x|
  {
    if x == [] {
      assert x + y == y;
    } else {
      LineEndStays(x, y);
      var k := LineEnd(x);
      assert (x + y)[..k] == x[..k] && (x + y)[k..] == x[k..] + y;
      var (head, open) := RedactOne(r, x[..k], inBlock);
      RedactInParts(r, x[k..], y, open);
      Assoc(head, RedactFrom(r, x[k..], open).0, RedactFrom(r, y, RedactFrom(r, x[k..], open).1).0);
    }
  }

  /** Lines are rewritten as lines. */
  ghost predicate Linewise(r: Redactor) {
    NEWLINE !in r.hidden && forall l :: NEWLINE !in l ==> NEWLINE !in r.rewrite(l)
  }

  /** Some line of the rest of an open block is not hidden when redaction starts afresh: one up to the line that
      closes the block, or before the next that opens one, is rewritten to something else. */
  ghost predicate Exposed(r: Redactor, y: Bytes)
    decreases |y|
  {
    y != [] &&
    var line := LineText(y[..LineEnd(y)]);
    && !r.opens(line)
    && (r.rewrite(line) != r.hidden || (!r.closes(line) && Exposed(r, y[LineEnd(y)..])))
  }

  lemma {:induction false} FirstLineIs(y: Bytes)
    requires y != []
    ensures var segment := y[..LineEnd(y)];
            && NEWLINE !in LineText(segment)
            && (segment == LineText(segment) + [NEWLINE] || (segment == LineText(segment) && LineEnd(y) == |y|))
    decreases |y|
  {
    if y[0] == NEWLINE {
      assert y[..1] == [NEWLINE];
    } else if |y| > 1 {
      FirstLineIs(y[1..]);
      assert y[..LineEnd(y)] == [y[0]] + y[1..][..LineEnd(y[1..])];
      LongerLine(y[0], y[1..][..LineEnd(y[1..])]);
    } else {
      assert y == [y[0]] && LineEnd(y) == 1;
    }
  }

  lemma LongerLine(c: Byte, segment: Bytes)
    requires c != NEWLINE
    ensures LineText([c] + segment) == [c] + LineText(segment)
    ensures segment == LineText(segment) + [NEWLINE] ==> [c] + segment == [c] + LineText(segment) + [NEWLINE]
  {
    var longer := [c] + segment;
    if segment != [] && segment[|segment|-1] == NEWLINE {
      assert longer[..|longer|-1] == [c] + segment[..|segment|-1];
    }
  }

  /** Two texts that begin with a line each are equal if and only if the lines and the rests are. */
  lemma LinesApart(p: Bytes, q: Bytes, a: Bytes, b: Bytes)
    requires NEWLINE !in p && NEWLINE !in q
    ensures p + [NEWLINE] + a == q + [NEWLINE] + b <==> p == q && a == b
  {
    var u, v := p + [NEWLINE] + a, q + [NEWLINE] + b;
    assert u[|p|] == NEWLINE && v[|q|] == NEWLINE;
    assert forall k | 0 <= k < |p| :: u[k] == p[k] && p[k] in p;
    assert forall k | 0 <= k < |q| :: v[k] == q[k] && q[k] in q;
    if u == v {
      assert |p| == |q|;
      assert u[..|p|] == p && v[..|q|] == q && u[|p| + 1..] == a && v[|q| + 1..] == b;
    }
  }

  lemma Cancel(x: Bytes, a: Bytes, b: Bytes)
    ensures x + a == x + b <==> a == b
  {
    assert (x + a)[|x|..] == a && (x + b)[|x|..] == b;
  }

  /** Redacting the rest of an open block afresh shows exactly when a line of it is exposed. What follows is compared
      along with it. */
  lemma {:induction false} BlockCutShows(r: Redactor, y: Bytes, z: Bytes, z': Bytes)
    requires Linewise(r) && (WholeLines(y) || (z == [] && z' == []))
    ensures RedactFrom(r, y, true).0 + z == RedactFrom(r, y, false).0 + z' <==> !Exposed(r, y) && z == z'
    decreases |y|
  {
    if y == [] {
      assert [] + z == z && [] + z' == z';
    } else {
      FirstLineIs(y);
      var k := LineEnd(y);
      var segment, rest := y[..k], y[k..];
      var line := LineText(segment);
      var (head, open) := RedactOne(r, segment, true);
      var (head', open') := RedactOne(r, segment, false);
      var t, f := RedactFrom(r, rest, open).0, RedactFrom(r, rest, open').0;
      Assoc(head, t, z);
      Assoc(head', f, z');
      if r.opens(line) {
        Cancel(head + t, z, z');
      } else {
        if open {
          if WholeLines(y) {
            LineEndStays(y, []);
          }
          BlockCutShows(r, rest, z, z');
        } else {
          Cancel(t, z, z');
        }
        HeadShows(r, segment, t + z, f + z');
      }
    }
  }

  /** The line itself, hidden on one side and rewritten on the other. */
  lemma HeadShows(r: Redactor, segment: Bytes, a: Bytes, b: Bytes)
    requires Linewise(r) && NEWLINE !in LineText(segment)
    requires segment == LineText(segment) + [NEWLINE] || (segment == LineText(segment) && a == [] && b == [])
    ensures var line := LineText(segment);
            var newline := segment[|line|..];
            (r.hidden + newline) + a == (r.rewrite(line) + newline) + b <==> r.rewrite(line) == r.hidden && a == b
  {
    var line := LineText(segment);
    var newline := segment[|line|..];
    if segment == line {
      assert newline == [];
      assert (r.hidden + newline) + a == r.hidden && (r.rewrite(line) + newline) + b == r.rewrite(line);
    } else {
      assert newline == [NEWLINE];
      LinesApart(r.hidden, r.rewrite(line), a, b);
    }
  }

  /** The code's redaction, line by line with blocks that stay open, is clean at a cut between two lines at which no
      block is open. */
  lemma LineCutIsClean(r: Redactor, x: Bytes, y: Bytes)
    requires WholeLines(x) && !RedactFrom(r, x, false).1
    ensures RedactText(r, x + y) == RedactText(r, x) + RedactText(r, y)
  {
    RedactInParts(r, x, y, false);
  }

  /** It shows a cut between two lines exactly when a block is open there and a line of its rest is exposed. */
  lemma LineCutShowsExactlyWhen(r: Redactor, x: Bytes, y: Bytes)
    requires Linewise(r) && WholeLines(x)
    ensures RedactText(r, x + y) == RedactText(r, x) + RedactText(r, y)
            <==> !(RedactFrom(r, x, false).1 && Exposed(r, y))
  {
    RedactInParts(r, x, y, false);
    var open := RedactFrom(r, x, false).1;
    var t, f := RedactFrom(r, y, open).0, RedactFrom(r, y, false).0;
    Cancel(RedactText(r, x), t, f);
    if open {
      BlockCutShows(r, y, [], []);
      assert t + [] == t && f + [] == f;
    }
  }

  lemma OneLine(l: Bytes)
    requires NEWLINE !in l
    ensures LineEnd(l + [NEWLINE]) == |l| + 1
    decreases |l|
  {
    if l != [] {
      assert l[0] in l && NEWLINE !in l[1..];
      TailOfAppend(l, [NEWLINE]);
      OneLine(l[1..]);
    }
  }

  /** A block opened before a cut, and after it a line that is not hidden by itself: the cut shows. */
  lemma OpenBlockShows(r: Redactor, b: Bytes, l: Bytes)
    requires Linewise(r) && NEWLINE !in b && NEWLINE !in l
    requires r.opens(b) && !r.opens(l) && r.rewrite(l) != r.hidden
    ensures var x, y := b + [NEWLINE], l + [NEWLINE]; RedactText(r, x + y) != RedactText(r, x) + RedactText(r, y)
  {
    var x, y := b + [NEWLINE], l + [NEWLINE];
    OneLine(b);
    OneLine(l);
    assert x[..|x|] == x && y[..|y|] == y && LineText(x) == b && LineText(y) == l && x[|x|..] == [];
    assert RedactFrom(r, x, false).1 && Exposed(r, y);
    LineCutShowsExactlyWhen(r, x, y);
  }

  //
  // All the windows.
  //

  /** The pieces redacted one by one. */
  function Piecewise(pieces: seq<Bytes>, redact: Bytes -> Bytes): Bytes {
    if pieces == [] then [] else redact(pieces[0]) + Piecewise(pieces[1..], redact)
  }

  /** No cut between the pieces shows, the first of them beginning in a block or not. */
  ghost predicate NoCutShows(r: Redactor, pieces: seq<Bytes>, inBlock: bool)
    decreases |pieces|
  {
    pieces == [] || (!(inBlock && Exposed(r, pieces[0]))
                     && NoCutShows(r, pieces[1..], RedactFrom(r, pieces[0], inBlock).1))
  }

  lemma {:induction false} PiecewiseExact(r: Redactor, pieces: seq<Bytes>, inBlock: bool)
    requires Linewise(r) && forall k | 0 <= k < |pieces| - 1 :: WholeLines(pieces[k])
    ensures RedactFrom(r, Concat(pieces), inBlock).0 == Piecewise(pieces, s => RedactText(r, s))
            <==> NoCutShows(r, pieces, inBlock)
    decreases |pieces|
  {
    if pieces != [] {
      var x, rest := pieces[0], Concat(pieces[1..]);
      var open := RedactFrom(r, x, inBlock).1;
      var z, z' := RedactFrom(r, rest, open).0, Piecewise(pieces[1..], s => RedactText(r, s));
      PiecewiseExact(r, pieces[1..], open);
      if |pieces| == 1 {
        assert pieces[1..] == [] && x + rest == x && z == [] && z' == [];
        assert RedactFrom(r, x, inBlock).0 + z == RedactFrom(r, x, inBlock).0;
      } else {
        assert WholeLines(x);
        RedactInParts(r, x, rest, inBlock);
      }
      if inBlock {
        BlockCutShows(r, x, z, z');
      } else {
        Cancel(RedactText(r, x), z, z');
      }
    }
  }

  /** Nothing assembled so far is over the budget. */
  ghost predicate Untruncated(pieces: seq<Bytes>, redact: Bytes -> Bytes, reduce: Bytes -> Reduced) {
    forall k | 0 < k <= |pieces| :: !reduce(Piecewise(pieces[..k], redact)).truncated
  }

  lemma {:induction false} PiecewiseSnoc(pieces: seq<Bytes>, p: Bytes, redact: Bytes -> Bytes)
    ensures Piecewise(pieces + [p], redact) == Piecewise(pieces, redact) + redact(p)
    decreases |pieces|
  {
    if pieces == [] {
      assert [p][1..] == [];
      assert redact(p) + [] == redact(p) && [] + redact(p) == redact(p);
    } else {
      TailOfAppend(pieces, [p]);
      PiecewiseSnoc(pieces[1..], p, redact);
      Assoc(redact(pieces[0]), Piecewise(pieces[1..], redact), redact(p));
    }
  }

  lemma {:induction false} AbsorbedPiecewise(pieces: seq<Bytes>, redact: Bytes -> Bytes, reduce: Bytes -> Reduced)
    requires Untruncated(pieces, redact, reduce)
    ensures AbsorbAll(pieces, redact, reduce).text == Piecewise(pieces, redact)
    ensures !AbsorbAll(pieces, redact, reduce).truncated
    decreases |pieces|
  {
    if pieces != [] {
      var init, last := pieces[..|pieces|-1], pieces[|pieces|-1];
      assert pieces == init + [last] && pieces[..|pieces|] == pieces;
      assert forall k | 0 < k <= |init| :: init[..k] == pieces[..k];
      AbsorbedPiecewise(init, redact, reduce);
      PiecewiseSnoc(init, last, redact);
    }
  }

  /** With windows that end between lines and a budget that is not hit, what is assembled is the redaction of the
      whole if and only if no block open at a cut has a line exposed after it. */
  lemma WindowsShowExactlyWhen(r: Redactor, pieces: seq<Bytes>, reduce: Bytes -> Reduced)
    requires Linewise(r) && forall k | 0 <= k < |pieces| - 1 :: WholeLines(pieces[k])
    requires Untruncated(pieces, s => RedactText(r, s), reduce)
    ensures AbsorbAll(pieces, s => RedactText(r, s), reduce).text == RedactText(r, Concat(pieces))
            <==> NoCutShows(r, pieces, false)
  {
    AbsorbedPiecewise(pieces, s => RedactText(r, s), reduce);
    PiecewiseExact(r, pieces, false);
  }
}
