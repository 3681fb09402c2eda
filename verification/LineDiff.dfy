/** The line differ: an LCS table filled bottom-up and a backtrace that turns it
    into an edit script (crates/impetus-core/src/diff_observation.rs). */
module LineDiff {

  type Line = string

  /** One step of an edit script; indices point into the two line sequences. */
  datatype Edit = Keep(bi: nat, ai: nat) | Delete(bi: nat) | Insert(ai: nat)

  //
  // What a script is.
  //

  function OldIndex(e: Edit): seq<nat> {
    if e.Insert? then [] else [e.bi]
  }

  function NewIndex(e: Edit): seq<nat> {
    if e.Delete? then [] else [e.ai]
  }

  /** The old lines a script touches, in script order. */
  function OldSide(s: seq<Edit>): seq<nat> {
    if s == [] then [] else OldIndex(s[0]) + OldSide(s[1..])
  }

  /** The new lines a script touches, in script order. */
  function NewSide(s: seq<Edit>): seq<nat> {
    if s == [] then [] else NewIndex(s[0]) + NewSide(s[1..])
  }

  function Keeps(s: seq<Edit>): nat {
    if s == [] then 0 else (if s[0].Keep? then 1 else 0) + Keeps(s[1..])
  }

  function Inserts(s: seq<Edit>): nat {
    if s == [] then 0 else (if s[0].Insert? then 1 else 0) + Inserts(s[1..])
  }

  function Deletes(s: seq<Edit>): nat {
    if s == [] then 0 else (if s[0].Delete? then 1 else 0) + Deletes(s[1..])
  }

  /** `xs` is lo, lo + 1, ..., hi - 1. */
  predicate Counts(xs: seq<nat>, lo: nat, hi: nat) {
    |xs| == hi - lo && forall k | 0 <= k < |xs| :: xs[k] == lo + k
  }

  predicate KeepsAgree(before: seq<Line>, after: seq<Line>, s: seq<Edit>) {
    forall e | e in s && e.Keep? :: e.bi < |before| && e.ai < |after| && before[e.bi] == after[e.ai]
  }

  /** `s` takes `before[i0..i1]` to `after[j0..j1]`: every index of both ranges once, in
      order, and every kept pair of lines equal. */
  predicate Script(before: seq<Line>, after: seq<Line>, s: seq<Edit>, i0: nat, i1: nat, j0: nat, j1: nat) {
    && i0 <= i1 <= |before| && j0 <= j1 <= |after|
    && Counts(OldSide(s), i0, i1)
    && Counts(NewSide(s), j0, j1)
    && KeepsAgree(before, after, s)
  }

  predicate FullScript(before: seq<Line>, after: seq<Line>, s: seq<Edit>) {
    Script(before, after, s, 0, |before|, 0, |after|)
  }

  /** Lines inserted and deleted. */
  function Cost(s: seq<Edit>): nat {
    Inserts(s) + Deletes(s)
  }

  /** A full script that no full script undercuts. */
  ghost predicate Cheapest(before: seq<Line>, after: seq<Line>, s: seq<Edit>) {
    FullScript(before, after, s) && forall t | FullScript(before, after, t) :: Cost(s) <= Cost(t)
  }

  /** Running a script: kept lines come from `before`, inserted lines from `after`. */
  function Replay(before: seq<Line>, after: seq<Line>, s: seq<Edit>): seq<Line>
    requires forall e | e in s :: (e.Keep? ==> e.bi < |before|) && (e.Insert? ==> e.ai < |after|)
  {
    if s == [] then []
    else
      (match s[0]
       case Keep(bi, _) => [before[bi]]
       case Delete(_) => []
       case Insert(ai) => [after[ai]]) + Replay(before, after, s[1..])
  }

  //
  // Longest common subsequences.
  //

  /** `f` places `c` inside `s`, strictly left to right. */
  ghost predicate Embeds(f: seq<nat>, c: seq<Line>, s: seq<Line>) {
    && |f| == |c|
    && (forall k | 0 <= k < |f| :: f[k] < |s| && s[f[k]] == c[k])
    && (forall k, l | 0 <= k < l < |f| :: f[k] < f[l])
  }

  ghost predicate Subsequence(c: seq<Line>, s: seq<Line>) {
    exists f :: Embeds(f, c, s)
  }

  ghost predicate CommonSubsequence(c: seq<Line>, a: seq<Line>, b: seq<Line>) {
    Subsequence(c, a) && Subsequence(c, b)
  }

  /** The recurrence the table is filled with. */
  ghost function Lcs(a: seq<Line>, b: seq<Line>, i: nat, j: nat): nat
    requires i <= |a| && j <= |b|
  {
    if i == 0 || j == 0 then 0
    else if a[i-1] == b[j-1] then Lcs(a, b, i-1, j-1) + 1
    else Max(Lcs(a, b, i, j-1), Lcs(a, b, i-1, j))
  }

  function Max(x: nat, y: nat): nat {
    if x >= y then x else y
  }

  lemma EmbedsShrink(f: seq<nat>, c: seq<Line>, s: seq<Line>, i: nat)
    requires 0 < i <= |s| && Embeds(f, c, s[..i])
    ensures f == [] || f[|f|-1] != i-1 ==> Embeds(f, c, s[..i-1])
    ensures f != [] ==> Embeds(f[..|f|-1], c[..|c|-1], s[..i-1])
  {
  }

  lemma LastMeets(f: seq<nat>, c: seq<Line>, s: seq<Line>, i: nat)
    requires 0 < i <= |s| && Embeds(f, c, s[..i]) && f != []
    ensures f[|f|-1] == i-1 ==> c[|c|-1] == s[i-1]
  {
  }

  lemma EmbedsGrow(f: seq<nat>, c: seq<Line>, s: seq<Line>, i: nat, i': nat)
    requires i <= i' <= |s| && Embeds(f, c, s[..i])
    ensures Embeds(f, c, s[..i'])
    ensures i < i' ==> Embeds(f + [i], c + [s[i]], s[..i'])
  {
  }

  /** No common subsequence of two prefixes is longer than the table entry. */
  lemma {:induction false} LcsBoundsEmbeddings(a: seq<Line>, b: seq<Line>, i: nat, j: nat,
                                               c: seq<Line>, f: seq<nat>, g: seq<nat>)
    requires i <= |a| && j <= |b|
    requires Embeds(f, c, a[..i]) && Embeds(g, c, b[..j])
    ensures |c| <= Lcs(a, b, i, j)
    decreases i + j
  {
    if c != [] {
      assert f[0] < |a[..i]| && g[0] < |b[..j]|;
      EmbedsShrink(f, c, a, i);
      EmbedsShrink(g, c, b, j);
      LastMeets(f, c, a, i);
      LastMeets(g, c, b, j);
      if a[i-1] == b[j-1] {
        LcsBoundsEmbeddings(a, b, i-1, j-1, c[..|c|-1], f[..|f|-1], g[..|g|-1]);
      } else if f[|f|-1] != i-1 {
        LcsBoundsEmbeddings(a, b, i-1, j, c, f, g);
      } else {
        LcsBoundsEmbeddings(a, b, i, j-1, c, f, g);
      }
    }
  }

  //
  // Scripts and subsequences.
  //

  lemma {:induction false} SidesAppend(s: seq<Edit>, t: seq<Edit>)
    ensures OldSide(s + t) == OldSide(s) + OldSide(t)
    ensures NewSide(s + t) == NewSide(s) + NewSide(t)
    ensures Keeps(s + t) == Keeps(s) + Keeps(t)
  {
    if s == [] {
      assert s + t == t;
    } else {
      var u := s + t;
      assert u[0] == s[0] && u[1..] == s[1..] + t;
      SidesAppend(s[1..], t);
      assert OldIndex(s[0]) + (OldSide(s[1..]) + OldSide(t)) == OldIndex(s[0]) + OldSide(s[1..]) + OldSide(t);
      assert NewIndex(s[0]) + (NewSide(s[1..]) + NewSide(t)) == NewIndex(s[0]) + NewSide(s[1..]) + NewSide(t);
    }
  }

  lemma {:induction false} SideLengths(s: seq<Edit>)
    ensures |OldSide(s)| == Keeps(s) + Deletes(s)
    ensures |NewSide(s)| == Keeps(s) + Inserts(s)
  {
    if s != [] {
      SideLengths(s[1..]);
    }
  }

  lemma CountsSplit(xs: seq<nat>, ys: seq<nat>, lo: nat, hi: nat)
    requires Counts(xs + ys, lo, hi)
    ensures Counts(xs, lo, lo + |xs|) && Counts(ys, lo + |xs|, hi)
  {
    assert forall k | 0 <= k < |xs| :: xs[k] == (xs + ys)[k];
    assert forall k | 0 <= k < |ys| :: ys[k] == (xs + ys)[|xs| + k];
  }

  /** Dropping the last edit of a script leaves a script of shorter prefixes. */
  lemma ScriptDropLast(before: seq<Line>, after: seq<Line>, s: seq<Edit>, i: nat, j: nat) returns (i': nat, j': nat)
    requires s != [] && Script(before, after, s, 0, i, 0, j)
    ensures i' == i - |OldIndex(s[|s|-1])| && j' == j - |NewIndex(s[|s|-1])|
    ensures Counts(OldIndex(s[|s|-1]), i', i) && Counts(NewIndex(s[|s|-1]), j', j)
    ensures Script(before, after, s[..|s|-1], 0, i', 0, j')
    ensures Keeps(s) == Keeps(s[..|s|-1]) + if s[|s|-1].Keep? then 1 else 0
  {
    var init, last := s[..|s|-1], s[|s|-1];
    assert s == init + [last];
    SidesAppend(init, [last]);
    assert OldSide([last]) == OldIndex(last) && NewSide([last]) == NewIndex(last);
    i', j' := |OldSide(init)|, |NewSide(init)|;
    CountsSplit(OldSide(init), OldIndex(last), 0, i);
    CountsSplit(NewSide(init), NewIndex(last), 0, j);
  }

  /** The lines a script keeps form a common subsequence. */
  lemma {:induction false} ScriptKeepsEmbed(before: seq<Line>, after: seq<Line>, s: seq<Edit>, i: nat, j: nat)
    returns (c: seq<Line>, f: seq<nat>, g: seq<nat>)
    requires Script(before, after, s, 0, i, 0, j)
    ensures |c| == Keeps(s)
    ensures Embeds(f, c, before[..i]) && Embeds(g, c, after[..j])
    decreases |s|
  {
    if s == [] {
      c, f, g := [], [], [];
    } else {
      var last := s[|s|-1];
      var i', j' := ScriptDropLast(before, after, s, i, j);
      c, f, g := ScriptKeepsEmbed(before, after, s[..|s|-1], i', j');
      EmbedsGrow(f, c, before, i', i);
      EmbedsGrow(g, c, after, j', j);
      if last.Keep? {
        assert last in s;
        assert OldIndex(last)[0] == i' && NewIndex(last)[0] == j';
        c, f, g := c + [before[i']], f + [i'], g + [j'];
      }
    }
  }

  /** Every script costs at least what the table promises. */
  lemma ScriptCost(before: seq<Line>, after: seq<Line>, s: seq<Edit>)
    requires FullScript(before, after, s)
    ensures Keeps(s) <= Lcs(before, after, |before|, |after|)
    ensures Deletes(s) == |before| - Keeps(s)
    ensures Inserts(s) == |after| - Keeps(s)
  {
    var c, f, g := ScriptKeepsEmbed(before, after, s, |before|, |after|);
    LcsBoundsEmbeddings(before, after, |before|, |after|, c, f, g);
    SideLengths(s);
  }

  /** The first edit of a script stands at its first lines; the rest is a script from there on. */
  lemma ScriptHead(before: seq<Line>, after: seq<Line>, s: seq<Edit>, i0: nat, i1: nat, j0: nat, j1: nat)
    requires s != [] && Script(before, after, s, i0, i1, j0, j1)
    ensures !s[0].Insert? ==> s[0].bi == i0 < i1
    ensures !s[0].Delete? ==> s[0].ai == j0 < j1
    ensures s[0].Keep? ==> before[i0] == after[j0]
    ensures Script(before, after, s[1..], i0 + |OldIndex(s[0])|, i1, j0 + |NewIndex(s[0])|, j1)
  {
    var o, n, rest := OldIndex(s[0]), NewIndex(s[0]), s[1..];
    assert s[0] in s && forall e | e in rest :: e in s;
    CountsSplit(o, OldSide(rest), i0, i1);
    CountsSplit(n, NewSide(rest), j0, j1);
    assert o != [] ==> o[0] == i0;
    assert n != [] ==> n[0] == j0;
  }

  lemma {:induction false} ReplayFrom(before: seq<Line>, after: seq<Line>, s: seq<Edit>, i: nat, j: nat)
    requires Script(before, after, s, i, |before|, j, |after|)
    ensures forall e | e in s :: (e.Keep? ==> e.bi < |before|) && (e.Insert? ==> e.ai < |after|)
    ensures Replay(before, after, s) == after[j..]
    decreases |s|
  {
    if s != [] {
      ScriptHead(before, after, s, i, |before|, j, |after|);
      assert s == [s[0]] + s[1..];
      ReplayFrom(before, after, s[1..], i + |OldIndex(s[0])|, j + |NewIndex(s[0])|);
    }
  }

  /** Running any full script on `before` yields `after`. */
  lemma ReplayYieldsAfter(before: seq<Line>, after: seq<Line>, s: seq<Edit>)
    requires FullScript(before, after, s)
    ensures forall e | e in s :: (e.Keep? ==> e.bi < |before|) && (e.Insert? ==> e.ai < |after|)
    ensures Replay(before, after, s) == after
  {
    ReplayFrom(before, after, s, 0, 0);
  }

  /** A script that keeps as many lines as the table says is optimal. */
  lemma OptimalScript(before: seq<Line>, after: seq<Line>, s: seq<Edit>)
    requires FullScript(before, after, s)
    requires Keeps(s) == Lcs(before, after, |before|, |after|)
    ensures forall t | FullScript(before, after, t) :: Inserts(s) + Deletes(s) <= Inserts(t) + Deletes(t)
    ensures forall c | CommonSubsequence(c, before, after) :: |c| <= Keeps(s)
    ensures exists c :: CommonSubsequence(c, before, after) && |c| == Keeps(s)
  {
    ScriptCost(before, after, s);
    forall t | FullScript(before, after, t)
      ensures Inserts(s) + Deletes(s) <= Inserts(t) + Deletes(t)
    {
      ScriptCost(before, after, t);
    }
    var a, b := before[..|before|], after[..|after|];
    assert a == before && b == after;
    forall c | CommonSubsequence(c, before, after)
      ensures |c| <= Keeps(s)
    {
      var f :| Embeds(f, c, before);
      var g :| Embeds(g, c, after);
      LcsBoundsEmbeddings(before, after, |before|, |after|, c, f, g);
    }
    var c, f, g := ScriptKeepsEmbed(before, after, s, |before|, |after|);
    assert CommonSubsequence(c, before, after);
  }

  //
  // The shape the backtrace gives the head of a script.
  //

  /** No Delete comes before the first Keep. */
  predicate NoDeleteAtHead(s: seq<Edit>) {
    s == [] || s[0].Keep? || (s[0].Insert? && NoDeleteAtHead(s[1..]))
  }

  /** Before the first Keep, all Deletes precede all Inserts. */
  predicate DeletesLead(s: seq<Edit>) {
    s == [] || s[0].Keep?
    || (s[0].Delete? && DeletesLead(s[1..]))
    || (s[0].Insert? && NoDeleteAtHead(s[1..]))
  }

  lemma ScriptPrepend(before: seq<Line>, after: seq<Line>, e: Edit, s: seq<Edit>, i: nat, j: nat)
    requires Script(before, after, s, i + |OldIndex(e)|, |before|, j + |NewIndex(e)|, |after|)
    requires e.Keep? ==> before[i] == after[j]
    requires (OldIndex(e) != [] ==> e.bi == i) && (NewIndex(e) != [] ==> e.ai == j)
    ensures Script(before, after, [e] + s, i, |before|, j, |after|)
    ensures Keeps([e] + s) == Keeps(s) + if e.Keep? then 1 else 0
    ensures ([e] + s)[0] == e && ([e] + s)[1..] == s
  {
    assert ([e] + s)[1..] == s;
    CountsPrepend(OldIndex(e), OldSide(s), i, |before|);
    CountsPrepend(NewIndex(e), NewSide(s), j, |after|);
  }

  lemma CountsPrepend(xs: seq<nat>, ys: seq<nat>, lo: nat, hi: nat)
    requires Counts(xs, lo, lo + |xs|) && Counts(ys, lo + |xs|, hi)
    ensures Counts(xs + ys, lo, hi)
  {
  }

  /** `Vec::reverse`. */
  function Reversed<T>(s: seq<T>): (r: seq<T>)
    ensures |r| == |s| && forall k | 0 <= k < |s| :: r[k] == s[|s| - 1 - k]
  {
    if s == [] then [] else [s[|s|-1]] + Reversed(s[..|s|-1])
  }

  lemma ReversedPush<T>(s: seq<T>, x: T)
    ensures Reversed(s + [x]) == [x] + Reversed(s)
  {
    assert (s + [x])[..|s|] == s;
  }

  /** Row `i` of the table is right up to and including column `j`. */
  ghost predicate RowDone(dp: array2<nat>, before: seq<Line>, after: seq<Line>, i: nat, j: nat)
    requires i <= |before| && i < dp.Length0 && j <= |after| && j < dp.Length1
    reads dp
  {
    forall l: nat | l <= j :: dp[i, l] == Lcs(before, after, i, l)
  }

  method FillRow(dp: array2<nat>, before: seq<Line>, after: seq<Line>, i: nat)
    requires i < |before| && dp.Length0 == |before| + 1 && dp.Length1 == |after| + 1
    requires RowDone(dp, before, after, i, |after|)
    requires dp[i + 1, 0] == 0
    modifies dp
    ensures RowDone(dp, before, after, i + 1, |after|)
    ensures forall k, l | 0 <= k <= |before| && 0 <= l <= |after| && k != i + 1 :: dp[k, l] == old(dp[k, l])
  {
    for j := 0 to |after|
      invariant RowDone(dp, before, after, i, |after|)
      invariant RowDone(dp, before, after, i + 1, j)
      invariant forall k, l | 0 <= k <= |before| && 0 <= l <= |after| && k != i + 1 :: dp[k, l] == old(dp[k, l])
    {
      assert dp[i, j] == Lcs(before, after, i, j) && dp[i, j + 1] == Lcs(before, after, i, j + 1);
      assert dp[i + 1, j] == Lcs(before, after, i + 1, j);
      if before[i] == after[j] {
        dp[i + 1, j + 1] := dp[i, j] + 1;
      } else {
        dp[i + 1, j + 1] := Max(dp[i + 1, j], dp[i, j + 1]);
      }
    }
  }

  /** Fills the (n + 1) x (m + 1) table of LCS lengths row by row. */
  method FillTable(before: seq<Line>, after: seq<Line>) returns (dp: array2<nat>)
    ensures fresh(dp)
    ensures dp.Length0 == |before| + 1 && dp.Length1 == |after| + 1
    ensures forall i: nat | i <= |before| :: RowDone(dp, before, after, i, |after|)
  {
    dp := new nat[|before| + 1, |after| + 1]((_, _) => 0);
    for i := 0 to |before|
      invariant forall k: nat | k <= i :: RowDone(dp, before, after, k, |after|)
      invariant forall k | i < k <= |before| :: dp[k, 0] == 0
    {
      label entry:
      FillRow(dp, before, after, i);
      forall k: nat | k <= i
        ensures RowDone(dp, before, after, k, |after|)
      {
        assert old@entry(RowDone(dp, before, after, k, |after|));
        assert forall l: nat | l <= |after| :: old@entry(dp[k, l]) == Lcs(before, after, k, l);
      }
    }
  }

  /** The backtrace stands at (i, j): `script` leads from there to the end, no optimal script has been
      missed, and the head of the script has its shape once no common line is left before (i, j). */
  ghost predicate Backtraced(before: seq<Line>, after: seq<Line>, script: seq<Edit>, i: nat, j: nat) {
    && Script(before, after, script, i, |before|, j, |after|)
    && Keeps(script) + Lcs(before, after, i, j) == Lcs(before, after, |before|, |after|)
    && (Lcs(before, after, i, j) == 0 ==> DeletesLead(script) && (j == 0 || NoDeleteAtHead(script)))
  }

  /** The edit taken back from (i, j), and where it leads, by the entries of the table beside and above. */
  ghost predicate Chosen(before: seq<Line>, after: seq<Line>, i: nat, j: nat, e: Edit, i': nat, j': nat)
    requires i <= |before| && j <= |after|
  {
    match e
    case Keep(_, _) =>
      i > 0 && j > 0 && before[i - 1] == after[j - 1] && e == Keep(i - 1, j - 1) && i' == i - 1 && j' == j - 1
    case Insert(_) =>
      && j > 0 && e == Insert(j - 1) && i' == i && j' == j - 1
      && (i > 0 ==> before[i - 1] != after[j - 1] && Lcs(before, after, i, j - 1) >= Lcs(before, after, i - 1, j))
    case Delete(_) =>
      && i > 0 && e == Delete(i - 1) && i' == i - 1 && j' == j
      && (j > 0 ==> before[i - 1] != after[j - 1] && Lcs(before, after, i, j - 1) < Lcs(before, after, i - 1, j))
  }

  lemma KeepStep(before: seq<Line>, after: seq<Line>, edits: seq<Edit>, i: nat, j: nat, e: Edit, i': nat, j': nat)
    requires i <= |before| && j <= |after| && e.Keep? && Chosen(before, after, i, j, e, i', j')
    requires Backtraced(before, after, Reversed(edits), i, j)
    ensures Backtraced(before, after, Reversed(edits + [e]), i', j')
  {
    ReversedPush(edits, e);
    ScriptPrepend(before, after, e, Reversed(edits), i', j');
  }

  lemma InsertStep(before: seq<Line>, after: seq<Line>, edits: seq<Edit>, i: nat, j: nat, e: Edit, i': nat, j': nat)
    requires i <= |before| && j <= |after| && e.Insert? && Chosen(before, after, i, j, e, i', j')
    requires Backtraced(before, after, Reversed(edits), i, j)
    ensures Backtraced(before, after, Reversed(edits + [e]), i', j')
  {
    ReversedPush(edits, e);
    ScriptPrepend(before, after, e, Reversed(edits), i', j');
  }

  lemma DeleteStep(before: seq<Line>, after: seq<Line>, edits: seq<Edit>, i: nat, j: nat, e: Edit, i': nat, j': nat)
    requires i <= |before| && j <= |after| && e.Delete? && Chosen(before, after, i, j, e, i', j')
    requires Backtraced(before, after, Reversed(edits), i, j)
    ensures Backtraced(before, after, Reversed(edits + [e]), i', j')
  {
    ReversedPush(edits, e);
    ScriptPrepend(before, after, e, Reversed(edits), i', j');
  }

  lemma ChosenKeeps(before: seq<Line>, after: seq<Line>, edits: seq<Edit>, i: nat, j: nat, e: Edit, i': nat, j': nat)
    requires i <= |before| && j <= |after| && Chosen(before, after, i, j, e, i', j')
    requires Backtraced(before, after, Reversed(edits), i, j)
    ensures Backtraced(before, after, Reversed(edits + [e]), i', j')
  {
    match e {
      case Keep(_, _) => KeepStep(before, after, edits, i, j, e, i', j');
      case Insert(_) => InsertStep(before, after, edits, i, j, e, i', j');
      case Delete(_) => DeleteStep(before, after, edits, i, j, e, i', j');
    }
  }

  /** A script from (i, j) to (n, m) every edit of which is the one taken back from where it leads. */
  ghost predicate Retraced(before: seq<Line>, after: seq<Line>, s: seq<Edit>, i: nat, j: nat, n: nat, m: nat)
    decreases |s|
  {
    if s == [] then i == n && j == m
    else
      var i', j' := i + |OldIndex(s[0])|, j + |NewIndex(s[0])|;
      && i' <= |before| && j' <= |after| && Chosen(before, after, i', j', s[0], i, j)
      && Retraced(before, after, s[1..], i', j', n, m)
  }

  lemma RetracedGrows(before: seq<Line>, after: seq<Line>, s: seq<Edit>, i: nat, j: nat, e: Edit, i': nat, j': nat)
    requires i <= |before| && j <= |after| && Chosen(before, after, i, j, e, i', j')
    requires Retraced(before, after, s, i, j, |before|, |after|)
    ensures Retraced(before, after, [e] + s, i', j', |before|, |after|)
  {
    assert ([e] + s)[1..] == s;
  }

  /** Retraced up to an edit, which is itself taken back from (n, m). */
  ghost predicate RetracedLast(before: seq<Line>, after: seq<Line>, init: seq<Edit>, e: Edit, i: nat, j: nat, n: nat,
                               m: nat) {
    && |OldIndex(e)| <= n <= |before| && |NewIndex(e)| <= m <= |after|
    && Chosen(before, after, n, m, e, n - |OldIndex(e)|, m - |NewIndex(e)|)
    && Retraced(before, after, init, i, j, n - |OldIndex(e)|, m - |NewIndex(e)|)
  }

  /** Without its last edit a script is still so, up to where that edit is taken back. */
  lemma {:induction false} RetracedSnoc(before: seq<Line>, after: seq<Line>, init: seq<Edit>, e: Edit,
                                        i: nat, j: nat, n: nat, m: nat)
    requires Retraced(before, after, init + [e], i, j, n, m)
    ensures RetracedLast(before, after, init, e, i, j, n, m)
    decreases |init|
  {
    var s := init + [e];
    if init == [] {
      assert s[1..] == [];
    } else {
      assert s[0] == init[0] && s[1..] == init[1..] + [e];
      RetracedSnoc(before, after, init[1..], e, i + |OldIndex(s[0])|, j + |NewIndex(s[0])|, n, m);
    }
  }

  lemma RetracedDropLast(before: seq<Line>, after: seq<Line>, s: seq<Edit>, i: nat, j: nat, n: nat, m: nat)
    requires s != [] && Retraced(before, after, s, i, j, n, m)
    ensures RetracedLast(before, after, s[..|s|-1], s[|s|-1], i, j, n, m)
  {
    assert s == s[..|s|-1] + [s[|s|-1]];
    RetracedSnoc(before, after, s[..|s|-1], s[|s|-1], i, j, n, m);
  }

  //
  // Which of the cheapest scripts it is.
  //

  /** Keeping is preferred to inserting, and inserting to deleting. */
  function Rank(e: Edit): nat {
    match e case Keep(_, _) => 0 case Insert(_) => 1 case Delete(_) => 2
  }

  /** Read from their ends, the two scripts agree, or where they first part `s` takes the preferred edit. */
  predicate Preferred(s: seq<Edit>, t: seq<Edit>)
    decreases |s|
  {
    || s == t
    || (&& s != [] && t != []
        && (|| Rank(s[|s|-1]) < Rank(t[|t|-1])
            || (s[|s|-1] == t[|t|-1] && Preferred(s[..|s|-1], t[..|t|-1]))))
  }

  /** Of two scripts only one can be preferred to the other. */
  lemma {:induction false} PreferredOnce(s: seq<Edit>, t: seq<Edit>)
    requires Preferred(s, t) && Preferred(t, s)
    ensures s == t
    decreases |s|
  {
    if s != [] && t != [] {
      assert s == s[..|s|-1] + [s[|s|-1]] && t == t[..|t|-1] + [t[|t|-1]];
      if s != t {
        PreferredOnce(s[..|s|-1], t[..|t|-1]);
      }
    }
  }

  lemma KeepsBounded(before: seq<Line>, after: seq<Line>, t: seq<Edit>, i: nat, j: nat)
    requires Script(before, after, t, 0, i, 0, j)
    ensures Keeps(t) <= Lcs(before, after, i, j)
  {
    var c, f, g := ScriptKeepsEmbed(before, after, t, i, j);
    LcsBoundsEmbeddings(before, after, i, j, c, f, g);
  }

  /** The edit `d` leads from (n, m) to (i, j). */
  predicate Leads(before: seq<Line>, after: seq<Line>, d: Edit, n: nat, m: nat, i: nat, j: nat)
    requires i <= |before| && j <= |after|
  {
    match d
    case Keep(_, _) => n + 1 == i && m + 1 == j && d == Keep(n, m) && before[n] == after[m]
    case Insert(_) => n == i && m + 1 == j && d == Insert(m)
    case Delete(_) => n + 1 == i && m == j && d == Delete(n)
  }

  lemma LastLeads(before: seq<Line>, after: seq<Line>, t: seq<Edit>, i: nat, j: nat) returns (n: nat, m: nat)
    requires Script(before, after, t, 0, i, 0, j) && i + j > 0
    ensures t != [] && Leads(before, after, t[|t|-1], n, m, i, j)
    ensures Script(before, after, t[..|t|-1], 0, n, 0, m)
    ensures Keeps(t) == Keeps(t[..|t|-1]) + if t[|t|-1].Keep? then 1 else 0
    ensures Keeps(t[..|t|-1]) <= Lcs(before, after, n, m)
  {
    assert t != [] by {
      assert t == [] ==> OldSide(t) == [] && NewSide(t) == [];
    }
    var d := t[|t|-1];
    n, m := ScriptDropLast(before, after, t, i, j);
    KeepsBounded(before, after, t[..|t|-1], n, m);
    assert d in t;
    assert !d.Insert? ==> OldIndex(d)[0] == n == i - 1;
    assert !d.Delete? ==> NewIndex(d)[0] == m == j - 1;
  }

  /** Where an edit was taken back, no other that keeps as much is preferred to it. */
  lemma ChosenBeats(before: seq<Line>, after: seq<Line>, e: Edit, i': nat, j': nat, i: nat, j: nat,
                    d: Edit, n: nat, m: nat)
    requires i <= |before| && j <= |after| && Chosen(before, after, i, j, e, i', j')
    requires Leads(before, after, d, n, m, i, j)
    requires Lcs(before, after, i, j) <= Lcs(before, after, n, m) + if d.Keep? then 1 else 0
    ensures d == e || Rank(e) < Rank(d)
    ensures d == e ==> n == i' && m == j'
    ensures d == e ==> Lcs(before, after, i, j) == Lcs(before, after, n, m) + if d.Keep? then 1 else 0
  {
  }

  lemma ChosenIsPreferred(before: seq<Line>, after: seq<Line>, e: Edit, i': nat, j': nat, t: seq<Edit>, i: nat, j: nat)
    requires i <= |before| && j <= |after| && Chosen(before, after, i, j, e, i', j')
    requires Script(before, after, t, 0, i, 0, j) && Keeps(t) == Lcs(before, after, i, j)
    ensures t != [] && (t[|t|-1] == e || Rank(e) < Rank(t[|t|-1]))
    ensures t[|t|-1] == e ==>
              && Script(before, after, t[..|t|-1], 0, i', 0, j')
              && Keeps(t[..|t|-1]) == Lcs(before, after, i', j')
  {
    var n, m := LastLeads(before, after, t, i, j);
    ChosenBeats(before, after, e, i', j', i, j, t[|t|-1], n, m);
  }

  lemma {:induction false} RetracedIsPreferred(before: seq<Line>, after: seq<Line>, s: seq<Edit>, t: seq<Edit>, i: nat,
                                               j: nat)
    requires i <= |before| && j <= |after| && Retraced(before, after, s, 0, 0, i, j)
    requires Script(before, after, t, 0, i, 0, j) && Keeps(t) == Lcs(before, after, i, j)
    ensures Preferred(s, t)
    decreases |s|
  {
    if s == [] {
      if t != [] {
        var n, m := ScriptDropLast(before, after, t, i, j);
        assert false;
      }
    } else {
      RetracedDropLast(before, after, s, 0, 0, i, j);
      var e := s[|s|-1];
      var i', j' := i - |OldIndex(e)|, j - |NewIndex(e)|;
      ChosenIsPreferred(before, after, e, i', j', t, i, j);
      if t[|t|-1] == e {
        RetracedIsPreferred(before, after, s[..|s|-1], t[..|t|-1], i', j');
      }
    }
  }

  /** The script retraced through the whole table is preferred to every other cheapest one. */
  lemma RetracedIsBest(before: seq<Line>, after: seq<Line>, s: seq<Edit>)
    requires FullScript(before, after, s) && Keeps(s) == Lcs(before, after, |before|, |after|)
    requires Retraced(before, after, s, 0, 0, |before|, |after|)
    ensures forall t | Cheapest(before, after, t) :: Preferred(s, t)
  {
    forall t | Cheapest(before, after, t)
      ensures Preferred(s, t)
    {
      ScriptCost(before, after, s);
      ScriptCost(before, after, t);
      assert Cost(t) <= Cost(s);
      RetracedIsPreferred(before, after, s, t, |before|, |after|);
    }
  }

  //
  // The walk back.
  //

  /** One step back through the finished table, from (i, j). */
  method StepBack(before: seq<Line>, after: seq<Line>, dp: array2<nat>, i: nat, j: nat, ghost edits: seq<Edit>)
    returns (e: Edit, i': nat, j': nat)
    requires dp.Length0 == |before| + 1 && dp.Length1 == |after| + 1
    requires i <= |before| && j <= |after| && (i > 0 || j > 0)
    requires RowDone(dp, before, after, i, |after|) && (i > 0 ==> RowDone(dp, before, after, i - 1, |after|))
    requires Backtraced(before, after, Reversed(edits), i, j)
    requires Retraced(before, after, Reversed(edits), i, j, |before|, |after|)
    ensures i' <= i && j' <= j && i' + j' < i + j
    ensures Backtraced(before, after, Reversed(edits + [e]), i', j')
    ensures Retraced(before, after, Reversed(edits + [e]), i', j', |before|, |after|)
  {
    if i > 0 && j > 0 && before[i - 1] == after[j - 1] {
      e, i', j' := Keep(i - 1, j - 1), i - 1, j - 1;
    } else if j > 0 && (i == 0 || dp[i, j - 1] >= dp[i - 1, j]) {
      e, i', j' := Insert(j - 1), i, j - 1;
    } else {
      e, i', j' := Delete(i - 1), i - 1, j;
    }
    ChosenKeeps(before, after, edits, i, j, e, i', j');
    RetracedGrows(before, after, Reversed(edits), i, j, e, i', j');
    ReversedPush(edits, e);
  }

  /** Walks the finished table back from its last corner, collecting the script in reverse. */
  method Backtrace(before: seq<Line>, after: seq<Line>, dp: array2<nat>) returns (edits: seq<Edit>)
    requires dp.Length0 == |before| + 1 && dp.Length1 == |after| + 1
    requires forall i: nat | i <= |before| :: RowDone(dp, before, after, i, |after|)
    ensures Backtraced(before, after, Reversed(edits), 0, 0)
    ensures Retraced(before, after, Reversed(edits), 0, 0, |before|, |after|)
  {
    edits := [];
    var i: nat, j: nat := |before|, |after|;
    while i > 0 || j > 0
      invariant i <= |before| && j <= |after|
      invariant Backtraced(before, after, Reversed(edits), i, j)
      invariant Retraced(before, after, Reversed(edits), i, j, |before|, |after|)
      decreases i + j
    {
      var e, i', j' := StepBack(before, after, dp, i, j, edits);
      edits := edits + [e];
      i, j := i', j';
    }
  }

  /** The edit script between two line sequences: a full script, of least cost among all full scripts, keeping as many
      lines as the longest common subsequence has; and of all such the one that, read from the end, keeps where it can
      and else inserts where it can, so that of neighbouring changes the deletions come first. */
  method LineEdits(before: seq<Line>, after: seq<Line>) returns (edits: seq<Edit>)
    ensures Cheapest(before, after, edits)
    ensures forall c | CommonSubsequence(c, before, after) :: |c| <= Keeps(edits)
    ensures exists c :: CommonSubsequence(c, before, after) && |c| == Keeps(edits)
    ensures DeletesLead(edits)
    ensures forall t | Cheapest(before, after, t) :: Preferred(edits, t)
  {
    var dp := FillTable(before, after);
    edits := Backtrace(before, after, dp);
    edits := Reversed(edits);
    OptimalScript(before, after, edits);
    RetracedIsBest(before, after, edits);
  }

  method CountInsertDelete(edits: seq<Edit>) returns (insertions: nat, deletions: nat)
    ensures insertions == Inserts(edits) && deletions == Deletes(edits)
  {
    insertions, deletions := 0, 0;
    for k := 0 to |edits|
      invariant insertions + Inserts(edits[k..]) == Inserts(edits)
      invariant deletions + Deletes(edits[k..]) == Deletes(edits)
    {
      assert edits[k..][1..] == edits[k + 1..];
      match edits[k]
      case Insert(_) => insertions := insertions + 1;
      case Delete(_) => deletions := deletions + 1;
      case Keep(_, _) =>
    }
  }
}
