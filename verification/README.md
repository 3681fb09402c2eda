# Verified core of the impetus agent harness

impetus is a harness that runs coding agents: it decides which effects an agent may have on a workspace, keeps an
append-only log of what happened, shows diffs, streams model output, stores artifacts and schedules child agents.
This project models the parts of it where a mistake would be hard to see, and proves what those parts promise, for
every input and every run. `dafny verify dfyconfig.toml` checks the whole.

**Diffs** (`LineDiff`, `DiffHunks`, `HunkReplay`, `ShownHunks`, `UnifiedDiff`, `GitDiff`, `DiffPipeline`). The
dynamic-programming line diff yields a script of least cost among all scripts, and it is proved which of these. The
grouping loops yield the one grouping of a script's changes, up to 64 groups. A patch function written independently of
the diff takes the old text to the new one by the hunks, also after they were printed as a unified diff and parsed back.
Some promises fail in corner cases, and the exact guard of each is proved, for any two texts: `new_start` is off exactly
for a hunk at the start of a script that opens with a replacement; the full slices patch exactly when there are no more
than 64 groups; the hunks as shown patch exactly when, besides, none is cut at 80 lines and in each no line shown but the
last ends in a carriage return; the print is read back exactly when no line shown begins like a file header and none but
the very last ends in a carriage return. Diffs as git lays them out are read too, with any number of files and hunks:
the hunks come back exactly when no line begins like a file header, those of a deleted file under `/dev/null`, and of
more than 64 in one file a sixty-fifth comes back without its lines.

**Text decoding** (`Utf8`, `ContextBuilder`, `WindowRedaction`). Reading an artifact window by window, with an unfinished
character carried over, decodes to what one-shot lossy decoding of the whole gives, for every window size, with the exact
number of reads and a failure exactly when one of them fails. Lossy decoding is proved to be the one decoding that
section 3.9 of the Unicode Standard recommends, and validation to accept exactly the byte strings of section 4 of RFC
3629. Redaction starts afresh in each window; for windows that end between lines it is proved exactly when the result
differs from redacting the whole.

**The effect fence** (`EventLog`, `EffectFence`, `FencedRuns`, `FenceLimits`, `FencedEffects`, `FencedExecution`).
Effects are logged as Prepared, Started and one ending. Two effects count as the same call exactly when capability, kind,
origin, target and version agree. Over every run of attempts, crashes and failed appends, of the effects of one call none
of whose attempts loses its Started after its Prepared was stored at most one is executed; as long as no attempt does, an
attempt is refused exactly when one of the same call reached Started; and in every run a refusal names what the log says
of an earlier attempt on that call. The exact limit is proved too: from any idle state an effect can be executed again if
and only if the log does not settle it, that is, it has no record or one left in Prepared, and then it can be executed
any number of times; each way an opening can break leads there. The imperative ledger and `run_under_fence` are proved to
make only moves of that state machine.

**The admission seam** (`Admission`, `EffectSeam`, `FencedSeam`). Admission allows, asks and denies exactly when sandbox,
policy, execution mode and risk gate together say so, and with the reason of the one that decides. Over every run of
reconfiguration, requests, resolutions and executions, an effect runs only in the scope of a provisioned sandbox, when
policy does not deny it, and either it went ahead with nobody asked, for which the exact condition is proved, or a user
accepted that very effect under that very intent revision. The approved path consults neither the execution mode nor the
risk gate, and a run that shows it is constructed. An acceptance is not used up by running; with the fence behind the
seam, what runs is sanctioned and, while its own openings stay whole, runs at most once.

**Writer leases** (`WriteSet`, `PathMeaning`, `WriteOverlap`, `ScopeSharing`, `WriterLeases`). Path normalisation, proved
to lead where the raw text leads and to turn away exactly what it should, the overlap test of declared write sets and the
lease table: no two holders ever overlap, and for path scopes that means no workspace path
has two writers. The glob matcher is proved against an independent meaning of globs. Which scopes share a path is
decided for every mixture of paths and globs, and with it exactly when the test reports a pair that shares none, exactly
when it misses one, and exactly when two holders of a reached table can write one path.

**Streams and buffers** (`StreamCoalescer`, `StreamCuts`, `BoundedLine`, `DurableArtifacts`, `ArtifactUpload`). A stream is
cut into chunks each time as soon as that is due, which determines the cuts, and the chunks are numbered without a gap
across turns and failed appends. Their texts spell the streamed text exactly when none was
spilled, which with a working store means that no buffer was over the bound; with the artifacts read back they spell it
in any case. The bounded line reader does not depend on how its input is cut into buffers, but for one kind of error; an
upload ends in an artifact that reads back the body, whatever other clients do.

**Child runs and prompt context** (`ChildGate`, `ContextAssembly`). The gate's counters are proved to decide as counting
a plain registry of runs would. The greedy context selection is proved to be the best choice in the order of its
candidates, and to depend on the order of its input only among items that share a tier and an id.

`Text` holds the operations of Rust's `str` the other modules lean on.

Modelling choices: SHA-256 is taken to be injective (the fence keeps the hashed bytes, the artifact store takes an
injective function); file, index, event-store and network operations become parameters that say how each call goes;
fresh ids are parameters required to be fresh; text handed out as bytes is kept as UTF-8 bytes; numbers are unbounded
except where the code saturates or bounds them.

## Model

| member | source | states |
|---|---|---|
| `LineDiff.LineEdits` | crates/impetus-core/src/diff_observation.rs:129-162 | the script touches every line of both texts once and in order, keeps only equal lines, costs no more insertions and deletions than any other script, and keeps as many lines as a longest common subsequence has; of all such it is the one that, read from the end, keeps where it can and else inserts where it can |
| `LineDiff.FillTable` | crates/impetus-core/src/diff_observation.rs:134-143 | every entry of the table is the longest-common-subsequence length of its two prefixes |
| `LineDiff.Backtrace` | crates/impetus-core/src/diff_observation.rs:144-161 | walking back from the last corner collects, in reverse, a script that keeps as many lines as the table promises |
| `LineDiff.StepBack` | crates/impetus-core/src/diff_observation.rs:147-159 | each step back extends the script by one edit and loses no optimality |
| `LineDiff.RetracedIsBest` | crates/impetus-core/src/diff_observation.rs:144-161 | the script the walk collects is preferred, read from the end, to every other cheapest script |
| `LineDiff.PreferredOnce` | crates/impetus-core/src/diff_observation.rs:144-161 | only one of two scripts can be so preferred to the other |
| `LineDiff.LcsBoundsEmbeddings` | crates/impetus-core/src/diff_observation.rs:134-143 | no common subsequence, given by any pair of embeddings, is longer than the table entry |
| `LineDiff.ScriptCost` | crates/impetus-core/src/diff_observation.rs:129-162 | every full script keeps at most as many lines as the longest common subsequence and its deletions and insertions are the rest |
| `LineDiff.ReplayYieldsAfter` | crates/impetus-core/src/diff_observation.rs:122-162 | replaying any full script gives the new text |
| `LineDiff.CountInsertDelete` | crates/impetus-core/src/diff_observation.rs:164-175 | the counts are the numbers of Insert and Delete edits |
| `DiffHunks.EditsToHunks` | crates/impetus-core/src/diff_observation.rs:177-288 | hunks are those of the first 64 groups of the script: groups are maximal runs of changes less than six Keeps apart with three edits of context, in order and disjoint, all of them together cover every change, and the hunks do so if and only if there are at most 64 groups |
| `DiffHunks.GroupingUnique` | crates/impetus-core/src/diff_observation.rs:177-288 | a script has only one grouping that covers all its changes |
| `DiffHunks.CoveredExactlyWhen` | crates/impetus-core/src/diff_observation.rs:282-284 | the first groups of a script cover all its changes if and only if they are all of them |
| `DiffHunks.HunkEnd` | crates/impetus-core/src/diff_observation.rs:200-222 | a group ends after a change followed by six Keeps or by the end, and not before |
| `DiffHunks.SpansOrdered` | crates/impetus-core/src/diff_observation.rs:177-288 | groups are in order and disjoint |
| `DiffHunks.ChangesCovered` | crates/impetus-core/src/diff_observation.rs:177-288 | every change lies in some group |
| `HunkReplay.OldStartExact` | crates/impetus-core/src/diff_observation.rs:228-288 | `old_start - 1` is the number of old lines before the hunk, for every hunk |
| `HunkReplay.NewStartExact` | crates/impetus-core/src/diff_observation.rs:228-300 | `new_start - 1` is the number of new lines before the hunk if and only if it is not a hunk at the start of a script that opens with a deletion and inserts before its first Keep |
| `HunkReplay.NewStartMisplaced` | crates/impetus-core/src/diff_observation.rs:290-300 | replacing the first of two lines puts `new_start` at 2 with no new line before the hunk, for every cheapest script that deletes first |
| `HunkReplay.BodyReplays` | crates/impetus-core/src/diff_observation.rs:228-288 | the rendered body of any script takes its old lines to its new lines |
| `HunkReplay.SlicesYieldAfter` | crates/impetus-core/src/diff_observation.rs:177-288 | patching the old text with the full slices of the groups, for any texts, yields the new text if and only if they cover every change |
| `ShownHunks.PatchYieldsAfter` | crates/impetus-core/src/diff_observation.rs:177-288 | patching the old text with the hunks as they are shown, for any two texts, yields the new text if and only if no change was left out, no hunk was cut at the bound on its lines, and in each no line shown but the last ends in a carriage return |
| `ShownHunks.LongHunkIsCut` | crates/impetus-core/src/diff_observation.rs:250-275 | more than eighty lines written to an empty file are not patched by the hunks shown |
| `ShownHunks.CarriageReturnIsLost` | crates/impetus-core/src/diff_observation.rs:228-288 | two lines or more written to an empty file, the first ending in a carriage return, are not patched by the hunks shown |
| `UnifiedDiff.UnifiedPreview` | crates/impetus-core/src/diff_observation.rs:98-120 | without a cut the text is the print of all hunks; with one it is a prefix of it and a marker, a few lines past the limit at most, and a cut happens exactly when the print reaches the limit |
| `UnifiedDiff.ParseUnifiedHunks` | crates/impetus-core/src/diff_observation.rs:313-418 | the loop with its cursor and flags computes the parser's step function run over the lines |
| `UnifiedDiff.PrintParseRoundTrip` | crates/impetus-core/src/diff_observation.rs:313-446 | parsing the print of clean hunks gives them back if and only if no line begins with `--- ` or `+++ ` and none but the very last ends in a carriage return |
| `UnifiedDiff.ParseStopsAtBound` | crates/impetus-core/src/diff_observation.rs:402-404 | of more than 64 clear hunks the print gives back the first 64 |
| `UnifiedDiff.DeletedCommentIsMisread` | crates/impetus-core/src/diff_observation.rs:344-361 | a deleted line beginning with `-- ` breaks the round trip |
| `GitDiff.GitDiffReads` | crates/impetus-core/src/diff_observation.rs:313-446 | a diff as git lays it out, with introductions, one pair of name lines per file, any number of hunks under it, counts of one left out or not, stamps, headings and lines that do not count, gives its hunks back in order, each with the new name of its file, its ranges and its first eighty lines, up to 64 |
| `GitDiff.GitDiffReadsExactlyWhen` | crates/impetus-core/src/diff_observation.rs:313-446 | with hunks of at most eighty lines and no more than 64 of them, all come back if and only if no line of a hunk begins like a name line |
| `GitDiff.FileReads` | crates/impetus-core/src/diff_observation.rs:361-410 | the hunks of one file come back under its new name, or under `/dev/null` when it is deleted; of more than 64 the first 64 and one without lines |
| `DiffPipeline.PrintedDiffPatches` | crates/impetus-core/src/diff_observation.rs:98-120 | where the print of a diff is read back, patching the old text with what was parsed yields the new text if and only if no change was left out and no hunk was cut |
| `DiffPipeline.PrintedDiffReadsBack` | crates/impetus-core/src/diff_observation.rs:98-120 | for any two texts, parsing the print of their diff gives its hunks back if and only if no line shown looks like a file header once marked and none but the very last ends in a carriage return |
| `DiffPipeline.FromTexts` | crates/impetus-core/src/diff_observation.rs:22-45 | the reported counts are the least any script needs and balance the line counts; the full slices patch the old lines to the new ones if and only if there are at most 64 groups, the hunks as shown if and only if, besides, none is cut and none loses a carriage return, and the print is read back exactly when it is clear |
| `Utf8.LossyMeetsStandard` | crates/impetus-core/src/context_builder.rs:147-149 | lossy decoding keeps characters and turns each maximal subpart of anything else into one U+FFFD |
| `Utf8.StandardMeansLossy` | crates/impetus-core/src/context_builder.rs:147-149 | no other decoding meets that description |
| `Utf8.ValidIsUtf8` | crates/impetus-core/src/context_builder.rs:185-207 | what validation accepts is a row of RFC 3629 characters |
| `Utf8.Utf8IsValid` | crates/impetus-core/src/context_builder.rs:185-207 | validation accepts every row of RFC 3629 characters |
| `ContextBuilder.SplitPreservesDecoding` | crates/impetus-core/src/context_builder.rs:185-207 | the text split off, followed by the decoding of the carry and any further bytes, is the decoding of the whole |
| `ContextBuilder.SplitIsClean` | crates/impetus-core/src/context_builder.rs:185-207 | the text split off is valid UTF-8 and the carry is at most three bytes of one unfinished character |
| `ContextBuilder.DecodeWindow` | crates/impetus-core/src/context_builder.rs:126-136 | one window keeps the pieces valid and, with what is left, equal to the decoding of the whole |
| `ContextBuilder.ReadWindows` | crates/impetus-core/src/context_builder.rs:108-145 | the loop succeeds if and only if none of the reads it needs fails, makes exactly as many as the window size calls for, and has then read all covered bytes and absorbed exactly the decoded pieces |
| `ContextBuilder.WindowsCover` | crates/impetus-core/src/context_builder.rs:116-125 | the number of windows is the least that covers the bytes |
| `ContextBuilder.Materialize` | crates/impetus-core/src/context_builder.rs:97-170 | the pieces handed to redaction are valid and together are the one-shot lossy decoding of the bytes covered; every field of the result is determined by them; a missing artifact, a failed lookup and a failed read are errors, the last exactly when one of the reads needed fails |
| `ContextBuilder.SummaryTells` | crates/impetus-core/src/context_builder.rs:137-169 | the report is of the last working text; it is marked truncated if and only if some reduction truncated or the clipping did, and its token count is the larger of the last two |
| `WindowRedaction.WindowsDoNotShow` | crates/impetus-core/src/context_builder.rs:116-156 | when redaction distributes at the cuts between the pieces actually made and nothing so far is truncated, what is assembled is the redacted decoding of the whole |
| `WindowRedaction.LineCutIsClean` | crates/impetus-core/src/tools.rs:368-390 | line-by-line redaction with blocks that stay open distributes at a cut between two lines at which no block is open |
| `WindowRedaction.LineCutShowsExactlyWhen` | crates/impetus-core/src/tools.rs:368-390 | at a cut between two lines, redacting the parts differs from redacting the whole if and only if a block is open there and a line of its rest is rewritten to something else than a hidden line |
| `WindowRedaction.OpenBlockShows` | crates/impetus-core/src/tools.rs:368-390 | a block opened on the last line before a cut and an ordinary line after it are such a pair |
| `WindowRedaction.WindowsShowExactlyWhen` | crates/impetus-core/src/context_builder.rs:116-156 | with any number of windows that end between lines and no truncation, what is assembled is the redaction of the whole if and only if no block open at a cut has such a line after it |
| `ContextBuilder.CeilingHolds` | crates/impetus-core/src/context_builder.rs:174-182 | the clipped text is a valid prefix; the tokens reported are the least number that holds the text, or the ceiling if it was clipped; and it keeps within four bytes per token if and only if it was short enough or its first bytes are all ASCII |
| `ContextBuilder.CeilingOvershoots` | crates/impetus-core/src/context_builder.rs:174-182 | three two-byte characters clipped to one token keep six bytes |
| `EffectFence.DigestInjective` | crates/impetus-core/src/effect_fence.rs:105-153 | the bytes hashed for two effects are equal if and only if their capability, kind, origin, target and version are |
| `EffectFence.DigestExact` | crates/impetus-core/src/effect_fence.rs:105-153 | two effects have one digest if and only if capability, kind of action, origin, target and version agree, an absent target counting as an empty one |
| `EffectFence.LabelExact` | crates/impetus-core/src/effect_fence.rs:105-153 | the label kept beside the digest tells capability and kind of action |
| `EffectFence.RecordsFromEvents` | crates/impetus-core/src/effect_fence.rs:211-320 | folding the log event by event gives the fold of the log |
| `EffectFence.FoldInParts` | crates/impetus-core/src/effect_fence.rs:211-320 | folding a log in two parts is folding it at once |
| `EffectFence.FoldProjects` | crates/impetus-core/src/effect_fence.rs:222-320 | the record of an effect depends on its own events alone, however others are interleaved |
| `EffectFence.LatestForDigest` | crates/impetus-core/src/effect_fence.rs:448-459 | the scan, in any map order, comes across some record of the digest if there is one |
| `EffectFence.CheckReplaySafe` | crates/impetus-core/src/effect_fence.rs:462-470 | the decision is that of a record the scan may come across |
| `EffectFence.RefusesInEveryOrder` | crates/impetus-core/src/effect_fence.rs:448-470 | a replay is refused under every map order if and only if the digest has a record and none of them is left in Prepared |
| `FencedRuns.RunKeeps` | crates/impetus-core/src/effects.rs:741-805 | every run whose openings stay whole keeps the invariant tying log, phase and executions together |
| `FencedRuns.AtMostOnce` | crates/impetus-core/src/effects.rs:741-805 | in every such run no side effect is executed twice for the same five fields, wherever crashes and failed appends fall |
| `FencedRuns.RefusedExactlyWhenStarted` | crates/impetus-core/src/effect_fence.rs:448-470 | in every such run an attempt is refused by the fence if and only if an earlier one with the same five fields reached Started |
| `FencedEffects.EffectsRunAtMostOnce` | crates/impetus-core/src/effects.rs:741-805 | in every run whose openings stay whole no two effects executed agree in those five fields |
| `FencedEffects.EffectRunsAtMostOnce` | crates/impetus-core/src/effects.rs:741-805 | in every run at most one of the effects that agree with a given one is executed, if the openings of attempts on them stay whole |
| `FencedEffects.RefusedExactlyForSameCall` | crates/impetus-core/src/effect_fence.rs:448-470 | in every run whose openings stay whole an attempt is refused if and only if an effect that agrees with it in all five fields was started before |
| `FencedEffects.RefusalNamesEnding` | crates/impetus-core/src/effect_fence.rs:184-208 | in every run the fence answers with what the last stored move of an earlier attempt on the same call says, observed, failed, unknown or unfinished, or lets the attempt go ahead where there is none |
| `FenceLimits.AtMostOnceEach` | crates/impetus-core/src/effects.rs:741-805 | in every run, an effect whose own openings stay whole is executed at most once, however the openings of others break |
| `FenceLimits.SettledNeverRuns` | crates/impetus-core/src/effect_fence.rs:448-470 | once its digest has a record and none left in Prepared, an effect is not executed again in any run from there on |
| `FenceLimits.UnsettledRunsAgain` | crates/impetus-core/src/effect_fence.rs:448-470 | from every idle state where it is not settled, an effect can be executed any number of times |
| `FenceLimits.RunsAgainExactlyWhenUnsettled` | crates/impetus-core/src/effect_fence.rs:448-470 | from every idle state, some continuation executes an effect if and only if the log does not settle it |
| `FenceLimits.BrokenOpeningAllowsRepeats` | crates/impetus-core/src/effect_fence.rs:376-382 | in every run, each way an opening can break lets its effect be executed any number of times afterwards |
| `FenceLimits.OrphanAllowsRepeats` | crates/impetus-core/src/effect_fence.rs:376-382 | with a record left in Prepared, runs exist that execute the effect any number of times and leave it there |
| `FencedExecution.EffectFenceLedger.Append` | crates/impetus-core/src/effect_fence.rs:337-341 | an event is logged or not as the store decides, and acknowledged only when stored |
| `FencedExecution.EffectFenceLedger.Prepare` | crates/impetus-core/src/effect_fence.rs:343-358 | an acknowledged Prepared is returned as the record the log folds to |
| `FencedExecution.EffectFenceLedger.MarkStarted` | crates/impetus-core/src/effect_fence.rs:360-374 | an acknowledged Started is logged and returned |
| `FencedExecution.EffectFenceLedger.PrepareAndStart` | crates/impetus-core/src/effect_fence.rs:376-382 | the second append is tried only once the first is acknowledged, and success leaves the fold at Started |
| `FencedExecution.EffectFenceLedger.Observe` | crates/impetus-core/src/effect_fence.rs:384-400 | an acknowledged ending is logged with its bounded summary |
| `FencedExecution.EffectFenceLedger.MarkFailed` | crates/impetus-core/src/effect_fence.rs:402-418 | an acknowledged failure is logged with its bounded reason |
| `FencedExecution.EffectFenceLedger.MarkUnknown` | crates/impetus-core/src/effect_fence.rs:420-436 | an acknowledged unknown ending is logged with its bounded reason |
| `FencedExecution.LedgerRecordsAreTheFold` | crates/impetus-core/src/effect_fence.rs:343-446 | under any interleaving, after each of Prepared, Started and an ending the log folds to the record the ledger call returned |
| `FencedExecution.CheckReplay` | crates/impetus-core/src/effects.rs:746-764 | the refusal is the decision on a record the scan may come across, or the failed read |
| `FencedExecution.FencePrepare` | crates/impetus-core/src/effects.rs:741-771 | an identity is handed out if and only if the read succeeded, the record found allows a fresh run and both opening appends were stored; otherwise the refusal says which of these failed; the call is a run of the state machine |
| `FencedExecution.RunUnderFence` | crates/impetus-core/src/effects.rs:773-805 | the closure is called if and only if the replay check and both opening appends succeed, and then with Started in the log; the outcome is its value, its error, or a refusal with its reason; Executed implies the fold is Observed, Observed implies the closure returned Ok, every executed run leaves a record that refuses replay, and the whole is a run of the state machine, with any append allowed to fail |
| `Admission.RefusalExact` | crates/impetus-core/src/effects.rs:279-349 | the sandbox refuses exactly what does not fit or is out of scope, and for the first of its demands that is not met |
| `Admission.AdmitExact` | crates/impetus-core/src/effects.rs:433-514 | an effect is allowed, deferred or denied exactly as scope, policy, Plan mode, risk gate and mode say, with the reason of the one that decides |
| `EffectSeam.OnlySanctionedRuns` | crates/impetus-core/src/effects.rs:619-677 | in every run of the seam each executed effect was in scope and not denied by policy at that moment, and went ahead with nobody asked or was accepted by the user for that action, fingerprint, version and revision |
| `EffectSeam.ExecutedInScope` | crates/impetus-core/src/effects.rs:279-349 | in every run each executed read had its target in the workspace, each write in its writable part, and each network effect an enabled network, all under a provisioned sandbox |
| `EffectSeam.UnaskedExactlyAllowed` | crates/impetus-core/src/effects.rs:477-514 | in every run what executed with nobody asked was allowed by policy, or policy asked, the risk gate agreed and the mode was AcceptEdits, Auto or Bypass, or Ask for reading or a safe command |
| `EffectSeam.DirectRunsExactlyWhen` | crates/impetus-core/src/effects.rs:523-560 | in every state an effect is run directly if and only if it is in scope and goes ahead, and deferred if and only if a user is to be asked, under the reason to be given |
| `EffectSeam.AcceptedRunsExactlyWhen` | crates/impetus-core/src/effects.rs:619-677 | in every reached state, a deferral handed back unchanged runs if and only if the resolution is the user's acceptance of it, policy still asks for approval, the sandbox still admits it and the intent revision is still its own |
| `EffectSeam.AcceptanceRepeats` | crates/impetus-core/src/effects.rs:619-677 | on the unfenced path one acceptance can execute its effect any number of times |
| `EffectSeam.PlanModeHoldsDirectly` | crates/impetus-core/src/effects.rs:433-505 | in Plan mode the direct path runs nothing but reading, and in no mode what the risk gate denies |
| `EffectSeam.ApprovalIgnoresModeAndRisk` | crates/impetus-core/src/effects.rs:619-677 | runs of resolutions, new intents, reconfigurations and approved executions from two states that differ only in mode and risk gate execute the same effects |
| `EffectSeam.ApprovedWriteRunsInPlanMode` | crates/impetus-core/src/effects.rs:619-677 | a run exists in which an approved write executes in Plan mode although the direct path denies it |
| `FencedSeam.Projects` | crates/impetus-core/src/effects.rs:713-726 | every run of seam and fence together is a run of each |
| `FencedSeam.SanctionedAtMostOnce` | crates/impetus-core/src/effects.rs:568-677 | in every run of seam and fence together what executed was let through by the seam on sanction, and of the effects that agree in the five fields, while their own openings stay whole, at most one executed, however often an acceptance was used |
| `WriteSet.NormalizeRel` | crates/impetus-core/src/declared_write_set.rs:303-331 | pushing and popping segments computes the reduced path, or the error for an empty, absolute or escaping one |
| `PathMeaning.NormalizedMeans` | crates/impetus-core/src/declared_write_set.rs:303-331 | over the raw text: a path that begins with a slash is absolute, one some prefix of which goes up more often than down escapes, one that comes back to where it starts is empty, and any other leads from every directory where the result leads |
| `PathMeaning.TrimExact` | crates/impetus-core/src/declared_write_set.rs:304-304 | trimming drops the white space at both ends and nothing else |
| `WriteSet.EscapesExactlyWhen` | crates/impetus-core/src/declared_write_set.rs:312-326 | escape is reported if and only if some prefix has more parent steps than normal ones |
| `WriteSet.ReducedLeadsToSamePlace` | crates/impetus-core/src/declared_write_set.rs:312-326 | the reduced path leads from every directory to where the raw one leads |
| `WriteSet.NormalizedIsPlain` | crates/impetus-core/src/declared_write_set.rs:303-331 | a normalised path has no empty, `.` or `..` segment and is no longer than the input |
| `WriteSet.FixedPointExactlyWhen` | crates/impetus-core/src/declared_write_set.rs:303-331 | a normalised path is a fixed point if and only if it has no white space at its ends |
| `WriteSet.BlankUncovered` | crates/impetus-core/src/declared_write_set.rs:303-331 | a parent step can uncover a segment with a leading blank, which is then not a fixed point |
| `WriteOverlap.CoverIsSegmentPrefix` | crates/impetus-core/src/declared_write_set.rs:333-338 | the string test holds if and only if the segments of one path are a prefix of the other's |
| `WriteOverlap.MatchGlobExact` | crates/impetus-core/src/declared_write_set.rs:340-371 | the matcher accepts if and only if segments can be dealt out to the pattern, any run to `**` and one to everything else |
| `WriteOverlap.OverlapsSymmetric` | crates/impetus-core/src/declared_write_set.rs:75-118 | the overlap test does not depend on the order of its arguments |
| `WriteOverlap.PathOverlapExact` | crates/impetus-core/src/declared_write_set.rs:75-118 | for path scopes an overlap is reported if and only if some path lies at or below a declared path of each |
| `WriteOverlap.PathGlobOverlap` | crates/impetus-core/src/declared_write_set.rs:75-118 | for paths against globs, exactly when there is a common path and exactly when one is reported; a report is always right |
| `WriteOverlap.DeeperGlobMissed` | crates/impetus-core/src/declared_write_set.rs:75-118 | a directory and a glob reaching below it share a path that is not reported |
| `WriteOverlap.CrossingGlobsMissed` | crates/impetus-core/src/declared_write_set.rs:373-380 | two crossing globs share a path that is not reported |
| `WriteOverlap.CoveringGlobsSpurious` | crates/impetus-core/src/declared_write_set.rs:373-380 | a one-segment glob and one below it share no path and are reported all the same |
| `ScopeSharing.CrossExact` | crates/impetus-core/src/declared_write_set.rs:340-371 | two globs match a common path if and only if their patterns can be followed side by side to their ends |
| `ScopeSharing.GlobPairExact` | crates/impetus-core/src/declared_write_set.rs:373-380 | two globs are reported with no common path if and only if one covers the other as text and they do not cross, and missed with one if and only if they cross and the test has no ground |
| `ScopeSharing.DeepCoverIsReal` | crates/impetus-core/src/declared_write_set.rs:373-380 | a glob ending in `/**` that covers another as text does share a path with it |
| `ScopeSharing.SharesExact` | crates/impetus-core/src/declared_write_set.rs:75-118 | scopes of any mixture of paths and globs share a path if and only if a path of one covers one of the other, a glob of one can be followed through a path of the other, or two globs cross |
| `ScopeSharing.TestExact` | crates/impetus-core/src/declared_write_set.rs:75-118 | of two known scopes, a report is spurious if and only if one glob covers another as text and nothing is shared, and a shared path is missed if and only if nothing is reported and a glob reaches through a path or two globs cross |
| `WriterLeases.WritersStayExclusive` | crates/impetus-core/src/declared_write_set.rs:192-259 | in every state reached by admitting, bumping, releasing and scheduling no two holders overlap |
| `WriterLeases.TwoWritersExactlyWhen` | crates/impetus-core/src/declared_write_set.rs:192-259 | in every state reached, two holders of any scopes can write a common path if and only if a glob of one can be followed through a path of the other or two of their globs cross |
| `WriterLeases.NoPathHasTwoWriters` | crates/impetus-core/src/declared_write_set.rs:192-259 | so for path scopes no workspace path is ever open to two holders |
| `WriterLeases.CrossingWritersAdmitted` | crates/impetus-core/src/declared_write_set.rs:192-227 | two crossing globs are leased one after the other, and both holders can write one path |
| `WriterLeases.GenerationNeverDrops` | crates/impetus-core/src/declared_write_set.rs:192-252 | while a lease is held its generation never goes down |
| `WriterLeases.RefusedScheduleRestores` | crates/impetus-core/src/agent_scheduler.rs:146-161 | a refused schedule leaves the table as it was if and only if the child held no lease before |
| `WriterLeases.WriterLeaseTable.FindBlocker` | crates/impetus-core/src/declared_write_set.rs:207-224 | a blocker is found if and only if there is one |
| `WriterLeases.WriterLeaseTable.Admit` | crates/impetus-core/src/declared_write_set.rs:192-227 | a fence is admitted if and only if its child is named, its generation is newer than one held, and no other holder blocks it; each error says which of these failed and leaves the table alone |
| `WriterLeases.WriterLeaseTable.AssertLive` | crates/impetus-core/src/declared_write_set.rs:230-243 | a generation is live if and only if it is the one held |
| `WriterLeases.WriterLeaseTable.Bump` | crates/impetus-core/src/declared_write_set.rs:245-252 | the old generation is dead afterwards unless the counter was at its top |
| `WriterLeases.WriterLeaseTable.Release` | crates/impetus-core/src/declared_write_set.rs:254-259 | the lease is gone and handed back |
| `WriterLeases.ScheduleIdsDiffer` | crates/impetus-core/src/agent_scheduler.rs:113-140 | padded sequence numbers give different ids |
| `WriterLeases.AgentScheduler.Schedule` | crates/impetus-core/src/agent_scheduler.rs:113-140 | a task is admitted and recorded, under an id never used before if and only if the counter has not run out, and every other record stays; a rejection changes nothing |
| `WriterLeases.AgentScheduler.ScheduleWithWriteLease` | crates/impetus-core/src/agent_scheduler.rs:146-161 | scheduling succeeds if and only if the lease is admissible and the scheduler admits; lease errors change nothing, a rejection releases the child's lease |
| `StreamCoalescer.ProjectedIsCount` | crates/impetus-core/src/runtime.rs:634-667 | the projected last chunk id of a run is the number of its chunks |
| `StreamCoalescer.ProjectedIsLargest` | crates/impetus-core/src/runtime.rs:634-667 | in any log the projected id is the largest among the chunks of the run |
| `StreamCoalescer.RecoverNextId` | crates/impetus-core/src/agent_loop.rs:311-325 | the id recovered from the log is one past the number of chunks |
| `StreamCoalescer.TruncatePreview` | crates/impetus-core/src/runtime.rs:78-89 | the backward search for a character boundary computes the longest cut within the bound, and the preview is that with an ellipsis |
| `StreamCoalescer.PreviewIsValid` | crates/impetus-core/src/runtime.rs:78-89 | the preview of valid text is valid: cutting it splits no character |
| `StreamCoalescer.BoundAgentChunkText` | crates/impetus-core/src/runtime.rs:92-105 | a body is spilled if and only if it is over the bound and could be stored, and then its artifact reads back the body; otherwise the event carries it whole |
| `StreamCoalescer.RecordAgentChunk` | crates/impetus-core/src/runtime.rs:634-667 | a chunk with an id already passed is not recorded again and stores nothing; otherwise it is logged as the event store decides, its body spilled exactly when it is over the bound and could be stored |
| `StreamCoalescer.FlushCoalescedChunk` | crates/impetus-core/src/agent_loop.rs:551-578 | a forced or large buffer is recorded as one chunk and emptied, any other is left alone; after a failure the chunks recorded are those before or that one more, and every spilled one reads back its body |
| `StreamCoalescer.OnEvent` | crates/impetus-core/src/agent_loop.rs:339-407 | one event adds its text to the buffer and flushes it at most once, exactly when the event or its size calls for it |
| `StreamCoalescer.AllBuffersSpell` | crates/impetus-core/src/agent_loop.rs:339-413 | the buffers a stream is cut into spell its text, none is empty, and there are at most one per full buffer plus one per forced flush |
| `StreamCuts.StreamIsCut` | crates/impetus-core/src/agent_loop.rs:339-413 | every stream is cut after each event at which its text since the last cut is due: at a tool call, its end or reasoning, or as soon as it has 512 bytes |
| `StreamCuts.CutsUnique` | crates/impetus-core/src/agent_loop.rs:339-413 | there is only one way to cut a stream so |
| `StreamCuts.PendingInTime` | crates/impetus-core/src/agent_loop.rs:551-566 | after any events less than 512 bytes are pending, and none after a tool call, the end or reasoning |
| `StreamCuts.FlushedInTime` | crates/impetus-core/src/agent_loop.rs:339-355 | a text delta flushes the buffer if and only if it brings it to 512 bytes, which it did not have before |
| `StreamCoalescer.StreamTurn` | crates/impetus-core/src/agent_loop.rs:339-413 | the callback loop records a prefix of those buffers, all of them if it succeeds, and it succeeds when every append does |
| `StreamCoalescer.TextsSpellExactly` | crates/impetus-core/src/runtime.rs:92-105 | the chunk texts alone are the bodies if and only if none was spilled, and shorter otherwise |
| `StreamCoalescer.BodiesReadBack` | crates/impetus-core/src/runtime.rs:92-105 | with the artifacts read back, the chunks are the bodies |
| `StreamCoalescer.SpilledExactlyLarge` | crates/impetus-core/src/runtime.rs:92-105 | with a store that works, none is spilled if and only if none is over the bound |
| `StreamCoalescer.CallModel` | crates/impetus-core/src/agent_loop.rs:311-413 | ids run on without a gap, no chunk is empty and there are at most one per full buffer plus one per forced flush; the texts of a successful call spell the stream if and only if none was spilled, with a working store if and only if no buffer is over the bound; with the artifacts read back the chunks spell the stream, and those of a failed call a prefix of it |
| `StreamCoalescer.LargeDeltaIsSpilled` | crates/impetus-core/src/agent_loop.rs:339-413 | one delta over the bound, everything working: the event does not say the text and the artifact it names does |
| `StreamCoalescer.CallModelRepeatedly` | crates/impetus-core/src/agent_loop.rs:220-287 | across turns and retries, with other events in between, the ids of a run stay 1, 2, ..., earlier chunks stay and so do their artifacts |
| `BoundedLine.ReadBoundedLine` | crates/impetus-client/src/unix.rs:236-272 | exactly the line at the front of the stream is taken off, and the outcome is a function of the stream and of whether the first fragment is over the bound |
| `BoundedLine.FragmentsShowOnlyInOneError` | crates/impetus-client/src/unix.rs:236-272 | fragmentation can show if and only if an oversized last line has no newline, and then only in the kind of error |
| `BoundedLine.OversizedLineIsDrained` | crates/impetus-client/src/unix.rs:236-272 | an oversized line is an error and the next line is intact |
| `DurableArtifacts.DurableArtifactStore.StoreWithContentType` | crates/impetus-core/src/durable_artifacts.rs:80-120 | a reference returned on a sound index reads back the bytes, content already indexed is kept, a failure leaves the rows and no other file changes; the index stays sound if and only if no failed lookup and failed write together spoil an indexed file |
| `DurableArtifacts.DurableArtifactStore.ReadRange` | crates/impetus-core/src/durable_artifacts.rs:123-128 | the range read is clipped to the file and empty past its end |
| `DurableArtifacts.DurableArtifactStore.Delete` | crates/impetus-core/src/durable_artifacts.rs:186-196 | no failure leaves a row without its file |
| `DurableArtifacts.DurableArtifactStore.GcOlderThan` | crates/impetus-core/src/durable_artifacts.rs:199-214 | exactly the expired rows and files whose removal worked are gone, and the index is sound if and only if no row outlived its file |
| `DurableArtifacts.CollectionCanOrphanARow` | crates/impetus-core/src/durable_artifacts.rs:199-214 | after a collection that removes a file but not its row, storing the same bytes succeeds and the reference returned cannot be read |
| `ArtifactUpload.ArtifactUploadStore.Begin` | crates/impetus-core/src/artifact_upload.rs:71-103 | an upload opens if and only if its declared size and the number of uploads allow it |
| `ArtifactUpload.ArtifactUploadStore.Append` | crates/impetus-core/src/artifact_upload.rs:117-158 | a chunk is added or turned away for the first reason that applies, and one turned away changes nothing |
| `ArtifactUpload.ArtifactUploadStore.Finish` | crates/impetus-core/src/artifact_upload.rs:160-185 | the upload is gone whatever happens; the outcome is an unknown id, a size mismatch, a store that cannot be opened or fails, or a reference, which on a sound index reads back exactly the bytes received; what was stored stays unless the store call was torn |
| `ArtifactUpload.ArtifactUploadStore.Abort` | crates/impetus-core/src/artifact_upload.rs:187-197 | the upload is gone, or was not there |
| `ArtifactUpload.Serve` | crates/impetus-core/src/artifact_upload.rs:71-197 | any requests keep the bounds on pending uploads and leave an upload they do not name alone, and all stored artifacts too unless a store call is torn |
| `ArtifactUpload.SendChunks` | crates/impetus-client/src/lib.rs:1217-1235 | undisturbed, every chunk is accepted and the pending buffer is the body; otherwise the upload is aborted |
| `ArtifactUpload.UploadArtifact` | crates/impetus-client/src/lib.rs:1195-1245 | interleaved with any requests on other uploads, the upload succeeds if and only if the body fits and a slot was free, given a working store; on a sound index that no store call tore, what it returns reads back the body, and nothing stays pending |
| `ChildGate.ChildConcurrencyGate.AdmitForParent` | crates/impetus-core/src/child_concurrency.rs:148-196 | the gate refuses for the reason that counting the registry gives, in the same order, and otherwise adds the run; both caps hold and every counter is the number of its parent's runs |
| `ChildGate.ChildConcurrencyGate.Release` | crates/impetus-core/src/child_concurrency.rs:208-224 | a run is removed if and only if it is active, and counters and caps stay right |
| `ChildGate.ChildConcurrencyGate.ActiveCountForParent` | crates/impetus-core/src/child_concurrency.rs:138-140 | the stored counter is the number of the parent's active runs |
| `ChildGate.TalliesAfterRemove` | crates/impetus-core/src/child_concurrency.rs:208-224 | the counter of a departing run is there and positive, so the subtraction never saturates, and dropping zero counters keeps the tallies exact |
| `ChildGate.RepresentationUnique` | crates/impetus-core/src/child_concurrency.rs:90-97 | the set of runs with their parents determines every field of the gate |
| `ChildGate.AdmitThenRelease` | crates/impetus-core/src/child_concurrency.rs:148-224 | releasing a run just admitted restores every field |
| `ChildGate.RunAll` | crates/impetus-core/src/child_concurrency.rs:148-224 | any sequence of operations does to the gate what it does to a plain registry |
| `ContextAssembly.Assemble` | crates/impetus-core/src/context_optimizer.rs:199-245 | partition, sorts and the two filling passes compute the hot items followed by one greedy selection, starting from the hot total in a machine word |
| `ContextAssembly.Fill` | crates/impetus-core/src/context_optimizer.rs:225-242 | a pass adds exactly the candidates the greedy choice keeps |
| `ContextAssembly.SortIsStable` | crates/impetus-core/src/context_optimizer.rs:221-223 | the sort orders by id and keeps items of the same id in their order |
| `ContextAssembly.IdExact` | crates/impetus-core/src/context_optimizer.rs:221-223 | ids are ordered lexicographically: one is a prefix of the other, or smaller at the first difference |
| `ContextAssembly.SortedUnique` | crates/impetus-core/src/context_optimizer.rs:221-223 | a sorted list is determined by its items of each id |
| `ContextAssembly.AssembledWithinBudget` | crates/impetus-core/src/context_optimizer.rs:199-245 | all hot items are there, the total is within the budget or that of the hot items alone, and nothing left out would still fit |
| `ContextAssembly.GreedyIsBest` | crates/impetus-core/src/context_optimizer.rs:225-242 | the choice made fits the budget, and of all choices that fit it is the only one to which none prefers an earlier candidate |
| `ContextAssembly.LargestBudgetKeepsAll` | crates/impetus-core/src/context_optimizer.rs:225-242 | at the largest budget the saturating sum keeps everything |
| `ContextAssembly.AssembledInOrder` | crates/impetus-core/src/context_optimizer.rs:194-245 | the result is ordered by tier and id, and cold items are references of cost one |
| `ContextAssembly.OrderMattersOnlyWithinAnId` | crates/impetus-core/src/context_optimizer.rs:194-245 | two inputs assemble alike under every budget if and only if within each tier the items of each id come in the same order |
| `ContextAssembly.PermutedInputSameResult` | crates/impetus-core/src/context_optimizer.rs:194-245 | with distinct ids in each tier the order of the input does not matter |

## Left out

- Transport, sessions, providers, credentials, importers, the command line and daemon wiring.
- Bodies of the policy engine, the risk gate, the redaction of one line and output reduction: they are arbitrary functions here.
- Locks, async scheduling and poisoned mutexes: calls on one object are taken one after the other.
- Diff summaries as text, `from_unified` and `from_git_diff`.
- Windows path prefixes, and a `.` component in the middle of a path, which Rust's component iterator drops as the model does.
- Completing and cancelling schedules, which are single map updates.
- Base64 between client and upload store, taken to be undone exactly; requests are taken to be delivered, so an upload abandoned by a lost connection stays pending, as in the code.
- The description cache of the context optimizer and `select_system_messages`, which only add easy members.
- Listing and metadata of artifacts.
- The refusal of a zero cap when a child gate is configured, and the approval gate of the seam that exists only in test builds.
- Reasoning summaries and final messages; a chunk recorded after its run ended, which the code turns away, counts as one whose append was lost.
- FencedExecution.RunUnderFence: the closure is represented by the result it returns, and refusals by their kind rather than their text.
- Redaction where a window ends inside a line: the two parts are rewritten each by itself, and rewriting one line is an arbitrary function here.
