# mod_dup and mod_compare: a model in Dafny

mod_dup duplicates Apache requests to other destinations; mod_compare receives the duplicates and
compares answers. This project models the parts of the two that carry the hardest arguments, and
proves what they promise:

- **The diff engine** (`Subsequences`, `EditPaths`, `EditGraph`, `EditScript`, `Ses`, `PathLog`,
  `Recording`, `Passes`, `DiffEngine`, `Hunks`, `HunkSpacing`, `HunkStarts`, `HunkGroups`,
  `Patches`, `HunkWalk`, `CursorBounds`, `HunkPatching`, `ShortLog`, `RestartedNumbers`, `Merge3`,
  `Diff3`):
  the O(NP) comparison over the furthest-point array `fp`, its back pointers and its growing log of
  coordinates; the recording of the path as an edit script, with and without deletions first; the
  cut at the log's size limit, continued by listing the rest or by starting over; grouping into
  unified hunks; patching; three-way merge. The first three modules know nothing of the program:
  they define longest common subsequences and paths in the edit graph, and the rounds are proved
  against these.
- **The worker pool** (`MultiThreadQueue`, `PoolSystem`, `ThreadPool`): `PoolSystem` is a transition
  system of producers, workers and manager; the classes are proved to be runs of it.
- **The UTF-8 library** (`Utf8Core`, `Utf8Text`, `Utf8Checked`, `Utf16`, `Utf8Unchecked`): decoding
  against the grammar in section 4 of RFC 3629, surrogate pairs against RFC 2781, on bit vectors of
  the source's widths.
- **The wire formats and the filters** (`Bytes`, `Options`, `Regexes`, `UrlEscape`, `UrlCodec`,
  `UrlPieces`, `QueryArgs`, `DupFormat`, `Scopes`, `Filters`, `FilterLaws`, `RequestProcessor`,
  `StringCompare`):
  percent-encoding with the in-place decoder, query rewriting, the length-prefixed message, the
  decision which destinations get a request, and the text comparers on top of the diff engine.

Check everything with `dafny verify dfyconfig.toml`.

## How the model relates to the code

Classes have the source's fields and their methods the source's loops and branches; a method's
contract ties the new state to a function of the old one, and the lemmas are about these functions.
Ghost fields (`calls`, `edits`, `left`, `right`, `offered`, `delivered`, `ledger`) only record
history. The size limit of the coordinate log, 2000000 in the source, is a parameter of at least 2.
Regular expressions are uninterpreted functions passed as parameters. An exception is an error
result; text is a sequence of bytes, and a C string ends at its first NUL.

Where the code differs from what a reader would expect, the model follows the code:

- `next` throws `invalid_code_point` with the value 0, because the failed check does not hand the
  decoded value out (`ThrownFor`); a surrogate written in four octets counts as an invalid code
  point, not as overlong (`NoCodePoint`).
- In trivial mode the additions listed at the end carry their line number as `beforeIdx`
  (`NumberedAfter` allows both forms); `common[1]` of a hunk is always empty.
- An escaped ampersand in a query value is decoded by `parseArgs` but not escaped again by
  `keySubstitute`, so that one substitution on any key can split another key's value;
  `SubstitutionSurvivesParsing` says exactly when the list survives, `EscapedAmpersandIsLost` gives
  an input where it does not.
- A comparison that starts over numbers its entries from 1 again, so that `uniPatch` may look for
  hunks in the wrong place. `PatchByHunks` shows that the cursor stays inside the list all the same,
  `CursorIsRight` says exactly when it finds the hunks, and `PatchAfterRestart` gives two texts, for
  a log limit of 2 in place of 2000000, where it does not and the patched text is wrong.
- Encoding stops at a NUL, and a section of 10^8 bytes or more gets a length of nine digits, of
  which the reader takes eight; the laws state these limits as exact conditions for codecs and bodies.

## Model

| member | source | states |
|---|---|---|
| Subsequences.LcsIsUpperBound | extern/dtl-cpp/dtl/Diff.hpp:253-257 | no common subsequence of two sequences is longer than `LcsLength` |
| Subsequences.LcsIsAttained | extern/dtl-cpp/dtl/Diff.hpp:253-257 | some common subsequence has exactly that length |
| EditPaths.EndReach | extern/dtl-cpp/dtl/Diff.hpp:253-257 | the end of the edit graph is reached with h horizontal steps only if h is at least the length less the longest common subsequence, and it is reached with exactly that many |
| EditGraph.RoundDominates | extern/dtl-cpp/dtl/Diff.hpp:270-279 | after round p no point of the graph that is due by then lies beyond the stored point of its diagonal |
| EditGraph.RoundKeepsFrontier | extern/dtl-cpp/dtl/Diff.hpp:270-279 | one round keeps the invariant: every stored point is a real point inside the grid, neighbours are in step, diagonal delta is at least delta + p, and no stored point can be beaten |
| EditGraph.FrontierIsExact | extern/dtl-cpp/dtl/Diff.hpp:264-279 | diagonal delta never passes N; it equals N exactly in the round numbered M less the longest common subsequence, so the exit test `!= N` is exact and p stays below M otherwise |
| EditScript.NoChanges | extern/dtl-cpp/dtl/Ses.hpp:62-80 | a script without additions and deletions starts from what it produces, and only such a script has no change |
| EditScript.ReorderByInsertion | extern/dtl-cpp/dtl/Ses.hpp:83-117 | inserting a deletion at the remembered index is the same as reordering each block of changes with deletions first |
| EditScript.ReorderPermutes | extern/dtl-cpp/dtl/Ses.hpp:92-116 | the reordered script holds the same entries |
| EditScript.ReorderMeansTheSame | extern/dtl-cpp/dtl/Ses.hpp:92-116 | reordering changes neither source nor target nor kept elements nor number of changes |
| EditScript.ReorderKeepsNumbers | extern/dtl-cpp/dtl/Ses.hpp:92-116 | entries numbered by their position still are after reordering |
| Ses.Ses.constructor | extern/dtl-cpp/dtl/Ses.hpp:54-59 | a new script is empty, and its flags and index say so |
| Ses.Ses.AddSequence | extern/dtl-cpp/dtl/Ses.hpp:83-117 | the entry is added in arrival order; the stored order, the three flags and the insertion index stay what the arrivals make them, with and without deletesFirst |
| Ses.StoredMeaning | extern/dtl-cpp/dtl/Ses.hpp:83-121 | stored script and arrivals have the same source, target, kept elements, number of changes and entries |
| DiffEngine.Diff.constructor | extern/dtl-cpp/dtl/Diff.hpp:76-96 | the shorter sequence ends up in A, and everything is blank |
| DiffEngine.Diff.Init | extern/dtl-cpp/dtl/Diff.hpp:535-552 | swaps the sequences unless the first is the shorter one, and sets up the dimensions |
| DiffEngine.Diff.Snake | extern/dtl-cpp/dtl/Diff.hpp:557-572 | returns the furthest point on the diagonal from the better neighbour; logs it with that neighbour's log index and touches nothing else |
| DiffEngine.Diff.RunRound | extern/dtl-cpp/dtl/Diff.hpp:270-278 | a round relates the old and the new array as the round relation says, threads every diagonal to the log, logs delta + 2p + 1 points, with every index in bounds |
| DiffEngine.Diff.CompleteRound | extern/dtl-cpp/dtl/Diff.hpp:270-279 | a round keeps the furthest-point and log invariants; it reaches N only if it is the optimal one, and otherwise more rounds are needed |
| DiffEngine.Diff.Search | extern/dtl-cpp/dtl/Diff.hpp:264-279 | the loop ends, with p at most M; it reaches N exactly if only the distance is wanted, or nothing need be deleted, or the log has room for every round but the last; p is then M less the longest common subsequence |
| DiffEngine.Diff.Trace | extern/dtl-cpp/dtl/Diff.hpp:282-297 | following the back pointers gives a path from the origin, each leg one edit and then matches, with as many legs as the log entry has edits, and no other path |
| PathLog.SnakeExtendsLog | extern/dtl-cpp/dtl/Diff.hpp:557-572 | a logged snake keeps every log entry one edit away from the entry it points to |
| PathLog.RiseStep | extern/dtl-cpp/dtl/Diff.hpp:272-274 | one snake of the ascending pass keeps the pass's invariant: the furthest points, and a log in which every diagonal of round p has its edits, two for each horizontal step and one for each diagonal away |
| PathLog.FallStep | extern/dtl-cpp/dtl/Diff.hpp:275-277 | the same for the descending pass |
| PathLog.EndStep | extern/dtl-cpp/dtl/Diff.hpp:278-278 | the snake on diagonal delta completes the round, and is filed with delta + 2p edits |
| PathLog.LogDecides | extern/dtl-cpp/dtl/Diff.hpp:279-279 | stopping at the end or at a full log, the rounds have reached the end exactly if the log had room for all of them but the last |
| DiffEngine.Diff.RecordPath | extern/dtl-cpp/dtl/Diff.hpp:577-622 | the entries recorded along a traced path make the traversed parts of both sequences, numbered from 1, with one change for every leg; kept elements go to the common subsequence |
| Passes.ScriptIsPathThenRest | extern/dtl-cpp/dtl/Diff.hpp:577-669 | additions recorded along a path carry their line number as the second one; only entries listed in trivial mode carry it as the first |
| DiffEngine.Diff.RecordOddSequence | extern/dtl-cpp/dtl/Diff.hpp:660-669 | lists the rest of a sequence as additions or deletions and counts each; the last, unguarded step is in bounds because at least one element is left |
| DiffEngine.Diff.RecordRest | extern/dtl-cpp/dtl/Diff.hpp:627-637 | in trivial mode both remainders are listed, whichever way the inputs were swapped |
| DiffEngine.Diff.KeepRemainders | extern/dtl-cpp/dtl/Diff.hpp:639-652 | sets up blank tables for the two remainders |
| DiffEngine.Diff.RecordSequence | extern/dtl-cpp/dtl/Diff.hpp:577-655 | ends the comparison exactly if the path reaches the end or trivial mode is on; otherwise leaves blank tables for the two remainders, which follow the recorded part |
| DiffEngine.Diff.FindPath | extern/dtl-cpp/dtl/Diff.hpp:264-297 | the traced path has delta + 2p edits, ends on diagonal delta past the origin, and is complete exactly if the log was large enough |
| DiffEngine.Diff.Settle | extern/dtl-cpp/dtl/Diff.hpp:299-305 | records the path and either concludes or leaves strictly shorter remainders; recorded part and remainders make up the inputs |
| DiffEngine.Diff.Pass | extern/dtl-cpp/dtl/Diff.hpp:264-306 | one pass concludes with the optimal distance if the log suffices, and otherwise concludes in trivial mode or leaves strictly shorter remainders |
| DiffEngine.Diff.RunPasses | extern/dtl-cpp/dtl/Diff.hpp:264-306 | the passes end and conclude the comparison |
| DiffEngine.Diff.Compose | extern/dtl-cpp/dtl/Diff.hpp:258-307 | for every pair of inputs and every limit of at least 2 it ends; the script leads from the first input to the second, its changes are the edit distance and its kept elements the common subsequence, full, cut or restarted, swapped or not; the distance is never below the optimum, and both distance and common subsequence are optimal whenever the log suffices; the recorded script is `ScriptOf` the inputs, in parts that are each numbered from 1 |
| DiffEngine.FitsAsLogSize | extern/dtl-cpp/dtl/Diff.hpp:270-279 | the log suffices exactly if deletions times additions of a shortest script stay below the limit, whichever sequence comes first |
| DiffEngine.KeptIsLongest | extern/dtl-cpp/dtl/Diff.hpp:253-257 | the kept elements of a script with the optimal number of changes are a longest common subsequence |
| DiffEngine.ShortestScript | extern/dtl-cpp/dtl/Diff.hpp:253-257 | no script between the same sequences has fewer changes |
| DiffEngine.EqualFits | extern/dtl-cpp/dtl/Diff.hpp:264-281 | equal sequences always fit and are at distance 0 |
| DiffEngine.Diff.Patch | extern/dtl-cpp/dtl/Diff.hpp:229-251 | patching the first input with the script gives the second; on any list long enough, what the entries say |
| DiffEngine.Diff.ComposeUnifiedHunks | extern/dtl-cpp/dtl/Diff.hpp:371-501 | appends `HunksOf` the script: they group all of it, are cut where the source cuts them, and have the line numbers that follow from its kept entries |
| DiffEngine.Diff.UniPatch | extern/dtl-cpp/dtl/Diff.hpp:180-224 | for any hunks that keep the cursor inside the list: the list is what the walk makes of it, and each line number a is moved on by the earlier counts; with the hunks of a script, numbered or otherwise found by the cursor, any list that is long enough changes as the script says, so the first input becomes the second, and a becomes c |
| Recording.RestartRecorded | extern/dtl-cpp/dtl/Diff.hpp:639-652 | a recording cut on diagonal delta leaves remainders that complete it |
| Recording.KeptIsCommon | extern/dtl-cpp/dtl/Diff.hpp:606-611 | kept elements are a common subsequence of source and target, and changes are what is left of both |
| HunkGroups.GroupHunks | extern/dtl-cpp/dtl/Diff.hpp:371-501 | every hunk has a change, at most three entries of leading context and right counts; hunks and the context between and after them are the whole script; numbered scripts give right line numbers; a hunk starts at a change, holds no five kept entries in a row, and is cut after three kept entries that at least two more follow; for any script whose kept entries have numbers, however they run, a hunk's a and c are those of the first kept entry before it plus the length of the gap, or 1 |
| HunkGroups.TakeEntry | extern/dtl-cpp/dtl/Diff.hpp:389-453 | one entry keeps the builder's variables in step with the entries read so far; the counter and the sign that a hunk may end are exactly those of the source |
| HunkGroups.CountCommon | extern/dtl-cpp/dtl/Diff.hpp:456-462 | counts the kept entries among the next three, so it gives three exactly if they are there and all kept |
| HunkSpacing.SpacingStep | extern/dtl-cpp/dtl/Diff.hpp:438-467 | one turn of the loop: with the counter at three the hunk is cut if two more kept entries follow, and otherwise goes on with the counter at zero |
| HunkSpacing.TightMeansNoFive | extern/dtl-cpp/dtl/Diff.hpp:443-467 | no run above four is the same as no five kept entries in a row |
| HunkSpacing.SpacedAt | extern/dtl-cpp/dtl/Diff.hpp:455-467 | a hunk after the first comes after one that ends in three kept entries, with two or more between |
| HunkGroups.GroupingPermutes | extern/dtl-cpp/dtl/Diff.hpp:371-501 | hunks and gaps contain every entry of the script exactly once |
| HunkGroups.NoHunksIffNoChanges | extern/dtl-cpp/dtl/Diff.hpp:371-501 | there is no hunk exactly when the script changes nothing |
| HunkGroups.HunkNumbers | extern/dtl-cpp/dtl/Diff.hpp:455-490 | c - a is the sum of the earlier counts, d - b the hunk's own count, and hunks are disjoint and in order on both sides |
| HunkGroups.LayoutLengths | extern/dtl-cpp/dtl/Diff.hpp:455-490 | the hunks make the target longer than the source by the sum of their counts |
| Patches.PatchScript | extern/dtl-cpp/dtl/Diff.hpp:229-251 | editing the list entry by entry gives the replayed script; on the script's own source, its target |
| HunkWalk.PatchHunks | extern/dtl-cpp/dtl/Diff.hpp:180-224 | editing the list hunk by hunk is the walk, for any hunks and any list that the cursor does not leave |
| HunkWalk.CursorIsRight | extern/dtl-cpp/dtl/Diff.hpp:191-198 | the cursor finds the start of every hunk exactly if each line number a lies as far beyond the end of the hunk before it, 0 if it lies before it, as there are kept entries between |
| HunkWalk.PlacedMovesOn | extern/dtl-cpp/dtl/Diff.hpp:191-198 | the hunks of a numbered script are found, and each a becomes its c |
| HunkWalk.ReachedPatches | extern/dtl-cpp/dtl/Diff.hpp:180-224 | walking the hunks of a script that are found does to any list what the script does |
| CursorBounds.PassesClimb | extern/dtl-cpp/dtl/Diff.hpp:577-652 | in a script of several passes, each numbered from 1, the line number of a kept entry may fall back but never runs ahead of the lines before it |
| CursorBounds.WalkStaysInside | extern/dtl-cpp/dtl/Diff.hpp:180-224 | the hunks of any such script never lead the cursor off a list that is long enough |
| HunkPatching.PatchByHunks | extern/dtl-cpp/dtl/Diff.hpp:180-501 | comparing, grouping and patching together, on all inputs and in all modes: the cursor stays inside the list, and the first input becomes the second unless the comparison starts over |
| HunkStarts.HunksStart | extern/dtl-cpp/dtl/Diff.hpp:407-482 | the line numbers of the hunks, for every script whose kept entries have some |
| ShortLog.ShortPass | extern/dtl-cpp/dtl/Diff.hpp:258-307 | with a log of two points, a pass over sequences that differ at once records one deletion, one addition and the matches that follow, and starts over from there |
| RestartedNumbers.ScriptIsComposed | extern/dtl-cpp/dtl/Diff.hpp:258-307 | the script that three such passes record for `pitttttttr` and `qjttttttts` |
| RestartedNumbers.RestartMisleadsTheCursor | extern/dtl-cpp/dtl/Diff.hpp:180-501 | a concrete failure: that script has three passes, each numbered from 1; its hunks, as composeUnifiedHunks builds them, hold all of it, but the second one is found a line too early |
| RestartedNumbers.PatchAfterRestart | extern/dtl-cpp/dtl/Diff.hpp:180-501 | so comparing, grouping and patching `pitttttttr` gives `qjttttttsr`, not `qjttttttts` |
| Patches.ReplaySource | extern/dtl-cpp/dtl/Diff.hpp:229-251 | replayed on what it starts from, a script gives its target |
| Patches.GroupingPatches | extern/dtl-cpp/dtl/Diff.hpp:180-224 | replaying the hunks alone on any list does what the script does, and on its source gives its target |
| Patches.ReplayReordered | extern/dtl-cpp/dtl/Ses.hpp:92-116 | the reordered script does to every list what the script does |
| Merge3.MergeScripts | extern/dtl-cpp/dtl/Diff3.hpp:117-203 | ends; conflicts exactly if at some base position the additions of the two scripts disagree, or one adds more while the other deletes the element that follows; otherwise the result has, at every position, the longer additions and the base element unless one script deletes it |
| Merge3.AddDecentSequence | extern/dtl-cpp/dtl/Diff3.hpp:235-240 | appends the additions that are left, and the merge is then complete |
| Merge3.SlotsMakeTarget | extern/dtl-cpp/dtl/Diff3.hpp:117-203 | the same reading of a single script, position by position, gives its target |
| Merge3.MergeWithUnchanged | extern/dtl-cpp/dtl/Diff3.hpp:83-103 | if one side changes nothing the merge is the other side, without conflict |
| Merge3.MergeOfSameChange | extern/dtl-cpp/dtl/Diff3.hpp:117-203 | if both sides made the same change the merge is that change |
| Diff3.Diff3.constructor | extern/dtl-cpp/dtl/Diff3.hpp:64-68 | sets up two comparisons that start from the base and share nothing |
| Diff3.Diff3.Compose | extern/dtl-cpp/dtl/Diff3.hpp:108-111 | both scripts lead from the base to the two sides |
| Diff3.Diff3.Merge | extern/dtl-cpp/dtl/Diff3.hpp:83-103 | the shortcuts for unchanged sides give the same answer as merging the scripts; on conflict the result is the base; flag and result are `MergeOf` the three sequences; a side equal to the base, or two equal sides, give the other side without conflict |
| Diff3.MergeOfExchanged | extern/dtl-cpp/dtl/Diff3.hpp:83-203 | merging c and a over b gives what merging a and c over b gives, flag and result |
| Diff3.ExchangedSides | extern/dtl-cpp/dtl/Diff3.hpp:83-203 | two merge objects over one base with their sides exchanged agree in flag and result |
| MultiThreadQueue.MultiThreadQueue.Push | src/MultiThreadQueue.cc:25-37 | a full queue refuses and counts the item, otherwise it goes to the back |
| MultiThreadQueue.MultiThreadQueue.PushFront | src/MultiThreadQueue.cc:39-50 | the item goes to the front; a full queue evicts its last item and counts it |
| MultiThreadQueue.MultiThreadQueue.Pop | src/MultiThreadQueue.cc:52-62 | gives the first item and counts it |
| MultiThreadQueue.MultiThreadQueue.SetDropSize | src/MultiThreadQueue.cc:68-70 | changes the limit only |
| MultiThreadQueue.MultiThreadQueue.GetCounters | src/MultiThreadQueue.cc:72-77 | gives the three counters and resets them |
| PoolSystem.StepKeepsInv | src/ThreadPool.cc:45-119 | every step of producers, workers and manager keeps the invariant on queue, counters and pills |
| PoolSystem.RunKeepsInv | src/ThreadPool.cc:45-119 | every run keeps it, whatever the interleaving |
| PoolSystem.WorkersStayAlive | src/ThreadPool.cc:80-91 | while the manager makes its rounds, mBeingKilled counts the pills queued, taken and not yet collected, never underflows, threads stay within the maximum, and live workers never fall below the minimum |
| PoolSystem.RoundEvictsNoPill | src/ThreadPool.cc:86-91 | a pill sent during a round never evicts a pill |
| PoolSystem.JobsKeepTheirOrder | src/MultiThreadQueue.cc:25-77 | pills come before jobs; jobs taken and waiting are a duplicate-free subsequence of the pushes in order; the counters explain the size of the queue |
| PoolSystem.SizeStaysBounded | src/MultiThreadQueue.cc:25-50 | a positive limit once respected is respected for good |
| PoolSystem.EveryWorkerHasAPill | src/ThreadPool.cc:114-118 | after the final poisoning there is a pill for every live worker, and it is next in line |
| PoolSystem.PopsEndWorkers | src/ThreadPool.cc:114-118 | from then on every pop ends a worker and no job is taken |
| PoolSystem.NobodyLeftWaiting | src/ThreadPool.cc:114-118 | whatever producers and workers did meanwhile, no live worker faces a queue without pills |
| PoolSystem.OverloadFillsThePool | src/ThreadPool.cc:80-91 | under steady overload, whatever producers and workers do meanwhile, every round adds a worker until those not condemned reach the maximum less the ones still being collected |
| PoolSystem.OverloadReachesTheMaximum | src/ThreadPool.cc:80-91 | without condemned workers the number of threads is exactly what it was plus one for each round, up to the maximum |
| PoolSystem.UnderloadReachesTheMinimum | src/ThreadPool.cc:80-91 | under steady underload every round condemns one worker until exactly the minimum is left uncondemned |
| ThreadPool.ThreadPool.constructor | src/ThreadPool.cc:27-38 | a new pool is an initial state of the system |
| ThreadPool.ThreadPool.NewThread | src/ThreadPool.cc:45-48 | adds a worker to the list |
| ThreadPool.RemainingCount | src/ThreadPool.cc:57-73 | taking the exited workers off the list takes off nobody else |
| ThreadPool.ThreadPool.PoisonThread | src/ThreadPool.cc:50-55 | puts a pill in front and counts it |
| ThreadPool.ThreadPool.CollectKilled | src/ThreadPool.cc:57-73 | takes every exited worker off the list, counts each, keeps the order of the others; a run of collect steps |
| ThreadPool.ThreadPool.Start | src/ThreadPool.cc:148-159 | sets the limit and adds the minimum of working threads; a run of the system |
| ThreadPool.ThreadPool.ManageOnce | src/ThreadPool.cc:80-91 | one round is a run of the system, and leaves: the exited workers gone, and then one worker more if the sampled queue was longer than the maximum for each thread and the pool is not full, or else one pill in front if it was shorter than the minimum and more than the minimum are uncondemned, or else nothing |
| ThreadPool.ThreadPool.PoisonAll | src/ThreadPool.cc:114-117 | the final loop puts one pill in front for each thread; a run of the system |
| ThreadPool.ThreadPool.ShutDown | src/ThreadPool.cc:114-118 | one pill for each thread and then the exited workers gone; a run of the system that ends it |
| Utf8Core.Exact2 | extern/utf8/source/utf8/core.h:163-176 | for two octets the arithmetic gives the scalar value, and the range and overlong checks accept exactly the octets of the grammar in section 4 of RFC 3629 |
| Utf8Core.Exact3 | extern/utf8/source/utf8/core.h:178-195 | the same for three octets, surrogates refused |
| Utf8Core.Exact4 | extern/utf8/source/utf8/core.h:197-218 | the same for four octets, values past 0x10ffff refused |
| Utf8Core.DiagnosisIsExact | extern/utf8/source/utf8/core.h:98-132 | the checks find nothing exactly when some prefix is a character of the grammar, which is then as long as its first octet says |
| Utf8Core.IncreaseSafely | extern/utf8/source/utf8/core.h:137-147 | steps on and says whether the end or a wrong octet was met |
| Utf8Core.LengthByRange | extern/utf8/source/utf8/core.h:98-115 | sequence lengths and trails by ranges of the octet |
| Utf8Core.GetSequence2 | extern/utf8/source/utf8/core.h:163-176 | reads two octets, or stops at the first place that is the end or holds no trail |
| Utf8Core.GetSequence3 | extern/utf8/source/utf8/core.h:178-195 | reads three octets, or stops at the first place that is the end or holds no trail |
| Utf8Core.GetSequence4 | extern/utf8/source/utf8/core.h:197-218 | reads four octets, or stops at the first place that is the end or holds no trail |
| Utf8Core.ValidateNext | extern/utf8/source/utf8/core.h:222-272 | succeeds exactly if the octets start with a character of the grammar, then gives its value and the place after it; otherwise gives the reason and leaves place and value alone |
| Utf8Text.EncodeIsChar | extern/utf8/source/utf8/checked.h:78-95 | the octets written for a valid code point are a character of the grammar with that value |
| Utf8Text.EncodeOfScalar | extern/utf8/source/utf8/checked.h:72-96 | writing the value of a character gives back its octets |
| Utf8Text.CharsAreValid | extern/utf8/source/utf8/core.h:299-303 | every string of characters is valid |
| Utf8Text.ValidIsChars | extern/utf8/source/utf8/core.h:299-303 | every valid string is a string of characters |
| Utf8Text.DecodeOfEncode | extern/utf8/source/utf8/checked.h:72-154 | decoding undoes encoding, for every list of valid code points |
| Utf8Text.EncodeOfDecode | extern/utf8/source/utf8/checked.h:72-154 | encoding undoes decoding, for every valid string |
| Utf8Checked.Append | extern/utf8/source/utf8/checked.h:72-96 | appends the encoding, or throws for a code point that is not valid |
| Utf8Checked.Next | extern/utf8/source/utf8/checked.h:136-154 | succeeds exactly at a character and steps over it; otherwise stays and throws: not enough room if only trails and too few of them follow, an invalid code point for surrogates and values past 0x10ffff, and else invalid UTF-8 |
| Utf8Checked.ThrownByOctets | extern/utf8/source/utf8/checked.h:136-154 | which exception it is, octet by octet |
| Utf8Checked.Prior | extern/utf8/source/utf8/checked.h:162-175 | goes back to the nearest octet that starts a character and reads it, with each way to fail |
| Utf8Checked.NextThenPrior | extern/utf8/source/utf8/checked.h:136-175 | stepping back undoes stepping on and reads the same value |
| Utf8Checked.FindInvalid | extern/utf8/source/utf8/core.h:287-297 | everything before the place is valid, nothing at it starts a character; the end is given exactly for valid strings |
| Utf8Checked.ReplaceInvalid | extern/utf8/source/utf8/checked.h:98-127 | ends, with the exception of the first step that throws, or with the input part by part after what was there: characters as they are, and one mark for each other part, which is a lone octet that starts no sequence, or the first octet of a sequence that is no character with all the trails after it |
| Utf8Checked.SplitIsUnique | extern/utf8/source/utf8/checked.h:98-127 | a string splits into such parts in one way at most |
| Utf8Checked.RepairedIffParts | extern/utf8/source/utf8/checked.h:98-127 | with a valid mark, a string that splits into such parts is repaired to what is written for them |
| Utf8Checked.ReplaceInvalidByMarker | extern/utf8/source/utf8/checked.h:129-134 | with the replacement character as mark: valid output, at most three times as long, and an exception exactly if the input ends truncated |
| Utf8Checked.RepairedIsValid | extern/utf8/source/utf8/checked.h:98-134 | a repaired string is valid and at most three times as long for marks up to 0xffff, four times for any |
| Utf8Checked.ValidStays | extern/utf8/source/utf8/checked.h:98-127 | a valid string is left as it is |
| Utf8Checked.RepairIsIdempotent | extern/utf8/source/utf8/checked.h:98-127 | repairing twice is repairing once |
| Utf8Checked.RepairFailsIffTruncated | extern/utf8/source/utf8/checked.h:109-110 | with a valid mark the repair throws exactly if a truncated character reaches the end of input |
| Utf16.Offsets | extern/utf8/source/utf8/core.h:48-53 | the two surrogate offsets, the second modulo 2^32 |
| Utf16.SplitIsRfc | extern/utf8/source/utf8/checked.h:238-241 | the halves of a code point are those of section 2.1 of RFC 2781 |
| Utf16.JoinIsRfc | extern/utf8/source/utf8/checked.h:212-216 | the value of a pair is that of section 2.2 of RFC 2781 |
| Utf16.SplitPair | extern/utf8/source/utf8/checked.h:238-241 | the two words of a code point beyond 0xffff are a surrogate pair that joins to it |
| Utf16.JoinPair | extern/utf8/source/utf8/checked.h:212-216 | the value of a surrogate pair is a valid code point that splits into the pair |
| Utf16.To8IsEncoding | extern/utf8/source/utf8/checked.h:206-231 | the conversion to UTF-8 succeeds exactly on well-formed words and gives the encoding of their code points |
| Utf16.Utf16To8 | extern/utf8/source/utf8/checked.h:206-231 | appends that, or throws the first word out of place |
| Utf16.To8Throws | extern/utf8/source/utf8/checked.h:206-231 | the word thrown comes after well-formed words: a trail without a lead, a lead at the end, or what follows a lead and is no trail |
| Utf16.WellFormedByNeighbours | extern/utf8/source/utf8/checked.h:206-231 | well-formed words are those where exactly the words after a lead are trails and no lead is last |
| Utf16.To16IsDecoding | extern/utf8/source/utf8/checked.h:233-246 | the conversion to UTF-16 succeeds exactly on valid strings and gives the words of their code points |
| Utf16.Utf8To16 | extern/utf8/source/utf8/checked.h:233-246 | appends that, or throws as stepping on does |
| Utf16.RoundTrip8 | extern/utf8/source/utf8/checked.h:206-246 | valid UTF-8 survives the way to UTF-16 and back |
| Utf16.RoundTrip16 | extern/utf8/source/utf8/checked.h:206-246 | well-formed UTF-16 survives the way to UTF-8 and back |
| Utf8Unchecked.Append | extern/utf8/source/utf8/unchecked.h:37-58 | appends the same octets as the checked form |
| Utf8Unchecked.Next | extern/utf8/source/utf8/unchecked.h:60-89 | steps on by the length that the first octet names, with the raw value |
| Utf8Unchecked.RawValueOfChar | extern/utf8/source/utf8/unchecked.h:60-89 | at a character the raw value is its scalar value, so it agrees with the checked form |
| Utf8Unchecked.Prior | extern/utf8/source/utf8/unchecked.h:97-103 | from the end of a character it goes back to its start and gives its value |
| Utf8Unchecked.Utf16To8 | extern/utf8/source/utf8/unchecked.h:129-142 | on well-formed words it gives what the checked form gives |
| Utf8Unchecked.Utf8To16 | extern/utf8/source/utf8/unchecked.h:144-157 | on valid strings it gives what the checked form gives |
| UrlEscape.X2CUndoesC2X | testing/unit/ApacheCopyPaste.cc:67-100 | reading two hexadecimal digits undoes writing them, for every byte |
| UrlEscape.StrChr | testing/unit/ApacheCopyPaste.cc:118-123 | the first place of a byte in a C string, if any |
| UrlEscape.UnescapeUrl | testing/unit/ApacheCopyPaste.cc:111-169 | the two cursors over one buffer leave what the functional decoder gives, cut at its first NUL; the write position never passes the read position; bad escapes win over forbidden bytes in the verdict |
| UrlEscape.EscapePathSegment | testing/unit/ApacheCopyPaste.cc:175-193 | the buffer of three bytes for each suffices and holds the escaped string |
| UrlEscape.UnescapeOfEscape | testing/unit/ApacheCopyPaste.cc:111-193 | unescaping undoes escaping (section 2.1 of RFC 3986), and reports a forbidden byte exactly if there was a slash |
| UrlEscape.EscapeOfUnescape | testing/unit/ApacheCopyPaste.cc:111-193 | escaping undoes unescaping exactly on strings whose escapes are all needed, in lower case, and complete |
| UrlEscape.EscapeLength | testing/unit/ApacheCopyPaste.cc:175-193 | an escaped string is at most three times as long and holds no byte that needs escaping but the percent sign |
| UrlPieces.DigitsByTable | testing/unit/ApacheCopyPaste.cc:84-88 | hexadecimal digits by two tables: both cases read alike |
| UrlPieces.SafeByTable | testing/unit/ApacheCopyPaste.cc:46-64 | the bytes that are escaped: all but the unreserved and sub-delimiter characters, colon and at-sign of section 3.3 of RFC 3986, the semicolon excepted, and NUL |
| UrlPieces.UnescapeByPieces | testing/unit/ApacheCopyPaste.cc:111-169 | what unescaping gives and its verdict, piece by piece: escapes in either case, a percent sign without two digits is bad, an escaped NUL or slash is forbidden |
| UrlPieces.PiecesOf | testing/unit/ApacheCopyPaste.cc:111-169 | every text consists of such pieces |
| UrlPieces.EitherCaseReads | testing/unit/ApacheCopyPaste.cc:111-193 | escapes of the bytes of a text in either case read as the text, with the same verdict |
| UrlCodec.StrNCpy | src/UrlCodec.cc:39-40 | the buffer holds the C string of the input, ended by a NUL |
| UrlCodec.Decode | src/UrlCodec.cc:38-83 | both decoders: the buffer, unescaped in place, read up to its first NUL |
| UrlCodec.Encode | src/UrlCodec.cc:56-96 | both encoders |
| UrlCodec.DecodeOfEncode | src/UrlCodec.cc:37-97 | decoding undoes encoding for both codecs up to the first NUL, hence exactly on the strings without one |
| UrlCodec.EncodedShape | src/UrlCodec.cc:56-96 | an encoding is at most three times as long, free of NULs and, with the default codec, of plus signs; it holds an ampersand exactly if the text does |
| UrlPieces.EncodeByPieces | src/UrlCodec.cc:56-96 | every byte is written as itself or as an escape in lower case; the default codec escapes plus signs too |
| UrlPieces.DecodeByPieces | src/UrlCodec.cc:37-83 | what decoding gives, piece by piece: the default codec reads a plus sign as a space, the other one as itself |
| UrlPieces.DecodeStops | src/UrlCodec.cc:39-40 | decoding stops at a NUL |
| QueryArgs.ParseArgs | src/RequestProcessor.cc:188-204 | appends the parsed keys and values of a query string, token by token |
| QueryArgs.TokensOfPieces | src/RequestProcessor.cc:189-191 | pieces between ampersands are found, empty ones skipped |
| QueryArgs.UpperByTable | src/RequestProcessor.cc:194-199 | upper case by the place in the alphabet |
| QueryArgs.ApplyAll | src/RequestProcessor.cc:402-414 | the result is the end of a chain of values, each one replaced by a substitution in scope, in order; says whether there was one |
| QueryArgs.KeySubstitute | src/RequestProcessor.cc:386-426 | rewrites the string exactly if some substitution of a present key is in scope, from values that have each gone through the chain of their key |
| QueryArgs.AppliedByChain | src/RequestProcessor.cc:402-414 | there is exactly one such chain, and its end is the result |
| QueryArgs.SubstitutedByChains | src/RequestProcessor.cc:386-426 | keys stay, values without substitutions stay, the others are the ends of their chains |
| QueryArgs.ParseOfJoined | src/RequestProcessor.cc:188-204 | for every list of keys as the parser leaves them: parsing the rewritten string gives back the list, less the pairs without key and value, exactly if no value holds an ampersand or a NUL |
| QueryArgs.SubstitutionSurvivesParsing | src/RequestProcessor.cc:386-426 | the same for every query string and every table of substitutions |
| QueryArgs.EscapedAmpersandIsLost | src/RequestProcessor.cc:386-426 | a concrete loss: for the query `A=%26&B=x` and a substitution on B alone, the string is rewritten and no longer parses to the substituted list |
| QueryArgs.ParsedIsClean | src/RequestProcessor.cc:191-203 | parsed keys hold no lower-case letter and no separator, parsed values no NUL |
| DupFormat.PaddedIsRead | src/RequestInfo.cc:148-151 | the first eight bytes of a written length read as that length exactly if it is below 10^8 |
| DupFormat.RequestInfo.SendDupFormat | src/RequestProcessor.cc:584-599 | the message is the three sections, each with its length, the headers line by line |
| DupFormat.RequestInfo.DeserializeHeader | src/deserialize.cc:121-143 | stores the headers up to the first line without a delimiter, and succeeds exactly if every line has one |
| DupFormat.RequestInfo.DeserializeBody | src/deserialize.cc:74-115 | status and fields are those of the functional reader; a failure keeps what was read before it |
| DupFormat.FramedIsRead | src/deserialize.cc:74-115 | every text made of three framed sections is read as they say |
| DupFormat.AcceptedIsFramed | src/deserialize.cc:74-115 | only such texts are accepted, and the fields then hold the sections |
| DupFormat.LineIsRead | src/deserialize.cc:128-139 | a header line reads as the header it was made from exactly if the name holds no delimiter |
| DupFormat.LinesRebuild | src/deserialize.cc:126-126 | the lines, each with a newline, are the text, whose last newline may be missing |
| DupFormat.LinesAreRead | src/deserialize.cc:126-139 | headers are read up to the first line without a delimiter |
| DupFormat.ReadIffDelimiters | src/deserialize.cc:130-135 | reading succeeds exactly if every line has a delimiter |
| DupFormat.FoldedKeys | src/deserialize.cc:139-139 | the map holds no other names than it had and the headers have |
| DupFormat.CastBySign | src/deserialize.cc:48-64 | what the number conversion reads: digits below 2^32 with an optional sign, a minus sign modulo 2^32 |
| DupFormat.UnframedKeeps | src/deserialize.cc:74-115 | a text that is not framed is refused and changes no field but the request body, to a first section that can be read |
| DupFormat.ReceivedAsSent | src/RequestProcessor.cc:584-599 | for sections below 10^8 bytes and headers that fit on a line: the reader gives the same bodies and the header list as a map, the last value of a name winning |
| DupFormat.BodyIsReceivedIffShort | src/RequestInfo.cc:148-151 | the request body comes back exactly if its length fits eight digits |
| DupFormat.AnswerIsReceivedIffShort | src/RequestInfo.cc:148-151 | after two short sections the answer comes back exactly if its length fits too |
| DupFormat.LastValueWins | src/deserialize.cc:139-139 | the map holds, for every name, the value of its last header |
| RequestProcessors.RequestProcessor.constructor | src/RequestProcessor.cc:540-550 | a new processor has no commands |
| RequestProcessors.RequestProcessor.AddFilter | src/RequestProcessor.cc:142-156 | refuses exactly the scopes without keys and changes nothing then; otherwise adds the filter under its upper-case key, at the current destination only; the configuration stays well formed |
| RequestProcessors.RequestProcessor.AddRawFilter | src/RequestProcessor.cc:164-171 | adds the filter at the current destination only; the configuration stays well formed |
| RequestProcessors.RequestProcessor.KeyFilterMatch | src/RequestProcessor.cc:206-226 | the first filter of the kind by the order of the request's keys, then of insertion |
| RequestProcessors.RequestProcessor.ApplicationOnMap | src/RequestProcessor.cc:228-238 | each count is positive exactly if some key filter looks at that part |
| RequestProcessors.RequestProcessor.RawFilterMatch | src/RequestProcessor.cc:274-313 | a raw filter matches exactly if its scope holds method, path, query string, headers or body and it matches that text |
| RequestProcessors.RequestProcessor.MatchesFilter | src/RequestProcessor.cc:240-383 | none if a preventing filter matches; otherwise the first matching regular filter by query string, headers, body, raw |
| RequestProcessors.RequestProcessor.FirstRawMatch | src/RequestProcessor.cc:336-380 | the first raw filter that is not preventing and matches |
| RequestProcessors.SkipIsHarmless | src/RequestProcessor.cc:246-250 | a part that no key filter looks at has no match, so skipping it by the counts changes nothing |
| RequestProcessors.RequestProcessor.ProcessRequest | src/RequestProcessor.cc:511-538 | one choice for each destination of the location, in order: a filter exactly if a regular one matches and no preventing one does, and then the first by query string, headers, body, raw |
| RequestProcessors.RequestProcessor.RunOne | src/RequestProcessor.cc:769-778 | both lookups succeed for every selected filter and find the commands that it matched in |
| Filters.PickedIsMatch | src/RequestProcessor.cc:320-383 | a filter is picked exactly if a regular one matches, and it is one that does |
| Filters.DecisionIsExact | src/RequestProcessor.cc:240-383 | a request is let through exactly if a regular filter matches and no preventing one does |
| Filters.SelectedIsExact | src/RequestProcessor.cc:511-538 | exactly one filter for each destination that is wanted, in the order of destinations, each stored under its own destination |
| Filters.PutInOrder | src/RequestProcessor.cc:151-151 | adding at a destination keeps the map's order and all other entries |
| Filters.PutIsLocal | src/RequestProcessor.cc:151-151 | looking up another destination gives what it gave before |
| Filters.NewKeyFilterMatches | src/RequestProcessor.cc:151-155 | what a new key filter adds: requests with its key in any case, on a part in scope, with a matching value |
| FilterLaws.RawMatchesInFull | src/RequestProcessor.cc:274-313 | which text a raw filter reads for each part of its scope |
| FilterLaws.MatchesInFull | src/RequestProcessor.cc:240-380 | what matching means, part by part, key and raw filters together |
| FilterLaws.PickedIsFirst | src/RequestProcessor.cc:316-380 | of several matching filters the first is picked: by part, then by the request's keys, then by insertion |
| FilterLaws.DecisionInFull | src/RequestProcessor.cc:240-383 | the decision and the pick for one destination |
| FilterLaws.SelectedByChoice | src/RequestProcessor.cc:511-538 | the selection is the list of the choices that are made |
| FilterLaws.FlattenByOffset | src/RequestInfo.cc:126-135 | every key, separator and value stands at its offset, and nothing else is there |
| FilterLaws.LessIsLexicographic | src/RequestProcessor.cc:151-151 | destinations are in dictionary order |
| FilterLaws.LowerByTable | src/RequestProcessor.cc:211-212 | lower case by the place in the alphabet |
| Scopes.CoversByPart | src/RequestCommon.hh:13-22 | a union of parts covers what either of the two does |
| StringCompares.PrintDiff | src/libws_diff/stringCompare.cc:57-68 | the report prints hunks that turn the first sequence into the second, and is empty exactly if they are equal |
| StringCompares.StringCompare.IgnoreCases | src/libws_diff/stringCompare.cc:41-45 | the result is the end of a chain of texts, each one without what the next expression matches |
| StringCompares.StringCompare.CheckStopRegex | src/libws_diff/stringCompare.cc:47-54 | says whether some stop expression matches |
| StringCompares.StringCompare.Merge | src/libws_diff/stringCompare.cc:34-38 | takes over both lists of expressions |
| StringCompares.StringCompare.VectDiff | src/libws_diff/stringCompare.cc:56-74 | true exactly if the lists differ |
| StringCompares.StringCompare.RetrieveDiff | src/libws_diff/stringCompare.cc:84-107 | false exactly if a stop expression matches; otherwise the report is empty exactly if the cleaned texts are equal |
| StringCompares.StringCompare.RetrieveHeaderDiff | src/libws_diff/stringCompare.cc:109-122 | true exactly if nothing stops it and the cleaned texts differ beyond the length of runs of newlines; the output is a report unless it was stopped |
| StringCompares.StringCompare.RetrieveBodyDiff | src/libws_diff/stringCompare.cc:133-148 | the same after breaking the texts at touching brackets |
| StringCompares.StringCompare.RetrieveLinesDiff | src/libws_diff/stringCompare.cc:150-169 | true exactly if nothing stops it and the cleaned lists differ |
| StringCompares.StringCompare.PrintLinesDiff | src/libws_diff/stringCompare.cc:171-180 | the printer gets a report exactly if the lists differ |
| StringCompares.SplitAlike | src/libws_diff/stringCompare.cc:118-120 | two texts split into the same lines exactly if they are equal up to the length of runs of newlines |
| StringCompares.SplitByRuns | src/libws_diff/stringCompare.cc:118-120 | the text is its lines with runs of newlines between them; only the first and the last line may be empty |
| StringCompares.BrokenByChunks | src/libws_diff/stringCompare.cc:142-145 | a newline is put exactly where a closing bracket touches an opening one |

## Left out

- Apache hooks, bucket brigades, APR tables and pools, curl calls, directives, logging, statistics output, shared-memory mutexes: input and output; their data are parameters.
- Regex syntax and matching, and the boost tokenizer, split and number parsing beyond what the callers use; character classification and case mapping are those of the C locale.
- Memory-level races: every queue method, also the unlocked `size`, `setDropSize` and `getCounters`, is one atomic step; waiting on the condition variable is a step that is not enabled while the queue is empty.
- Float rounding of the queue length per thread: items are compared with the threshold times the number of threads; a pool without threads behaves as the division by zero does.
- Workers that return because curl could not be initialised: a worker exits only on a pill. `stop` comes after `start`.
- Machine widths of sequence lengths, sizes and line numbers in the diff engine (64 bits); the queue's three counters do wrap at 32 bits and the manager's subtraction at 64.
- Comparators other than equality, the `huge` switch (it only reserves memory), and reading scripts from streams.
- `mMatch` of a filter, the duplication type and the regex for error bodies: they do not influence which filter is picked.
- `headerSubstitute`, raw substitutions and the random choice in `toDuplicate`: they would only add easy members.
- `composeSesFromStream`, `utf32to8`, `utf8to32`, `advance`, `distance`, byte order marks, the deprecated `previous`.
- The printed layout of a hunk after its first two bytes; JSON and multi-line printers; `MapCompare`; the Cassandra differences.
- DiffEngine.Diff.UniPatch: requires that the cursor does not run past the end of the list, which the source does not check; for composed scripts `HunkPatching.PatchByHunks` shows that it does not. `HunkWalk.CursorIsRight` is exact about where the cursor stands, not about lists in which a misplaced hunk happens to make no difference.
- DiffEngine.Diff.Compose: of a cut run it says that the distance is no less than the optimum, not that it is more, because a cut run may happen to be shortest.
- MultiThreadQueue.MultiThreadQueue.Pop: requires a non-empty queue instead of waiting for one.
- ThreadPool.ThreadPool.ManageOnce: runs without other threads in between; the interleavings are those of `PoolSystem.RunKeepsInv`.
- ThreadPool.ThreadPool.ShutDown: as for a round, without other threads in between.
- Utf8Unchecked.Prior: requires, as the source does, that some octet before the place is not a trail.
- UrlEscape.UnescapeUrl: the list of reserved characters is empty, as in the only caller.
- DupFormat.ReceivedAsSent: requires headers without line breaks and names without a delimiter; other headers are covered by `DupFormat.FramedIsRead`.
