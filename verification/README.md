# OpsBlobs, verified

OpsBlobs keeps a vault of files in sync between devices. This project models the cores that carry its
guarantees and proves them with Dafny 4.11; `dafny verify dfyconfig.toml` checks everything.

What the files hold:

- `Base`, `Text`, `Vault`: shared types, line endings, and the records the sync core exchanges.
- `Hlc`: the hybrid logical clock and its sortable string form.
- `Diff`, `ThreeWay`, `ThreeWayLaws`: the patience diff with its LCS fallback, hunks, the two-cursor merge,
  and what the merge conserves, means and mirrors. `Overlaps`: which overlapping changes end in a conflict.
  `DiffAsWritten`: the patience sort's lookup as it is spelled.
- `Markers`, `MarkerLaws`, `ResolveLaws`: printing, parsing and resolving conflict markers, and what a resolved merge is.
- `VersionDag`, `VersionDagLaws`, `VersionDagStore`: the version graph, its sweep, its journal.
- `StateMerge`, `MergeDecision`, `StateMergeLaws`: the merge decision for a whole vault, when each action is taken,
  mirror images on two devices, and no silent overwrite.
- `BlobCache`, `PackDisk`, `PackState`, `ContentStore`: the pack-only blob store. `PackReuse`: merges that give
  out the id of a pack still to be merged.
- `Oplog`: the operation log's persist queue as a state machine over its atomic steps.
- `RegistryDisk`, `FileRegistry`: the file registry over its snapshot and journal.
- `CaptureRules`, `Capture`: what an offline capture has to record, and the capture with its checkpoints, over the
  store, the registry and the log together.
- `KeepSet`: the collector's keep-set, and the scheduled collection as a whole.

How the models are built. A class of the program is a class here, with the same fields, and each method is
proved against a function of the state or a property of it; pure decisions are functions. A store keeps a ghost
record of every state its disk has been in, torn appends included, so that a crash claim is a statement about all
of those states. SHA-256, base64, the UTF-8 codec, file listings, modification times, wall clocks, generated ids
and op ids are parameters; the hash is assumed free of collisions and base64 decoding to invert encoding, with
`None` where decoding throws. JSON lines are records, of which a crash can leave a whole-line prefix and, in the
operation log, one torn line.

Where the code does less than its comments say, the model follows the code:

- `src/merge/diff3.ts:111` looks a pair index up in `piles`. `Diff` models the lookup through the pairs themselves;
  `DiffAsWritten` models the line as it stands: lines that keep their order are all returned, reordered ones can
  make it throw (`WrittenThrowsIff`), and where it does not throw the diff is still exact (`WrittenDiff`), so every
  law of the merge holds of it (`WrittenMerge`).
- Overlapping changes are not always conflicts (`src/merge/diff3.ts:205-206` promises they are): a hunk that has met
  one hunk of the other side is not compared with the next. `OverlapClashesIff` says exactly when a pair clashes.
- Two devices can merge to different texts when both inserted at one gap (`src/merge/state-merge.ts:8` promises
  otherwise). `CleanMergeAgrees` says exactly when.
- A sweep can make a new leaf (`src/core/version-dag.ts:347-349` says it cannot). `NewLeafIff` says exactly when.
- The create-collision branch fast-forwards without asking whether the local bytes are those of the local head.
  `CollisionOverwritesIff` says exactly when it overwrites.
- In the same branch a remote resolution whose bytes are not at hand is adopted with the local entry's bytes
  (`src/merge/state-merge.ts:509-516`). `ForeignBytesUnderRemoteHead` says exactly when.
- A pass that finds a file at a path whose tombstone is still indexed records its content and head, but the entry
  stays a tombstone (`src/core/file-registry.ts:314-324`); `IsCaptured` says so.
- A crash between removing the newest pack and rewriting the index lets a reload give that pack's id out again. A
  collection is safe on such a disk too (`Gc`). A consolidation is safe unless its merge gives a small pack's id out
  before that pack's turn, and loses a blob whenever it does (`ConsolidationLoses`).
- One slice that is not base64 makes every uncached read of its pack throw, and so a collection or consolidation
  that reaches the pack; what they did before is safe.
- A file deleted on one device and restored by a merge node can be deleted by the device that holds the restoration
  while the other restores it. `OneSidedDeleteMirrors` says exactly when the two devices agree.
- A reload skips a torn line at the end of the operation log but leaves it there, so the next append runs into it.
  `AppendReadsBack` and `OperationLogger.Load` say exactly when the log stays sound.
- Compaction of the registry is crash-safe when nothing is dirty and no tombstone is dropped; `CompactCrashIff`
  gives the exact condition.

## Model

| member | source | states |
|---|---|---|
| Hlc.CompareIsTotalOrder | src/core/hlc.ts:88-94 | `hlcCompare` is a total order: zero only on equal stamps, antisymmetric, transitive |
| Hlc.StringOrderIsHlcOrder | src/core/hlc.ts:88-106 | for wall times below 10^15 and counters below 10^8 the string order of stamps is the clock order |
| Hlc.FromStringInvertsToString | src/core/hlc.ts:102-123 | parsing a printed stamp gives it back, for every stamp and every device id, hyphens included |
| Hlc.ToStringInjective | src/core/hlc.ts:102-106 | two stamps with the same string are the same stamp, so an op id names one stamp |
| Hlc.HybridLogicalClock.Now | src/core/hlc.ts:29-41 | the stamp issued exceeds the previous one, takes up a wall clock that is ahead, and carries our device id |
| Hlc.HybridLogicalClock.Merge | src/core/hlc.ts:47-64 | the stamp exceeds both the previous local stamp and the remote one, at the latest of the three wall times, under our device id |
| Hlc.StampsAreLeast | src/core/hlc.ts:29-64 | no stamp at that wall time or later lies between what a stamp has to exceed and the stamp: the counter grows by one and starts anew with the wall clock |
| Hlc.HybridLogicalClock.FastForward | src/core/hlc.ts:79-99 | wall time and counter move to the later stamp, the device id stays our own |
| Hlc.ForwardNeverRegresses | src/core/hlc.ts:79-99 | fast-forwarding to the later of two stamps never goes back, and the next stamp exceeds both |
| Hlc.StampsStrictlyIncrease | src/core/hlc.ts:29-81 | over any run of `now`, `merge` and fast-forward events the issued stamps strictly increase |
| Text.SplitJoin | src/merge/diff3.ts:385-387 | splitting a joined list of newline-free lines gives the list back |
| Text.NormalizeJoin | src/merge/diff3.ts:385-387 | normalising a joined list of clean lines gives the list back |
| Text.NormalizeWithEnds | src/merge/diff3.ts:385-387 | lines written with any mix of LF, CRLF and CR ends normalise to those lines, one line end each |
| Text.JoinInjective | src/merge/diff3.ts:218-226 | two normalised line lists are equal as soon as their joined texts are, so the text short cuts compare lines |
| Diff.LcsLengthIsMaximal | src/merge/diff3.ts:131-162 | no common subsequence is longer than the dynamic program's value |
| Diff.LcsTable | src/merge/diff3.ts:131-150 | the table holds the length of the longest common subsequence of every pair of suffixes |
| Diff.MyersLcs | src/merge/diff3.ts:131-162 | returns a common subsequence of its range, and a longest one |
| Diff.EmitFromLcs | src/merge/diff3.ts:164-180 | the emitted operations are an exact edit script of the two ranges, and what they keep is the matching they were given |
| Diff.KeptAreCommon | src/merge/diff3.ts:164-180 | what any exact script keeps is a common subsequence of the two ranges, so keeping can be compared with `LcsLength` |
| Diff.CountLines | src/merge/diff3.ts:65-75 | every index of the range is listed once under its line, in order |
| Diff.UniquePairs | src/merge/diff3.ts:65-98 | exactly the lines that occur once on both sides, sorted by old index |
| Diff.LongestIncreasingSubsequence | src/merge/diff3.ts:100-128 | with the lookup through the pairs themselves: a longest subsequence whose new indices increase |
| Diff.PatienceAnchors | src/merge/diff3.ts:65-98 | anchors are a longest strictly increasing chain of the lines unique on both sides, and there are some whenever such a line exists |
| Diff.DiffRecurse | src/merge/diff3.ts:26-62 | terminates; what it emits is an exact edit script that keeps as much as any can where no line is unique on both sides, else a longest chain of such lines and, in every gap between them, the same again; of equal ranges it keeps all, and of ranges sharing a line something |
| Diff.MostKeepsWell | src/merge/diff3.ts:26-62 | the fallback on a longest common subsequence keeps well: where no line is unique on both sides nothing that can be kept is missed |
| Diff.CoalesceStepSpells | src/merge/diff3.ts:182-194 | coalescing changes neither side the script spells |
| Diff.CoalesceOps | src/merge/diff3.ts:182-194 | no empty operation and no two neighbours of one kind remain; both sides and the lines kept are unchanged |
| Diff.DiffLines | src/merge/diff3.ts:20-24 | for every two texts: equal and delete lines spell the first, equal and insert lines the second, and what is kept is what the recursion keeps; equal texts give one equal operation, texts that share a line at least one |
| DiffAsWritten.WrittenPicksIncrease | src/merge/diff3.ts:100-128 | whenever the lookup as written does not throw, what is returned is strictly increasing on both sides, and is not empty if a shared unique line exists |
| DiffAsWritten.WrittenAnchorsAreSound | src/merge/diff3.ts:65-98 | so the anchors as written, where there are any, are a common subsequence of the two ranges |
| DiffAsWritten.WrittenKeepsOrder | src/merge/diff3.ts:106-128 | when the shared unique lines keep their order, all of them are returned |
| DiffAsWritten.SearchThrowsIff | src/merge/diff3.ts:106-113 | while each pile top is the pile's own index or past `piles`, the search throws exactly when its path probes one past `piles`, and finds the intended pile otherwise |
| DiffAsWritten.WrittenThrowsAfterReorder | src/merge/diff3.ts:106-113 | after the first pair out of order, the next pair makes the sort throw exactly when its search probes the re-topped pile, and always when its own pile is that one or the one after |
| DiffAsWritten.WrittenThrowsIff | src/merge/diff3.ts:100-128 | as long as every pair after the first `n` belongs on one of their piles, and for the first that does not, the sort throws exactly when some pair's search probes a pile topped again before it |
| DiffAsWritten.WrittenThrows | src/merge/diff3.ts:111 | three shared lines with two of them swapped make the sort throw |
| DiffAsWritten.SortPairs | src/merge/diff3.ts:100-128 | the loops compute the picks of the sort as written, or throw exactly when it does |
| DiffAsWritten.WrittenRecurse | src/merge/diff3.ts:26-62 | the recursion as written emits an exact edit script of its two ranges, or throws on the unique lines of some part of them; the script keeps the chains the sort as written picks, gap by gap, and equal ranges never throw and are kept whole |
| DiffAsWritten.WrittenDiff | src/merge/diff3.ts:20-24 | the diff as written is an exact, coalesced edit script wherever it does not throw, keeps what the recursion keeps, and gives one equal operation for equal texts |
| DiffAsWritten.WrittenMerge | src/merge/diff3.ts:207-232 | the merge as written throws only where a diff does, and else is the merge of two exact diffs, so the merge laws hold of it |
| ThreeWay.ToHunks | src/merge/diff3.ts:253-273 | the loop computes the hunks of the diff |
| ThreeWay.HunksMeanVariant | src/merge/diff3.ts:253-273 | hunks of an exact coalesced diff are in order, separated by a kept line, and applied to the ancestor give the variant |
| ThreeWay.MergeFromDiffs | src/merge/diff3.ts:301-383 | the two-cursor loop computes the woven pieces, their text and their conflict chunks |
| ThreeWay.MergeLoop | src/merge/diff3.ts:301-383 | the same for any two hunk lists within the ancestor |
| ThreeWay.ThreeWayMerge | src/merge/diff3.ts:207-232 | the three equal-text short cuts, else the merge of the two exact diffs |
| ThreeWayLaws.KeptIsUntouched | src/merge/diff3.ts:301-383 | the merge copies exactly the ancestor lines neither side replaced, once each and in order |
| ThreeWayLaws.EveryHunkOnce | src/merge/diff3.ts:301-383 | every hunk of either side is used by exactly one piece, in its own order |
| ThreeWayLaws.SameChangeOnce | src/merge/diff3.ts:332-347 | a change both sides made is applied once: merging a side with itself gives that side |
| ThreeWayLaws.LocalLinesSurvive | src/merge/diff3.ts:301-383 | every local hunk's lines are a run of the merged text, in conflicts too |
| ThreeWayLaws.RemoteLinesSurvive | src/merge/diff3.ts:301-383 | every remote hunk's lines are a run of the merged text, equal their paired local lines, or are a conflict's remote side |
| ThreeWayLaws.WeaveSwaps | src/merge/diff3.ts:301-383 | trading the sides trades the two sides of every piece |
| ThreeWayLaws.MergeSwaps | src/merge/diff3.ts:301-383 | merging on the other device finds the same conflicts with local and remote exchanged |
| ThreeWayLaws.CleanMergeAgrees | src/merge/diff3.ts:332-335 | a clean merge gives both devices the same text if and only if no two insertions at one gap show their order |
| ThreeWayLaws.DivergentInsertionsDiffer | src/merge/diff3.ts:332-335 | two different appends to an empty ancestor come out in opposite orders on the two devices |
| ThreeWayLaws.CleanMergeAppliesBoth | src/merge/diff3.ts:293-383 | if no two hunks interact, the merge is conflict-free and is the ancestor with both hunk sets applied |
| ThreeWayLaws.BothSetsCanBeOrdered | src/merge/diff3.ts:293-299 | hunk sets that do not interact can be applied together: they have a common order |
| ThreeWayLaws.OrderedIsUnique | src/merge/diff3.ts:253-299 | a set of hunks has only one such order |
| ThreeWayLaws.OneSidedMerge | src/merge/diff3.ts:301-383 | merging with an unchanged side gives the changed side, with no conflict |
| Overlaps.InteractIff | src/merge/diff3.ts:293-299 | two hunks interact exactly if both replace some line, both insert at one gap, or one inserts strictly inside the lines the other replaces |
| Overlaps.PartnersMeet | src/merge/diff3.ts:301-383 | the cursors take two hunks together exactly if they interact and neither was taken with an earlier hunk of the other side |
| Overlaps.OverlapClashesIff | src/merge/diff3.ts:205-206 | two overlapping changes with different lines clash, with a chunk among the conflicts, exactly if neither was taken with an earlier partner; a hunk without any partner is applied alone, whatever it overlaps |
| Overlaps.ConflictIsClash | src/merge/diff3.ts:341-361 | every conflict is the chunk of a clashing pair: its lines, and the ancestor lines the two span |
| Overlaps.ClashIsConflict | src/merge/diff3.ts:341-361 | every clashing pair has its chunk among the conflicts |
| Overlaps.ConflictsIff | src/merge/diff3.ts:301-383 | a merge has conflicts if and only if some pair of partners clashes |
| Overlaps.OverlapGoesUnreported | src/merge/diff3.ts:205-206 | overlapping, different changes that merge without a conflict, against the comment |
| Markers.RenderMarkers | src/merge/diff3.ts:456-477 | prints the merged lines with each conflict replaced by its marker block |
| Markers.ParseConflictMarkers | src/merge/diff3.ts:536-576 | the loop computes the segments, truncated blocks included |
| Markers.ScanForMarkers | src/merge/diff3.ts:497-507 | true exactly when both an opening and a closing marker line occur |
| Markers.ResolveMarkedText | src/merge/diff3.ts:593-612 | each block becomes the lines its decision selects, clean runs pass through |
| MarkerLaws.ParseInvertsRender | src/merge/diff3.ts:430-477 | if clean lines never open a block and chunk lines never carry the other three markers, parsing a printed result gives back its clean runs and chunks in order, zero-width and same-start chunks included |
| MarkerLaws.ParseCutBlock | src/merge/diff3.ts:536-576 | a printed block cut off in one of its sections keeps every line it had, in that section |
| MarkerLaws.ParseLosesNoLine | src/merge/diff3.ts:530-576 | whatever the text, well marked or not, the parse holds each line that is no marker where it stands, as often as it occurs |
| MarkerLaws.ResolveRendered | src/merge/diff3.ts:593-612 | resolving a printed result replaces each conflict by its decision and keeps the rest |
| MarkerLaws.ResolveAsLocalIsMerged | src/merge/diff3.ts:593-612 | resolving every block as local gives exactly the merged text |
| ResolveLaws.ResolvedMergeIs | src/merge/diff3.ts:398-612 | resolving a printed merge gives the pieces of the merge with each conflict as decided: the local lines, the remote lines, local before remote, the custom text, and the local lines where nothing was decided |
| ResolveLaws.ResolveAsRemoteIsTheirs | src/merge/diff3.ts:398-612 | resolving every block as remote gives the merge of the two sides with each conflict settled the remote way |
| MarkerLaws.MarkedIffConflicted | src/merge/diff3.ts:497-507 | a printed result shows markers if and only if it has a conflict |
| MarkerLaws.MergeIsAnchored | src/merge/diff3.ts:301-477 | the chunks of every merge are anchored in its text, so the laws above apply to it |
| VersionGraph.MergeBaseIs | src/core/version-dag.ts:226-265 | the base is `x` if and only if `x` is the only common ancestor that is no proper ancestor of another |
| VersionGraph.MergeBaseSymmetric | src/core/version-dag.ts:226-265 | the answer does not depend on the order of the two versions |
| VersionGraph.MergeBaseIsLowest | src/core/version-dag.ts:226-265 | on an acyclic graph every common ancestor is an ancestor of the base |
| VersionGraph.MergeBaseOfLine | src/core/version-dag.ts:226-265 | of a version and its ancestor, the base is the ancestor |
| VersionGraph.MultipleMeansCrissCross | src/core/version-dag.ts:226-265 | on an acyclic graph an ambiguous answer means two incomparable lowest common ancestors |
| VersionGraph.RankedIsAcyclic | src/core/version-dag.ts:98-115 | a rank that grows from parent to child, as op ids do, rules cycles out |
| VersionGraph.UnboundedReachesAllAncestors | src/core/version-dag.ts:291-315 | without bounds the walk reaches exactly the hashes of all ancestors |
| VersionGraph.VersionDag.AddVersionEdge | src/core/version-dag.ts:98-115 | unions parents, fills empty fields, drops a self-parent, and says whether the graph changed |
| VersionGraph.VersionDag.IsAncestor | src/core/version-dag.ts:201-217 | true exactly when the version is the other one or a transitive parent |
| VersionGraph.VersionDag.Ancestors | src/core/version-dag.ts:382-393 | exactly the ancestors, the version itself included |
| VersionGraph.VersionDag.MergeBase | src/core/version-dag.ts:226-265 | the dominance marking computes the specified merge base |
| VersionGraph.VersionDag.ReachableContentHashes | src/core/version-dag.ts:291-315 | exactly the hashes reached within the depth by a path whose versions past the start are held or hashless |
| VersionGraph.VersionDag.Prune | src/core/version-dag.ts:358-379 | keeps exactly the roots and their ancestors and counts what it dropped |
| VersionGraph.VersionDag.SweepToRoots | src/core/version-dag.ts:71-79 | declines on an empty graph, no roots or no known root, else prunes |
| VersionGraph.VersionDag.Leaves | src/core/version-dag.ts:139-149 | exactly the versions of the file that are no parent |
| VersionGraph.VersionDag.LeavesByFile | src/core/version-dag.ts:161-174 | agrees with `leaves` for every non-empty file id |
| VersionGraph.VersionDag.Clone | src/core/version-dag.ts:407-417 | a fresh copy with the same graph |
| VersionGraphLaws.SweepPreservesAnswers | src/core/version-dag.ts:347-379 | after a sweep, and after any later batch in which retained and new versions name only retained or new parents (swept ids may be recorded again), ancestry, merge base, bounded reachability and hashes of retained versions are those of the unswept graph |
| VersionGraphLaws.LeafAfterSweep | src/core/version-dag.ts:139-149 | every leaf after a sweep was a leaf before or is a root |
| VersionGraphLaws.NewLeafIff | src/core/version-dag.ts:347-379 | a version becomes a leaf exactly when it is a kept root and all its children were swept |
| VersionGraphLaws.SweepCanMakeALeaf | src/core/version-dag.ts:347-349 | a sweep can make a leaf, against the comment |
| VersionGraphLaws.SameEdgesSameGraph | src/core/version-dag.ts:98-115 | when each id carries one hash and file, any reordering or repetition of the calls builds the same graph |
| VersionGraphLaws.ReplayIsIdempotent | src/network/version-dag-store.ts:44-52 | replaying edges a graph already holds changes nothing |
| VersionDagStore.Store.Load | src/network/version-dag-store.ts:53-72 | the snapshot with the journal replayed over it |
| VersionDagStore.Store.AppendEdges | src/network/version-dag-store.ts:90-95 | the journal grows by the records; a torn append leaves a prefix of them |
| VersionDagStore.Store.Compact | src/network/version-dag-store.ts:117-123 | every file state of a compaction loads the same graph |
| VersionDagStore.RecordVersionEdges | src/network/vault-sync-host.ts:216-240 | the graph takes every edge; afterwards a load gives it back, and a crash inside the round recovers the graph after a prefix of the edges; the journal stays below its bound |
| VersionDagStore.RunRounds | src/network/vault-sync-host.ts:216-240 | after any run of rounds a load equals the graph in memory, with the journal below its bound |
| VersionDagStore.SweepCrashPreservesAnswers | src/network/version-dag-store.ts:117-123 | a sweep's save that crashes before the journal goes recovers ancestry, merge base, bounded reachability and hashes on retained versions |
| StateMerge.LiveByPath | src/merge/state-merge.ts:54-60 | indexes each live path by the last live entry that holds it, and only live paths |
| StateMerge.OnlyInMembers | src/merge/state-merge.ts:27-30 | the id union adds exactly the ids only the remote side knows |
| StateMerge.MergeVaultStates | src/merge/state-merge.ts:22-51 | one action for every file id known to either side, each once, and the later of the two clocks |
| StateMergeLaws.ThreeWayTextSwaps | src/merge/diff3.ts:207-232 | the text merge on the other device: the same conflicts with sides exchanged, the same clean text exactly when no insertion order shows |
| StateMergeLaws.ViewOf | src/core/version-dag.ts:186-265 | every graph has a view with the answers the laws assume |
| StateMergeLaws.ExactEnv | src/merge/diff3.ts:20-24 | with any text codec there is a line diff that is exact and coalesced, as the laws assume |
| StateMergeLaws.MirrorOutcomes | src/merge/state-merge.ts:132-469 | two devices reconciling one live file, each at its head, reach mirror images: adopt and keep, rename and keep, the same merge node with parents swapped, or the same conflict with sides swapped |
| StateMergeLaws.OneSidedDeleteMirrors | src/merge/state-merge.ts:199-233 | a file deleted on one device and live at its head on the other: the two reach mirror images exactly when no merge node above the deletion restored it and none above the live head settled the deletion of a file renamed since; and exactly when the one deletes what the other restores |
| StateMergeLaws.RestoredFileIsDeleted | src/merge/state-merge.ts:199-233 | a merge node that restores the content the deletion names makes the holder delete the file while the deleter restores it |
| StateMergeLaws.DescendantWins | src/merge/state-merge.ts:283-312 | on linear history the descendant is adopted by the one device and kept by the other |
| StateMergeLaws.MergeIdAgrees | src/merge/state-merge.ts:165-175 | an id computed from the content and the set of parents is the same on both devices |
| StateMergeLaws.DivergedTextIsNeverReplaced | src/merge/state-merge.ts:243-469 | incomparable heads with differing text give a merge of both heads whose bytes are the encoded clean three-way merge, holding every hunk of both sides, or a conflict that shows both texts |
| StateMergeLaws.MergeHoldsBothSides | src/merge/diff3.ts:207-232 | unless a short cut applies, the lines of every hunk of either side are a run of the merged text or, for the remote side, of a conflict |
| MergeDecision.TextDecision | src/merge/state-merge.ts:355-469 | diverged texts at known heads: a merge of both heads with the clean three-way merge as its bytes exactly when the base is staged or there is none and that merge is clean; the conflicts of that merge when it is not; the whole file when there are several bases or the one base is not at hand |
| MergeDecision.BinaryDecision | src/merge/state-merge.ts:355-400 | diverged binaries: the side that left the base unchanged takes the other over, and otherwise both contents go to the user |
| MergeDecision.LineDecision | src/merge/state-merge.ts:283-312 | different contents on one line of descent: a copy at its head takes a remote descendant with its own bytes, a descendant stays |
| MergeDecision.TwoHeadedDecision | src/merge/state-merge.ts:243-282 | a file whose conflict is open takes a merge node above every open head and is otherwise held |
| MergeDecision.MissingBytesDecision | src/merge/state-merge.ts:313-340 | where one side is not staged the later clock wins with its own staged bytes, and nothing is written in place of missing ones |
| MergeDecision.NoHistoryDecision | src/merge/state-merge.ts:355-469 | without a known common history diverged texts are merged against nothing, and a clean result is written under the later clock without a head |
| MergeDecision.SameContentDecision | src/merge/state-merge.ts:132-196 | one content on both sides: the later move wins, a copy at its head follows a descendant, incomparable heads are joined, else nothing happens |
| MergeDecision.AtRestDecision | src/merge/state-merge.ts:126-196 | two tombstones, and one content at one path without two different known heads, rest |
| MergeDecision.RemoteDeletedDecision | src/merge/state-merge.ts:199-233 | live here, deleted there: exactly when the file goes, when its bytes go to the user, and when nothing happens |
| MergeDecision.LocalDeletedDecision | src/merge/state-merge.ts:199-233 | deleted here, live there: exactly when the file comes back, when the delete is sent, and when its bytes go to the user |
| MergeDecision.DeleteWithoutHistory | src/merge/state-merge.ts:199-233 | without known heads a one-sided delete never deletes: the survivor's bytes go to the user, if they are staged |
| MergeDecision.RemoteOnlyDecision | src/merge/state-merge.ts:74-95 | a live file only the other side knows is written at a free path with its own staged bytes; a tombstone is not |
| MergeDecision.LocalOnlyDecision | src/merge/state-merge.ts:97-124 | a live file only this side knows is sent where its path is free on the other side; a tombstone is not |
| MergeDecision.CollisionDecision | src/merge/state-merge.ts:493-576 | a create collision between known heads: which id is kept, whose bytes are written, when one conflict is raised and by whom |
| MergeDecision.ForeignBytesUnderRemoteHead | src/merge/state-merge.ts:509-516 | a collision writes bytes other than the remote entry's under the remote head exactly when the remote head descends from the local one and its bytes are missing while the local ones are staged |
| MergeDecision.ResolutionWithoutItsBytes | src/merge/state-merge.ts:509-516 | an input: a peer's resolution known by its version alone is adopted with the local bytes |
| StateMergeLaws.ReplacedOnlyWithCause | src/merge/state-merge.ts:132-469 | local bytes are replaced only by the other side's, and only on a fast-forward from a copy at its head, under a merge above every open head, or for a binary unchanged since the base |
| StateMergeLaws.DeletedOnlyWithCause | src/merge/state-merge.ts:199-233 | a live file is deleted if and only if a settled deletion descends from its head, or it is unedited and unrenamed since the merge base |
| StateMergeLaws.UnknownElsewhereIsKept | src/merge/state-merge.ts:97-124 | a file the other side does not know is neither deleted nor overwritten under its own id |
| StateMergeLaws.WinnerIsShared | src/merge/state-merge.ts:571-576 | both devices pick the same survivor of a create collision |
| StateMergeLaws.CollisionSettles | src/merge/state-merge.ts:493-562 | both devices keep one id: the loser writes the winner's staged bytes under the winner's id, or each raises exactly one conflict, under the winning id |
| StateMergeLaws.NewFileLandsFreeOrSettles | src/merge/state-merge.ts:74-95 | a new remote file at an occupied path always goes through the collision rules |
| StateMergeLaws.CollisionOverwritesIff | src/merge/state-merge.ts:517-527 | a collision with differing bytes overwrites the local file if and only if the remote head descends from the local one |
| StateMergeLaws.CollisionCanReplaceAnUnrecordedEdit | src/merge/state-merge.ts:517-527 | that branch has no at-head check, so a peer's merge of the two files replaces an edit no version records |
| BlobCache.EvictKeepsShape | src/core/content-store.ts:168-176 | evicting a key takes exactly its bytes off the count |
| BlobCache.Evict | src/core/content-store.ts:168-176 | drops least recently used blobs that are not pending until the budget holds or only pending ones are left, and not one more |
| PackDisk.SliceExact | src/core/content-store.ts:277-283 | each recorded offset and length slice out exactly the body they were recorded for |
| PackDisk.FlushReads | src/core/content-store.ts:272-286 | a flush into a fresh id, its index append cut anywhere, loses no readable blob and makes each indexed one readable |
| PackDisk.TornPackReads | src/core/content-store.ts:285 | a partly written pack changes no read |
| PackDisk.ListsLoads | src/core/content-store.ts:648-654 | loading the rewritten index gives back the memory index |
| PackDisk.ReadsAgree | src/core/content-store.ts:317-335 | a hash that reads at all reads the one content with that hash |
| PackState.FlushStatesKeep | src/core/content-store.ts:272-292 | every disk state of a flush, torn ones included, still reads all that was readable |
| PackState.FlushKeepsStep | src/core/content-store.ts:272-292 | a flush keeps index, cache and disk in step, and the index exact if it was |
| PackState.RetireIsSafe | src/core/content-store.ts:399-406 | removing a pack no promised hash leads to keeps the promise |
| PackState.FlushLeadsOut | src/core/content-store.ts:606-630 | a flush leads every promised blob out of the packs it was buffered from |
| PackState.FatedMore | src/core/content-store.ts:387-421 | compacting or merging packs keeps exactly their kept blobs that verify |
| PackState.DealtWith | src/core/content-store.ts:387-421 | an untouched pack keeps its file and its entries; of a retired one nothing is left; of a compacted one exactly the kept blobs that verify are left, elsewhere |
| PackState.YoungStaysWhole | src/core/content-store.ts:634-644 | a pack without a file or a modification time, or modified within the retention window, stays whole with all its entries, however far the collection got |
| PackState.OldIsCollected | src/core/content-store.ts:387-421 | past the window: without a live blob the pack goes; with live blobs that are less than half it goes and they move; with half or more it stays whole |
| PackState.ConsolidationMeans | src/core/content-store.ts:453-597 | by its live blobs: dead packs go, packs below the threshold merge, larger ones with dead blobs are compacted, all-live ones at or above it stay whole |
| PackState.NoMorePacks | src/core/content-store.ts:453-597 | retiring packs into at most one new one never increases the number of packs |
| PackState.StreamBound | src/core/content-store.ts:559 | flushing only once enough is buffered bounds the number of merged packs |
| PackState.MergedInto | src/core/content-store.ts:500-561 | the survivors of the merged packs sit in packs the merge wrote |
| PackState.TrustedNeverThrows | src/core/content-store.ts:317-335 | where every entry names a pack id given out and every slice decodes, no collection or consolidation throws |
| PackStore.ContentStore.constructor | src/core/content-store.ts:196-218 | over any disk: loading takes the last line of each hash and the pack id after the last file |
| PackStore.ContentStore.EvictToBudget | src/core/content-store.ts:168-176 | afterwards the cache fits its budget or holds only pending blobs, and nothing went that did not have to |
| PackStore.ContentStore.CacheSet | src/core/content-store.ts:144-151 | the byte count stays the exact sum of the cached sizes and pending blobs stay |
| PackStore.ContentStore.PutBuffered | src/core/content-store.ts:233-242 | a blob is buffered unless cached or pending; what is cached and not pending reads from disk |
| PackStore.ContentStore.FlushPack | src/core/content-store.ts:272-292 | the buffer becomes readable under a fresh id, the memory index stays what a reload rebuilds |
| PackStore.ContentStore.Put | src/core/content-store.ts:251-254 | afterwards a reload reads the bytes back, and no disk state on the way lost a blob |
| PackStore.ContentStore.Get | src/core/content-store.ts:299-307 | for a hash that is not pending: exactly what the memory index leads to; it throws only if the hash's pack holds a slice that is not base64 |
| PackStore.ContentStore.GetFromPack | src/core/content-store.ts:317-335 | answers as a verified read of the one blob and caches only verified blobs; an uncached slice of the pack that is not base64 throws, whichever blob was asked for |
| PackStore.ContentStore.Delete | src/core/content-store.ts:355-358 | afterwards the hash reads as missing, also after a reload, and every other as before |
| PackStore.ContentStore.CompactPack | src/core/content-store.ts:606-630 | crash-safe for the promised hashes, also when it throws; otherwise the pack is gone and exactly its surviving kept blobs moved, by a step as `PackReuse` has it |
| PackStore.ContentStore.Gc | src/core/content-store.ts:387-421 | on whatever disk the store was opened: in every disk state each kept hash that read still reads, also when a slice that is not base64 makes it throw; from an empty buffer a pack without a file, undated or younger than the window stays whole, also on a throw, one past it is collected by its live share, and packs do not increase |
| PackStore.ContentStore.StreamMerge | src/core/content-store.ts:513-561 | crash-safe; keeps exactly the survivors of the packs present, drops the rest of their blobs, runs as the rounds of `PackReuse`, and writes at most kept/flushEvery + 1 packs |
| PackStore.ContentStore.ConsolidatePacks | src/core/content-store.ts:453-597 | crash-safe for every merge order that gives out no small pack's id before that pack's turn; from an empty buffer every pack is dealt with by its live blobs as `ConsolidationMeans` says, the kept and dropped counts are theirs, the merged blobs sit in at most one pack per `flushEvery` of them and one more, and packs do not increase |
| PackReuse.ReuseLoses | src/core/content-store.ts:500-561 | a merge that gives a small pack's id out before that pack's turn loses a kept blob that could be read, whatever the disk, the memory index it starts from, the keep-set and the order |
| PackReuse.ConsolidationLoses | src/core/content-store.ts:453-597 | the converse of `ConsolidatePacks`: where the merge does that, the consolidation as a whole, dead packs retired before it, mixed ones compacted and the index rewritten after it, ends with a kept blob lost that could be read at its start |
| PackReuse.MergeRuns | src/core/content-store.ts:500-561 | every merge can run to its end |
| PackReuse.ConsolidationRuns | src/core/content-store.ts:453-597 | every consolidation can run to its end, so the converse is about something |
| PackReuse.ReusedPackIdLosesABlob | src/core/content-store.ts:210-218 | a disk left by a crash before the index rewrite on which the selection and the consolidation lose a blob that way |
| Oplog.AppendReadsBack | src/core/operation-logger.ts:919-943 | an append adds exactly the operations written if and only if the file does not end in a torn line |
| Oplog.FirstOfHeals | src/core/operation-logger.ts:180-190 | replay keeps one line of each id, in order of first appearance |
| Oplog.StepKeeps | src/core/operation-logger.ts:846-1006 | every step of pushes, clears, prunes and persists keeps the invariant |
| Oplog.EveryRunKeepsStep | src/core/operation-logger.ts:846-1006 | over every interleaving journal ids stay distinct, nothing at or past the persisted count is on disk between persists, and with nothing in flight and no rewrite queued the journal is the persisted prefix |
| Oplog.NothingIsLeftBehind | src/core/operation-logger.ts:846-1006 | over every interleaving in which each push, and each append that failed, is followed by a request: once nothing is queued or in flight the journal is the pending log |
| Oplog.RequestsReachDisk | src/core/operation-logger.ts:846-1006 | recording, clearing and pruning each queue work, and once it has drained the journal holds the recorded operation last, nothing, or none of the pruned file's |
| Oplog.DrainedIsPending | src/core/operation-logger.ts:908-973 | once the queue drains with nothing pushed meanwhile the journal is the pending log |
| Oplog.CrashRecovers | src/core/operation-logger.ts:919-943 | a reload after a crash finds the journal and a prefix of the append in flight, nothing twice |
| Oplog.OperationLogger.Load | src/core/operation-logger.ts:166-216 | replays the journal without duplicates, rewrites the file if there were any, and is in step exactly when the file does not end torn; nothing loaded is owed to the disk |
| Oplog.OperationLogger.RecordOp | src/core/operation-logger.ts:885-888 | the operation is pending, work is queued, and every unwritten operation has a request that covers it |
| Oplog.OperationLogger.ClearOps | src/core/operation-logger.ts:846-851 | nothing is pending, and a rewrite that will say so is queued |
| Oplog.OperationLogger.PruneCreateDeletePair | src/core/operation-logger.ts:998-1006 | drops exactly the file's operations if one of them is a pending create, and then queues a rewrite |
| Oplog.OperationLogger.BeginPersist | src/core/operation-logger.ts:919-920 | an append takes the unwritten tail as it is when it starts |
| Oplog.OperationLogger.TakeCopy | src/core/operation-logger.ts:961-969 | a rewrite counts and copies the pending operations before its write |
| Oplog.OperationLogger.RejectAppend | src/core/operation-logger.ts:908-915 | an append that fails leaves the count and the queue as they are |
| Oplog.OperationLogger.FinishPersist | src/core/operation-logger.ts:940-971 | the mark moves by what was written, not to what memory holds by then |
| RegistryDisk.ReplayAt | src/core/file-registry.ts:120-139 | an id loads as its last journal line says, and as the snapshot has it without one |
| RegistryDisk.DeltaReads | src/core/file-registry.ts:163-187 | any whole-line prefix of a flushed delta loads each id as before or as memory has it; the whole delta loads memory |
| RegistryDisk.CompactCrashRecovers | src/core/file-registry.ts:201-224 | a crash between compaction's two writes recovers the same map when nothing was dirty or dropped |
| RegistryDisk.CompactCrashIff | src/core/file-registry.ts:201-224 | in general it does so exactly when every dirty or dropped id with a journal line has one that agrees with memory |
| RegistryDisk.AgreesFully | src/core/file-registry.ts:163-187 | with nothing dirty the disk loads exactly the map in memory |
| Registry.IndexKeepsCoherent | src/core/file-registry.ts:256-420 | storing an entry and re-indexing its path keeps every indexed path on an entry that has that path |
| Registry.DropKeepsCoherent | src/core/file-registry.ts:663-684 | so does dropping entries with the paths that lead to them |
| Registry.TombstoneRetentionMs | src/core/file-registry.ts:688-695 | the configured days from thirty on, and thirty days below that or without a finite setting |
| Registry.FileRegistry.Load | src/core/file-registry.ts:120-148 | the map the two files spell, every live path indexed, nothing dirty, also after the opportunistic compaction, which leaves a journal below its bounds |
| Registry.FileRegistry.Flush | src/core/file-registry.ts:163-187 | afterwards a load gives memory back and the journal is below its bounds; every disk state on the way loads each id as before or as memory has it |
| Registry.FileRegistry.Compact | src/core/file-registry.ts:201-224 | drops exactly the tombstones past the window that no pending operation names and no open conflict holds, and folds the journal; every disk state loads each id as before or as memory has it |
| Registry.FileRegistry.ReclaimTombstones | src/core/file-registry.ts:663-684 | exactly the old, unpinned, unconflicted tombstones go, with the paths that led to them |
| Registry.FileRegistry.ResetAll | src/core/file-registry.ts:231-240 | both files and memory end empty |
| Registry.FileRegistry.RegisterFile | src/core/file-registry.ts:256-296 | a tracked path keeps its id, a tombstone there comes back, an untracked path takes the new id |
| Registry.FileRegistry.UpdatePath | src/core/file-registry.ts:299-310 | the entry moves and the index follows |
| Registry.FileRegistry.UpdateContentHash | src/core/file-registry.ts:314-324 | content, clock and stat of the entry at the path change, nothing else |
| Registry.FileRegistry.RecordStat | src/core/file-registry.ts:333-341 | only the stat changes |
| Registry.FileRegistry.MarkDeleted | src/core/file-registry.ts:344-354 | the entry becomes a tombstone and its path stays indexed |
| Registry.FileRegistry.ApplyRemoteEntry | src/core/file-registry.ts:357-371 | a remote entry replaces ours only when its clock is strictly later |
| Registry.FileRegistry.AdoptRemote | src/core/file-registry.ts:382-420 | the path is tracked under the adopted id alone and a rival id is gone |
| Registry.FileRegistry.SetHeadVersion | src/core/file-registry.ts:429-435 | only the head changes |
| Registry.FileRegistry.MarkConflicted | src/core/file-registry.ts:446-455 | content, clock and open heads change, the head does not |
| Registry.FileRegistry.ClearConflict | src/core/file-registry.ts:460-466 | only the open heads are dropped |
| Registry.FileRegistry.SetSyncedPath | src/core/file-registry.ts:473-479 | the current path becomes the last synced one |
| Registry.FileRegistry.ReconcileWithVault | src/core/file-registry.ts:488-522 | each listed, untracked, not excluded path gets one empty live entry, indexed; live entries whose file is gone become tombstones; all else is kept, the index too |
| Capture.PacksKeepDurable | src/core/pack-checkpoint.ts:80-85 | more readable blobs keep every durable operation backed |
| Capture.RegistryKeepsDurable | src/core/operation-logger.ts:289-298 | a registry state between disk and memory keeps them backed |
| Capture.JournalKeepsDurable | src/core/operation-logger.ts:289-298 | operations may follow once their files and blobs are durable |
| CaptureRules.EveryChangeIsCaptured | src/core/operation-logger.ts:270-413 | after a listing without repeated paths, each listed file that is not excluded or too large, not gated by its stat, readable and changed has one create or update with its new hash and its head as parent, and its entry carries that hash and head; every other file has none |
| CaptureRules.FinishedDeletes | src/core/operation-logger.ts:415-458 | the end of a pass adds deletes only, each of an entry whose path was not listed, and none when nothing was listed |
| CaptureRules.PassMeans | src/core/operation-logger.ts:249-478 | so a whole pass that is not aborted captures every change of the listing, then deletes every live entry with content whose path was not listed, unless nothing was, and leaves every other entry as it was |
| Capture.PackCheckpoint.Tick | src/core/pack-checkpoint.ts:65-68 | a checkpoint after every so many items and not before, sound throughout |
| Capture.PackCheckpoint.Flush | src/core/pack-checkpoint.ts:80-85 | blobs, then registry, then log; every disk state in between is durable |
| Capture.CaptureFile | src/core/operation-logger.ts:323-413 | the books afterwards are exactly `CaptureOne`: an operation and its entry for a changed file, a fresher stat, or nothing |
| Capture.BuryMissing | src/core/operation-logger.ts:415-458 | in some order, the live entries whose path was not listed become tombstones and exactly those with content get a delete; nothing happens when nothing was listed while entries are live |
| Capture.CaptureOfflineChanges | src/core/operation-logger.ts:249-478 | at every disk call each create or update in the durable log names a durably registered file and a durably readable blob; a pass that is not aborted captures every change and deletes every missing file, as `PassMeans` says; an aborted pass or an empty listing emits no delete |
| Capture.Reopen | src/core/operation-logger.ts:166-216 | after a crash in any durable state, store, registry and log loaded from it are ready for a capture exactly when the journal does not end torn; every journalled operation is pending again and the load's own disk states are durable |
| KeepSet.ReferencedHashes | src/core/file-registry.ts:581-591 | exactly the contents of live entries and what their heads reach within the bounds |
| KeepSet.VersionRoots | src/core/file-registry.ts:610-619 | exactly the heads of all entries, tombstones included, and the open heads of conflicts |
| KeepSet.GapFreeIsOpen | src/core/version-dag.ts:291-315 | the bounded walk reaches the end of every path whose inner versions are held or hashless |
| KeepSet.OpenIsGapFree | src/core/version-dag.ts:291-315 | and nothing else |
| KeepSet.ReachesIffPath | src/core/version-dag.ts:291-315 | a hash is reached, under any depth bound and any holdings, exactly over a path upwards without a gap that takes no more steps than the depth |
| KeepSet.ReferencedIsNeeded | src/core/file-registry.ts:581-591 | bounded by what the store holds, the keep-set is exactly the live contents and what live heads reach without a gap |
| KeepSet.SweepKeepsReferenced | src/main.ts:1169-1181 | sweeping the graph first does not change the keep-set |
| KeepSet.SweepMeans | src/main.ts:1169-1181 | the sweep keeps exactly the versions that an entry or a pending operation names, and their ancestors, unchanged, and all of them if none of the names is known |
| KeepSet.UnneededGoes | src/main.ts:1126-1146 | a pack past the window that holds nothing the vault needs is gone with all its entries |
| KeepSet.RunContentGc | src/main.ts:1126-1146 | sweep, keep-set and collection together, on whatever disk the store was opened: in every disk state each needed blob that read still reads; the graph is swept to what is named; from an empty buffer and without a throw, packs past the window that hold nothing needed are gone |

## Left out

- DiffAsWritten.WrittenThrowsIff: exact up to the first pair that opens a pile after the first reorder; for pairs after that one `SearchThrowsIff` and the deal itself say when it throws, not a condition on the list.
- Diff.LongestIncreasingSubsequence: that it is longest is proved of the lookup through the pairs; what line 111 returns where it does not throw is proved increasing, not longest.
- PackStore.ContentStore.ConsolidatePacks: with blobs already buffered it asks that no small pack's id is still to be given out; the exact condition is for a merge that starts with nothing buffered.
- PackReuse.ConsolidationLoses: speaks of consolidations that run to their end from an empty buffer, not of one that throws on a slice that is not base64.
- Index tears inside a line, JSON tears inside a line of the registry and graph journals, and appends after such a tear: the code does not guarantee them.
- A disk write of the log's rewrite that fails: the code then keeps its count and its queue as if it had not run.
- CaptureRules.EveryChangeIsCaptured: for a listing that names no path twice; a path listed again is captured against what its first listing left, as `Capture.CaptureFile` has it.
- Two operations of one content store interleaved at their awaits; the model runs them one after another.
- The listener's live edits during a registry flush: the registry is modelled sequentially.
- JavaScript numbers beyond 2^53, and the rounding of the live fraction 0.5, which is compared exactly.
- Which of two live entries at one path a loaded path index names, the order of `leaves`, and the order in which maps are walked.
- `mergeVersionId` and the operation factories of `src/core/operations.ts`: not part of this model; ids are parameters.
- `server-sync.ts` and `conflict-policy.ts` are not part of this model, nor is the round orchestrator.
- The applicator, coordinator, cursor and state stores, encryption, HTTP transport, settings, views and notices.
- Progress callbacks, performance counters and timings.
- The baseline capture and the watcher's debounce timers, whose pushes and persists are steps the log's model already has.
