# workflowy-mcp-server: a verified model of its walks, writes, cache and stores

This project models the parts of the Workflowy client that carry state across many remote calls, and
proves what they promise. Everything is stated about one abstract remote outline: a finite forest of
nodes with id, parent, priority, name, note and completed flag, listed per parent in the order the
server stores it. The network, the clock and the cancel flag are an oracle (`Network.Net`, or an
answer function per step): quantifying over it covers every completion order of concurrent fetches,
every failure pattern and every moment of cancellation or expiry.

How the files fit together:

- `Sequences`, `Outlines`, `LevelOrder`, `NodeSlices`: stable sorting, subsequences, forests, display
  listings and the recursive level-order listing that the walk is measured against.
- `Network`, `BranchRecovery`, `WalkRuns`, `WalkInvariant`, `SkipLists`, `SubtreeWalk`, `SubtreeFetch`: the
  subtree walk, with its node cap, its stops, its one retry wave, its patient recovery and its list of
  dropped branches.
- `ReadPrefix`, `StoppedWalks`, `WalkStops`, `FetchRuns`: for every run of the walk, at every exit, when the
  nodes it returned are a prefix of the full read, what its report names, and how soon it heeds a halt.
- `Transactions`, `Hierarchies`, `StepEffects`, `RollbackTheorems`, `RollbackSparing`, `TransactionRun`:
  transaction steps over a server that cascades deletions and stays a forest, what each step asks and does,
  its inverse, what the rollback restores and what it spares.
- `IndentedInsert`, `InsertReadBack`, `Markdown`, `MarkdownRoundTrip`, `MarkdownNotes`: inserting indented
  content with a parent stack, reading it back, the round trip through the Markdown printer and the parser,
  and what the parser makes of any text and of notes.
- `Reorder`, `DeepCopy`, `FetchedTrees`: reordering by reverse moves to the head, the breadth-first
  copy, and the proof that what a fetch returns is the tree that the copy and the printers need.
- `ListingCache`, `ChildrenIndex`: the listing cache, its write funnel and the subtree invalidation.
- `RateLimiter`, `Idempotency`, `Entities`, `MirrorAudit`: the token bucket, the idempotency store,
  XML escaping with its decoder, and the mirror audit with its target extraction.

Code that updates state in place is a class or a method with loops, proved against a specification
function of the old state; the results the repository promises are then proved about those functions,
for every run, every history or every input.

Where the code and its own comments disagree, the model follows the code:

- A walk that fetches a level counts a total equal to the cap as a cut; only a walk that fetches no
  level below the first may use the cap in full (`SubtreeFetch.CapBinds`;
  src/api/client.rs:1057-1067, 1183-1300).
- With a root, depth d returns levels 0 to d + 1 (src/api/client.rs:1183, 1289-1301), although
  src/workflows.rs:1855-1857 says depth 0 returns just the root. It does so exactly when the root has no
  children (`SubtreeFetch.DepthZeroExactly`), so a root-only copy of a node with children also copies
  them (`FetchedTrees.DuplicateSubtree`).
- The two exits at src/api/client.rs:1191 and 1200 drop the skip list gathered so far:
  `FetchRuns.FetchLosesList` is such a fetch. At every other exit the list is reported
  (`WalkRuns.ListKeptExactly`), and a list that is reported is complete
  (`SubtreeFetch.ReportedSkipsComplete`), wherever the walk stopped.
- A stopped level need not be the prefix of the full one that src/api/client.rs:1254-1256 describes:
  `FetchRuns.FetchOutOfOrder` is such a fetch. What a walk returns, at any exit and whatever it dropped on
  earlier levels, is a prefix of the full read exactly when it ends before the children of the first
  parent that was dropped or left undelivered and has any (`StoppedWalks.StoppedPrefixExactly`,
  `FetchRuns.FetchPrefixExactly`).
- A move posts to `/nodes/{id}/move` (src/api/client.rs:1787), so the id the funnel strips names no
  node and the old parent's listing stays cached, although src/api/client.rs:441-445 lists moves among
  the covered writes. `ListingCache.MoveCoherentExactly` gives the exact condition.
- The rollback of an edit cannot clear a note that was absent before, a move-back is skipped when the
  previous parent is unknown, and an edit of name and note is two writes.
  `RollbackTheorems.StepUndoExact` gives the exact condition under which a step is undone.
- The extraction of unresolved mirror targets matches ends of ids of any length, the audit only from
  eight characters on. `MirrorAudit.SkippedExactly` gives the exact difference.

## Model

| member | source | states |
|---|---|---|
| Outlines.GetChildren | src/api/client.rs:938-977 | a child listing shows each raw child once with its parent filled in: those without a priority first, then by increasing priority, in raw order where the priorities do not decide |
| Outlines.TopLevelDisplayed | src/api/client.rs:938-940 | the top level is shown in the same order, with nothing filled in |
| Sequences.StableSortProps | src/api/client.rs:938-940 | the display sort permutes, orders by key and keeps the upstream order of equal keys |
| Sequences.StableSortUnique | src/api/client.rs:938-940 | order plus per-key order determine the sorted listing: there is only one stable sort |
| LevelOrder.ListedIsReachable | src/api/client.rs:1165-1310 | the recursive listing the walk is compared with holds exactly the nodes reachable by a downward path of at most d steps from its first level |
| LevelOrder.ListedDistinct | src/api/client.rs:1165-1310 | over a forest the level-order listing repeats no id |
| LevelOrder.DocumentOrder | src/api/client.rs:1139-1156 | blocks of children fetched in any completion order sort back to the level order of their parents; only the unfetched branches are missing |
| LevelOrder.PrunedSubseq | src/api/client.rs:1254-1258 | leaving out any set of branches leaves a subsequence of the full listing |
| LevelOrder.PrunedCoverage | src/api/client.rs:1270-1278 | with branches s left out, a listed node above the last level has all of its children listed, or is in s and has none |
| SubtreeWalk.OrderLevelByParent | src/api/client.rs:1139-1156 | no node is lost or added; under two or more parents the nodes come in the order of their parents' positions and those of one parent keep theirs; otherwise the level is untouched |
| SubtreeWalk.ReorderedLevel | src/api/client.rs:1139-1156 | the reordered level is the level order of the parents that were fetched, for every completion order |
| BranchRecovery.FetchWave | src/api/client.rs:1410-1442 | one fan-out delivers the children of some branches exactly once and reports exactly the others as failed |
| BranchRecovery.RetrySkippedBranches | src/api/client.rs:1384-1442 | a retry conserves branches; once halted, or under a window longer than the budget, nothing is fetched, and otherwise each branch is, once; nothing recovered means one of these or a wave in which every fetch was refused |
| BranchRecovery.RecoverSkippedBranches | src/api/client.rs:1329-1369 | recovery terminates and conserves branches; a patient one leaves branches behind only when halted, out of budget, or after a wave over all of them that delivered nothing |
| BranchRecovery.OneWave | src/api/client.rs:1329-1369 | an interactive recovery fetches each dropped branch at most once more |
| BranchRecovery.ConservedExclusive | src/api/client.rs:1329-1442 | every distinct branch handed to recovery is either in the recovered children, once, or in the failed list, never both and never neither |
| SubtreeWalk.FetchLevel | src/api/client.rs:1206-1250 | at every moment of a level's fan-out each parent is fetched, failed or outstanding exactly once; a stop is a halt that was observed or a cap that was reached |
| SubtreeWalk.NextLevel | src/api/client.rs:1206-1284 | fetch, recover and reorder yield the level order of the parents that were not lost, whatever the completion order |
| WalkInvariant.WalkingAdvance | src/api/client.rs:1183-1287 | one level keeps the invariant: what was emitted plus the rest of the pruned listing is the pruned listing from the start |
| WalkInvariant.WalkingEnd | src/api/client.rs:1289-1309 | a walk that reaches its end emitted exactly the listing without the skipped branches |
| SubtreeWalk.FetchDescendants | src/api/client.rs:1165-1310 | every exit appends a subsequence of the listing with each node's parent, within the cap, with a reason that is true of what happened; the dropped branches account for all that is missing above the level of the stop |
| WalkRuns.ListKeptExactly | src/api/client.rs:1188-1204 | the reported skip list is the list of dropped branches if and only if there is none or the walk did not end at one of the two exits before a level is fetched |
| WalkRuns.LostSkipList | src/api/client.rs:1199-1204 | in every outline whose second node has one child, a concrete run, from any tick on, drops the first branch and reports no skip list |
| WalkRuns.StoppedOutOfOrder | src/api/client.rs:1252-1258 | a concrete stopped run returns the second parent's child without the first's, which is no prefix of the full read |
| StoppedWalks.NextDelivers | src/api/client.rs:1206-1258 | the next level of a run, stopped or not, is the level order of the parents that neither failed nor were left undelivered |
| StoppedWalks.RunPruned | src/api/client.rs:1165-1310 | at every exit of every run, what it returned is a prefix of the full read without the children of the branches it dropped on any level and of those a stop left undelivered |
| StoppedWalks.StoppedPrefixExactly | src/api/client.rs:1252-1258 | at every exit of every run, what it returned is a prefix of the full read if and only if it ends before the children of the first parent, in reading order, that was dropped or left undelivered and has any |
| ReadPrefix.PrefixExactly | src/api/client.rs:1252-1258 | a prefix of the read without a set of lost branches is a prefix of the full read if and only if it ends before the first lost parent's children |
| ReadPrefix.GapIsFirst | src/api/client.rs:1252-1258 | the position used there is that of the first lost parent that has children |
| SkipLists.DroppedExplains | src/api/client.rs:1265-1309 | wherever a walk stops, nothing is emitted below a dropped branch, and an emitted node has a child emitted if and only if the node was not dropped, as soon as anything deeper than the child is emitted |
| SubtreeFetch.GetSubtree | src/api/client.rs:1009-1115 | a fetch reported complete returned exactly the canonical listing, once each; any fetch is a repeat-free subsequence with parents, within the cap when it is at least one, and truthfully explained; with no failure or halt it is truncated exactly when the cap binds |
| SubtreeFetch.SiblingsDisplayed | src/api/client.rs:938-977 | however a fetch ended, of two returned siblings the one without a priority, or with the smaller one, comes first |
| SubtreeFetch.CanonicalDistinct | src/api/client.rs:1057-1067 | the canonical answer (scope node, then level order) repeats no id |
| SubtreeFetch.Coverage | src/api/client.rs:1270-1309 | in a fetch that was not cut, a returned node above the depth bound, the scope node included, has all its children returned exactly when it is not a reported skipped branch, and otherwise none |
| SubtreeFetch.ReportedSkipsComplete | src/api/client.rs:1265-1309 | a nonempty skip list is complete even if the fetch was cut: no child of a listed branch is returned, and a returned node has a child returned if and only if the node is not in the list, as soon as anything deeper than the child is returned |
| FetchRuns.FetchPrefixExactly | src/api/client.rs:1009-1115 | the nodes of any fetch are a prefix of the full answer if and only if they end before the children of the first dropped or undelivered parent that has any; a fetch that ends before its walk starts returns a prefix |
| FetchRuns.FetchLosesList | src/api/client.rs:1199-1204 | with a scope node or without, a concrete fetch whose first reads succeed drops a branch and reports no skip list |
| FetchRuns.FetchOutOfOrder | src/api/client.rs:1252-1258 | with a scope node or without, a concrete cancelled fetch returns nodes that are no prefix of the full answer |
| SubtreeFetch.DepthZeroExactly | src/api/client.rs:1289-1301 | a fetch of depth zero answers with the root alone if and only if the root has no children |
| SubtreeFetch.QuietReport | src/api/client.rs:175-188 | when nothing fails or halts, truncation is reported exactly when the cap cuts the full answer |
| WalkStops.AnchorExactly | src/api/client.rs:1183-1309 | the node a report names, exit by exit: the parent of the first node the cap left out, the parent of the first node of the last level, a parent whose children had not arrived, or the first dropped branch |
| WalkStops.FetchFillsCap | src/api/client.rs:1183-1300 | a fetch cut by its cap returned as many nodes as the cap allows |
| WalkStops.HaltHeeded | src/api/client.rs:1199-1258 | a fetch on a network that halts at some tick is over by then or reports the halt |
| StepEffects.StepEffect | src/workflows.rs:1044-1172 | op by op: which requests and replies make a step succeed, and exactly what it then does: a create adds one uncompleted node as described, an edit writes the given fields, a move changes parent and priority, the completions set the flag, a delete removes the node and all below it; a step that fails changed nothing or landed all the same |
| StepEffects.InverseEffect | src/workflows.rs:1177-1241 | an inverse succeeds and acts as the delete, edit, move or completion it amounts to; a move back to an unknown parent changes nothing |
| Hierarchies.StepKeepsHierarchy | src/workflows.rs:1044-1172 | each step, landed or lost, deletes with cascade and moves included, leaves every parent present and no node above itself |
| Hierarchies.RollbackHierarchy | src/workflows.rs:997-1019 | however the inverses are answered, the rollback keeps the outline a forest |
| RollbackTheorems.StepUndoExact | src/workflows.rs:1044-1242 | over a forest, the inverse of a successful step restores the outline if and only if the step was restorable, a condition read off the outline and the pre-read before the step |
| RollbackTheorems.RollbackRestores | src/workflows.rs:997-1019 | undoing any number of steps, each restorable where it was taken, last-in first-out with every inverse acknowledged gives back the outline before the first step |
| RollbackTheorems.SafeAllRestorable | src/workflows.rs:1044-1172 | steps that delete nothing, are pre-read, note over nothing absent and move nodes with a parent and a 32-bit priority are restorable whatever their inverses meet |
| RollbackTheorems.EarlierInverseMasks | src/workflows.rs:1092-1106 | the per-step condition is not needed for a whole run: the inverse of an earlier edit can put back what a later edit without an inverse changed |
| RollbackSparing.RollbackSpares | src/workflows.rs:997-1019 | if every step that moves an existing node names a parent whose id had been issued before the transaction, the rollback destroys no older node that is still there when it starts, whatever pre-reads fail and however the inverses are answered |
| RollbackSparing.DestroysExactly | src/workflows.rs:997-1019 | some server behaviour makes the rollback destroy an older node if and only if, for some choice of the ids the server issues, the steps, all succeeding, move an older node under one the run created; that needs a step that names an id not yet issued |
| RollbackSparing.CreateThenMoveCaught | src/workflows.rs:862-874 | a create that is not below an existing node, followed by a move of that node under an id not yet issued, can be such a run |
| TransactionRun.RunTransaction | src/workflows.rs:972-1028 | the whole run: applied, with every step accepted and its effect had in order, or rolled back from the first step that was not accepted, from the failing step's state with the stack replayed; equal to the start if the steps were restorable, the failure changed nothing and the inverses were acknowledged; never losing an older node if moves name issued parents; a forest in any case |
| RollbackTheorems.HalfEditRemains | src/api/client.rs:1586-1596 | a failing edit of name and note can leave the new name behind with no inverse recorded |
| RollbackTheorems.NoteNotCleared | src/workflows.rs:1191-1198 | a note written where there was none survives the rollback |
| IndentedInsert.ClampStepwise | src/workflows.rs:706-708 | clamped depths start at zero and rise by at most one |
| IndentedInsert.ClampedDepths | src/workflows.rs:706-708 | a line keeps its indent if that is at most one below the line before, and is one below that line otherwise |
| IndentedInsert.OverIndented | src/workflows.rs:706-708 | an over-indented line becomes a child of the line just before it |
| IndentedInsert.NearestProps | src/workflows.rs:683-798 | the parent line of a line is the last earlier line one level up, with no such line in between |
| IndentedInsert.InsertContentViaIndented | src/workflows.rs:645-821 | what is held are the first lines in order, each with its line number as priority under the line that opens it, its depth being its indent unless that is more than one below the line before; the outcome, its reason, counts, last id and stopping line are determined by the answers; one line more than counted is held exactly if the create the run stopped at landed after all |
| InsertReadBack.DisplayOrder | src/api/client.rs:938-940 | however the server stores a parent's created children and rescales their priorities, the display sort returns them in line order |
| InsertReadBack.InsertReadsBack | src/workflows.rs:683-798 | whatever trees a reader is shown under the base, each node's children displayed by the sort from an arbitrary stored order and order-preserving rescaled priorities, their pre-order reading is the created lines in order with their clamped depths |
| InsertReadBack.DisplayExists | src/api/client.rs:938-940 | for every such storage there are trees to be shown |
| InsertReadBack.PlantedPrefix | src/workflows.rs:683-798 | a partial run's forest is the forest of its first created lines |
| Markdown.RenderNote | src/utils/subtree.rs:31-35 | each line of a note becomes one line, indented four spaces below its bullet |
| Markdown.RenderWalk | src/utils/subtree.rs:23-41 | the recursive walk appends the rendering of the tree that the parent links describe |
| Markdown.RenderSubtreeMarkdown | src/utils/subtree.rs:15-46 | the output is the rendering of the root's tree, or nothing if the root is not in the slice |
| MarkdownRoundTrip.HeadingExact | src/workflows.rs:611-626 | a bullet's text comes back as the name behind "- " if and only if the name is nonempty and does not end in whitespace |
| MarkdownRoundTrip.MarkdownParses | src/workflows.rs:611-626 | parsing the Markdown of a plain tree gives its pre-order rows with their depths |
| MarkdownNotes.ContentByLine | src/workflows.rs:611-626 | any text is parsed line by line |
| MarkdownNotes.LineParses | src/workflows.rs:615-623 | a line with text keeps it without the whitespace around it, at half the bytes of its leading whitespace |
| MarkdownNotes.WhitespaceIs | src/workflows.rs:615-619 | what counts as whitespace and the bytes each character takes |
| MarkdownNotes.NotedMarkdownParses | src/utils/subtree.rs:29-42 | parsing the Markdown of a tree with notes gives each name at its depth, then the lines the note itself parses to, two levels deeper, then the children |
| MarkdownNotes.NotesVanishExactly | src/utils/subtree.rs:31-35 | a tree comes back as its names alone if and only if every note is blank |
| MarkdownRoundTrip.RowsInjective | src/utils/subtree.rs:23-41 | the rows with their depths determine the tree's shape |
| MarkdownRoundTrip.PlantedShows | src/workflows.rs:683-798 | lines at the depths of a forest are rebuilt as that forest: it is what any reader is shown, in display order, however the server stores the nodes |
| MarkdownRoundTrip.MarkdownRoundTrip | src/workflows.rs:645-821 | render, parse and insert: with every create succeeding, what any reader is then shown of a plain tree of at most 80 nodes, through the display sort, has the same shape and sibling order, each name behind a bullet |
| Reorder.MoveAll | src/workflows.rs:1605-1658 | the reverse walk leaves the landed ids in request order at the head of the parent and one result per position reached |
| Reorder.ReorderNodesViaPriority | src/workflows.rs:1547-1678 | rejects untouched exactly the empty requests, those of more than 200 ids, those with a duplicate and those naming the parent; otherwise the walk down stops above the first position that finds it cancelled or expired, and the entries, the counts and the children of every node are determined by the answers from there on |
| Reorder.RunPlaces | src/workflows.rs:1605-1658 | after any run the parent's children are the landed ids in request order, then the other old children in old order |
| Reorder.RerunCompletes | src/workflows.rs:1542-1546 | any partial run followed by a fully successful rerun ends in the same outline as one successful run |
| DeepCopy.DeepCopySubtree | src/workflows.rs:1778-1921 | a partial source or a missing root creates nothing; if every create succeeds, one copy per source node, each under its parent's copy, transformed; otherwise the copies of the first nodes in breadth-first order, interrupted after as many as are counted, or failed at the next create, whose copy is held too if it landed after all |
| DeepCopy.CopyDescendants | src/workflows.rs:1858-1918 | the queue loop terminates; wherever it stops the copied nodes and the queue are the breadth-first order so far, and at its end every node of the tree was visited once |
| NodeSlices.ChildrenInOrder | src/workflows.rs:1858-1865 | the children of a node are taken in the order of the fetched nodes |
| DeepCopy.IdMapBijective | src/workflows.rs:1851-1911 | different source nodes have different copies, none of them the target |
| DeepCopy.CopyKeepsChildren | src/workflows.rs:1873-1918 | in a complete copy the children created under a node's copy are the copies of its children, in source order, and nothing else |
| FetchedTrees.FetchedIsTree | src/workflows.rs:1805-1832 | the nodes of any fetch that returned its scope node are a tree under it |
| FetchedTrees.DuplicateSubtree | src/workflows.rs:1805-1921 | fetch then copy: success makes exactly one node for each node of the source's whole listing, a truncated or failed fetch makes none; a copy of depth zero makes one node more than the source has children |
| FetchedTrees.TreeRepresented | src/utils/subtree.rs:11-21 | every tree-shaped slice, in whatever order, is described by a tree that the printer renders |
| ListingCache.NodeCache.constructor | src/utils/cache.rs:45-53 | a new cache is empty and outside batch mode |
| ListingCache.NodeCache.ChildrenListing | src/utils/cache.rs:120-129 | a present listing is served for 30 whole seconds, or under a clock that went back, and never after |
| ListingCache.NodeCache.InsertChildrenListing | src/utils/cache.rs:137-163 | the new entry is added after making room: below 4096 listings nothing else changes, otherwise exactly those over 30 seconds old go, or all if that is not enough; every child then leads to this listing |
| ListingCache.NodeCache.InvalidateListing | src/utils/cache.rs:166-168 | drops that listing only |
| ListingCache.NodeCache.InvalidateListingContaining | src/utils/cache.rs:173-178 | drops the listing recorded as displaying the node, if any |
| ListingCache.NodeCache.InvalidateNode | src/utils/cache.rs:205-209 | drops the node's entry, its own listing and the listing displaying it |
| ListingCache.InvalidateListingsForWrite | src/api/client.rs:446-456 | exactly these listings are dropped: of the node the endpoint addresses, the one displaying it, of the parent the body names, and the root's for a create without parent |
| ListingCache.EventCoherent | src/api/client.rs:446-456 | each read, create, edit, completion or delete, landed or not, keeps the cache equal to the live listings it holds and within its bound |
| ListingCache.RunsReadLive | src/api/client.rs:942-977 | over every run of those events by one client, every listing read of an existing parent returns the live listing, and the cache never exceeds its bound |
| ListingCache.ColdCoherent | src/utils/cache.rs:212-218 | a cleared cache is coherent with every server, so runs may start from it |
| ListingCache.MoveCoherentExactly | src/api/client.rs:1776-1800 | after a landed move the cache is coherent if and only if the old parent's listing was not cached or is also the new parent's |
| ListingCache.MovedNodeStillServed | src/api/client.rs:1787-1800 | otherwise a read of the old parent still shows the moved node |
| ListingCache.NodeCache.InvalidateSubtree | src/utils/cache.rs:181-200 | outside batch mode exactly the ids reachable from the root lose their cached entry and own listing, and the listing displaying the root goes too; in batch mode nothing changes |
| ListingCache.NodeCache.ClearReached | src/utils/cache.rs:186-197 | the worklist loop terminates and clears exactly what the root reaches |
| ChildrenIndex.TurnsTaken | src/utils/cache.rs:189-197 | the loop takes exactly as many turns as the unfolded size of the worklist: one visit per path |
| ChildrenIndex.EndsExactlyWhenAcyclic | src/utils/cache.rs:189-197 | the worklist runs out if and only if no cycle of the index can be reached from it |
| RateLimiter.TokenBucket.constructor | src/utils/rate_limiter.rs:46-61 | the bucket starts full, at the configured rate |
| RateLimiter.TokenBucket.Refill | src/utils/rate_limiter.rs:154-161 | adds elapsed time times the rate, up to the burst |
| RateLimiter.TokenBucket.TryConsumeOrWait | src/utils/rate_limiter.rs:137-150 | takes a whole token if there is one, otherwise answers the time until there is |
| RateLimiter.TokenBucket.Drain | src/utils/rate_limiter.rs:110-116 | empties the bucket and halves the rate, not below one per second |
| RateLimiter.TokenBucket.Reward | src/utils/rate_limiter.rs:121-127 | raises the rate by a tenth, or to the configured one if that is less |
| RateLimiter.Run | src/utils/rate_limiter.rs:110-161 | over every interleaving the rate stays between one and the configured rate, and the tokens between zero and the burst |
| RateLimiter.GrantBound | src/utils/rate_limiter.rs:110-161 | over every interleaving with a non-decreasing clock, grants are at most what the bucket can show at the start plus the top rate times the elapsed time |
| RateLimiter.WindowBound | src/utils/rate_limiter.rs:137-161 | in any window, whatever preceded it, grants are at most the burst plus the configured rate times its length |
| RateLimiter.DrainedBound | src/utils/rate_limiter.rs:110-127 | after a drain, with k rewards, grants in time T are at most (max(1, r/2) + 0.1 k) T: no burst |
| RateLimiter.RateExact | src/utils/rate_limiter.rs:118-127 | without a drain, k rewards bring the rate to r + 0.1 k, or to the configured rate if that is less, whatever is asked in between |
| RateLimiter.DrainedRate | src/utils/rate_limiter.rs:110-127 | a drain empties the bucket and halves the rate, to no less than one, and k rewards later it is 0.1 k higher or back at the configured rate |
| RateLimiter.RewardsRestore | src/utils/rate_limiter.rs:118-127 | enough rewards always restore the configured rate |
| RateLimiter.AsksConserve | src/utils/rate_limiter.rs:50-102 | while the burst does not bind, the tokens granted and those left are those at the start and the rate times the time passed |
| RateLimiter.WaitSuffices | src/utils/rate_limiter.rs:137-150 | a reported wait is at most one second, and an ask after it is granted if the burst is at least one and nobody consumed or drained meanwhile, whatever rewards and refused asks came |
| RateLimiter.WaitExact | src/utils/rate_limiter.rs:137-150 | with nothing in between, an ask is granted if and only if the wait has passed |
| RateLimiter.NoBurstNoGrant | src/utils/rate_limiter.rs:137-150 | with a burst below one no ask is ever granted |
| Idempotency.IdempotencyStore.constructor | src/utils/idempotency.rs:75-81 | the store starts empty with its lifetime and cap |
| Idempotency.IdempotencyStore.Check | src/utils/idempotency.rs:86-95 | prunes, then answers with the stored result and its age |
| Idempotency.IdempotencyStore.Record | src/utils/idempotency.rs:100-121 | overwrites the key, prunes, then caps |
| Idempotency.IdempotencyStore.PruneExpired | src/utils/idempotency.rs:123-125 | keeps exactly the entries younger than the lifetime |
| Idempotency.IdempotencyStore.EnforceCap | src/utils/idempotency.rs:129-142 | above the cap exactly cap entries remain and none dropped is newer than one kept |
| Idempotency.HistoryHolds | src/utils/idempotency.rs:86-142 | over every history with a non-decreasing clock: entries are the latest records, a fresh one is missing only if enough others are as new, a newer one is never missing while an older stays, and the cap holds |
| Idempotency.CheckAnswers | src/utils/idempotency.rs:86-95 | a hit is exactly the latest record, younger than the lifetime; such a record is missed only if at least cap other keys were recorded no earlier, and always once cap others were recorded later |
| Idempotency.BelowCapIsLog | src/utils/idempotency.rs:129-142 | with fewer other keys than the cap the store answers as an unbounded log |
| Entities.EscapeIsPerCharacter | src/utils/subtree.rs:53-59 | the five replacements in turn equal the single-pass map to the predefined entities of section 4.6 of XML 1.0 |
| Entities.DecodeUndoesEscape | src/utils/html.rs:72-84 | decoding escaped text gives back the text with non-breaking spaces turned into spaces |
| Entities.DecodePieces | src/utils/html.rs:72-84 | any text of plain characters and known references is decoded piece by piece |
| Entities.KnownReferences | src/utils/html.rs:72-84 | the references the decoder knows, and what each stands for |
| Entities.RoundTripExactly | src/utils/html.rs:72-84 | the round trip is the identity if and only if the text has no U+00A0 |
| Entities.EscapedIsClean | src/utils/subtree.rs:53-59 | escaped text holds no angle bracket and no quote |
| Entities.AmpersandOrderMatters | src/utils/html.rs:69-84 | decoding the ampersand first or escaping it last changes the text, on concrete inputs |
| MirrorAudit.Resolve | src/audit.rs:228-271 | the lookup finds a fitting node of the walk if there is one, else a fitting external canonical if there is one, else nothing |
| MirrorAudit.OwnFindings | src/audit.rs:229-300 | among one node's findings, broken is reported if and only if its target resolves in neither scope, and drift or orphan only if it resolves in one |
| MirrorAudit.AuditMirrorsWithExternal | src/audit.rs:192-316 | the report is the nodes' findings in order, then one lonely finding per claimed canonical without mirrors |
| MirrorAudit.MirrorJudged | src/audit.rs:222-300 | with distinct ids, a mirror is broken if and only if nothing matches its target; otherwise there is a matching canonical, in the walk if one matches there, such that drift is reported if and only if neither stripped lowered name contains the other and an orphan if and only if the canonical is known to lack its marker |
| MirrorAudit.MatchExactly | src/audit.rs:201-207 | ids match if and only if, up to case, they are equal or one of at least eight characters has the other at one of its ends |
| MirrorAudit.ReportInOrder | src/audit.rs:213-316 | the report goes through the nodes in order, drift before orphan, and the lonely findings come last |
| MirrorAudit.BrokenExactly | src/audit.rs:259-271 | a mirror is reported broken if and only if neither scope resolves its target |
| MirrorAudit.BrokenExcludes | src/audit.rs:228-300 | with distinct ids a broken mirror is reported neither drifted nor orphaned |
| MirrorAudit.OtherFindingsCaused | src/audit.rs:230-300 | a drift or orphan finding names a canonical the target resolves to, outside the walk only if nothing inside fits; an orphan only one known to lack the marker |
| MirrorAudit.LonelyExactly | src/audit.rs:303-314 | a node is reported lonely if and only if it is the first with the id of a claimed canonical that no mirror's target fits |
| MirrorAudit.ExtractUnresolvedMirrorTargets | src/workflows.rs:2168-2187 | the result holds, once each and in order of first appearance, exactly the mirror targets that no node id end-matches |
| MirrorAudit.SkippedExactly | src/workflows.rs:2168-2187 | a target the walk does not resolve is left out of the extraction if and only if an id shorter than the audit's minimum end-matches it |
| MirrorAudit.CoveredIsUnbroken | src/audit.rs:259-271 | with ids of at least eight characters every broken target is extracted, so an external map that covers the extracted targets leaves nothing broken |
| MirrorAudit.ShortIdsEscape | src/workflows.rs:2177-2179 | a concrete short id for which a broken mirror's target is not extracted |

## Left out

- ListingCache.NodeCache.InvalidateSubtree: asks that no cycle be reachable from the root; by ChildrenIndex.EndsExactlyWhenAcyclic the loop does not end otherwise.
- DeepCopy.DeepCopySubtree: asks that the fetched nodes be a tree under the source; FetchedTrees.WholeIsTree shows that a whole fetch is one.
- RateLimiter.TokenBucket.TryConsumeOrWait: asks for a rate of at least one, which the constructor sets up and every operation keeps.
- MirrorAudit.BrokenExcludes: asks for distinct node ids, because findings are told apart by id.
- HTTP, retries inside one request, async tasks and locks: a remote call is an oracle answer, a lock is one atomic step. A retry may send a create again after a retryable error (src/api/client.rs:1891-1956), so an acknowledged create may have landed twice: the insertion and the copy count such a create once.
- The interactive and patient fetch widths: any number of fetches may be in flight, in any order, which contains both.
- Children that the base of an insertion had before: the reading is of the created nodes.
- Walk reads through the listing cache: the walk reads the live outline and the cache is proved equal to it separately.
- Changes to the outline by others while a walk or a copy runs.
- `sort_children_by_priority` and `order_level_by_parent` sort a slice in place: modelled as the stable sort of a sequence value, so aliasing is not captured.
- `completedAt` and other server-derived fields: the model's node has only the fields the operations read or write.
- Where the server places a create that carries no priority: the copy decides only the order of creates.
- What the server validates, except that it refuses a write to a missing node, a create or move under a missing parent, and a move of a node under itself or its descendants.
- Mutation footprints, log lines, error texts and operation summaries.
- The 404 retries of single writes: a write is acknowledged, refused, or lands with an error reported.
- `NodeCache` members `insert`, `insert_batch`, `get`, `get_all`, `rebuild_children_index` and `stats`: single map operations.
- Cache coherence under concurrent readers and writers, and under moves beyond the exact condition proved.
- The rounding of floating-point tokens and of durations, the sleep loops of `acquire` and `acquire_cancellable`, and a configured rate of zero, for which the wait is infinite and its conversion panics.
- Which of several equally old idempotency entries is evicted, and which of several fitting canonicals is found: the hash map decides, so every choice is covered.
- Marker, tag and anchor regular expressions: given functions of the text. Lowering is ASCII and lengths count characters, as ids are ASCII.
- OPML rendering beyond `xml_escape`, and `strip_html` and the link rendering of `render_display`.
- `start_depth` of the walk is fixed at the value its one caller passes.
- The review report, native mirrors, the job queue, the name index, the operation log, date buckets, bulk operations and command-line parsing.
