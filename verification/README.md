# Sub2API sync pipeline, eager loading, bulk create and audit gate: a verified model

Three parts of the repository, each with the property it exists for.

**The upstream-sync pipeline** (`tools/sub2api_upstream_inventory.py`, `tools/sub2api_upstream_sync.py`) pages through
commits, walks and prunes two file trees, compares them into rows, builds a plan, validates rows and plan, and copies
approved files into one zone of a worktree. File trees are a recursive datatype (`FileTree.Node`), the snapshot and the
worktree are two such trees, and applying a plan is `FileTree.Put` on the worktree's root.
`Pipeline.InventorySurvivesTheSync` ties the stages together.

**Batched eager loading and bulk create** (`backend/ent/apikey_query.go`, `backend/ent/account_query.go`,
`backend/ent/apikey_create.go`). Entities whose edges are filled in are classes, index maps are maps of objects, the
database is an arbitrary answer. Bulk create is a class whose recursive methods write shared arrays;
`BulkCreate.Chain` says what they do, and its lemmas hold for any hooks.

**The audit-exception gate** (`tools/check_pnpm_audit_exceptions.py`): parsing the exception file, reading the report,
the two checking loops, and the exit code.

The modules: `Text`, `FileTree` and `Wrappers` are the ground; `Utf8`, `LineEndings`, `InventoryWalk`,
`PathRules`, `CompareTrees`, `Commits`, `FeatureMatrix` and `MarkdownTable` follow the inventory tool; `SyncPlan`, `PlanDocument`,
`ApplyPlan`, `ApplyTheorems`, `PlanTargets`, `Worktrees` and `Pipeline` the sync tool; `ManyToMany`, `AccountQuery` and `BulkCreate`
the ent code; `AuditGate`, `ExceptionFile` and `AuditReport` the gate. String functions that are built from long literals
reach the proofs as parameters (`PathReader`, `Filter`, `Hasher`, a line view); `PathRules.ReaderOf`,
`InventoryWalk.AdmittedBy`, `LineEndings.FileDigest` and `MarkdownTable.View` are the ones that the tools use.

## Where the code does less than one might expect

Each of these is stated with its exact condition, and with an input on which the stronger statement fails.

- A migration numbered 0 is written as an empty field, which the row validator then rejects. Fresh rows are accepted
  exactly when no path has a backslash and no migration is numbered 0 (`CompareTrees.ComparedAcceptedIff`); trees whose rows
  are rejected are in `CompareTrees.MigrationZeroRejected` and `CompareTrees.BackslashRejected`.
- The walk tests suffix and file name on directories too, so a directory named like an archive hides its files. Testing a
  file's own path is right exactly when it is rejected anyway or no directory above it has a rejected name
  (`InventoryWalk.OwnPathTestIsExactIff`, `InventoryWalk.PrunedByDirectorySuffix`).
- Two sources share a target exactly when one is the apicompat source of the other (`PlanTargets.TargetsCollideIff`,
  `PlanTargets.ApicompatCollides`).
- After a successful apply a copied file need not stand at its target: `shutil.copy2` onto an existing directory copies
  into it, and a later row may overwrite. Everything has arrived exactly when no target was a directory before, no target
  lies below another, and rows with the same target bring the same bytes (`PlanTargets.PlanArrivesIff`; for sources outside
  the zone the first condition is enough, `PlanTargets.BuiltPlanArrivesIff`). Runs that lose a file are in
  `PlanTargets.ApicompatFileTaken` and `PlanTargets.SecondFileWins`.
- Normalising a file whose every LF was expanded gives the original's normal form exactly when the file had no CR-LF of
  its own (`LineEndings.FullExpansionExact`, `LineEndings.CrLfIsNotRecovered`).
- Many-to-many loading gives each key the platforms of a per-key query, and in the same order exactly when the key's own
  rows and the whole batch first mention any two of them in the same order (`ManyToMany.RelatedEqualsNaiveIff`,
  `ManyToMany.OrderFollowsTheBatch`).
- Bulk create is all-or-nothing for exactly those hooks that neither hide an error, nor answer success by themselves, nor
  fail over a success from a mutator that they handed the APIKey mutation (`BulkCreate.AllOrNothingIffSafe`). What each
  other hook breaks is in `BulkCreate.HiddenErrorFakesSuccess`, `BulkCreate.SilentHookFakesSuccess` and
  `BulkCreate.LateFailureReportsError`.
- A vulnerability entry whose `via` has no identifier is invisible to the gate, whatever its severity, while an advisory
  without an identifier fails it (`AuditReport.UnidentifiedIsInvisibleIff`, `AuditReport.UnidentifiedAdvisoryFails`). A
  numeric `source` that has to serve as a title is a type error, and so exit code 1.

## Model

| member | source | states |
|---|---|---|
| Pipeline.InventorySurvivesTheSync | tools/sub2api_upstream_sync.py:120-240 | for any two trees with recordable paths: a reviewed plan for the compared rows passes the document validator against them, and after applying it, even when stopped by an error, the tree still matches those rows and comparing again gives the same rows |
| Pipeline.FreshPlanAppliesIff | tools/sub2api_upstream_sync.py:120-240 | a reviewed plan for freshly compared trees is applied in full, every copied file standing at its target, if and only if every direct candidate is approved, the targets can be written beforehand, and they keep apart; sources then always exist |
| Pipeline.ActionsMean | tools/sub2api_upstream_sync.py:91-97 | in a fresh plan, unchanged means both trees hold the file with one digest, candidate means the official one is missing or different in the current tree, preserve means there is no official one |
| InventoryWalk.InventoryFiles | tools/sub2api_upstream_inventory.py:729-752 | the pruned walk, for any listing order, returns exactly the files that are admitted together with every directory above them, each with its content |
| InventoryWalk.PruneDirectories | tools/sub2api_upstream_inventory.py:738-744 | the in-place edit keeps exactly the sub-directories whose relative path is admitted |
| InventoryWalk.InventoryIff | tools/sub2api_upstream_inventory.py:729-752 | a path string is in the inventory if and only if its file is kept, and carries that file's bytes |
| InventoryWalk.InventoryByComponents | tools/sub2api_upstream_inventory.py:137-165 | said of path components alone: a file is in the inventory if and only if it exists, no component is one of the eight ignored ones, no name on the way is a generated file or ends in one of the thirteen ignored extensions in whatever case, and no excluded prefix is the path or a directory above it |
| InventoryWalk.GitIsLeftOut | tools/sub2api_upstream_inventory.py:722 | a tree whose `.git/config` is not kept |
| InventoryWalk.KeptCollapses | tools/sub2api_upstream_inventory.py:719-752 | the ancestor tests for excluded prefixes and ignored components collapse to the file's own path; only the name and suffix test has to be made for each directory |
| InventoryWalk.OwnPathTestIsExactIff | tools/sub2api_upstream_inventory.py:719-752 | for an existing file, testing its own path agrees with the walk if and only if it is rejected anyway or no ancestor directory has a rejected name |
| InventoryWalk.PrunedByDirectorySuffix | tools/sub2api_upstream_inventory.py:719-744 | a concrete tree in which a directory with an archive suffix hides a file whose own path is admitted |
| LineEndings.LineEndingsDoNotMatter | tools/sub2api_upstream_inventory.py:707-716 | for text without CR-LF, rewriting any choice of its line ends to CR-LF normalises back to the text byte for byte, so the digest is the same |
| Utf8.ValidUtf8Iff | tools/sub2api_upstream_inventory.py:710-713 | bytes decode if and only if they encode a sequence of Unicode scalar values |
| LineEndings.TextIs | tools/sub2api_upstream_inventory.py:709-714 | a file counts as text if and only if it has no NUL byte and encodes some text |
| LineEndings.UnixAtCrLf | tools/sub2api_upstream_inventory.py:715 | at every CR-LF the folded text continues with one LF |
| LineEndings.ExpandStaysText | tools/sub2api_upstream_inventory.py:709-714 | rewriting line ends never turns valid UTF-8 without NUL into something else |
| LineEndings.FullExpansionExact | tools/sub2api_upstream_inventory.py:707-716 | expanding every LF keeps the normal form if and only if the text has no CR-LF of its own |
| LineEndings.CrLfIsNotRecovered | tools/sub2api_upstream_inventory.py:707-716 | a text of one CR-LF, whose normal form changes when its LF is expanded |
| CompareTrees.CompareTrees | tools/sub2api_upstream_inventory.py:755-778 | the rows are the comparison of the two inventories, the prefixes applied to the current side only |
| CompareTrees.ComparedCovers | tools/sub2api_upstream_inventory.py:755-778 | rows are strictly sorted by path and every file kept on either side has one |
| CompareTrees.ComparedTellsTheTruth | tools/sub2api_upstream_inventory.py:755-778 | every row is about a file kept on at least one side, and its state and both digests are what the two trees say |
| CompareTrees.RewrittenLineEndingsAreSame | tools/sub2api_upstream_inventory.py:766-767 | a text file without CR-LF and any CR-LF rewriting of it are reported as the same |
| CompareTrees.DuplicateValues | tools/sub2api_upstream_inventory.py:1044-1051 | exactly the values that occur twice, sorted |
| CompareTrees.ValidateFileRows | tools/sub2api_upstream_inventory.py:1097-1133 | accepts exactly the valid row lists; otherwise names all duplicate paths, or all unsafe paths, or all rows with a broken contract, in this order of precedence |
| CompareTrees.ContractIffPossible | tools/sub2api_upstream_inventory.py:1109-1119 | states and digests are accepted if and only if some contents and some hash function give them in a comparison |
| CompareTrees.ValidRowIff | tools/sub2api_upstream_inventory.py:1120-1129 | a row is accepted if and only if it is possible in this sense, has a file category, and its migration field is the canonical numeral of its path's number |
| CompareTrees.SafePathIff | tools/sub2api_upstream_inventory.py:1103-1106 | a path is safe if and only if it is not empty, has no backslash, no leading slash, and no component `..` |
| CompareTrees.ComparedAcceptedIff | tools/sub2api_upstream_inventory.py:755-778 | freshly compared rows pass the row validator if and only if no path has a backslash and no migration is numbered 0 |
| CompareTrees.ValidateCurrentTree | tools/sub2api_upstream_inventory.py:1136-1161 | accepts exactly when the recorded digests are those of the files found now; otherwise names all unrecorded, all missing, or all changed files |
| CompareTrees.DriftDetectedIff | tools/sub2api_upstream_inventory.py:1136-1161 | rows recorded from one tree accept another if and only if both have the same paths with the same digests |
| PathRules.CanonicalMigrationNumber | tools/sub2api_upstream_inventory.py:662-664 | a migration file carries the number that its digits spell, below any directories at which no earlier match starts |
| PathRules.MigrationZeroExists | tools/sub2api_upstream_inventory.py:662-664 | a path below `backend/migrations/` has migration number 0 |
| PathRules.MigrationNumberIff | tools/sub2api_upstream_inventory.py:662-664 | a path carries number n if and only if its leftmost text `migrations/`, digits, letter or underscore, anything on the line, `.sql` spells n |
| PathRules.OwnedPaths | tools/sub2api_upstream_inventory.py:551-555 | paths below backend/migrations/ and backend/ent/ are database paths, those below frontend/ frontend ones |
| PathRules.RuntimePaths | tools/sub2api_upstream_inventory.py:51-84 | paths below the ten protocol prefixes are protocol paths, others below the twenty-one provider prefixes provider paths |
| PathRules.MarkersDecide | tools/sub2api_upstream_inventory.py:560-570 | below service/, handler/ and repository/ the first rule of the area's own table with a fitting marker decides, and the later branches when there is none |
| PathRules.OtherPaths | tools/sub2api_upstream_inventory.py:571-631 | all other paths fall to the later branches |
| PathRules.SyncPathIff | tools/sub2api_upstream_inventory.py:679-704 | which objection a path, a disposition and a handling meet, and that they meet none exactly otherwise |
| PathRules.OwnedPathsAreRefused | tools/sub2api_upstream_inventory.py:697-704 | nothing below the migrations, the generated entities or the frontend is ever accepted for direct_sync |
| CompareTrees.ComparedMigrationsReadBack | tools/sub2api_upstream_inventory.py:775 | the migration field of every compared row reads back to its path's number, and is empty exactly when there is none or it is 0 |
| CompareTrees.MigrationZeroRejected | tools/sub2api_upstream_inventory.py:755-778 | a tree with one migration numbered 0: its row has an empty migration field, and the row validator rejects the rows |
| CompareTrees.BackslashRejected | tools/sub2api_upstream_inventory.py:755-778 | a tree with one file whose name has a backslash: it is compared, and the row validator rejects the rows |
| Commits.FetchPages | tools/sub2api_upstream_inventory.py:880-899 | if page 1 announces n, it succeeds if and only if some first pages hold exactly n commits and none before the last of them is empty, and then these n commits are what it returns, after at most max(1, n) requests; otherwise it stops at the first empty page, or with the first page that leads past n. Without an announced total page 1 is the whole result |
| Commits.LoadCommits | tools/sub2api_upstream_inventory.py:932-943 | the rows are the first occurrences, by SHA, of the concatenated pages |
| Commits.FirstOccurrencesExact | tools/sub2api_upstream_inventory.py:932-943 | de-duplication keeps each SHA exactly once and changes nothing if and only if the SHAs were distinct |
| Commits.FirstOccurrencesAre | tools/sub2api_upstream_inventory.py:938-942 | a commit is kept if and only if it is the first delivered with its SHA |
| Commits.FirstOccurrencesGrow | tools/sub2api_upstream_inventory.py:938-942 | rows keep the order of delivery: more commits only add rows at the end |
| Commits.CountCheckExact | tools/sub2api_upstream_inventory.py:946-955 | after complete paging the count check passes if and only if no SHA was delivered twice, and then the rows are the concatenation of all pages |
| Commits.GenerateRows | tools/sub2api_upstream_inventory.py:950-972 | one row per de-duplicated commit in order, with SHA, date, trimmed first message line and its category; otherwise the count that differs or a commit with an empty message |
| Commits.GeneratedAcceptedIff | tools/sub2api_upstream_inventory.py:957-972 | generated rows pass the row validator if and only if every SHA is a lower-case SHA-1, every commit has a date and a subject, and every subject was classified |
| Commits.ValidateCommitRows | tools/sub2api_upstream_inventory.py:1076-1094 | accepts exactly the right number of well-formed rows with distinct SHAs; otherwise reports the first of the four checks that fails, with all the SHAs it lists, sorted |
| FeatureMatrix.WordsOfList | tools/sub2api_upstream_inventory.py:1279-1288 | splitting a space-separated list of SHAs gives the SHAs back |
| FeatureMatrix.WordsConcat | tools/sub2api_upstream_inventory.py:1279-1288 | any blank separates words |
| FeatureMatrix.FeatureOkIff | tools/sub2api_upstream_inventory.py:1265-1272 | a feature row is in order if and only if its id is F or R and three digits, it cites something, its disposition is known, and its phase is 2 to 6 |
| FeatureMatrix.AuthoritativeIff | tools/sub2api_upstream_inventory.py:1283-1289 | a SHA is authoritative if and only if a row whose id starts with F cites it |
| FeatureMatrix.RuntimeIff | tools/sub2api_upstream_inventory.py:1297 | a SHA is a runtime one if and only if a commit of it has a category starting with `runtime_` |
| FeatureMatrix.ValidateMatrix | tools/sub2api_upstream_inventory.py:1264-1300 | accepts exactly the matrices that meet all six checks, never looks up an unknown SHA, and otherwise reports the first check that fails, with all the ids or SHAs it lists |
| FeatureMatrix.MatrixIsExactCover | tools/sub2api_upstream_inventory.py:1264-1300 | for valid commit rows and well-formed citations, the matrix is accepted if and only if the multiset of SHAs cited by F rows equals the multiset of runtime commits |
| MarkdownTable.MarkdownTableRows | tools/sub2api_upstream_inventory.py:991-1013 | the first line but the last that has all required headers decides: its rows, or the error in its separator, in a row's width, or in having no rows; with no such line the table is missing |
| MarkdownTable.ViewIs | tools/sub2api_upstream_inventory.py:994-1004 | a line is a row if and only if it starts with a bar, blanks aside, and a rule line if and only if all its cells are rules |
| MarkdownTable.RuleIff | tools/sub2api_upstream_inventory.py:1000 | a cell is a rule if and only if it is three or more dashes with at most a colon at either end |
| MarkdownTable.RenderedRowReads | tools/sub2api_upstream_inventory.py:1006 | reading a rendered row gives back its trimmed, bar-free cells, empty ones included |
| MarkdownTable.RenderedTextParses | tools/sub2api_upstream_inventory.py:991-1013 | a rendered table after text with no earlier matching header, followed by no row or by the end, with or without a line feed there, parses to exactly its rows |
| MarkdownTable.RowDictExact | tools/sub2api_upstream_inventory.py:1009 | with distinct headers a row dictionary maps each header to its own cell and holds nothing else |
| SyncPlan.BuildFilePlan | tools/sub2api_upstream_sync.py:85-117 | one plan row per inventory row in order, or the error of the first row that has one |
| SyncPlan.BuiltRowFields | tools/sub2api_upstream_sync.py:87-116 | every field of a built row: the disposition by prefixes and category, the action by state, the target by the prefix mapping, the rest copied, no approval |
| SyncPlan.BuildFilePlanFailsIff | tools/sub2api_upstream_sync.py:85-117 | a plan exists if and only if every state is known and no migration file is to be copied or ported |
| SyncPlan.DirectPathIsRuntime | tools/sub2api_upstream_inventory.py:550-559 | every path that can be copied directly is classified as runtime, and is no RuntimeBridge path |
| SyncPlan.DirectSyncIsNeverOwned | tools/sub2api_upstream_inventory.py:679-704 | a path ever given direct_sync is never turned away by the RuntimeBridge or ProductCore checks |
| PlanDocument.ValidateDocument | tools/sub2api_upstream_sync.py:141-197 | accepts exactly the valid documents; an error is that of the header, of the first objectionable row, or of the coverage with all the unplanned paths; the list of extra paths is always empty |
| PlanDocument.HeaderOkIff | tools/sub2api_upstream_sync.py:42-49 | the header is in order if and only if the tags are two different versions, the commit is a lower-case SHA-1, and source root and file list are there |
| PlanDocument.RowErrorNames | tools/sub2api_upstream_sync.py:158-188 | the error of a row names a check that the row fails, and its path |
| PlanDocument.TargetIsSafe | tools/sub2api_upstream_sync.py:65-82 | the target of a safe path is a safe path inside the zone |
| PlanDocument.BuiltPlanValidates | tools/sub2api_upstream_sync.py:85-197 | a plan built from valid rows, with any approvals set, validates against those same rows |
| PlanDocument.ValidatedPlanCoversInventory | tools/sub2api_upstream_sync.py:155-197 | a document that validates plans every inventory path exactly once, with the inventory's own fields, and nothing else |
| Worktrees.Worktree.Apply | tools/sub2api_upstream_sync.py:200-240 | an invalid document or a missing source root writes nothing; otherwise a first part of the rows is applied, the last copy to a place winning, and the error is the one that the fields of the next row call for; and it succeeds with every copied file at its target if and only if all direct candidates are approved, sources exist, and targets are in the zone, writable and apart |
| Worktrees.FirstUnapprovedStops | tools/sub2api_upstream_sync.py:215-217 | once the rows before it can be applied, the first unapproved direct candidate stops the apply with its path |
| Worktrees.ApprovalAskedIff | tools/sub2api_upstream_sync.py:215-217 | an apply asks for approval if and only if it stopped at an unapproved direct candidate, and no earlier row is one |
| Worktrees.ApplySucceedsIff | tools/sub2api_upstream_sync.py:207-240 | the success condition for any valid rows and any snapshot and worktree |
| Worktrees.Worktree.CopyRows | tools/sub2api_upstream_sync.py:207-240 | the row loop leaves the tree and the error of the run |
| ApplyPlan.RunOverwritesByPrefix | tools/sub2api_upstream_sync.py:207-240 | every run, finished or stopped at any row, equals the old tree overwritten by a prefix of the plan's copies, the last writer winning, and stops with the error of the next row |
| ApplyPlan.DecideInZone | tools/sub2api_upstream_sync.py:208-226 | every copy that any row leads to goes strictly inside the zone, whatever the row says |
| ApplyTheorems.OutsideZoneUnchanged | tools/sub2api_upstream_sync.py:200-240 | no file outside the zone changes on any run |
| ApplyTheorems.ApplyKeepsInventory | tools/sub2api_upstream_sync.py:200-240 | applying any rows changes neither a comparison that leaves the zone out nor the verdict of the current-tree validator, also when stopped |
| ApplyTheorems.ReplaySameWrites | tools/sub2api_upstream_sync.py:207-240 | from any tree with the final directories and files, the same plan makes the same writes and stops at the same row |
| ApplyTheorems.SecondApplyChangesNothing | tools/sub2api_upstream_sync.py:200-240 | for any plan, a second apply from the same snapshot leaves the worktree as it is and ends the same way |
| PlanTargets.TargetsCollideIff | tools/sub2api_upstream_sync.py:65-73 | two direct paths share a target if and only if they are equal or one is the apicompat source of the other |
| PlanTargets.ApicompatCollides | tools/sub2api_upstream_sync.py:65-73 | for any rest of a path, two different direct paths with one target |
| PlanTargets.AllArriveIff | tools/sub2api_upstream_sync.py:223-240 | after any finished run all copied files stand at their targets if and only if beforehand no target was a directory, none lies below another, and what goes to one place is the same |
| PlanTargets.PlanArrivesIff | tools/sub2api_upstream_sync.py:200-240 | the same row by row, for any plan whose apply finishes |
| PlanTargets.BuiltPlanArrivesIff | tools/sub2api_upstream_sync.py:85-240 | for a reviewed built plan whose sources lie outside the zone targets keep apart by themselves: everything has arrived if and only if no target was a directory before |
| PlanTargets.ApicompatFileTaken | tools/sub2api_upstream_sync.py:239-240 | for any apicompat file, a snapshot and a worktree on which the copy finishes without error and the file ends up inside a directory at its target |
| PlanTargets.SecondFileWins | tools/sub2api_upstream_sync.py:207-240 | two different files copied to one target: the run finishes and the first has not arrived |
| ManyToMany.LoadPlatforms | backend/ent/apikey_query.go:571-631 | whatever order the inner maps are walked in, every key ends with its related platforms; a failed query leaves all edges empty, and a platform that only an interceptor brought stops the distribution after those before it |
| ManyToMany.ScanRows | backend/ent/apikey_query.go:605-614 | one neighbour per platform in order of first appearance, and the index from platforms to exactly the keys of their rows |
| ManyToMany.FirstPlatformsAre | backend/ent/apikey_query.go:605-614 | a platform comes with the columns of the first row that mentions it |
| ManyToMany.RelatedExact | backend/ent/apikey_query.go:571-631 | a key gets exactly the platforms linked to it by some row, each once, in the order in which the batch first mentions them |
| ManyToMany.RelatedIsNaiveJoin | backend/ent/apikey_query.go:571-631 | as a multiset this is what one query per key would give |
| ManyToMany.RelatedEqualsNaiveIff | backend/ent/apikey_query.go:571-631 | as a sequence it is what the per-key query would give if and only if the key's own rows and the whole batch first mention any two platforms in the same order |
| ManyToMany.OrderFollowsTheBatch | backend/ent/apikey_query.go:621-629 | three rows on which the order differs from the per-key query |
| AccountQuery.QuerySpec | backend/ent/account_query.go:754-779 | for any field selection the columns are the ID, the selected fields other than the ID, and the key columns of the requested edges that were not selected, each once |
| AccountQuery.GroupByKey | backend/ent/account_query.go:615-626 | the batched IDs are the distinct non-nil keys by first appearance, and each key maps to exactly its nodes |
| AccountQuery.DistinctKeysGrow | backend/ent/account_query.go:620-622 | batched keys come in the order of their first appearance |
| AccountQuery.LoadProxy | backend/ent/account_query.go:614-645 | the query is made once for exactly those IDs or not at all; each node gets the last returned neighbour of its key; an unexpected neighbour stops the distribution after the ones before it |
| AccountQuery.LastWithIdIs | backend/ent/account_query.go:635-643 | of several returned neighbours with one ID the last is handed out last |
| AccountQuery.BatchEqualsLookup | backend/ent/account_query.go:630-643 | with an exact answer, in any order and multiplicity, each node's edge is what looking up its own key gives |
| AccountQuery.LoadChildren | backend/ent/account_query.go:678-710 | each child goes to the last loaded node with its parent key, in order; the first child with a nil or unknown parent stops the loading |
| AccountQuery.ChildrenOfConcat | backend/ent/account_query.go:698-708 | children keep the order of the returned rows |
| AccountQuery.SqlAll | backend/ent/account_query.go:514-580 | for any selection of fields on either query, every returned account has the proxy and the children that its own database row calls for |
| BulkCreate.Bulk.Create | backend/ent/apikey_create.go:1681-1714 | one mutator's body: the shared slots, the batch, and the mutations change exactly as the chain says |
| BulkCreate.Bulk.Mutate | backend/ent/apikey_create.go:1681-1718 | the same for a mutator wrapped in its hooks |
| BulkCreate.Save | backend/ent/apikey_create.go:1670-1727 | at most one batch reaches the driver, with every builder's own spec in its slot; exactly the mutations that the chain calls done are done, each pointing to its node with its spec's ID |
| BulkCreate.AttemptMeansAllChecked | backend/ent/apikey_create.go:1681-1703 | whatever the hooks, the batch insert is attempted only after every builder passed its check and every slot is filled |
| BulkCreate.HonestDoneMeansInserted | backend/ent/apikey_create.go:1704-1713 | with hooks that never report unearned success, nothing is done unless the insert went through, and success means all are done |
| BulkCreate.SafeAllOrNothing | backend/ent/apikey_create.go:1670-1727 | with safe hooks every run either succeeds with everything inserted and every mutation done, or fails with nothing inserted and none done |
| BulkCreate.AllOrNothingIffSafe | backend/ent/apikey_create.go:1670-1727 | a hook is safe if and only if every run in which all other hooks are safe is all-or-nothing, for any builders and any insert |
| BulkCreate.HiddenErrorFakesSuccess | backend/ent/apikey_create.go:1704-1727 | for any hook that hides an error, a run that reports success with nothing inserted or done |
| BulkCreate.PassThroughOutcome | backend/ent/apikey_create.go:1681-1718 | with pass-through hooks the outcome is the first failed check, or the answer of the insert when all pass |
| BulkCreate.ForeignOutcome | backend/ent/apikey_create.go:1682-1685 | with hooks that pass outcomes through, handing on anything but an APIKey mutation gives the type error and does nothing |
| BulkCreate.SilentHookFakesSuccess | backend/ent/apikey_create.go:1692-1712 | two builders on which a hook's own success marks a mutation done without any insert |
| BulkCreate.LateFailureReportsError | backend/ent/apikey_create.go:1715-1727 | for any hook that fails over a success, a run that reports an error with everything inserted and done |
| AuditGate.IndexExceptions | tools/check_pnpm_audit_exceptions.py:156-185 | the index holds the first usable exception of each key; the errors are exactly those of the exceptions that have one |
| AuditGate.CheckFindings | tools/check_pnpm_audit_exceptions.py:191-219 | the complaints are exactly those due, finding by finding, and there are none if and only if every finding passes |
| AuditGate.LoopMeansRule | tools/check_pnpm_audit_exceptions.py:151-219 | on usable exceptions the two loops decide the gate's rule, which mentions no index |
| AuditGate.RuleIsGateOk | tools/check_pnpm_audit_exceptions.py:107-185 | the rule on what the gate reads off entries and occurrences is the rule on their own texts |
| AuditGate.HighNeedsException | tools/check_pnpm_audit_exceptions.py:193-210 | one occurrence of severity ` HIGH ` without any exception closes the gate |
| AuditGate.Gate | tools/check_pnpm_audit_exceptions.py:142-243 | exit code 0 if and only if every exception has its five fields, a date, and a package and advisory that are not blank, no two have one key, every occurrence that is named and of high or critical severity has an advisory, and the first one of each key has an exception of that key, not expired, with a blank or the same severity; else 1 |
| ExceptionFile.ParseExceptions | tools/check_pnpm_audit_exceptions.py:23-48 | the loop computes what the whole file parses to, or the first line that cannot be split |
| ExceptionFile.RenderedFileParses | tools/check_pnpm_audit_exceptions.py:12-48 | rendering entries with double-quoted, single-quoted or bare values and parsing gives the entries back, after any ignored head, with or without a final line feed |
| ExceptionFile.UnquotedIs | tools/check_pnpm_audit_exceptions.py:15-19 | a value in matching quotes is read without them, a lone quote as nothing, any other value as it is |
| ExceptionFile.IgnoredAnywhere | tools/check_pnpm_audit_exceptions.py:30-33 | blank lines, comments and the two file keywords may stand anywhere without changing what is read |
| ExceptionFile.ParsedFailsIff | tools/check_pnpm_audit_exceptions.py:34-42 | reading fails if and only if some list item has text but no colon |
| ExceptionFile.SplitKvIs | tools/check_pnpm_audit_exceptions.py:12-20 | a line splits at its first colon into a key and a value without blanks around them, the value without matching quotes |
| ExceptionFile.SplitRendered | tools/check_pnpm_audit_exceptions.py:12-20 | splitting a rendered pair gives the pair back whatever a quoted value contains |
| ExceptionFile.MapOfExact | tools/check_pnpm_audit_exceptions.py:40-45 | with distinct keys an entry holds exactly the pairs written |
| AuditReport.IterVulns | tools/check_pnpm_audit_exceptions.py:64-111 | the occurrences of both report formats in order, or the type error of a numeric title |
| AuditReport.OccurrencesExact | tools/check_pnpm_audit_exceptions.py:64-111 | an occurrence is seen if and only if it is an advisory's own or comes from an identified item of a vulnerability |
| AuditReport.AdvisoryIdIs | tools/check_pnpm_audit_exceptions.py:51-61 | the order of preference among the identifiers of an advisory |
| AuditReport.ItemIdIs | tools/check_pnpm_audit_exceptions.py:90-96 | the order of preference among the identifiers of an item; the number 0 is none |
| AuditReport.TitleIsTextIff | tools/check_pnpm_audit_exceptions.py:97-109 | a title cannot be joined exactly when it is a non-zero source number for want of anything else |
| AuditReport.UnidentifiedIsInvisibleIff | tools/check_pnpm_audit_exceptions.py:80-111 | taking a vulnerability out of a report changes nothing if and only if none of its items has an identifier |
| AuditReport.UnidentifiedAdvisoryFails | tools/check_pnpm_audit_exceptions.py:68-78 | a named, serious advisory without an identifier closes the gate |
| AuditReport.CheckReport | tools/check_pnpm_audit_exceptions.py:142-243 | from the exception file's text and the report: exit code 0 if and only if the file parses, the titles are texts, and the gate's rule holds |

## Left out

- HTTP, the GitHub API, archive extraction, argument parsing, JSON and CSV encoding, message texts: pages, documents and
  reports are values, errors carry the paths, ids or SHAs that their messages list. An absent text field is empty, where
  messages would say `<missing>`.
- File I/O beyond trees and contents: symbolic links, `Path.resolve`, Windows drives, case-insensitive names, metadata,
  permissions. A missing source and a target blocked by a file or directory are modelled; `shutil.SameFileError`, for a
  snapshot inside the worktree, is not. The type of a failed copy or directory creation is one error, `TargetBlocked`.
- SHA-256: any function to 64 lowercase hex digits.
- The marker tables of `classify_path` and its branches from line 571 on are parameters (`PathRules.RuleTables`): no
  property here depends on their entries. `classify_commit` is a parameter in the same sense.
- `\d` and lower-casing are ASCII only; `\d` also matches other decimal digits in Python.
- Tag resolution, `validate_metadata`, `translate_migration_number`, `validate_database_impact` and the column aliases of
  `feature_rows_from_markdown` and `database_rows_from_markdown`: they would add only easy members.
- Plan documents with JSON values of the wrong type, other than a non-boolean approval, a missing text and a `files` entry
  that is not a list.
- `date.fromisoformat` and the current day are parameters of the gate. In a report, package names and severities are texts,
  numbers are integers, and `cves` is a list of texts.
- A CR-LF pair in the exception file counts as one line end, which the reader normalises as well.
- `loadUser`, `loadUsageLogs` and `loadSubscriptionPlans` of API keys, `loadPlatformPool`, `loadParent` and `loadUsageLogs`
  of accounts, and all other entities: instances of the templates modelled here. `AccountQuery.SqlAll` therefore runs the
  proxy and the children edge only.
- AccountQuery.SqlAll: stated for a database that answers, and answers exactly what it is asked; `LoadProxy` and
  `LoadChildren` say what failed queries and unexpected answers lead to. Neighbours are values, so that two accounts share one proxy object is not captured; query
  modifiers, predicates, limits, order, interceptors and context cancellation are left out.
- ManyToMany.LoadPlatforms: requires rows whose key is among the asked ones, as the `IN` clause of its query ensures;
  interceptors are any function of the scanned platforms, and the platform query's own predicates and edges are left out.
- BulkCreate.Save: a hook calls the next mutator at most once, and with the mutation it was given or with something that is
  not an APIKey mutation; builders have distinct mutations, none of them done; the contents that `createSpec` and `defaults` produce, and
  conflict options, are left out.
- InventoryWalk.InventoryFiles: the order of the result's entries, which no caller uses, is not captured.
