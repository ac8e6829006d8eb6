# awm: a verified model

awm is a control plane for coding agents: a durable store, a gate protocol around review and
closeout, and code that reconciles a repository with what the store knows about it. This project
models those parts in Dafny and proves the properties they exist for, over every input, every
run and every reachable state.

`dafny verify dfyconfig.toml` checks the whole project.

| file | what it models |
|---|---|
| `ReviewGate.dfy` | the append-only log of review attempts, the fingerprint skip rule, the `max_attempts` budget |
| `Closeout.dfy` | the definition-of-done issues, the decision of `Done`, and their agreement with the review log |
| `Fingerprint.dfy` | the part stream that a review fingerprint hashes, and the entries collected for it |
| `JsonMerge.dfy`, `Templates.dfy`, `Reruns.dfy` | the additive JSON merge, init templates applied to a project's files, and what running them again does |
| `AtomicWrites.dfy`, `Symlinks.dfy` | crash-atomic writes as interleaved steps, and their sequential form behind symbolic links |
| `PointerSync.dfy` | the pointer index: SQLite row loops against Postgres set statements |
| `RuleIds.dfy`, `RuleOrders.dfy`, `RuleSync.dfy` | rule ids and pointer keys, when the order of a file's rules matters, and the replacement of a source's rule rows |
| `Paths.dfy`, `ScopeDelta.dfy` | path normalization and scope, the closeout delta and its violations |
| `FetchKeys.dfy`, `History.dfy` | key printers and parsers with the dispatch over them, and the top rows of three limited sources |
| `PlanChain.dfy`, `PlanValidator.dfy` | the climb from a plan to its root, and the staged-plan validator |
| `TaskIndex.dfy` | the board's task index, whose lists the descendant walk extends while reading them |
| `Strings.dfy`, `Decimal.dfy`, `Core.dfy`, `Wrappers.dfy`, `Pigeonhole.dfy` | shared vocabulary |

Code that changes state is written as classes and methods with loops, each proved against a
specification function; the theorems are lemmas about those functions. Concurrent code
(`AtomicWrites.dfy`) is a step function, and the theorems hold after every interleaving, with a
crash being a writer that takes no further step.

## Assumptions

- Calls that reach outside are parameters: whether a write succeeds, what a command returned, the
  current time, the kernel's choice of a temporary name and inode, the decoded contents of a file.
- One project, receipt and review key at a time; gate definitions and the gate's command stay
  fixed during a run; attempts are listed in the order they were saved.
- Temporary names are fresh and no writer's target is another writer's temporary name.
- The JSON codec reads back what it wrote, for values made of numbers and strings that it reads, and
  this is the only law assumed of it.
- The three history queries return their rows newest first.

## Where the code differs from its documentation or its own intent

1. `docs/concepts.md:208` and `docs/cli-reference.md:58` say that failed attempts at one fingerprint
   rerun until `max_attempts` is exhausted. The jump at `internal/service/backend/review.go:127`
   skips the budget check, so nothing bounds them (`AttemptsUnbounded`). `AttemptBudgetExactly` says
   when the budget does hold; `BudgetUnderFingerprintRule` says what it bounds in every run.
2. The Postgres store normalizes paths a second time, the SQLite store does not, and normalizing
   twice is not normalizing once (`"a /"` gives `"a "`, which gives `"a"`). The two stores agree on
   every table exactly when no normalized path begins or ends with a space (`BackendsAgreeExactly`).
   The service's own sync passes paths from git or a file walk that it has normalized already, so
   an untidy one takes a name that ends in spaces and backslashes, or another caller of the store
   that spells a path `"a /"`.
3. `normalizeCompletionPath` is not stable on the same inputs nor on `"./C:/x"`
   (`NormalizeIdempotentExactly`), and closeout applies it several times. A supplied path can be
   dropped from the violations (`UnstablePathHidesMismatch`), and allowing `"a /"` lets `"a/x"` pass
   and reports `"a /x"` (`TrailingSpaceMovesScope`). `VerdictRightExactly` says for which allowed
   paths the verdict is right on all stable lists: those that start with no space and no drive must,
   normalized once and normalized again, lie under each other.
4. Fingerprint parts are trimmed before hashing, so a path and the same path with a space after it
   give one fingerprint (`OuterSpaceCollides`); a file named `x \` is listed so (`OuterSpaceListed`).
5. A walked file is listed under its normalized name, where a file `d/a\b` meets `d/a/b`: one of
   them is hidden (`MeetingNamesHide`), and projects with only the one or only the other have one
   fingerprint (`MeetingNamesCollide`). `ChangeShowsExactly` and `ShownExactly` say which files'
   changes show.
6. The staged-plan validator accepts a root plan whose tasks are all superseded, whatever its shape
   (`AllSupersededPasses`); on all other root plans it accepts exactly the staged forests.
7. `README.md:87` calls templates safe to re-run. Under any selection of the catalog's templates the
   content of every file is settled after the first run (`SelectionSettles`), but a replaced file
   keeps its old mode, which only the next run corrects (`SecondRunExactly`). Operations that share
   a target need not settle: some take two runs (`SettlesLate`), some swap two contents for ever
   (`SwapsForever`). `SettlesExactly` says when a sequence does.
8. Work-item keys are normalized as paths, required keys are only trimmed
   (`internal/service/backend/workflows.go:167-170`). A required key can be completed if and only if
   it is a plain path (`CompletableExactly`); `"a//b"` and `"../x"` never are (`KeysNeverCompleted`).
9. An own rule id that equals one derived for an earlier rule of the file is refused, and accepted
   when the two rules change places (`OrderDecides`). Every order is accepted exactly when no own id
   repeats or is among the first candidates of a derived one (`EveryOrderExactly`).
10. The store refuses an attempt whose exit code is outside 0..255
   (`internal/storage/domain/domain.go:711-716`) after its command ran, so it uses no budget
   (`RefusedRunsUseNoBudget`). Codes come from 0..255 on Unix and negative ones are dropped before
   (`internal/service/backend/verify.go:1056-1071`), so only a Windows code above 255 or another
   runner gets there.

## Model

| member | source | states |
|---|---|---|
| ReviewGate.ReviewService.constructor | internal/service/backend/review.go:47-52 | a review key starts with an empty attempt log and no recorded status |
| ReviewGate.ReviewService.Review | internal/service/backend/review.go:86-251 | a run request makes exactly the specified step: skip on a passed fingerprint, rerun of a failed one past the budget check, exhaustion, or one appended attempt; failed writes have the stated partial effect |
| ReviewGate.ReviewService.RecordNote | internal/service/backend/review.go:54-84 | a review without a run records the caller's status and adds no attempt; it cannot complete a runnable gate |
| ReviewGate.ReviewService.ExecuteReview | internal/service/backend/review.go:166-251 | from the label on: the attempt is appended unless the store refuses it, then the task is complete or blocked by the command's outcome, if that write succeeds |
| ReviewGate.CountPassing | internal/service/backend/review.go:712-720 | the loop counts the passing attempts |
| ReviewGate.LatestAtMeaning | internal/service/backend/review.go:698-706 | the backward search finds the last attempt at the fingerprint, and nothing only if there is none |
| ReviewGate.ExecutesExactly | internal/service/backend/review.go:124-166 | on every reachable log: the command's attempt is logged exactly when its fingerprint failed before, or is new (or the rule is off) with budget left; the gate is reported complete exactly on an earlier pass at the fingerprint or a pass now |
| ReviewGate.RunExactly | internal/service/backend/review.go:121-251 | the whole answer to a run request on every reachable log, in its inputs: skipped as complete on an earlier pass, skipped as blocked without budget, refused by the store, or executed and logged as passed, and the task complete, exactly when the runner returned no error or the exit code is 0, and else logged as failed and blocked |
| ReviewGate.NoteExactly | internal/service/backend/review.go:54-84 | which notes are refused, and that any other sets exactly the given status and leaves the log alone |
| ReviewGate.NothingToRun | internal/service/backend/review.go:87-102 | without a configured command a run request is refused without effect |
| ReviewGate.StepAppends | internal/service/backend/review.go:193-224 | a request leaves the log alone or appends its own attempt |
| ReviewGate.LogOnlyGrows | internal/service/backend/review.go:193-224 | over any run the earlier log is a prefix of the later one |
| ReviewGate.ReplyCounts | internal/service/backend/review.go:221-251 | the attempt and pass counts in a reply are those of the log it leaves, and its status is the recorded one |
| ReviewGate.PassIsLastAlways | internal/service/backend/review.go:124-145 | with the rule on, a passing attempt is the last one at its fingerprint in every reachable log, so there is at most one |
| ReviewGate.FingerprintsWithinBudget | internal/service/backend/review.go:124-164 | with the rule on, no reachable log has more distinct fingerprints than max_attempts |
| ReviewGate.PassingCountsFingerprints | internal/service/backend/review.go:712-720 | where passes are last, the number of passing attempts is the number of fingerprints that passed |
| ReviewGate.BudgetUnderFingerprintRule | internal/service/backend/review.go:124-164 | with the rule on, every reachable log has its passes last, at most max_attempts fingerprints and at most max_attempts passing runs |
| ReviewGate.AttemptBudgetExactly | internal/service/backend/review.go:124-164 | a run's attempts stay within max_attempts if and only if no request reruns a failed fingerprint after the limit is reached |
| ReviewGate.AttemptBudgetWithoutRule | internal/service/backend/review.go:147-164 | with the rule off, every run keeps the attempts within max_attempts |
| ReviewGate.AttemptsUnbounded | internal/service/backend/review.go:125-128 | with a budget of one and the rule on, a failing command can be attempted n times for every n |
| ReviewGate.RefusedRunsUseNoBudget | internal/service/backend/review.go:193-221 | any number of runs whose exit code is outside 0..255, or whose attempt the store cannot write, leave the log, and so the budget, as it was |
| ReviewGate.CompleteMeansSatisfied | internal/service/backend/review.go:221-251 | a run reported complete leaves the pass that closeout asks for |
| ReviewGate.PassIsPermanent | internal/service/backend/completion.go:211-225 | with the rule on, no later sequence of requests takes a gate's pass away |
| ReviewGate.PassLostExactly | internal/service/backend/completion.go:204-210 | with the rule off, a satisfied gate is lost exactly by a stored run within the budget that ended with an error and an exit code other than 0 |
| ReviewGate.SatisfiedExactly | internal/service/backend/completion.go:196-225 | a gate has its pass exactly when the last attempt passed, or with the rule on the last attempt at the fingerprint of now did |
| ReviewGate.SatisfactionIsEarned | internal/service/backend/completion.go:196-225 | a satisfied gate had a run request that ended without an error or with exit code 0, at this fingerprint when the rule is on |
| Closeout.NormalizeValues | internal/service/backend/service.go:263-286 | the trimmed non-empty values, sorted, each once |
| Closeout.EvaluateIssues | internal/service/backend/completion.go:155-232 | no issue if and only if every required key is complete and every runnable gate with a complete task has the pass it needs; the issue list itself, in order |
| Closeout.IssuesExactly | internal/service/backend/completion.go:155-232 | which issues are listed: a missing or incomplete one for each required key in that state, and a gate issue for each required gate that is done without the pass it needs |
| Closeout.StatusKeysAreNormalized | internal/service/backend/work.go:407-463 | a key has a status exactly when some work item's key normalizes to it |
| Closeout.CompleteExactly | internal/service/backend/work.go:407-463 | a required key is complete exactly when the last work item that normalizes to it is complete and every other such item is complete or superseded |
| Closeout.PressingStatus | internal/service/backend/work.go:407-463 | of the statuses of a key's items blocked wins over in progress, that over pending, and that over the done ones |
| Closeout.CompletableExactly | internal/service/backend/work.go:407-463 | some work items complete a required key if and only if the key is a plain path: non-empty segments other than "." and "..", no backslash |
| Closeout.RequirementsMeetableExactly | internal/service/backend/completion.go:155-185 | a list of required keys can be met by some work items if and only if every key, trimmed, is blank or a plain path |
| Closeout.UnreachableKeyNeverDone | internal/service/backend/work.go:407-463 | a required key that is no plain path is never complete |
| Closeout.KeysNeverCompleted | internal/service/backend/workflows.go:167-170 | "a//b" and "../x" pass the check on required keys and are never complete |
| Closeout.CompleteNeedsAll | internal/service/backend/work.go:407-463 | of a complete key every item is complete or superseded, none pending, in progress or blocked |
| Closeout.ReviewedGateIsDone | internal/service/backend/completion.go:188-226 | a gate that Review has just reported complete raises no issue at that fingerprint |
| Closeout.ReviewedGateStaysDone | internal/service/backend/completion.go:211-225 | with the rule on, nor after any later requests |
| Closeout.NotesDoNotCloseGates | internal/service/backend/completion.go:188-226 | a complete task whose gate never really passed keeps its issue, whatever notes and updates were made |
| Closeout.DoneStandsOnReviewedContents | internal/service/backend/completion.go:188-226 | from the fingerprints to the files: when the definition of done is met, a required gate under the new-fingerprint rule had a passing run at a time when the scope showed the same paths with the same contents |
| Closeout.MatchRequirements | internal/service/backend/workflows.go:247-265 | the matching loop keeps the first applying requirement of each key |
| Closeout.RequirementsMeaning | internal/service/backend/workflows.go:247-265 | no key is required twice, and a key is required exactly when some requirement of it applies |
| Closeout.RequiredAreFirst | internal/service/backend/workflows.go:247-265 | the required definitions are exactly the first applying requirement of each key |
| Closeout.FinishedExactly | internal/service/backend/completion.go:77-90 | the definition of done in the inputs: without a workflow, no file changed or "verify:tests" is complete in that sense; with one, every applying non-blank key is, and where there is such a key every first applying gate whose task is complete has its pass |
| Closeout.ReceiptRuns.Done | internal/service/backend/completion.go:47-136 | refused without effect exactly when the changed files are; otherwise the reported paths and their texts are exact, the issues are those of the required keys in order and of their gates, and there is one exactly if something is missing in the sense of FinishedExactly; it is rejected without effect exactly in strict mode with a violation or an issue, and else one run is recorded, with warnings exactly when there is something to warn about |
| Fingerprint.TerminatedSplits | internal/service/backend/review.go:629-636 | splitting the stream at NUL gives back the trimmed parts |
| Fingerprint.StreamDecodable | internal/service/backend/review.go:417-460 | for a fixed header two streams are equal exactly when the entry lists are, outer spaces of paths aside |
| Fingerprint.OuterSpaceCollides | internal/service/backend/review.go:633-636 | a path and the same path with a trailing space give the same stream |
| Fingerprint.OuterSpaceListed | internal/service/backend/review.go:605-615 | a project with only a file named x, space, backslash and one with only a file x are listed differently and give the same stream |
| Fingerprint.Collect | internal/service/backend/review.go:523-627 | the entries are the sorted listing of the table: each scoped path, or the normalized names of the files its walk finds, later scope paths replacing what earlier ones gave |
| Fingerprint.WalkedExactly | internal/service/backend/review.go:588-616 | a path is walked from a directory exactly when it is that directory, a slash and a rest of any depth, with no .git among the directories of the rest |
| Fingerprint.ListedExactly | internal/service/backend/review.go:523-627 | with canonical names, the listed paths on strings: the regular files below a scoped directory that has some, and every other scope path as it is |
| Fingerprint.FileChangeShowsExactly | internal/service/backend/review.go:523-627 | with canonical names, a change to a regular file changes the stream if and only if the scope names the file, or names a directory above it, at any depth, with no .git in between |
| Fingerprint.RepeatShowsNothing | internal/service/backend/review.go:525-527 | a scope path met again right after itself changes nothing |
| Fingerprint.ShownByLast | internal/service/backend/review.go:527-563 | a path is listed exactly when some scope path lists it, and from the last one that does |
| Fingerprint.ListingUnique | internal/service/backend/review.go:565-575 | the listing is determined by the table |
| Fingerprint.ScopeOrderIrrelevant | internal/service/backend/review.go:523-527 | order and repeats of the scope paths change nothing |
| Fingerprint.ListedFileExactly | internal/service/backend/review.go:527-563 | also listing a regular file changes no source if and only if its path was listed from it already or a later scope path lists it |
| Fingerprint.ListedFileRedundant | internal/service/backend/review.go:539-552 | so it is redundant for a canonical file under a scoped directory, outside .git, where no other path meets it |
| Fingerprint.FingerprintTellsExactly | internal/service/backend/review.go:447-457 | without outer spaces in listed paths, two snapshots give the same stream if and only if they list the same paths with the same entries |
| Fingerprint.FingerprintTellsContents | internal/service/backend/review.go:523-627 | where walked files have canonical names, if and only if the listed paths and what is found at each are the same, for two scopes as well |
| Fingerprint.ChangeShowsExactly | internal/service/backend/review.go:523-627 | changing a regular file's content changes the stream if and only if some path is listed from that file |
| Fingerprint.ShownExactly | internal/service/backend/review.go:578-627 | it is listed however files that meet are settled if and only if, for some path, the last scope path that lists it can take it from nowhere else |
| Fingerprint.MeetingNamesHide | internal/service/backend/review.go:605-615 | of the files d/a/b and d/a\b in a scoped directory exactly one is listed |
| Fingerprint.MeetingNamesCollide | internal/service/backend/review.go:605-615 | a project with only the one and a project with only the other give the same stream |
| JsonMerge.WithinReflexive | internal/bootstrap/templates.go:683-739 | holding everything another value holds is reflexive |
| JsonMerge.WithinTransitive | internal/bootstrap/templates.go:683-739 | and transitive |
| JsonMerge.MergeIsUpperBound | internal/bootstrap/templates.go:683-730 | the result holds everything target and source hold |
| JsonMerge.MergeIsLeast | internal/bootstrap/templates.go:683-730 | any common upper bound makes the merge succeed and holds everything the result holds |
| JsonMerge.MergeIsLeastUpperBound | internal/bootstrap/templates.go:683-730 | the merge succeeds if and only if a common upper bound exists, and is then a least one |
| JsonMerge.MergeUnchangedExactly | internal/bootstrap/templates.go:683-730 | the changed flag is false exactly when the target held the source, and the result then is the target |
| JsonMerge.MergeIdempotent | internal/bootstrap/templates.go:683-730 | merging the same fragment again changes nothing |
| JsonMerge.MergeOrderIrrelevant | internal/bootstrap/templates.go:683-730 | two fragments merge in either order or in neither, with equivalent results |
| JsonMerge.MissingMembers | internal/bootstrap/templates.go:709-723 | the appended array elements are the source's missing ones, each once |
| JsonMerge.ArraysGrowAtEnd | internal/bootstrap/templates.go:709-723 | a merged array keeps its elements in place, and the missing ones follow in the order of their first occurrence in the source |
| JsonMerge.MergeValues | internal/bootstrap/templates.go:683-730 | the recursive merge computes the specified merge |
| JsonMerge.MergeFields | internal/bootstrap/templates.go:685-708 | so does its loop over object keys, in whatever order the keys come |
| JsonMerge.MergeItems | internal/bootstrap/templates.go:709-723 | and its loop over array elements |
| Templates.Project.EnsureMode | internal/bootstrap/templates.go:609-623 | the target gets the wanted permission bits; nothing else moves |
| Templates.Project.ApplyReplace | internal/bootstrap/templates.go:407-498 | the pristine branch of the two replacing operations changes only its target, as specified |
| Templates.Project.ApplyMerge | internal/bootstrap/templates.go:500-565 | the JSON operation changes only its target, as specified |
| Templates.Project.ApplyOperation | internal/bootstrap/templates.go:359-372 | one operation has the specified effect on its target and none elsewhere |
| Templates.Project.ApplyTemplate | internal/bootstrap/templates.go:325-357 | operations run in order until one fails, and the result lists, conflicts with their reasons included, name exactly the targets with each outcome |
| Templates.NoPathDisappears | internal/bootstrap/templates.go:374-565 | no sequence of operations removes a path |
| Templates.EditedFilesKept | internal/bootstrap/templates.go:407-565 | a file keeps its bytes through any sequence unless they are listed pristine content, or JSON into which a merge fits that adds something |
| Templates.UnreadableFilesKept | internal/bootstrap/templates.go:528-535 | a file that is not JSON and no listed pristine content keeps its bytes through any sequence, merges into it included |
| Templates.OverwriteNeedsLicence | internal/bootstrap/templates.go:407-565 | bytes are replaced only over listed pristine content, or by a merge into JSON that fits and adds something; the mode is kept and the path reported as updated |
| Templates.MergeOverwritesExactly | internal/bootstrap/templates.go:500-565 | a merge changes bytes only if they are JSON, the two values have a common bound and the target lacks something of the source |
| Templates.PristineUpgradedExactly | internal/bootstrap/templates.go:407-498 | with known ids an existing file ends as the new content exactly if it was that or pristine; otherwise, and only then, it is a conflict |
| Templates.FileOutcomeExactly | internal/bootstrap/templates.go:374-498 | the outcome of the other operations on an existing file: equal content gets its mode, listed pristine content is replaced, any other is a conflict without effect |
| Templates.AbsentIsCreatedExactly | internal/bootstrap/templates.go:374-526 | an absent target is created with the wanted content and permission bits, except by the operation that only replaces, which skips it |
| Templates.FailsExactly | internal/bootstrap/templates.go:374-565 | when an operation fails: no rendered content, a fragment that is not JSON, or an unknown pristine id met before a match; it never has touched its target |
| Templates.MergedFileIsLeast | internal/bootstrap/templates.go:500-565 | a merged file holds the least value that holds both sides; there is a conflict exactly when no such value exists |
| Templates.MergeOutcomeExactly | internal/bootstrap/templates.go:528-563 | the outcome of a merge into an existing file: a conflict without effect exactly if it is not JSON or no common bound exists, unchanged bytes if it held the fragment, else the least common value, the mode kept |
| Templates.MergesOnlyAdd | internal/bootstrap/templates.go:500-565 | under merges and creations a JSON file keeps holding everything it held |
| Templates.ReportIsTruthful | internal/bootstrap/templates.go:374-565 | created means it was absent, updated means it differs, any other outcome means it is as before |
| Templates.ListedExactly | internal/bootstrap/templates.go:325-357 | a path is in the list of an outcome exactly when an operation on it came to that outcome |
| Templates.ConflictsExactly | internal/bootstrap/templates.go:325-357 | so it is with conflicts and their reasons |
| Templates.OperationSettles | internal/bootstrap/templates.go:374-565 | repeating one operation fixes content after the first run and everything after the second; failures repeat without effect |
| Templates.SecondRunExactly | internal/bootstrap/templates.go:609-623 | the second run still has work if and only if the first replaced a file that has another mode |
| Templates.ApplyAllLocal | internal/bootstrap/templates.go:325-357 | a sequence reads and changes only its targets |
| Templates.TemplateSettles | internal/bootstrap/templates.go:325-357 | re-running operations with distinct targets, failing ones included: the same settling for the whole project |
| Templates.ApplyAllConcat | internal/bootstrap/templates.go:298-323 | two sequences run one after the other as one, the second only if the first did not fail |
| Templates.Project.ApplyTemplates | internal/bootstrap/templates.go:298-323 | templates applied in order until one fails act as the one sequence of their operations |
| Reruns.RunByPath | internal/bootstrap/templates.go:325-372 | operations that cannot fail act on each path by those that target it, in order |
| Reruns.ContentOfEntry | internal/bootstrap/templates.go:374-565 | and on the content of a path by itself, whatever its mode |
| Reruns.SettlesByPath | internal/bootstrap/templates.go:298-357 | every project is settled, content after one run and all after two, if and only if on every path a second run leaves any content alone |
| Reruns.ReplacementsSettleExactly | internal/bootstrap/templates.go:374-498 | creations and replacements on one path settle if and only if absence and their listed pristine contents do |
| Reruns.AdditionsSettle | internal/bootstrap/templates.go:500-565 | merges and creations settle in any number and order on one path |
| Reruns.SoleOperationSettles | internal/bootstrap/templates.go:374-565 | so does a single operation of any kind |
| Reruns.SettlesExactly | internal/bootstrap/templates.go:298-357 | every project is settled if and only if absence and the listed pristine contents of every replaced target settle, where no target is both merged into and replaced |
| Reruns.SettlesLate | internal/bootstrap/templates.go:456-498 | two replacements of one target that need two runs |
| Reruns.SwapsForever | internal/bootstrap/templates.go:456-498 | three replacements of one target that swap two contents with every run |
| Reruns.TakeoverSettles | internal/bootstrap/templates.go:456-498 | replacements of one scaffold settle, also after one that takes it and any other contents |
| Reruns.SelectionPath | internal/bootstrap/bootstrap_templates/detailed-planning-enforcement/template.yaml:1-43 | what any selection of the catalog, in the order of its ids, does to one path is one operation or such a list of replacements |
| Reruns.SelectionSettles | internal/bootstrap/templates.go:101-132 | so re-running any selection of the catalog is settled, content after one run and modes after two |
| AtomicWrites.StepKeeps | internal/fswrite/fswrite.go:25-107 | each step of any writer keeps the protocol invariant |
| AtomicWrites.RunKeeps | internal/fswrite/fswrite.go:25-107 | so every interleaving keeps it, up to any crash point |
| AtomicWrites.NeverTorn | internal/fswrite/fswrite.go:25-67 | at every crash point a target reads as at first or as the whole data of the last writer that committed to it |
| AtomicWrites.ModeKept | internal/fswrite/fswrite.go:31-50 | an existing target keeps its mode through any interleaving; a new file has some writer's default |
| AtomicWrites.SuccessMeansCommitted | internal/fswrite/fswrite.go:25-107 | a writer reports success exactly when its rename or link took effect |
| AtomicWrites.AtMostOneCreates | internal/fswrite/fswrite.go:69-107 | of the creating writers to one target at most one succeeds, and only if the target was absent at first |
| AtomicWrites.OldFilesUntouched | internal/fswrite/fswrite.go:25-107 | old inodes are never altered in place, and names that are nobody's target read as before |
| AtomicWrites.WritersReturn | internal/fswrite/fswrite.go:25-107 | every writer returns: in any interleaving it takes at most one step for each character and six others |
| AtomicWrites.NeverStuck | internal/fswrite/fswrite.go:25-107 | in every reachable state a writer that has not returned can make its next call, and that call need not fail, whatever the others did |
| AtomicWrites.NoTempLeft | internal/fswrite/fswrite.go:45-45 | unless the removal itself fails, no writer that has returned leaves its temporary name behind, failed or not |
| Symlinks.FileSystem.Resolve | internal/fswrite/fswrite.go:109-135 | the bounded walk returns the end of the link chain if it is found within forty hops, and otherwise says why not |
| Symlinks.ChainExactly | internal/fswrite/fswrite.go:109-135 | the walk is after k hops at a name exactly when a chain of k links leads to it |
| Symlinks.CycleNeverResolves | internal/fswrite/fswrite.go:109-135 | a cyclic chain resolves at no hop count |
| Symlinks.TooManyMeansCycle | internal/fswrite/fswrite.go:109-135 | with fewer than forty links, running out of hops means a cycle |
| Symlinks.FileSystem.FillTemp | internal/fswrite/fswrite.go:47-57 | the temporary file gets the mode and the whole data, or a call failed and no other file was touched |
| Symlinks.FileSystem.Prepare | internal/fswrite/fswrite.go:36-57 | both writers up to the commit: a complete temporary file, or after a failing call nothing but perhaps the temporary name |
| Symlinks.FileSystem.Atomic | internal/fswrite/fswrite.go:25-62 | it succeeds exactly when the path resolves and no call fails; then the end of the link chain leads to a new file with the data and the kept mode, and no other name moves; a failure at any call leaves every old file and all names but the temporary one |
| Symlinks.FileSystem.AtomicNew | internal/fswrite/fswrite.go:69-107 | it succeeds exactly when the path resolves to an absent target and no call fails, with the file complete; a failure at any call leaves every old file and all names but the temporary one |
| Symlinks.SoloCompletes | internal/fswrite/fswrite.go:25-107 | a lone writer's steps lead from any disk to success and to that sequential result |
| PointerSync.NormalizeInputWellFormed | internal/storage/domain/domain.go:749-804 | normalized sync input has each path once and a trimmed non-empty hash on every present path |
| PointerSync.NormalizeInputExactly | internal/storage/domain/domain.go:749-804 | refused exactly for a blank project, an unknown mode or a path with content and a blank hash; else project, mode and flag are those asked for, a path is present exactly if some entry with content normalizes to it, with the trimmed hash of the last such, and deleted exactly if only deletions do |
| PointerSync.SplitPaths | internal/adapters/sqlite/repository.go:1980-1990 | the loop separates deleted paths from rows with content |
| PointerSync.SqliteRepository.ApplySync | internal/adapters/sqlite/repository.go:1970-2137 | the row-by-row transaction makes the specified tables and counts, or refuses the input without effect |
| PointerSync.SqliteRepository.ApplyRows | internal/adapters/sqlite/repository.go:1998-2131 | its statements in order make the specified reconciliation |
| PointerSync.SqliteRepository.RefreshRows | internal/adapters/sqlite/repository.go:2071-2096 | one UPDATE per path equals the join with the whole snapshot, and the summed row counts equal the join's |
| PointerSync.SqliteRepository.InsertRows | internal/adapters/sqlite/repository.go:2098-2128 | one INSERT per path equals the set insert, with equal counts |
| PointerSync.CollectRows | internal/adapters/postgres/queries.go:422-466 | the loop that normalizes the rows once more: first row of a path wins, errors included |
| PointerSync.RepoRowsExactly | internal/adapters/postgres/queries.go:422-466 | of the rows that normalize to one path the first counts, with its trimmed hash |
| PointerSync.RepoRowsFailExactly | internal/adapters/postgres/queries.go:422-466 | rows are refused exactly when one of them has no path or no hash left |
| PointerSync.BatchFailsExactly | internal/adapters/postgres/repository.go:1669-1721 | the batch refuses a normalized input exactly when all its deleted paths, if any, or a present one normalize to nothing |
| PointerSync.PostgresRepository.ApplySync | internal/adapters/postgres/repository.go:1643-1726 | the batch transaction makes the specified tables and counts; a failing statement leaves the tables alone |
| PointerSync.PostgresRepository.RunBatch | internal/adapters/postgres/repository.go:1669-1721 | its statements, with the errors of the statement builders |
| PointerSync.BackendsAgree | internal/adapters/postgres/repository.go:1669-1721 | on paths without outer spaces both stores make the same tables and the same four counts from every table |
| PointerSync.BackendsDiffer | internal/adapters/postgres/queries.go:400-420 | for any input with an untidy path some table tells the stores apart |
| PointerSync.UntidyInput | internal/storage/domain/domain.go:922-933 | such inputs exist: a snapshot that spells a path "a /" normalizes to one |
| PointerSync.BackendsAgreeExactly | internal/adapters/postgres/queries.go:400-466 | the stores agree on every table if and only if no path has an outer space |
| PointerSync.SyncAgreement | internal/adapters/sqlite/repository.go:1998-2131 | afterwards every pointer on a present path is live with its hash, every one on a deleted path stale, a full sync leaves no live pointer elsewhere, and nothing else moves |
| PointerSync.SyncFromInput | internal/adapters/sqlite/repository.go:1970-2131 | every row and every candidate after a sync, said of the raw input: a present path gives its rows the last hash, a deleted or, in a full sync, absent one makes live rows stale, and new candidates are the present paths without a pointer |
| PointerSync.CountsAreChanges | internal/adapters/sqlite/repository.go:1998-2131 | the three pointer counts sum to the rows whose hash or staleness changed, the fourth is the candidates gained |
| PointerSync.CountsFromInput | internal/adapters/sqlite/repository.go:1992-2131 | each of the four counts is the number of rows, or candidates, that the raw input names for it |
| PointerSync.SyncIdempotent | internal/adapters/sqlite/repository.go:1970-2137 | the same sync again, at any time, changes nothing and counts nothing |
| RuleIds.CandidatesDistinct | internal/service/backend/ruleset.go:258-266 | the ids tried one after the other are all different |
| RuleIds.TriedFitSeen | internal/service/backend/ruleset.go:258-266 | the taken ones among them are no more than the ids seen |
| RuleIds.CanonicalRuleId | internal/service/backend/ruleset.go:245-267 | an invalid or repeated explicit id is an error; otherwise the id is new, and a derived one is found within as many tries as ids were seen plus one |
| RuleIds.RuleIdRecovered | internal/service/backend/context.go:210-224 | the rule id is read back from its pointer key, whatever '#' the source path contains |
| RuleIds.IdAfterHash | internal/service/backend/context.go:210-224 | the id is what follows the last '#', trimmed; without one, or if that is blank, the whole key |
| RuleIds.PointerKeyInjective | internal/service/backend/ruleset.go:287-289 | equal pointer keys mean equal rule ids and sources |
| RuleIds.ParseRules | internal/service/backend/ruleset.go:192-231 | a file is accepted if and only if every rule has a text, a valid enforcement, and an own id that is valid and not yet taken, or none; it then gives exactly its rules, with distinct ids, in strict key order |
| RuleIds.AcceptedExactly | internal/service/backend/ruleset.go:192-256 | the condition on the raw fields: some text, a valid enforcement, and an own id, if any, of at most 128 id characters that no earlier rule got |
| RuleIds.TextsAre | internal/service/backend/ruleset.go:192-215 | the summary is the first of summary, title and content that is not blank, the content is the content or else that |
| RuleIds.NextIdFresh | internal/service/backend/ruleset.go:245-267 | the id a rule gets has id characters and differs from those before it |
| RuleIds.RulesDistinct | internal/service/backend/ruleset.go:192-231 | the rules of an accepted file have distinct ids, which their keys give back |
| RuleIds.OrderDecides | internal/service/backend/ruleset.go:245-267 | an own id equal to one derived before it is refused, in the other order both rules are accepted |
| RuleOrders.OrderFreeParses | internal/service/backend/ruleset.go:192-231 | a file whose own ids differ and miss the first candidates of every base, as many as rules derive from it, is accepted |
| RuleOrders.EveryOrderExactly | internal/service/backend/ruleset.go:192-267 | every order of a file's rules is accepted if and only if it is such a file |
| RuleOrders.SuffixesInTurn | internal/service/backend/ruleset.go:258-266 | rules that derive from one base get it, then it with the suffixes -2, -3 and so on |
| RuleIds.SortRules | internal/service/backend/ruleset.go:228-231 | sorting keeps the rules and orders their keys strictly |
| RuleSync.RuleRepository.SyncRulePointers | internal/adapters/sqlite/repository_rules.go:17-135 | the source's rule rows are replaced as specified, counts included, or the input is refused without effect |
| RuleSync.RuleRepository.UpsertRules | internal/adapters/sqlite/repository_rules.go:33-85 | the upsert loop adds or overwrites exactly the supplied keys |
| RuleSync.ReplacedRow | internal/adapters/postgres/repository_rules.go:35-122 | what one replacement makes of every row |
| RuleSync.SyncIsExact | internal/service/backend/ruleset.go:98-137 | after all sources: supplied rows are as supplied, other rules on a synced path are gone, every other row is unchanged |
| RuleSync.RulesOnPath | internal/service/backend/ruleset.go:98-137 | the rule rows on a source path are exactly that source's rules |
| RuleSync.ParsedRulesAccepted | internal/adapters/sqlite/repository_rules.go:137-202 | the store's own normalization takes parsed rules as they are, under their own keys |
| RuleSync.NormalizeRulesExactly | internal/adapters/sqlite/repository_rules.go:137-202 | the store refuses exactly lists with a rule without an id, given or in its key, or without a summary, and otherwise keeps the last rule of each key |
| RuleSync.IdAfterHash | internal/adapters/sqlite/repository_rules.go:224-234 | here the id is what follows the last '#', trimmed, and nothing without one |
| RuleSync.KeysAgree | internal/adapters/sqlite/repository_rules.go:224-234 | the store reads the id back from a key the service prints, and prints the same key for it |
| RuleSync.ParsedMap | internal/service/backend/ruleset.go:98-137 | what the parser returns for a file is stored as exactly the rules of that file |
| RuleSync.RulesetService.SyncFile | internal/service/backend/ruleset.go:98-137 | one turn of the loop replaces the file's rules exactly, or fails without effect when the file cannot be parsed or its path is blank |
| RuleSync.RulesetService.SyncRulesets | internal/service/backend/ruleset.go:82-138 | the loop applies exactly the files before the first that fails, and succeeds if and only if none does |
| RuleSync.ParsedRulesOnPath | internal/service/backend/ruleset.go:98-137 | after a sync, failed or not, the rule rows on the path of every applied file are exactly those parsed from it, none for a missing file |
| RuleSync.StoredRule | internal/service/backend/ruleset.go:98-137 | each rule of an applied file has a live row with its texts taken from the raw fields, no hash, and the path of the file |
| RuleSync.UnappliedRowsKept | internal/service/backend/ruleset.go:98-137 | rows on no applied path and under no key of an applied file are unchanged, so the files from the failing one on are untouched |
| RuleSync.SyncOrderIrrelevant | internal/service/backend/ruleset.go:98-137 | every order of the sources leaves the same table |
| RuleSync.ParsedSourcesCompatible | internal/service/backend/ruleset.go:287-289 | parsed files at different paths never share a pointer key |
| Strings.TrimRemovesSpaces | internal/service/backend/service.go:244-244 | trimming takes away white space at the ends and nothing else |
| Strings.SpacesAre | internal/service/backend/service.go:244-244 | white space is the 25 characters of Unicode |
| Paths.CleanKeepsLocation | internal/service/backend/service.go:252-252 | cleaning segments leads to the same place from every directory |
| Paths.CleanIdempotent | internal/service/backend/service.go:252-252 | cleaning twice is cleaning once, and never lengthens |
| Paths.NormalizeForm | internal/service/backend/service.go:243-257 | an accepted path is relative, without empty, "." or ".." segments and without backslashes |
| Paths.NormalizeKeepsLocation | internal/service/backend/service.go:243-257 | it names the place that the raw path leads to |
| Paths.AbsoluteExactly | internal/service/backend/service.go:249-261 | absolute is what begins with a slash, or with a letter of the Latin alphabet, a colon and a slash |
| Paths.NormalizeAccepts | internal/service/backend/service.go:243-257 | a path is accepted if and only if it is relative and leads strictly below every directory |
| Paths.ResultsExactly | internal/service/backend/service.go:243-257 | the results of normalization are exactly the plain paths |
| Paths.NormalizeIdempotentExactly | internal/service/backend/service.go:243-257 | a second normalization changes nothing if and only if the first result has no outer space and no drive prefix |
| Paths.NormalizeNotIdempotent | internal/service/backend/service.go:243-257 | two inputs on which it does change something |
| Paths.NormalizeRepoStableExactly | internal/storage/domain/domain.go:922-933 | the stores' normalization is stable exactly on results without outer spaces, and shortens the others |
| Paths.NormalizeRepoExactly | internal/storage/domain/domain.go:922-933 | what the stores keep of a path: where a rooted one leads from the root, or a clean path that leads where the raw one does from every directory, and nothing exactly for that directory itself |
| Paths.NormalizersAgree | internal/storage/domain/domain.go:922-933 | where the stricter normalizer accepts, both give the same path |
| Paths.PathWithinScope | internal/service/backend/scope_runtime.go:224-239 | the prefix test on strings holds exactly when some scope path's segments are a prefix of the candidate's |
| Paths.CoversIsContainment | internal/service/backend/scope_runtime.go:224-239 | which is containment of the places the two paths lead to |
| Paths.NormalizePaths | internal/service/backend/service.go:220-241 | the accepted results, sorted, each once |
| ScopeDelta.CollectStates | internal/service/backend/scope_runtime.go:154-172 | the loop keeps the last entry of each accepted path |
| ScopeDelta.StatesExactly | internal/service/backend/scope_runtime.go:154-172 | the state of a path is the trimmed hash and the deletion mark of the last entry that normalizes to it |
| ScopeDelta.Diff | internal/service/backend/scope_runtime.go:153-197 | the sorted list of exactly the paths whose two states differ |
| ScopeDelta.StatesEqualIsEqual | internal/service/backend/scope_runtime.go:199-203 | the comparison of recorded states is equality |
| ScopeDelta.DeltaLaws | internal/service/backend/scope_runtime.go:153-197 | the delta is symmetric and empty exactly between equal snapshots |
| ScopeDelta.MismatchViolations | internal/service/backend/scope_runtime.go:335-375 | exactly the supplied paths not detected and the detected ones omitted, when something was supplied |
| ScopeDelta.OutOfScopeViolations | internal/service/backend/scope_runtime.go:418-432 | exactly the changed paths outside every allowed path |
| ScopeDelta.MergeViolations | internal/service/backend/scope_runtime.go:377-416 | one line per path, sorted, with that path's distinct reasons joined in order |
| ScopeDelta.JoinReasonsExactly | internal/service/backend/scope_runtime.go:412-412 | joining reasons puts the separator between them and nowhere else |
| ScopeDelta.ReasonsExactly | internal/service/backend/scope_runtime.go:377-403 | the reasons of a path are the trimmed non-empty ones given for any spelling of it, each once |
| ScopeDelta.FilesChangedMeaning | internal/service/backend/scope_runtime.go:316-333 | when the changed files are refused, with and without reliable detection, and what they are otherwise |
| ScopeDelta.CompletionViolations | internal/service/backend/completion.go:55-58 | one line for exactly every name under which a path complained of is reported, its text the reasons given for such paths in the order not detected, omitted, outside; none exactly when another normalization rejects them all |
| ScopeDelta.VerdictRightExactly | internal/service/backend/completion.go:51-58 | the verdict is right on all lists of stable paths if and only if the allowed paths that start with no space and no drive, normalized once and normalized as the scope test does, lie under each other |
| ScopeDelta.WithinExactly | internal/service/backend/scope_runtime.go:224-239 | every canonical path under one set of plain paths is under another if and only if its members without leading space or drive are |
| ScopeDelta.StableVerdict | internal/service/backend/completion.go:51-58 | there no violation means that the supplied list is empty or equals the delta and every delta path is in scope |
| ScopeDelta.UnstablePathHidesMismatch | internal/service/backend/scope_runtime.go:384-389 | supplying "./C:/x" for an empty delta yields no violation |
| ScopeDelta.TrailingSpaceMovesScope | internal/service/backend/scope_runtime.go:418-432 | allowing "a /" lets a change to "a/x" pass and reports one to "a /x" |
| FetchKeys.ReceiptRoundTrip | internal/service/backend/fetch.go:111-145 | printed receipt and plan keys parse to their id |
| FetchKeys.IdKeysExactly | internal/service/backend/fetch.go:111-145 | a plan or receipt key parses exactly when, trimmed, it is the prefix and an id of 8 to 128 id characters, spaces around the id aside |
| FetchKeys.PrintedKeys | internal/service/backend/fetch.go:133-220 | what is printed for an id and for a run |
| FetchKeys.NothingPrinted | internal/service/backend/fetch.go:133-220 | and for what nothing is printed |
| FetchKeys.TaskRoundTrip | internal/service/backend/fetch.go:153-193 | a printed task key parses to the plan, receipt and task it was printed from |
| FetchKeys.TaskRoundTripExactly | internal/service/backend/fetch.go:153-193 | it does so if and only if the plan key parses, the task is not blank and the key fits the length limit |
| FetchKeys.TaskKeysExactly | internal/service/backend/fetch.go:153-180 | a task key parses exactly when, spaces around its parts aside, it is the prefix, a plan key that parses, the first '#' and a task that is not blank |
| FetchKeys.TaskNormalForm | internal/service/backend/fetch.go:153-193 | whatever parses prints to a normal form that parses to the same parts, or exceeds the limit |
| FetchKeys.RunKeysExactly | internal/service/backend/fetch.go:195-209 | a run key parses exactly when what follows the prefix is a decimal number from 1 to the largest 64-bit integer, a plus sign allowed |
| FetchKeys.ByteLengthExactly | internal/service/backend/fetch.go:141-141 | the length that the limit counts is in bytes, one to four for a character |
| FetchKeys.RunRoundTrip | internal/service/backend/fetch.go:195-220 | every positive 64-bit run id is printed and read back |
| FetchKeys.DispatchUnambiguous | internal/service/backend/fetch.go:45-70 | at most one parser accepts a key |
| FetchKeys.DispatchReaches | internal/service/backend/fetch.go:45-70 | a printed plan, receipt, task or run key reaches its own lookup with its own parts, and a text with none of their prefixes that of the pointers |
| FetchKeys.Fetch | internal/service/backend/fetch.go:32-91 | every requested key is found or reported missing, in order, and the mismatches are exactly the found keys with another expected version |
| FetchKeys.SelectExactly | internal/service/backend/fetch.go:32-91 | the found and the missing keys are those of each part of the list in a row, so every occurrence counts, in order |
| FetchKeys.FindExactly | internal/service/backend/fetch.go:45-70 | a key is found exactly where it is dispatched to, and under its own text when it is that of a pointer |
| Decimal.ItoaReads | internal/service/backend/fetch.go:195-220 | a printed number reads back |
| History.AllItems | internal/service/backend/history.go:53-81 | three limited queries, merged, sorted and cut |
| History.LimitExactly | internal/service/backend/history.go:290-302 | the limit is none when unbounded, 20 when none is given and at most 100 |
| History.StableSortSorts | internal/service/backend/history.go:69-77 | the sort is an ordered permutation |
| History.TopShape | internal/service/backend/history.go:69-80 | the result is sorted and has min(limit, total) rows |
| History.TopInOrder | internal/service/backend/history.go:69-77 | newest second first, keys ascending within a second |
| History.TopComesFromRows | internal/service/backend/history.go:53-81 | each returned item has the key of a stored row and its time in whole seconds |
| History.TopIsDrawn | internal/service/backend/history.go:65-80 | its rows are stored rows, none more often than stored |
| History.TopIsNewest | internal/service/backend/history.go:53-81 | the i-th row is as new as the i-th row of the full sort of everything |
| History.TopIsFullPrefix | internal/service/backend/history.go:53-81 | where the full sort drops by a whole second at the cut, the result is its first rows, keys and all |
| History.NothingNewerOmitted | internal/service/backend/history.go:53-81 | no row left out is strictly newer, in whole seconds, than a returned one |
| PlanChain.BuildChain | scripts/awm-feature-plan-validate.py:122-135 | the walk ends; it succeeds if and only if the climb reaches a root, with a root-first chain of distinct plans, and otherwise names a missing parent or a repeated plan that the climb reaches |
| PlanChain.CycleNeverEnds | scripts/awm-feature-plan-validate.py:128-130 | once a climb returns to a plan no climb reaches a root |
| PlanChain.MissingNeverEnds | scripts/awm-feature-plan-validate.py:131-131 | nor once a parent is missing |
| PlanValidator.CollectLive | scripts/awm-feature-plan-validate.py:149-172 | the first loop indexes the live tasks and reports exactly the bad rows |
| PlanValidator.LiveExactly | scripts/awm-feature-plan-validate.py:149-172 | the live task of a key is the first row with that key that is not superseded |
| PlanValidator.LinkTasks | scripts/awm-feature-plan-validate.py:174-190 | the second loop records all children and reports exactly the bad links |
| PlanValidator.IndexTasks | scripts/awm-feature-plan-validate.py:149-190 | no error exactly when there are tasks, rows are well-formed with unrepeated keys, and every link names a live task |
| PlanValidator.ValidateParents | scripts/awm-feature-plan-validate.py:223-234 | no error exactly when only stages have children |
| PlanValidator.ValidateStage | scripts/awm-feature-plan-validate.py:238-269 | no error exactly when the stage is present, parentless, has children, and its non-gate children have allowed prefixes |
| PlanValidator.ValidateHierarchy | scripts/awm-feature-plan-validate.py:237-281 | no error exactly when that holds of the three stages and every other non-gate task is under one |
| PlanValidator.ValidateLeaves | scripts/awm-feature-plan-validate.py:193-220 | no error exactly when there is a leaf and every leaf has two criteria, one to three references and a specific summary |
| PlanValidator.VagueExactly | scripts/awm-feature-plan-validate.py:51-52 | a summary is too vague exactly when its words, in lower case, are those of one of seven phrases |
| PlanValidator.WordsExactly | scripts/awm-feature-plan-validate.py:51-52 | the words of a text are its parts between spaces |
| PlanValidator.ValidateHeader | scripts/awm-feature-plan-validate.py:313-330 | no error exactly when the plan's own fields are set and it has no parent |
| PlanValidator.HeaderExactly | scripts/awm-feature-plan-validate.py:313-330 | those fields by name |
| PlanValidator.ValidatePasses | scripts/awm-feature-plan-validate.py:336-352 | the passes over the index report nothing exactly when all their conditions hold |
| PlanValidator.StageStatusExactly | scripts/awm-feature-plan-validate.py:336-352 | the stage tasks agree with the plan's fields spec_outline, refined_spec and implementation_plan, in this order, where both are set |
| PlanValidator.PassesDecideShape | scripts/awm-feature-plan-validate.py:336-352 | those conditions hold if and only if the live tasks are a staged forest with a verify task and agreeing stage statuses |
| PlanValidator.StagedForestExactly | scripts/awm-feature-plan-validate.py:237-281 | that shape in the names plans use: the three stage:... roots with children, parents only among stages, every other non-gate task a proper leaf under the prefix of its stage, and at least one of them |
| PlanValidator.ForestIsShallow | scripts/awm-feature-plan-validate.py:237-281 | in a staged forest no task is more than one step below a root |
| PlanValidator.ValidateRoot | scripts/awm-feature-plan-validate.py:313-352 | no error if and only if the root plan has the required header, rows, links and shape, or no live task at all |
| PlanValidator.AllSupersededPasses | scripts/awm-feature-plan-validate.py:332-334 | the exception: with every task superseded no shape is required |
| TaskIndex.Board.constructor | web/static/app.js:115-118 | the board starts empty |
| TaskIndex.Board.AddChild | web/static/app.js:128-131 | one position is pushed onto one key's list; lists stay unshared |
| TaskIndex.Board.BuildIndex | web/static/app.js:120-134 | the index lists each parent's children in order, in fresh lists, and maps each key to its last task |
| TaskIndex.LastByKeyExactly | web/static/app.js:124-127 | a non-empty key leads to the last task that has it |
| TaskIndex.BuiltReachability | web/static/app.js:120-134 | paths in the built index are exactly chains of parent links |
| TaskIndex.Board.CollectDescendants | web/static/app.js:673-688 | the result lists exactly the tasks reachable in one or more child steps, each once, on any graph; the index may grow but reaches the same |
| TaskIndex.Board.WalkQueue | web/static/app.js:675-686 | the loop over the aliased, growing list ends with exactly the reachable tasks |
| TaskIndex.Board.PushChildren | web/static/app.js:683-685 | pushing a child's list onto the queue changes only the walked task's list |
| TaskIndex.GrowthKeepsReach | web/static/app.js:673-688 | appending a task's own descendants to its list changes no reachability |
| TaskIndex.Board.CollectAll | web/static/app.js:673-688 | any sequence of walks is exact for the index as it was built |

## Left out

- SHA-256 and the runner-file hashes: claims are about the part stream before hashing, with the parts for gate, command and runner files as one fixed header.
- JSON, YAML and TOML codecs, and rendering of template assets: decoded values are inputs; one round-trip law is assumed of the template codec.
- Databases, files, git and processes themselves: only their effect on state is modelled, a statement as a table transformer and a system call as an atomic step. Connection errors and failed commits are not modelled.
- Attempt ids, evidence references, summaries, outcome texts and command output of a review.
- Concurrent callers of Review: listing and saving attempts are two store calls.
- ReviewGate.ReviewService.Review: loading the plan, the scope and the workflow can fail before the modelled part; such a failure leaves the state alone.
- Closeout.ReceiptRuns.Done: a requirement's selector for phase, tags and changed files is a function given as input; a work item carries one of the statuses, reading their texts is left out; failing loads and the update of the plan's status before the evaluation are not modelled.
- Fingerprint.Collect: read errors, symbolic links and the `os.Root` confinement are not modelled; the walk is a set of files, and which of several with one normalized name remains is left open, as the sort that decides it is unstable.
- Templates.Project.ApplyMerge: reading JSON may round a large number, which a merge then writes back; the codec's values are the rounded ones.
- Reruns.SettlesExactly: a target that is both merged into and replaced has no finite check here; the catalog has none.
- ScopeDelta.VerdictRightExactly: for lists with unstable paths there are the two inputs above, and what is reported exactly (`CompletionViolations`), but no condition on the lists.
- JsonMerge.MergeValues: the deep copies that keep target and source unshared are not visible on values.
- Templates.Project.ApplyTemplate: the final sorting of the result lists is not modelled; neither are symbolic links or files changed by others during a run.
- AtomicWrites.NeverTorn: a power loss that undoes completed steps is not modelled (the code does not sync the directory), nor a reused temporary name, nor a failing stat of an existing target.
- Symlinks.FileSystem.Resolve: a link's destination is taken as already joined with the link's directory, and links do not change during a write.
- PointerSync.SqliteRepository.ApplySync: all statements of one call see the same clock; the tags of a row are one text.
- Pointer stubs and the stale filter of pointer queries (`UpsertPointerStubs`, `matchesStaleFilter`): one upsert per stub and one condition per filter over the rows modelled here, not modelled.
- RuleIds.CanonicalRuleId: the content-derived id is an input with the characters of an id; its digest is not computed.
- RuleSync.RuleRepository.SyncRulePointers: enforcement and tags of a rule are one text, so their normalization is not modelled; a row is marked as a rule in place of its kind.
- RuleSync.RulesetService.SyncRulesets: the dry run without apply, and failures of the store other than refused input; all sources of one call see the same clock.
- FetchKeys.Fetch: assembling the content and version of an item is a lookup given as input; the implied receipt keys are part of the requested list.
- History.AllItems: the queries' filters, and rows a query returns but the listing skips for a blank key, are not modelled.
- PlanValidator.ValidateRoot: feature-stream plans, the thin-plan exemption, plan keys in the messages and Python's treatment of non-ASCII case and white space are not modelled.
- TaskIndex.Board.CollectDescendants: property names that every JavaScript object inherits, used as task keys, are not modelled.
- The CLI, the HTTP and MCP handlers, exports, status and health reports, payload validators: output or dispatch, each branch settled by reading it.
