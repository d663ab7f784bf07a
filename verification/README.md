# Git safety check, documentation drift check and CJK scanner — a Dafny model

This project models the decision logic of three small developer tools and proves what their
results mean.

- **`git_safety_check.py`** has four parts:
  - the command-risk classifier: two ordered tiers of regular-expression rules, searched with
    `re.IGNORECASE`;
  - the repository-state summary: the current branch, uncommitted changes, unpushed commits,
    stashes, and three checks;
  - the parallel-branch status: main-branch detection, feature-branch discovery, the per-branch
    ahead, behind and days-behind figures, and the changed files;
  - the conflict detector: files changed on more than one branch.
- **`doc_sync.py`**: the drift check. It has three parts:
  - it lists the `*.md` documents of `.ultra/specs` and `docs`;
  - it counts the four stale markers in each readable document, the way
    `re.findall(..., re.IGNORECASE)` does;
  - it looks for the two expected documents and their legacy locations.
  From these it produces two recommendations.
- **`find_chinese_chars.py`**: the scan for lines holding a CJK Unified Ideograph. It covers:
  - the top-down `os.walk` with directories pruned before descent;
  - the `Path.suffix` extension filter;
  - the per-file line scan;
  - the preview truncation and the exit status.

Everything the scripts learn from the outside world is a parameter of the model:
- Each git invocation is an `Option<string>`: its standard output, or `None` when it exits with
  an error (`CalledProcessError`).
- A directory tree is an `Entry` value, with each file's lines or `None` when it cannot be
  opened.
- A document is a path with its text, or `None` when it cannot be read.
- `Path.exists` is a predicate over relative paths.

`int()` raising `ValueError` on text that is not a numeral is not caught by the scripts. It is
modelled as a `Failure(ValueError)` outcome.

The modules follow the scripts:
- `GitRisk` and `RiskPatterns`: the classifier and the regular-expression fragment its rules
  use;
- `GitRepoState`, `GitBranches`, `GitConflicts` and `GitParallel`: the rest of
  `git_safety_check.py`;
- `DocSync`: `doc_sync.py`;
- `CjkScan`: `find_chinese_chars.py`.

`Seqs`, `Text` and `Wrappers` hold the sequence, string and result helpers they share. Among
them are Python's `strip`, `split`, `replace`, `startswith`, `int()` and `str()` on integers.

Three things about the code shape the model:
- **Only git failures are caught.** Around each git query the scripts catch
  `CalledProcessError` and nothing else. When git succeeds but prints something `int()` rejects,
  `ValueError` escapes and ends `analyze_repo_state` or `analyze_parallel_status`.
  `GitRepoState.CountUnpushed`, `GitBranches.BranchInfoOf` and `GitParallel.CollectInfos` carry
  that outcome as `Failure(ValueError)`.
- **Main-branch detection takes the first match.** `_get_main_branch` returns whichever of
  "main" and "master" comes first in the listing. With git's default name order "main" comes
  first, so both present gives "main". `GitBranches.FirstMainNameIsFirstMatch` states the rule
  for a listing in any order.
- **Undecodable bytes are dropped.** Files are opened with `errors='ignore'`. The model receives
  the decoded lines.

## Model

| member | source | states |
|---|---|---|
| GitRisk.Classify | skills/guarding-git-workflow/scripts/git_safety_check.py:87-116 | Reference assessment. The level is Dangerous iff some dangerous pattern is found. It is Caution iff no dangerous pattern is found and some caution pattern is. Confirmation is required iff the level is Dangerous. A safe command has no warnings and no recommendations. BLOCKED is never produced. |
| GitRisk.AnalyzeCommand | skills/guarding-git-workflow/scripts/git_safety_check.py:87-116 | The two loops compute exactly the reference assessment `Classify`, whatever the search function. |
| GitRisk.ScanTier | skills/guarding-git-workflow/scripts/git_safety_check.py:95-100 | One tier's loop collects one warning per matching rule and the matching rules' recommendation lists, in rule order. It reports something iff some rule of the tier matches. |
| GitRisk.DangerousTierDominates | skills/guarding-git-workflow/scripts/git_safety_check.py:94-103 | Once a dangerous rule matches, the caution patterns cannot change the assessment. It is Dangerous and asks for confirmation. |
| GitRisk.CautionTierDecidesOtherwise | skills/guarding-git-workflow/scripts/git_safety_check.py:102-108 | With no dangerous match, the caution tier alone decides, and confirmation is never required. |
| GitRisk.HitsInRuleOrder | skills/guarding-git-workflow/scripts/git_safety_check.py:95-99 | The matches of an earlier block of rules come before those of a later block. Their recommendations are concatenated in the same order. |
| GitRisk.FirstTwoHits | skills/guarding-git-workflow/scripts/git_safety_check.py:95-99 | When the first two rules of a tier match, they head the warnings in order, and their recommendation lists head the recommendations unchanged. |
| GitRisk.HitReported | skills/guarding-git-workflow/scripts/git_safety_check.py:96-99 | A matching rule's warning and every one of its recommendations are reported. |
| GitRisk.WarningAbsent | skills/guarding-git-workflow/scripts/git_safety_check.py:94-108 | A warning that no matching rule carries is never reported. |
| GitRisk.DuplicatesAreKept | skills/guarding-git-workflow/scripts/git_safety_check.py:95-99 | When both force-push rules match, their identical warning and recommendations are reported twice, because nothing is deduplicated. |
| GitRisk.ForcePushToMainIsDangerous | skills/guarding-git-workflow/scripts/git_safety_check.py:43-45 | Every command containing "push --force origin main" is Dangerous and needs confirmation. Its first warning is the shared-history warning. |
| GitRisk.RulePatternsWellFormed | skills/guarding-git-workflow/scripts/git_safety_check.py:42-85 | Every `\s+` in the ten rule patterns ends the pattern or is followed by a token that cannot start at whitespace. For such patterns the model's matcher is `re.search`. |
| GitRisk.ForcePushMatches | skills/guarding-git-workflow/scripts/git_safety_check.py:43 | The first force-push pattern is found in every command containing "push --force origin main", wherever it stands. |
| GitRisk.ForceDeleteWarningOnlyOnce | skills/guarding-git-workflow/scripts/git_safety_check.py:63-65 | Only the `branch\s+-D` rule carries the force-delete warning. No caution rule does. |
| GitRisk.SafeDeleteMatchesIgnoringCase | skills/guarding-git-workflow/scripts/git_safety_check.py:96 | Under `re.IGNORECASE`, the force-delete pattern is found in every command containing "branch -d". |
| GitRisk.SafeDeleteFlaggedAsWritten | skills/guarding-git-workflow/scripts/git_safety_check.py:63-65 | As written, every command containing "branch -d" is Dangerous and carries the force-delete warning and "Use -d for safe delete". |
| GitRisk.SafeDeleteOnlyFlaggedAsWritten | skills/guarding-git-workflow/scripts/git_safety_check.py:96 | "git branch -d old" gets the force-delete warning under the search as written, and not under the corrected search. |
| GitRisk.IntendedForceDeleteNeedsCapitalD | skills/guarding-git-workflow/scripts/git_safety_check.py:63 | Under the corrected search, the force-delete rule fires only on a command that contains a literal "-D". |
| GitRisk.IntendedSafeDeleteNotFlagged | skills/guarding-git-workflow/scripts/git_safety_check.py:63-65 | Under the corrected search, a command without "-D" never gets the force-delete warning. |
| RiskPatterns.MatchAtIsMatches | skills/guarding-git-workflow/scripts/git_safety_check.py:96 | For well-formed patterns, the greedy matcher, where each `\s+` takes the whole run of whitespace, agrees with the backtracking semantics of `re.search`. |
| RiskPatterns.WordAtExact | skills/guarding-git-workflow/scripts/git_safety_check.py:96 | Without `re.IGNORECASE`, a matched word is literally present in the text. |
| Text.Strip | skills/guarding-git-workflow/scripts/git_safety_check.py:150 | The result has no whitespace at either end, is empty iff the input is all whitespace, and is a slice of the input with only whitespace around it. |
| Text.SplitOn | skills/guarding-git-workflow/scripts/git_safety_check.py:180 | The pieces hold no separator and joined with it give the input back. There is at least one piece. |
| Text.SplitOnJoin | skills/guarding-git-workflow/scripts/git_safety_check.py:180 | Splitting a join of separator-free pieces gives the pieces back. |
| Text.ParseInt | skills/guarding-git-workflow/scripts/git_safety_check.py:170 | `int()` succeeds iff the stripped text is an integer literal (optional sign, then ASCII digits), and gives the value the literal denotes. |
| Text.ReplaceAllAbsent | skills/syncing-docs/scripts/doc_sync.py:57-59 | Text in which the pattern does not occur is left unchanged by `str.replace`. |
| Text.ReplaceAllFirstOccurrence | skills/syncing-docs/scripts/doc_sync.py:57-59 | The first occurrence of the pattern is replaced, the text before it is kept, and replacement goes on after it. |
| GitRepoState.CurrentBranch | skills/guarding-git-workflow/scripts/git_safety_check.py:144-152 | "unknown" when git fails. Otherwise the output with its surrounding whitespace removed: a trimmed slice of the output with only whitespace around it, empty iff the output is all whitespace. |
| GitRepoState.CurrentBranchReadsName | skills/guarding-git-workflow/scripts/git_safety_check.py:150 | The branch name git prints, followed by a newline, is read back exactly. |
| GitRepoState.HasUncommittedChanges | skills/guarding-git-workflow/scripts/git_safety_check.py:154-162 | True iff git succeeds and prints something other than whitespace. |
| GitRepoState.CountUnpushed | skills/guarding-git-workflow/scripts/git_safety_check.py:164-172 | 0 when git fails. It raises iff the stripped output is not an integer literal (optional sign, then ASCII digits). Otherwise it is the value that literal denotes. |
| GitRepoState.CountUnpushedReadsCount | skills/guarding-git-workflow/scripts/git_safety_check.py:170 | Any count git prints, followed by a newline, reads back as that count. |
| GitRepoState.CountStashes | skills/guarding-git-workflow/scripts/git_safety_check.py:174-182 | Zero iff git fails or prints only whitespace. |
| GitRepoState.CountStashesCountsLines | skills/guarding-git-workflow/scripts/git_safety_check.py:180 | A listing with one line per stash counts the stashes exactly. |
| GitRepoState.RepoIssues | skills/guarding-git-workflow/scripts/git_safety_check.py:129-140 | Each of the three warning and recommendation pairs is present iff its condition holds: uncommitted changes, more than 5 unpushed commits, on main or master. The length is the number of conditions that hold, so nothing else is reported. They come in check order, and the unpushed warning carries the count. |
| GitRepoState.AnalyzeRepoState | skills/guarding-git-workflow/scripts/git_safety_check.py:118-142 | It fails iff the unpushed output is not an integer literal. Otherwise the branch, uncommitted flag, unpushed count and stash count are the four queries' readings, and the warnings and recommendations are the checks' findings, paired position by position. |
| GitRepoState.UnpushedWarningReadsBack | skills/guarding-git-workflow/scripts/git_safety_check.py:135 | The number at the front of the unpushed warning reads back as the count. |
| GitBranches.MainBranch | skills/guarding-git-workflow/scripts/git_safety_check.py:215-229 | Always "main" or "master". "main" when git fails. |
| GitBranches.FirstMainNameIsFirstMatch | skills/guarding-git-workflow/scripts/git_safety_check.py:223-227 | "master" is chosen iff some listed name is master and no earlier name is main or master. |
| GitBranches.FeatureBranchesOf | skills/guarding-git-workflow/scripts/git_safety_check.py:239-243 | A name is reported iff it has a feature prefix and some line of the listing normalizes to it. |
| GitBranches.FeatureBranchesOnceInOrder | skills/guarding-git-workflow/scripts/git_safety_check.py:239-243 | No feature branch is reported twice, and they come in the order of their first line. |
| GitBranches.FeatureBranches | skills/guarding-git-workflow/scripts/git_safety_check.py:231-246 | Every reported branch has a feature prefix. There is none when git fails. |
| GitBranches.GetFeatureBranches | skills/guarding-git-workflow/scripts/git_safety_check.py:231-246 | The loop with its `not in branches` test computes `FeatureBranches`. |
| GitBranches.CurrentLineNormalizes | skills/guarding-git-workflow/scripts/git_safety_check.py:240 | The current-branch line "* name" reads as `name`, both as a main candidate and as a feature branch. |
| GitBranches.RemoteLineNormalizes | skills/guarding-git-workflow/scripts/git_safety_check.py:240 | The remote-tracking line "  remotes/origin/name" reads as `name`. |
| GitBranches.SameFeatureTwice | skills/guarding-git-workflow/scripts/git_safety_check.py:242-243 | Two lines that name the same feature branch give that branch once. |
| GitBranches.LocalAndRemoteReportedOnce | skills/guarding-git-workflow/scripts/git_safety_check.py:239-243 | A feature branch that is checked out locally and also tracked on origin is reported once. |
| GitBranches.ChangedFiles | skills/guarding-git-workflow/scripts/git_safety_check.py:272 | Every changed file name is non-empty and holds no newline. |
| GitBranches.FilesReadBack | skills/guarding-git-workflow/scripts/git_safety_check.py:268-272 | A diff listing of file names, one per line, reads back as exactly those names. |
| GitBranches.ReadCounts | skills/guarding-git-workflow/scripts/git_safety_check.py:256-258 | The counts are read iff the first field is a numeral and the second is one too, when it is present. |
| GitBranches.CountsReadBack | skills/guarding-git-workflow/scripts/git_safety_check.py:252-258 | "behind TAB ahead" as git prints it reads back as behind and ahead. |
| GitBranches.CountFieldsSplit | skills/guarding-git-workflow/scripts/git_safety_check.py:256 | Two numerals separated by a tab split into exactly those two numerals. |
| GitBranches.DaysBetween | skills/guarding-git-workflow/scripts/git_safety_check.py:292 | The whole number of days, rounded down, also for a negative span: `d * 86400 <= span < (d + 1) * 86400`. |
| GitBranches.DaysBehind | skills/guarding-git-workflow/scripts/git_safety_check.py:274-292 | 0 when the branch is not behind. Otherwise: it raises iff the main time is not a numeral, or the base query succeeds and the base time is not one. It gives no information iff the main-time query fails, or the main time reads and the merge-base or base-time query fails. It gives a value iff all three succeed with numerals, and that value is the whole days between the two times, rounded down. |
| GitBranches.BranchInfoOf | skills/guarding-git-workflow/scripts/git_safety_check.py:248-305 | It raises iff the counts are not numerals, or the last-commit and diff queries succeed and the days step raises. It gives no information iff the count query fails, or a later query fails. A described branch keeps its name, the counts git printed, the stripped last commit and the days step's value, and needs a rebase iff it is behind. The files are the first 10 changed files, and the total counts all of them. |
| GitConflicts.DetectConflicts | skills/guarding-git-workflow/scripts/git_safety_check.py:307-328 | The two loops, with the dictionary keys in insertion order, compute the reference `Conflicts` over each record's listed files. |
| GitConflicts.RecordBranch | skills/guarding-git-workflow/scripts/git_safety_check.py:314-317 | After one branch's files, every key maps to the branches of all pairs so far, and the keys are the files in first-seen order. |
| GitConflicts.ConflictsOfKeys | skills/guarding-git-workflow/scripts/git_safety_check.py:320-326 | The second loop reports, key by key, the files touched by more than one branch. |
| GitConflicts.Conflicts | skills/guarding-git-workflow/scripts/git_safety_check.py:307-328 | Every reported file is listed by some branch, with the branch of each pair that touches it (more than one) and high severity iff more than two. Every file touched by more than one pair is reported. |
| GitConflicts.ConflictIffShared | skills/guarding-git-workflow/scripts/git_safety_check.py:320-326 | A file is reported iff more than one branch lists it. Its branches are exactly those, in input order, and the severity is high iff more than two list it. |
| GitConflicts.ConflictsInFirstSeenOrder | skills/guarding-git-workflow/scripts/git_safety_check.py:310-320 | Conflicts come in the order in which their files are first met, so each file appears at most once. |
| GitConflicts.BranchesTouchingIsNamesWith | skills/guarding-git-workflow/scripts/git_safety_check.py:313-317 | When no branch lists a file twice, the names the dictionary holds for a file are exactly the branches listing it, in order. |
| GitConflicts.TouchedFiles | skills/guarding-git-workflow/scripts/git_safety_check.py:313-314 | The files met by the nested loop are exactly the files of the branches. |
| GitParallel.StaleBranches | skills/guarding-git-workflow/scripts/git_safety_check.py:209 | Empty iff no branch is more than 7 days behind. Every branch is kept iff all are. |
| GitParallel.ParallelRecommendations | skills/guarding-git-workflow/scripts/git_safety_check.py:205-211 | The many-branches advice appears iff there are more than 3 branches, and it comes first. The stale advice with its count comes last iff some branch is stale. The length is the number of these that apply. |
| GitParallel.StaleCountBounds | skills/guarding-git-workflow/scripts/git_safety_check.py:209 | No branch is stale iff the stale list is empty. Every branch is stale iff the list is as long as the input. |
| GitParallel.StaleAdviceReadsBack | skills/guarding-git-workflow/scripts/git_safety_check.py:211 | The number at the front of the stale advice reads back as the number of stale branches. |
| GitParallel.CollectInfos | skills/guarding-git-workflow/scripts/git_safety_check.py:197-200 | The loop fails iff reading some branch raises. Every kept record is what the reader produced for a listed branch. |
| GitParallel.DescribedBranchKept | skills/guarding-git-workflow/scripts/git_safety_check.py:197-200 | Every branch the reader describes is kept. |
| GitParallel.CollectedInListingOrder | skills/guarding-git-workflow/scripts/git_safety_check.py:197-200 | The i-th kept record is what the reader produced for the i-th listed branch it does not skip, so records keep the listing order and none is added or dropped. |
| GitParallel.CollectedNames | skills/guarding-git-workflow/scripts/git_safety_check.py:197-200 | Every kept record names one of the listed feature branches. |
| GitParallel.ReaderKeepsNames | skills/guarding-git-workflow/scripts/git_safety_check.py:294-295 | The record for a branch carries that branch's name. |
| GitParallel.AnalyzeParallelStatus | skills/guarding-git-workflow/scripts/git_safety_check.py:184-213 | It fails iff reading some feature branch raises. Otherwise the main and current branch are the readings of their queries, the records are the loop's records for the listed feature branches, and the conflicts and recommendations are those of the records. |
| DocSync.FindFromSound | skills/syncing-docs/scripts/doc_sync.py:86 | Every position `findall` reports starts a match, ignoring case. |
| DocSync.FindFromApart | skills/syncing-docs/scripts/doc_sync.py:86 | The reported matches do not overlap. |
| DocSync.FindFromComplete | skills/syncing-docs/scripts/doc_sync.py:86 | No match is skipped: every matching position starts or lies inside a reported match. |
| DocSync.FindFromNone | skills/syncing-docs/scripts/doc_sync.py:86-87 | Nothing is reported iff nothing matches. |
| DocSync.FindFromHead | skills/syncing-docs/scripts/doc_sync.py:90 | The first reported match is the first match in the text. |
| DocSync.FindAllMatches | skills/syncing-docs/scripts/doc_sync.py:86 | Every position found starts a match, the matches do not overlap, and every match starts at one of them or lies inside one. |
| DocSync.FindAllLoop | skills/syncing-docs/scripts/doc_sync.py:86 | The scan that resumes after each match computes `FindAll`. |
| DocSync.MarkerRecord | skills/syncing-docs/scripts/doc_sync.py:86-92 | There is no record iff the marker does not occur. A record names the file, holds the first match as written in the document, and counts all non-overlapping matches. |
| DocSync.FileMarkers | skills/syncing-docs/scripts/doc_sync.py:74-94 | An unreadable document has no record. A readable one has at most one record per marker, each for this file with a count of at least one. |
| DocSync.FileMarkersReportEach | skills/syncing-docs/scripts/doc_sync.py:85-92 | A readable document has a record for a marker iff the marker occurs in it, ignoring case, and every such record is that marker's own. |
| DocSync.RecordsInMarkerOrder | skills/syncing-docs/scripts/doc_sync.py:85-92 | The i-th record is the record of the i-th marker, in marker order, that occurs in the document. |
| DocSync.RecordsForEmpty | skills/syncing-docs/scripts/doc_sync.py:85-92 | A readable document yields no record iff none of the markers occurs in it. |
| DocSync.RecordsForReport | skills/syncing-docs/scripts/doc_sync.py:85-92 | For each marker of the list, a record is made iff the marker occurs. That record is the only one for the marker. |
| DocSync.ProductRenamed | skills/syncing-docs/scripts/doc_sync.py:58 | Renaming "product.md" to "prd.md" in the expected path gives .ultra/specs/prd.md. |
| DocSync.ArchitectureRenamed | skills/syncing-docs/scripts/doc_sync.py:59 | Renaming "architecture.md" to "tech.md" in the expected path gives .ultra/specs/tech.md. |
| DocSync.ProductCandidates | skills/syncing-docs/scripts/doc_sync.py:56-60 | The product document is looked for at docs/product.md and .ultra/specs/prd.md. The third replacement leaves its own path unchanged. |
| DocSync.ArchitectureCandidates | skills/syncing-docs/scripts/doc_sync.py:56-60 | The architecture document is looked for at docs/architecture.md and .ultra/specs/tech.md. The second replacement leaves its own path unchanged. |
| DocSync.MissingDocs | skills/syncing-docs/scripts/doc_sync.py:53-63 | An expected document is reported, with its description, iff neither it nor any legacy candidate exists. |
| DocSync.MissingDocsInOrder | skills/syncing-docs/scripts/doc_sync.py:53-63 | The messages come in the order of the expected list, one per missing document: the i-th message is that of the i-th document that exists nowhere. |
| DocSync.ProductMissingIff | skills/syncing-docs/scripts/doc_sync.py:48-63 | The product document is reported missing iff none of .ultra/specs/product.md, docs/product.md and .ultra/specs/prd.md exists. |
| DocSync.ArchitectureMissingIff | skills/syncing-docs/scripts/doc_sync.py:48-63 | The architecture document is reported missing iff none of .ultra/specs/architecture.md, docs/architecture.md and .ultra/specs/tech.md exists. |
| DocSync.FoundPaths | skills/syncing-docs/scripts/doc_sync.py:35-45 | The paths found are every `.ultra/specs` document's and then every `docs` document's, each at its listing position. |
| DocSync.StaleMarkers | skills/syncing-docs/scripts/doc_sync.py:35-45 | There are marker records iff some readable document of the two listings holds a marker, and each record names a readable document. |
| DocSync.ExpectedDocsMissing | skills/syncing-docs/scripts/doc_sync.py:47-63 | The missing list holds only the two expected documents' messages, each iff that document exists nowhere, and is non-empty iff some expected document is missing. |
| DocSync.ExpectedDocsMissingInOrder | skills/syncing-docs/scripts/doc_sync.py:47-63 | The missing list is exactly the product message, if that document exists nowhere, followed by the architecture message, if that one exists nowhere. Each appears at most once. |
| DocSync.DriftRecommendations | skills/syncing-docs/scripts/doc_sync.py:65-70 | The review advice appears iff there are stale markers, and it comes first. The create advice appears iff documents are missing. Nothing else is recommended. |
| DocSync.CheckDrift | skills/syncing-docs/scripts/doc_sync.py:25-72 | The documents found are those of `.ultra/specs` and then those of `docs`, in listing order. There are marker records iff some readable document holds a marker, and each names a readable document. Each expected document is missing iff it exists nowhere. No warning is added. Reviewing is recommended iff some readable document holds a marker, and creating iff an expected document is missing. The missing list is the expected documents' loop, and each piece of advice appears at most once. |
| DocSync.MarkersOfAppend | skills/syncing-docs/scripts/doc_sync.py:36-45 | The records of the first directory come before those of the second. |
| DocSync.UnreadableAddsNoMarkers | skills/syncing-docs/scripts/doc_sync.py:76-94 | A document that cannot be read adds no record anywhere in the list. |
| DocSync.MarkersFromReadableDocs | skills/syncing-docs/scripts/doc_sync.py:74-94 | Every record names a readable document of the listing. |
| DocSync.MarkersOfEmpty | skills/syncing-docs/scripts/doc_sync.py:66-67 | There are stale-marker records iff some readable document holds one of the markers. |
| CjkScan.HasCjk | find_chinese_chars.py:26 | True iff some character of the line is in U+4E00..U+9FFF. |
| CjkScan.MatchLinesSound | find_chinese_chars.py:38-40 | Every reported line holds an ideograph and carries its 1-based number and its text without trailing whitespace. Numbers strictly increase. |
| CjkScan.MatchLinesComplete | find_chinese_chars.py:38-40 | Every line that holds an ideograph is reported under its own number. |
| CjkScan.MatchLinesEmpty | find_chinese_chars.py:38-40 | Nothing is reported iff no line holds an ideograph. |
| CjkScan.ReportedTextHoldsCjk | find_chinese_chars.py:40 | `rstrip` keeps the ideographs: a reported text still holds one. |
| CjkScan.FileMatches | find_chinese_chars.py:33-43 | A file that cannot be opened has no matches. Otherwise every match is a line holding an ideograph, with its 1-based number and its text without trailing whitespace, numbers strictly increase, and every line holding an ideograph is matched. |
| CjkScan.FindChineseInFile | find_chinese_chars.py:33-43 | The `enumerate` loop computes `FileMatches`. |
| CjkScan.Suffix | find_chinese_chars.py:56 | The suffix is empty, or it is a tail of the name that is shorter than the name, starts with its only dot and has at least one more character. |
| CjkScan.SuffixOfStemAndExtension | find_chinese_chars.py:56 | "stem.ext", with a non-empty stem and a dot-free non-empty ext, has suffix ".ext". |
| CjkScan.DotFileHasNoSuffix | find_chinese_chars.py:56 | A hidden file like ".pyc" has no suffix and is read. |
| CjkScan.ExtensionSkippedIgnoringCase | find_chinese_chars.py:56 | A name "stem.ext" is skipped iff "." followed by ext lower-cased is a skipped extension, whatever the case of ext. |
| CjkScan.NoDotRead | find_chinese_chars.py:56 | A name without a dot has no suffix and is read. |
| CjkScan.FilesIn | find_chinese_chars.py:53-61 | Every result of a directory's own files is under that directory's path and has a match. |
| CjkScan.WalkSound | find_chinese_chars.py:46-63 | Every result is a reported file below the root, at its path, with its matches, reached without entering a pruned directory. |
| CjkScan.WalkComplete | find_chinese_chars.py:46-63 | Every reported file below the root that is reached without a pruned directory is among the results, under its path and with its matches. |
| CjkScan.SubWalksSound | find_chinese_chars.py:46-63 | Every result of the walks of the unpruned sub-directories is a reported file below the directory, at its path. |
| CjkScan.SubWalksComplete | find_chinese_chars.py:46-63 | Every reported file below an unpruned sub-directory is among the results of the sub-directory walks, under its path. |
| CjkScan.ScanDirectory | find_chinese_chars.py:46-63 | A root that is a file yields nothing. For a directory, the results are exactly the reported files below it, reached without entering a pruned directory, each under its route and with its matches. |
| CjkScan.ReachesAvoidsSkipDirs | find_chinese_chars.py:51 | No route to a scanned file passes through a directory of `SKIP_DIRS`. |
| CjkScan.ScanResultsPruned | find_chinese_chars.py:46-63 | Every result has a match, has no skipped extension and lies below no pruned directory. |
| CjkScan.ReportedIff | find_chinese_chars.py:56-61 | A file is in the results iff its extension is not skipped, it can be opened and one of its lines holds an ideograph. |
| CjkScan.Preview | find_chinese_chars.py:89 | A line of at most 100 characters is shown whole. A longer one is shown as its first 100 characters followed by "...". |
| CjkScan.Block | find_chinese_chars.py:88-93 | At most 10 lines are shown, each with its number and preview. The hidden count is positive iff there are more than 10, and shown plus hidden is the total. |
| CjkScan.ExitCode | find_chinese_chars.py:69-97 | The status is 0 or 1. A root that does not exist gives 1. |
| CjkScan.ExitCodeIff | find_chinese_chars.py:66-97 | The status is 0 iff the root is an existing directory below which some reported file lies. |
| CjkScan.SomeHitSound | find_chinese_chars.py:97 | A non-empty scan result means some reported file is reachable. |
| CjkScan.SomeHitComplete | find_chinese_chars.py:97 | If some reported file is reachable, the scan result is not empty. |

## Left out

- Running git, reading files and walking directories are replaced by their outputs as parameters. Process creation, encodings, file-system errors during `os.walk` (the `onerror` default) and symbolic links are not modelled.
- GitConflicts.ConflictIffShared: states its exact-branch-list result only when no branch lists a file twice. `git diff --name-only` prints each path once, so a branch's file list has no repeats. With a repeated file the script names that branch twice, and `GitConflicts.Conflicts` covers that case too.
- Regular expressions are modelled only for the fragment the rules use: literal words, `\s+`, and one group of literal alternatives at the end. `re.IGNORECASE` is modelled as simple case folding of the characters involved.
- `int()` accepts an optional sign and ASCII digits with surrounding whitespace. Underscores and non-ASCII digits are not modelled.
- Universal-newline translation and the `errors='ignore'` decoding are not modelled: a file is given as its decoded lines.
- A read error after a file was opened is not modelled. The script would keep the lines read so far.
- The `format_*` renderers, the `{line_num:4d}` padding, the separators, the emoji and all printing are not modelled. `Block` and `Preview` keep only what the output's content depends on.
- Argument parsing and `Path.cwd()` are not modelled.
- The sorting of result paths in `find_chinese_chars.py` `main` is not modelled: results stay in walk order.
- Dictionary key uniqueness for result paths is not modelled: every file is visited once, so keys cannot clash.
- `Path.suffix` follows Python 3.13 and earlier. Python 3.14 also treats a trailing dot as a suffix, and that is not modelled.
- The order of `glob("*.md")` and of directory listings is whatever the file system returns. The model takes the listing as given.
- `str.lower()` on the suffix is modelled as ASCII lowering. The only non-ASCII character that lowers to an ASCII letter is the Kelvin sign, and no skipped extension contains a `k`, so membership is unchanged.

## Findings

| source | as written | input that shows it | evidently intended | confidence | as-written member | corrected member |
|---|---|---|---|---|---|---|
| skills/guarding-git-workflow/scripts/git_safety_check.py:63-65 | `branch\s+-D` is searched with `re.IGNORECASE`, so the safe delete `-d` also matches | "git branch -d old" is classified DANGEROUS, warned as a force delete, and told to "Use -d for safe delete" | only the force-delete flag `-D` is dangerous; its case matters | high, not executed | GitRisk.SafeDeleteFlaggedAsWritten | GitRisk.IntendedSafeDeleteNotFlagged |
