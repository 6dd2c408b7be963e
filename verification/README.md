# Integrity: Git synchroniser and build-record accessors, in Dafny

This project models two small pieces of Integrity, a continuous-integration
server written in Ruby, and proves properties of them.

**The Git synchroniser** (`Integrity::SCM::Git`) keeps a local working tree
of a remote repository. `with_revision(revision) { action }` runs in three
steps:

1. `fetch_code` clones the repository unless the tree's `.git` directory
   exists. It then checks out the configured branch unless
   `git symbolic-ref HEAD` names it, and pulls.
2. It checks out the revision.
3. It hands over to the caller's action.

Each checkout chooses its argument with a three-way tie-break:

- an explicit treeish;
- else the configured branch, if `git branch` lists it;
- else `-b <branch> origin/<branch>`.

Every clone, checkout and pull is logged just before it runs.

**The build record** (`Integrity::Build`) has several derived accessors:

- the short commit identifier (first seven characters);
- the commit author, split into name and email;
- the commit message;
- the human-readable status and the status predicates;
- the defaults of a fresh build.

## Modules

- `wrappers.dfy`, module `Wrappers`: `Option`, which stands in for Ruby's `nil`.
- `text.dfy`, module `RubyText`: the Ruby 1.8 string and path primitives the synchroniser uses:
  - `String#delete` with one character;
  - `strip`, which removes leading blanks, then trailing NULs, then trailing blanks (Ruby 1.8's two-pass `rstrip`, so a NUL in front of trailing blanks stays);
  - `chomp`;
  - `split("\n")`, which drops trailing empty fields;
  - `File.basename`.
- `git_output.dfy`, module `GitOutput`: the parsers over what git prints (`local_branches`, `on_branch?`) and the checkout tie-break. A model of what `git branch` prints (`RenderListing`) is the reference the parser is proved against.
- `git_sync.dfy`, module `GitSync`: the synchroniser's decisions and the event trace.
  - The shell's answers are inputs, collected in an `Observation`. `git branch` appears twice because each checkout without a treeish asks it again.
  - `Decide` turns those answers into four choices:
    - is the tree cloned;
    - is HEAD on the configured branch;
    - the fetch-phase strategy;
    - the revision strategy.
  - Each private method becomes a plan: a list of questions, issued commands and the hand-over.
  - `Trace` turns a plan into events: `Ask`, `Log` followed by `Run`, and `Yield`.
- `build.dfy`, module `BuildRecord`: the build record's status, identifier, author and message accessors.

Ruby semantics kept on purpose:

- **Truthiness:** only `nil` and `false` are false, so an empty-string revision still wins the tie-break.
- **Branch comparison:** `on_branch?` compares the last `/`-separated segment of HEAD's ref with the whole configured branch name. A configured branch containing `/`, such as `feature/x`, therefore never matches, while HEAD on `other/x` matches a configured `x`.

The build model's own source file is not part of this model; the contract for the build record comes from `spec/build_spec.rb`. Where a test's title and its assertion differ, the model follows the assertion:

- the title says "Build successful" and the assertion says "Build Successful";
- the title says "less than 6 characters" and the cut is at 7.

The author split follows the usual `Name <email>` pattern: the name is everything before the last " <", and the email is everything between that marker and a final ">".

The synchroniser never checks a command's exit status, so the model has no failure path: a failing command does not stop the run.

## Model

| member | source | states |
|---|---|---|
| RubyText.Delete | lib/integrity/scm/git.rb:67 | `delete("*")` leaves no `*` and keeps every other character with its multiplicity; the length drops by the number of `*`s |
| RubyText.Strip | lib/integrity/scm/git.rb:67 | `strip` returns a middle part of the input that neither starts nor ends with a blank: everything cut in front is a blank, and everything cut behind is some blanks followed by all the trailing NULs |
| RubyText.StripKeepsNulBeforeSpace | lib/integrity/scm/git.rb:67 | a NUL in front of a trailing blank survives `strip`: `name` + NUL + space strips to `name` + NUL |
| RubyText.StripNulFree | lib/integrity/scm/git.rb:67 | on a string without NUL, `strip` leaves no blank or NUL at either end |
| RubyText.StripAfterSpaces | lib/integrity/scm/git.rb:67 | stripping blanks in front of an already stripped name gives the name back |
| RubyText.Chomp | lib/integrity/scm/git.rb:75 | `chomp` removes exactly one trailing "\r\n", "\n" or "\r" when there is one, and nothing otherwise |
| RubyText.Fields | lib/integrity/scm/git.rb:67 | the newline-separated fields contain no separator, and joined back with it they give the input |
| RubyText.FieldsJoin | lib/integrity/scm/git.rb:67 | splitting undoes joining when no piece holds the separator |
| RubyText.SplitLines | lib/integrity/scm/git.rb:67 | `split("\n")` yields the newline-separated fields of the input in order, minus exactly the trailing empty ones: single-line pieces, never ending with an empty one |
| RubyText.SplitTerminatedLines | lib/integrity/scm/git.rb:67 | non-empty lines, each terminated by a newline, split back into exactly those lines |
| RubyText.Basename | lib/integrity/scm/git.rb:75 | `File.basename` is empty only for the empty path; unless it is "/" (for a path of slashes only) it is a slash-free segment of the path that starts at the front or after a slash and is followed only by slashes |
| RubyText.BasenameOfSegment | lib/integrity/scm/git.rb:75 | the basename of `dir/name` is `name` for a slash-free name |
| GitOutput.LocalBranches | lib/integrity/scm/git.rb:66-68 | `local_branches` yields one entry per line of `git branch` output, each that line with every `*` deleted and then stripped, so no entry holds a `*` or starts or ends with white space, and, when the output holds no NUL, none ends with NUL either |
| GitOutput.CleanListingLine | lib/integrity/scm/git.rb:67 | the line git prints for a branch ("* name" or "  name") cleans to the branch name |
| GitOutput.LocalBranchesOfListing | lib/integrity/scm/git.rb:66-68 | on any output of `git branch`, `local_branches` recovers exactly the listed names, in order, whichever one is current |
| GitOutput.OnBranch | lib/integrity/scm/git.rb:74-76 | `on_branch?` can only hold for a branch name without a slash (or "/" itself), and, for a non-empty branch name, only when `git symbolic-ref` printed something |
| GitOutput.OnBranchOfRef | lib/integrity/scm/git.rb:74-76 | for a ref `prefix/b` followed by a newline, `on_branch?` holds exactly when the configured branch is `b` |
| GitOutput.OnMasterExample | lib/integrity/scm/git.rb:74-76 | "refs/heads/master\n" is on branch "master" |
| GitOutput.OnBranchComparesLastSegment | lib/integrity/scm/git.rb:75 | HEAD on `feature/x` counts as on branch "x" and not as on branch "feature/x" |
| GitOutput.DetachedHeadOnNoBranch | lib/integrity/scm/git.rb:74-76 | an empty answer (detached HEAD) is on no named branch |
| GitOutput.ChooseStrategy | lib/integrity/scm/git.rb:50-55 | a given treeish is used as is; otherwise the configured branch is checked out by name exactly when `local_branches` includes it, else it is created tracking `origin` |
| GitOutput.Argument | lib/integrity/scm/git.rb:51-55 | the checkout argument is the strategy's name exactly for a treeish or a listed branch; the tracking form starts with `-b` and the branch and ends with the branch again |
| GitOutput.ExplicitTreeishWins | lib/integrity/scm/git.rb:52 | an explicit treeish wins whatever `git branch` reports, and is the checkout argument verbatim |
| GitOutput.StrategyFromListing | lib/integrity/scm/git.rb:53-54 | against what `git branch` printed, the branch is checked out by name exactly when it is listed, else created from `origin` |
| GitOutput.TieBreakAbsentExample | lib/integrity/scm/git.rb:54 | "main" missing locally gives the argument "-b main origin/main" |
| GitOutput.TieBreakPresentExample | lib/integrity/scm/git.rb:53 | "main" listed locally gives the argument "main" |
| GitOutput.TieBreakRevisionExample | lib/integrity/scm/git.rb:52 | the revision "abc123" is checked out as "abc123" |
| GitSync.Decide | lib/integrity/scm/git.rb:18-22 | the fetch-phase checkout is always of the configured branch (no treeish); the revision checkout is a treeish exactly when a revision is given, and is then that revision; each branch-by-name choice happens exactly when its `git branch` answer lists the branch |
| GitSync.WithRevision | lib/integrity/scm/git.rb:18-22 | `with_revision` runs the fetch commands its observations call for, then one checkout of the revision (or of the branch by the same tie-break), each announced and aimed at the working directory, and hands over to the action once, last |
| GitSync.Announce | lib/integrity/scm/git.rb:45-63 | each log line starts with the text of its command's kind ("Cloning ", "Checking-out ", "Pull-ing in "), so the kind can be read back from the line; the clone line goes on with the locator, " to " and the directory, the checkout line with the checkout argument, and the pull line with the directory |
| GitSync.CheckoutPlan | lib/integrity/scm/git.rb:50-59 | `checkout` issues one checkout of the strategy's argument, and asks `git branch` exactly when no treeish is given |
| GitSync.CloneUnlessCloned | lib/integrity/scm/git.rb:40 | the clone of the configured locator into the working directory is issued only when the tree is not cloned |
| GitSync.CheckoutUnlessOnBranch | lib/integrity/scm/git.rb:41 | a checkout is issued only when HEAD is not on the configured branch |
| GitSync.FetchPlan | lib/integrity/scm/git.rb:39-43 | `fetch_code` issues clone, checkout and pull in that order, each only under its condition, and ends with the pull |
| GitSync.PreparePlan | lib/integrity/scm/git.rb:18-20 | before handing over, `with_revision` issues the fetch commands and then one checkout of the revision strategy |
| GitSync.FetchCode | lib/integrity/scm/git.rb:39-64 | the fetch trace has the fetch commands; every command comes right after its log line; every event is aimed at the working directory; it never hands over; it ends with the pull |
| GitSync.Sync | lib/integrity/scm/git.rb:18-22 | the trace of a run: fetch commands then the revision checkout, each announced, all aimed at the working directory, with the hand-over last and only once |
| GitSync.WithRevisionCommands | lib/integrity/scm/git.rb:18-22 | the commands of `with_revision` in terms of what it observes: clone unless `.git` exists, check out the branch unless HEAD is on it, pull, then check out the revision |
| GitSync.TraceFacts | lib/integrity/scm/git.rb:45-64 | in every trace the commands are those the plan issues, and each is announced just before it runs |
| GitSync.LocalTrace | lib/integrity/scm/git.rb:12-16 | a plan confined to the repository produces a trace aimed only at its working directory and locator, with no hand-over |
| GitSync.HandOverLast | lib/integrity/scm/git.rb:21 | appending the hand-over keeps the commands and puts the single `Yield` last |
| GitSync.AnnouncedLogs | lib/integrity/scm/git.rb:45-64 | in an announced trace the log lines are exactly the commands' announcements ("Cloning u to d", "Checking-out s", "Pull-ing in d"), one per command, in order |
| GitSync.AnnouncedIffPaired | lib/integrity/scm/git.rb:45-64 | the recursive reading of "each command is logged immediately before it runs" agrees with the index-wise one, in both directions |
| GitSync.TargetsIffAimed | lib/integrity/scm/git.rb:12-16 | the recursive "every event aimed at the working directory" agrees with the index-wise one, in both directions |
| GitSync.FetchClonesIffMissing | lib/integrity/scm/git.rb:40 | the fetch phase clones exactly when the tree is not cloned, at most once, and then as its first command |
| GitSync.FetchChecksOutIffOffBranch | lib/integrity/scm/git.rb:41 | the fetch phase checks out exactly when HEAD is off the configured branch, and then only the strategy's argument |
| GitSync.FetchPullsLast | lib/integrity/scm/git.rb:42 | the fetch phase always pulls, exactly once, as its last command |
| GitSync.SyncArgument | lib/integrity/scm/git.rb:53-54 | the fetch-phase checkout argument is the branch name or "-b branch origin/branch" |
| GitSync.FetchTwiceClonesOnce | lib/integrity/scm/git.rb:70-72 | two fetches issue one clone between them when the first finds the tree missing and the second finds it, and none when the first finds it present |
| GitSync.YieldLast | lib/integrity/scm/git.rb:21 | a trace ending in its only hand-over hands over once, after every other event |
| GitSync.ActionRunsOnceLast | lib/integrity/scm/git.rb:18-22 | the caller's action runs exactly once, after every question and every command |
| GitSync.UpToDateLogExample | lib/integrity/scm/git.rb:57-62 | on a cloned tree already on its branch, a run for revision "abc123" logs "Pull-ing in /w" then "Checking-out abc123" |
| BuildRecord.ParseStatus | spec/build_spec.rb:67-74 | a status name is read as the status with that name, and any other name as none |
| BuildRecord.ParseStatusName | spec/build_spec.rb:76-83 | every status is read back from its own name |
| BuildRecord.HumanReadableStatus | spec/build_spec.rb:67-74 | the text is "Build Successful", "Build Failed" or "Waiting..." exactly for the matching status |
| BuildRecord.IsSuccessful | spec/build_spec.rb:76-83 | `successful?` holds exactly when the build reads "Build Successful" |
| BuildRecord.IsFailed | spec/build_spec.rb:76-83 | `failed?` holds exactly when the build reads "Build Failed" |
| BuildRecord.IsPending | spec/build_spec.rb:76-83 | `pending?` holds exactly when the build reads "Waiting..." |
| BuildRecord.HumanReadableStatusInjective | spec/build_spec.rb:67-74 | different statuses have different human-readable texts, and equal ones equal texts |
| BuildRecord.NewBuild | spec/build_spec.rb:63-65 | a fresh build has output "", no commit yet, and is pending and neither successful nor failed |
| BuildRecord.FreshBuildWaiting | spec/build_spec.rb:37-39 | a fresh build is pending and reads "Waiting..." |
| BuildRecord.ExactlyOneStatus | spec/build_spec.rb:76-83 | exactly one of `successful?`, `failed?` and `pending?` holds |
| BuildRecord.AssignStatus | spec/build_spec.rb:68-72 | assigning a status by name changes only the status, to the named one, and is refused for other names |
| BuildRecord.AssignedStatusReads | spec/build_spec.rb:67-83 | after assigning "successful", "failed" or "pending", only the matching predicate holds and the text is "Build Successful", "Build Failed" or "Waiting..." |
| BuildRecord.ShortIdentifier | spec/build_spec.rb:85-93 | the short identifier is a prefix of the identifier, of length seven, or the whole identifier when it is shorter |
| BuildRecord.ShortIdentifierIdempotent | spec/build_spec.rb:90-93 | shortening a short identifier changes nothing |
| BuildRecord.ShortIdentifierAgrees | spec/build_spec.rb:85-88 | two identifiers have the same short form exactly when they agree on their first seven characters (or are equal, when one is shorter) |
| BuildRecord.ShortIdentifierOfPrefix | spec/build_spec.rb:85-88 | seven characters followed by anything shorten to those seven |
| BuildRecord.ShortCommitIdentifier | spec/build_spec.rb:85-93 | a build with an identifier has a short identifier that is a prefix of at most seven characters, and the whole identifier when shorter |
| BuildRecord.ShortCommitIdentifierExamples | spec/build_spec.rb:85-93 | "0367ee0566843edcf871a86f0eb23d90c4ee1d14" shortens to "0367ee0"; "234" stays "234" |
| BuildRecord.LastMarker | spec/build_spec.rb:41-46 | finds the last " <" of a text, or reports that there is none |
| BuildRecord.ParseAuthor | spec/build_spec.rb:41-46 | a split author rebuilds the text as `name <email>`, keeps it as `full`, and has no " <" in its email; the split fails exactly when the text does not end with ">" after some " <" |
| BuildRecord.ParseAuthorRoundTrip | spec/build_spec.rb:41-46 | joining a name and an email free of " <" as `name <email>` and splitting it gives back the name, the email and the text |
| BuildRecord.CommitAuthor | spec/build_spec.rb:41-46 | with no author text there is no author; with one, the author is its split, whose `full` is the text unchanged |
| BuildRecord.CommitAuthorSplits | spec/build_spec.rb:41-46 | a build whose author text is `name <email>`, for any name and any email free of " <", has that name and email as its author and the text as `full` |
| BuildRecord.CommitAuthorExample | spec/build_spec.rb:42-45 | "Simon Rozet <simon@rozet.name>" splits into "Simon Rozet" and "simon@rozet.name", with `full` the original text |
| BuildRecord.CommitMessage | spec/build_spec.rb:48-51 | a message is present exactly when the metadata holds one |
| BuildRecord.CommitMessageUnchanged | spec/build_spec.rb:48-51 | the message is returned exactly as stored, whatever else the metadata holds |

## Left out

- Running processes: backticks, `cd` and `File.directory?` are not executed. Their answers are the `Observation` inputs, and git's own behaviour is not modelled.
- Exit statuses: the source ignores them, so a failing command does not stop the run in the model either.
- `commit_identifier` and `commit_metadata`: each is a single shell call, followed by `chomp` or by a foreign `YAML.load`. The decoding belongs to the YAML library.
- `working_tree_path` and `name`: `working_tree_path` delegates to `Git::URI`, which is not part of this model. `name` is class-name plumbing.
- `Integrity.logger`: logging is the `Log` event of the trace, not a call to a global logger.
- `uri.to_s` and `branch.to_s`: the constructor's stringification is not modelled, because uri and branch are already strings in `Repo`.
- Shell quoting: commands are structured values, not interpolated command lines, so quoting problems cannot be expressed.
- Build validation and persistence (`valid?`, DataMapper) and plain attribute reads and writes (`output=`, `commit_identifier=`): they depend on DataMapper, which this model does not cover.
- The commit date (`commited_at`): it holds a `Time` value.
- `spec/integrity_spec.rb`: configuration loading, file I/O, database set-up and logger construction.
- Concurrency: concurrent runs on one working directory are not modelled. Callers must run at most one synchronisation per working directory at a time.
- BuildRecord.ParseAuthor: the split is made over the whole author text, even one that spans several lines; how the record itself treats such a text is unknown.
- BuildRecord.AssignStatus: the record's own source is not part of this model, so its handling of an unknown status name is unknown. The model refuses the name (`None`).
- BuildRecord.ShortCommitIdentifier: the record's own source is not part of this model, so its behaviour for a build without a commit identifier is unknown. The model answers `None`.
- BuildRecord.CommitAuthor: the record's own source is not part of this model, so its behaviour without an author text, or with one not of the form `Name <email>`, is unknown. The model answers `None`.
