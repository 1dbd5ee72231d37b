# Pull-request consolidation: a Dafny model of its decision logic

The tool lists the open pull requests that carry one of a set of labels,
recreates an integration branch (by default `pre-<trunk>`) from the trunk,
and for each such pull request fetches `pull/<n>/head` into `pr-<n>` and
runs `git merge --no-ff -m "(#<n>) <title>"`. That merge command names no
commit, so the fetched ref is not what it merges (see "## Left out"). It
then writes a `.ref-history` file listing each pull request whose fetch and
merge commands succeeded, with the head commit read afterwards and the time.

This project models the deterministic part of `main.go`:

- reading the required labels from the comma-separated `labels` flag
  (`parseLabels`): split on commas, trim each piece, drop the blank ones;
- the any-of label rule (`hasAnyLabel`): labels are compared after trimming
  and lower-casing on both sides;
- the order-preserving filter over the listed pull requests
  (`fetchQualifiedPRs`);
- the validation and defaulting part of `parseConfig`: token, owner and
  repository must be non-empty, checked in that order, and an empty target
  branch becomes `"pre-" + trunk`;
- the merge commit message `(#<number>) <title>` of `processPR`;
- the bookkeeping loop of `main`: one `MergeRecord` per pull request whose
  processing succeeded, in listing order, and the history written from them.

Modules:

- `GoStrings` (`go_strings.dfy`): the Go library functions the code relies on,
  over ASCII: `strings.TrimSpace`, `strings.ToLower`, `strings.Split` with a
  one-character separator, and the decimal rendering of `fmt`'s `%d`. It also
  holds helpers the code never calls, used only to state inverses: `Join`
  (undoes `Split`), `IndexByte` and `ParseInt` (used by the parser that reads
  a commit message back).
- `Sequences` (`sequences.dfy`): `FilterMap`, the "append the accepted
  elements in order" pattern that all three loops of the core follow, with
  the lemma that its result is an ordered selection of exactly the accepted
  positions.
- `Qualifier` (`qualifier.dfy`): `ParseLabels`, `HasAnyLabel`,
  `FilterQualified` and their properties.
- `Configuration` (`configuration.dfy`): `ParseConfig` after flag parsing.
- `Consolidation` (`consolidation.dfy`): the commit message, the record loop
  `CollectMergeRecords`, and `Run`, which chains validation, filtering and
  the record loop into the history a run writes.
- `Wrappers` (`wrappers.dfy`): `Option` and `Result`.

The git processes (fetch, merge, rev-parse) and the clock are not modelled;
the outcome of processing each pull request is a parameter
`attempt: PullRequest -> Outcome`, either `Failed` or
`Merged(commit, timestamp)`, where the commit is what `git rev-parse HEAD`
printed after the merge command and the timestamp is the UTC time read then.

Where this code departs from what one might expect of such a tool, the model
follows the code:

- Only the any-of rule exists; there is no all-of policy.
- An empty required-label list is not rejected; it qualifies no pull request,
  and the run then writes an empty history.
- The history file is overwritten with this run's records only; earlier
  records are not kept.
- A `MergeRecord` holds the pull request number, the commit and the
  timestamp; it has no target-branch field.

## Model

| member | source | states |
|---|---|---|
| `Qualifier.ParseLabels` | main.go:121-136 | the result is the non-blank comma-separated pieces of the input, trimmed, in order (`LabelsOf`); each label is non-empty with no white space at either end; an empty input gives no label |
| `Qualifier.LabelsAreOrderedNonBlankPieces` | main.go:126-135 | the labels are an ordered selection of the pieces: label k is the trimmed piece at an increasing position idx[k], a piece is selected exactly when its trimmed text is non-empty, and there are never more labels than pieces |
| `Qualifier.LabelsAreTrimmed` | main.go:129-133 | every label read is non-empty and trimmed |
| `Qualifier.BlankInputHasNoLabels` | main.go:121-135 | an input made only of commas and white space yields no label |
| `Qualifier.HasAnyLabel` | main.go:165-188 | returns true exactly when some required label and some label of the pull request are equal once both are trimmed and lower-cased; true implies both lists are non-empty |
| `Qualifier.NormalizeFixesNormalForm` | main.go:169-178 | a trimmed label without upper-case letters compares as itself |
| `Qualifier.NormalizeIgnoresCaseAndPadding` | main.go:169-178 | surrounding white space and upper or lower case never change how a label compares |
| `Qualifier.ReadyVariantsAgree` | main.go:169-180 | "Ready", " ready " and "READY" all compare as "ready" |
| `Qualifier.NothingQualifiesWithoutLabels` | main.go:177-187 | with no required label, or a pull request without labels, the pull request does not qualify |
| `Qualifier.QualifiesMonotone` | main.go:177-187 | a pull request that qualifies for a required list still qualifies for any list containing those labels |
| `Qualifier.FilterQualified` | main.go:156-162 | the loop returns `Qualified(prs, required)`, and every pull request it returns qualifies |
| `Qualifier.QualifiedIsOrderedSelection` | main.go:156-162 | the qualified list is a subsequence of the listing in listing order, holding exactly the listed pull requests that qualify |
| `Qualifier.QualifiedMember` | main.go:157-160 | a pull request is in the qualified list exactly when it is listed and qualifies |
| `Qualifier.QualifiedMonotone` | main.go:156-162 | adding required labels never removes a pull request from the qualified list |
| `Qualifier.NoLabelsQualifyNothing` | main.go:121-124 | an empty label configuration qualifies no pull request |
| `Configuration.MissingField` | main.go:100-110 | reports the first empty field among token, owner and repository, in that order, and nothing when all three are set |
| `Configuration.TargetBranch` | main.go:112-114 | the target branch is never empty; a given one is kept; an empty one becomes "pre-" followed by the trunk branch |
| `Configuration.DefaultTargetIsNotTrunk` | main.go:112-114 | a defaulted target branch always differs from the trunk branch |
| `Configuration.DefaultTargetIsPreMain` | main.go:95-113 | with the default trunk "main" and no target given, the target is "pre-main" |
| `Configuration.ParseConfig` | main.go:100-118 | fails exactly when token, owner or repository is empty; otherwise copies those and the trunk, defaults the target branch, and holds the labels of `parseLabels`, each non-empty and trimmed |
| `Consolidation.CommitMessage` | main.go:214 | the message starts with "(#", ends with the title, and has ") " right before the title |
| `Qualifier.Normalize` | main.go:170 | a normalised label has no white space at either end and no upper-case ASCII letter |
| `GoStrings.FormatInt` | main.go:214 | the `%d` rendering is non-empty and made only of digits and the minus sign |
| `Consolidation.CommitMessageRoundTrip` | main.go:214 | the pull request number and title can be read back from the merge commit message |
| `Consolidation.CommitMessageInjective` | main.go:214 | two merge commit messages are equal only for the same number and title |
| `Consolidation.CollectMergeRecords` | main.go:64-76 | the loop returns the records `Records(prs, attempt)`, never more than there are pull requests |
| `Consolidation.OneRecordPerMergedPR` | main.go:64-76 | exactly one record per pull request whose processing succeeded, in processing order, carrying its number and the commit and time of its merge; failed pull requests contribute nothing |
| `Consolidation.FailureDoesNotStopLaterPRs` | main.go:65-69 | a failed pull request adds nothing, and the pull requests after it are still processed, and recorded if they merge |
| `Consolidation.RecordsAppend` | main.go:65-76 | the records of a listing are the records of its first part followed by those of the rest |
| `Consolidation.Run` | main.go:41-85 | the run fails exactly on an invalid configuration, with the first missing field; otherwise the history written is this run's records over the qualifying pull requests |
| `Consolidation.RunHistoryRecordsAreQualifiedMerges` | main.go:53-78 | every record written names a listed, qualifying pull request whose processing succeeded, with the commit and time read after it |
| `Consolidation.EmptyLabelsWriteEmptyHistory` | main.go:116 | with an empty labels flag the history written has no record |
| `Consolidation.AllFailedWriteEmptyHistory` | main.go:64-78 | when every pull request fails, the history written has no record |
| `Consolidation.ReadyMatchesWipDoesNot` | main.go:177-187 | a pull request labelled "ready" qualifies for "ready"; one labelled "wip" does not |
| `Consolidation.ReadyOnlyQualifies` | main.go:156-162 | of #1 labelled "ready" and #2 labelled "wip", only #1 qualifies for "ready" |
| `Consolidation.ReadyOnlyScenario` | main.go:53-78 | of #1 labelled "ready" and #2 labelled "wip", with every merge succeeding at B, the history is the single record for #1 at B |
| `GoStrings.TrimSpace` | main.go:130 | the trimmed string has no white space at either end and is no longer than the input |
| `GoStrings.TrimSpaceUnique` | main.go:130 | a string made of white space, a trimmed middle and white space trims to that middle |
| `GoStrings.TrimSpaceIgnoresPadding` | main.go:178 | surrounding white space does not change the trimmed string |
| `GoStrings.TrimSpaceIdempotent` | main.go:130 | trimming twice is trimming once |
| `GoStrings.TrimSpaceToLowerCommute` | main.go:170 | trimming and lower-casing commute |
| `GoStrings.ToLower` | main.go:170 | lower-casing keeps the length and lowers each ASCII letter |
| `GoStrings.ToLowerIdempotent` | main.go:170 | lower-casing twice is lower-casing once |
| `GoStrings.JoinSplit` | main.go:126 | joining the pieces of a split with the separator gives back the input |
| `GoStrings.SplitJoin` | main.go:126 | splitting a join of separator-free pieces gives back the pieces |
| `GoStrings.Split` | main.go:126 | there is always at least one piece, and no piece holds the separator |
| `GoStrings.ParseFormatInt` | main.go:214 | reading back what `%d` wrote gives the number |

## Left out

- The git processes: `recreateTargetBranch` (checkout, `branch -D`,
  `checkout -B`), the fetch and merge of `processPR`, `getLatestCommitSHA`,
  the `git add` / `git commit` of `updateRefHistory` and `pushChanges`. They
  are process I/O; a pull request's processing is modelled only by its
  outcome, and the fatal errors of branch preparation, history writing and
  pushing are not modelled.
- What the merge command does: `git merge --no-ff -m …` is run with no
  commit argument (main.go:211-215), so git merges the current branch's
  upstream, not the fetched `pr-<n>` ref. The branch was just made by
  `git checkout -B <target>` with no start point (main.go:197), so it has no
  upstream, and the command most likely fails for every pull request; nothing
  was executed to confirm this. `attempt` abstracts the fetch and this
  command together, and `Merged` means only that both reported success, not
  that the pull request's head was merged. `AllFailedWriteEmptyHistory`
  states the outcome when every attempt fails: an empty history.
- The effect of one attempt on the next: `attempt` gives each pull request's
  outcome as a function of that pull request alone. In the source a failed
  merge is not aborted (no `git merge --abort` after main.go:217-218), so a
  conflict leaves the merge in progress; every later merge and the history's
  `git commit` (main.go:241) then fail, and the run ends in `log.Fatal`
  (main.go:79) before the push. The model does not represent this.
- The GitHub client, its token source and the `PullRequests.List` call
  (open pull requests based on the trunk branch): network I/O through a
  library; the listing is an input of `Run`, and its error is not modelled.
  The call passes no page options (main.go:147-150), so it returns only the
  first page of open pull requests (30 by default); `listed` stands for that
  first page.
- Flag parsing (`flag.StringVar`, `flag.Parse`): `Flags` holds the values
  after parsing; only the trunk default "main" is kept, as
  `DefaultTrunkBranch`.
- JSON serialisation and the file write of `updateRefHistory`: `RefHistory`
  is the content written to `.ref-history`, not its bytes. When nothing
  merged, the slice is still nil (main.go:64), so the file holds
  `"merges": null`; `RefHistory([])` stands for that file.
- The clock and the commit address are opaque values carried by `Outcome`;
  a timestamp is an `int`.
- Logging.
- `GoStrings.TrimSpace`, `GoStrings.ToLower`: ASCII only; Go's versions also
  trim Unicode white space and fold non-ASCII letters.
- Label names: a label whose name is missing is modelled by the
  empty name, which is what `GetName` returns for it.
