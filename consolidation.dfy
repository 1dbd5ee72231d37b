/**
 * One consolidation run: the commit message processPR passes to git merge,
 * the bookkeeping loop of main that keeps one MergeRecord per pull request
 * whose processing succeeded, and the history written at the end of the run.
 *
 * processPR runs `git fetch origin pull/<n>/head:pr-<n>` and then
 * `git merge --no-ff -m <message>` with no commit argument, so the fetched
 * pr-<n> ref is not named in the merge. These git processes, the head read
 * afterwards and the clock are not modelled; the model receives their
 * combined result for each pull request as `attempt`.
 */
module Consolidation {
  import opened Wrappers
  import opened GoStrings
  import opened Sequences
  import opened Qualifier
  import opened Configuration

  // ---------------------------------------------------------------------------
  // the merge commit message of processPR
  // ---------------------------------------------------------------------------

  /** The -m message processPR gives `git merge --no-ff`: "(#<number>) <title>". */
  function CommitMessage(number: int, title: string): (msg: string)
    ensures |msg| >= |title| + 5
    ensures msg[..2] == "(#" && msg[|msg| - |title|..] == title
    ensures msg[|msg| - |title| - 2..|msg| - |title|] == ") "
  {
    "(#" + FormatInt(number) + ") " + title
  }

  /** Reads the pull request number and title back from a merge commit message. */
  function ParseCommitMessage(msg: string): Option<(int, string)> {
    if |msg| < 2 || msg[0] != '(' || msg[1] != '#' then None
    else
      var rest := msg[2..];
      var k := IndexByte(rest, ')');
      if k < 0 || k + 1 >= |rest| || rest[k + 1] != ' ' then None
      else
        match ParseInt(rest[..k])
        case None => None
        case Some(n) => Some((n, rest[k + 2..]))
  }

  /** The number and the title can always be read back from the message. */
  lemma CommitMessageRoundTrip(number: int, title: string)
    ensures ParseCommitMessage(CommitMessage(number, title)) == Some((number, title))
  {
    var f := FormatInt(number);
    var msg := CommitMessage(number, title);
    var rest := msg[2..];
    assert rest == f + ") " + title;
    assert ')' !in f by {
      forall k | 0 <= k < |f| ensures f[k] != ')' { }
    }
    var k := IndexByte(rest, ')');
    assert rest[|f|] == ')';
    assert rest[..|f|] == f;
    assert k == |f|;
    assert rest[k + 2..] == title;
    ParseFormatInt(number);
  }

  /** Distinct pull requests, or distinct titles, never share a merge commit message. */
  lemma CommitMessageInjective(n1: int, t1: string, n2: int, t2: string)
    requires CommitMessage(n1, t1) == CommitMessage(n2, t2)
    ensures n1 == n2 && t1 == t2
  {
    CommitMessageRoundTrip(n1, t1);
    CommitMessageRoundTrip(n2, t2);
  }

  // ---------------------------------------------------------------------------
  // the bookkeeping loop of main
  // ---------------------------------------------------------------------------

  /**
   * What processing one pull request produced: Failed when the fetch or the
   * `git merge` process reported an error, Merged when both succeeded, with
   * the head commit read afterwards and the UTC time of the record. Merged
   * means that processPR returned no error, not that the pull request's head
   * was merged: the merge command does not name the fetched ref.
   */
  datatype Outcome = Failed(reason: string) | Merged(commit: string, timestamp: int)

  /** One pull request whose processing succeeded, as written to the history file. */
  datatype MergeRecord = MergeRecord(pr: int, commit: string, timestamp: int)

  /** The content of the .ref-history file. */
  datatype RefHistory = RefHistory(merges: seq<MergeRecord>)

  /** The record a pull request contributes, if its processing succeeded. */
  function RecordOf(pr: PullRequest, outcome: Outcome): Option<MergeRecord> {
    match outcome
    case Failed(_) => None
    case Merged(commit, timestamp) => Some(MergeRecord(pr.number, commit, timestamp))
  }

  /** The records of a run over the qualified pull requests, in processing order. */
  function Records(prs: seq<PullRequest>, attempt: PullRequest -> Outcome): seq<MergeRecord> {
    FilterMap(prs, pr => RecordOf(pr, attempt(pr)))
  }

  /** The loop of main: process every pull request, record each one that merged. */
  method CollectMergeRecords(prs: seq<PullRequest>, attempt: PullRequest -> Outcome)
    returns (mergedPRs: seq<MergeRecord>)
    ensures mergedPRs == Records(prs, attempt)
    ensures |mergedPRs| <= |prs|
  {
    mergedPRs := [];
    for i := 0 to |prs|
      invariant mergedPRs == Records(prs[..i], attempt)
    {
      assert prs[..i + 1][..i] == prs[..i];
      var pr := prs[i];
      var outcome := attempt(pr);
      if outcome.Failed? {
        continue;
      }
      mergedPRs := mergedPRs + [MergeRecord(pr.number, outcome.commit, outcome.timestamp)];
    }
    assert prs[..|prs|] == prs;
  }

  /**
   * Exactly one record per pull request that merged, in processing order,
   * carrying that pull request's number, the head read after its merge and
   * its time; failed pull requests contribute nothing.
   */
  lemma OneRecordPerMergedPR(prs: seq<PullRequest>, attempt: PullRequest -> Outcome) returns (idx: seq<int>)
    ensures |idx| == |Records(prs, attempt)|
    ensures forall k, l :: 0 <= k < l < |idx| ==> idx[k] < idx[l]
    ensures forall k :: 0 <= k < |idx| ==>
              && 0 <= idx[k] < |prs|
              && Records(prs, attempt)[k].pr == prs[idx[k]].number
              && attempt(prs[idx[k]])
                 == Merged(Records(prs, attempt)[k].commit, Records(prs, attempt)[k].timestamp)
    ensures forall i :: 0 <= i < |prs| ==> (attempt(prs[i]).Merged? <==> i in idx)
  {
    var f := pr => RecordOf(pr, attempt(pr));
    idx := FilterMapSelects(prs, f);
    forall i | 0 <= i < |prs| ensures attempt(prs[i]).Merged? <==> i in idx {
      assert f(prs[i]).Some? <==> attempt(prs[i]).Merged?;
    }
  }

  /** A failed pull request leaves no trace and does not stop the ones after it. */
  lemma FailureDoesNotStopLaterPRs(prs: seq<PullRequest>, i: int, attempt: PullRequest -> Outcome)
    requires 0 <= i < |prs| && attempt(prs[i]).Failed?
    ensures Records(prs, attempt) == Records(prs[..i], attempt) + Records(prs[i + 1..], attempt)
  {
    var f := pr => RecordOf(pr, attempt(pr));
    assert prs == prs[..i] + ([prs[i]] + prs[i + 1..]);
    FilterMapAppend(prs[..i], [prs[i]] + prs[i + 1..], f);
    FilterMapAppend([prs[i]], prs[i + 1..], f);
    assert FilterMap([prs[i]], f) == [];
  }

  /** The records of consecutive batches are the records of each batch, one after the other. */
  lemma RecordsAppend(a: seq<PullRequest>, b: seq<PullRequest>, attempt: PullRequest -> Outcome)
    ensures Records(a + b, attempt) == Records(a, attempt) + Records(b, attempt)
  {
    FilterMapAppend(a, b, pr => RecordOf(pr, attempt(pr)));
  }

  // ---------------------------------------------------------------------------
  // the run as a whole
  // ---------------------------------------------------------------------------

  /**
   * The history a run writes: this run's records only, over the listed pull
   * requests that qualify. Any earlier content of the file is replaced.
   */
  function RunHistory(required: seq<string>, listed: seq<PullRequest>, attempt: PullRequest -> Outcome): RefHistory {
    RefHistory(Records(Qualified(listed, required), attempt))
  }

  /**
   * main, from the flag values and the listing of open pull requests to the
   * history written: validation, filtering, processing in order, and the
   * history of this run.
   */
  method Run(flags: Flags, listed: seq<PullRequest>, attempt: PullRequest -> Outcome)
    returns (r: Result<RefHistory, ConfigError>)
    ensures r.Failure? <==> flags.githubToken == [] || flags.owner == [] || flags.repo == []
    ensures r.Failure? ==> Some(r.error) == MissingField(flags)
    ensures r.Success? ==> r.value == RunHistory(LabelsOf(flags.labels), listed, attempt)
  {
    var cfg := ParseConfig(flags);
    if cfg.Failure? {
      return Failure(cfg.error);
    }
    var prs := FilterQualified(listed, cfg.value.requiredLabels);
    var mergedPRs := CollectMergeRecords(prs, attempt);
    return Success(RefHistory(mergedPRs));
  }

  /**
   * Every record written names a listed pull request that qualifies and whose
   * merge succeeded, with the commit and time of that merge.
   */
  lemma RunHistoryRecordsAreQualifiedMerges(
    required: seq<string>, listed: seq<PullRequest>, attempt: PullRequest -> Outcome, rec: MergeRecord)
    requires rec in RunHistory(required, listed, attempt).merges
    ensures exists pr :: pr in listed && pr.number == rec.pr && Qualifies(pr.labels, required)
                         && attempt(pr) == Merged(rec.commit, rec.timestamp)
  {
    var qualified := Qualified(listed, required);
    var idx := OneRecordPerMergedPR(qualified, attempt);
    var records := Records(qualified, attempt);
    var k :| 0 <= k < |records| && records[k] == rec;
    var pr := qualified[idx[k]];
    QualifiedMember(listed, required, pr);
  }

  /**
   * With an empty labels flag no pull request qualifies, so the history is
   * still written, with no record.
   */
  lemma EmptyLabelsWriteEmptyHistory(listed: seq<PullRequest>, attempt: PullRequest -> Outcome)
    ensures RunHistory(LabelsOf([]), listed, attempt) == RefHistory([])
  {
    assert LabelsOf([]) == [];
    NoLabelsQualifyNothing(listed);
  }

  /** When every pull request fails, the history is written with no record. */
  lemma AllFailedWriteEmptyHistory(required: seq<string>, listed: seq<PullRequest>, attempt: PullRequest -> Outcome)
    requires forall pr :: pr in listed ==> attempt(pr).Failed?
    ensures RunHistory(required, listed, attempt) == RefHistory([])
  {
    var qualified := Qualified(listed, required);
    forall i | 0 <= i < |qualified| ensures RecordOf(qualified[i], attempt(qualified[i])).None? {
      QualifiedMember(listed, required, qualified[i]);
    }
    FilterMapNone(qualified, pr => RecordOf(pr, attempt(pr)));
  }

  /** "ready" matches the required "ready"; "wip" does not. */
  lemma ReadyMatchesWipDoesNot()
    ensures Qualifies(["ready"], ["ready"])
    ensures !Qualifies(["wip"], ["ready"])
  {
    ReadyIsNormal();
    WipIsNormal();
    assert "ready" in ["ready"];
  }

  lemma WipIsNormal()
    ensures Normalize("wip") == "wip"
  {
    NormalizeFixesNormalForm("wip");
  }

  /** With "ready" required, #1 labelled "ready" qualifies and #2 labelled "wip" does not. */
  lemma ReadyOnlyQualifies(one: PullRequest, two: PullRequest)
    requires one.labels == ["ready"] && two.labels == ["wip"]
    ensures Qualified([one, two], ["ready"]) == [one]
  {
    var keep := pr => Admit(["ready"], pr);
    ReadyMatchesWipDoesNot();
    assert [one, two] == [one] + [two];
    FilterMapAppend([one], [two], keep);
    assert FilterMap([one], keep) == [one];
    assert FilterMap([two], keep) == [];
  }

  /**
   * Pull request #1 labelled "ready" and #2 labelled "wip", with "ready"
   * required and every merge succeeding at head B: only #1 is recorded.
   */
  lemma ReadyOnlyScenario(attempt: PullRequest -> Outcome)
    requires forall pr :: attempt(pr) == Merged("B", 0)
    ensures RunHistory(["ready"], [PullRequest(1, "one", ["ready"]), PullRequest(2, "two", ["wip"])], attempt)
            == RefHistory([MergeRecord(1, "B", 0)])
  {
    var one := PullRequest(1, "one", ["ready"]);
    ReadyOnlyQualifies(one, PullRequest(2, "two", ["wip"]));
    assert Records([one], attempt) == [MergeRecord(1, "B", 0)];
  }
}
