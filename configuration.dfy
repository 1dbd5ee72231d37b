/**
 * The validation and defaulting part of parseConfig: the flag values, once read,
 * must name a token, an owner and a repository; an empty target branch becomes
 * "pre-" followed by the trunk branch; the labels flag is read by parseLabels.
 */
module Configuration {
  import opened Wrappers
  import opened GoStrings
  import opened Qualifier

  /** The default of the trunk_branch flag. */
  const DefaultTrunkBranch: string := "main"

  /** The raw values of the command-line flags. */
  datatype Flags = Flags(
    githubToken: string,
    owner: string,
    repo: string,
    trunkBranch: string,
    targetBranch: string,
    labels: string)

  /** A validated configuration. */
  datatype Config = Config(
    githubToken: string,
    owner: string,
    repo: string,
    trunkBranch: string,
    targetBranch: string,
    requiredLabels: seq<string>)

  /** Which required flag is missing; they are checked in this order. */
  datatype ConfigError = MissingGithubToken | MissingOwner | MissingRepo

  /** The first required flag left empty, if any. */
  function MissingField(flags: Flags): (e: Option<ConfigError>)
    ensures e.None? <==> flags.githubToken != [] && flags.owner != [] && flags.repo != []
    ensures e == Some(MissingGithubToken) <==> flags.githubToken == []
    ensures e == Some(MissingOwner) <==> flags.githubToken != [] && flags.owner == []
    ensures e == Some(MissingRepo) <==> flags.githubToken != [] && flags.owner != [] && flags.repo == []
  {
    if flags.githubToken == [] then Some(MissingGithubToken)
    else if flags.owner == [] then Some(MissingOwner)
    else if flags.repo == [] then Some(MissingRepo)
    else None
  }

  /** The branch the run writes to: the given one, or "pre-<trunk>" when none is given. */
  function TargetBranch(trunkBranch: string, targetBranch: string): (t: string)
    ensures t != []
    ensures targetBranch != [] ==> t == targetBranch
    ensures targetBranch == [] ==> |t| == |trunkBranch| + 4 && t[..4] == "pre-" && t[4..] == trunkBranch
  {
    if targetBranch == [] then "pre-" + trunkBranch else targetBranch
  }

  /** A defaulted target branch is never the trunk branch itself. */
  lemma DefaultTargetIsNotTrunk(trunkBranch: string)
    ensures TargetBranch(trunkBranch, []) != trunkBranch
  {
    assert |TargetBranch(trunkBranch, [])| == |trunkBranch| + 4;
  }

  /** With the default trunk and no target given, the run writes to "pre-main". */
  lemma DefaultTargetIsPreMain()
    ensures TargetBranch(DefaultTrunkBranch, []) == "pre-main"
  {
  }

  /** What parseConfig returns for the given flag values. */
  function ConfigFrom(flags: Flags): Result<Config, ConfigError> {
    match MissingField(flags)
    case Some(e) => Failure(e)
    case None =>
      Success(Config(flags.githubToken, flags.owner, flags.repo, flags.trunkBranch,
                     TargetBranch(flags.trunkBranch, flags.targetBranch), LabelsOf(flags.labels)))
  }

  /** parseConfig after the flags have been read. */
  method ParseConfig(flags: Flags) returns (r: Result<Config, ConfigError>)
    ensures r == ConfigFrom(flags)
    ensures r.Failure? <==> flags.githubToken == [] || flags.owner == [] || flags.repo == []
    ensures r.Success? ==>
              && r.value.githubToken == flags.githubToken
              && r.value.owner == flags.owner
              && r.value.repo == flags.repo
              && r.value.trunkBranch == flags.trunkBranch
              && r.value.targetBranch != []
              && (flags.targetBranch != [] ==> r.value.targetBranch == flags.targetBranch)
              && (flags.targetBranch == [] ==> r.value.targetBranch == "pre-" + flags.trunkBranch)
              && (forall k :: 0 <= k < |r.value.requiredLabels| ==>
                    r.value.requiredLabels[k] != [] && IsTrimmed(r.value.requiredLabels[k]))
  {
    var cfg := Config(flags.githubToken, flags.owner, flags.repo, flags.trunkBranch, flags.targetBranch, []);
    if cfg.githubToken == [] {
      return Failure(MissingGithubToken);
    }
    if cfg.owner == [] {
      return Failure(MissingOwner);
    }
    if cfg.repo == [] {
      return Failure(MissingRepo);
    }
    if cfg.targetBranch == [] {
      cfg := cfg.(targetBranch := "pre-" + cfg.trunkBranch);
    }
    var labels := ParseLabels(flags.labels);
    cfg := cfg.(requiredLabels := labels);
    return Success(cfg);
  }
}
