/** `grov add <branch>`: where the new worktree goes, and which of the three
    ways of creating it is taken: check out an existing local branch, track
    the remote branch of that name, or create the branch from a base.

    Everything the command learns from git, the file system or the terminal
    is an input (`AddEnv`); the result is the `git worktree add` invocation
    it makes, or the error it stops with. */
module AddCommand {
  import opened Options
  import opened Paths

  /** How the base of a new branch is decided. */
  datatype BaseBranchAction = UseBase(base: string) | Prompt(defaultBranch: Option<string>) | ErrorNotTty

  /** `resolve_base_branch`: an explicit `--base` wins; otherwise a terminal is
      needed to ask, offering the current branch. */
  function ResolveBaseBranch(baseFlag: Option<string>, current: Option<string>, isTty: bool): (r: BaseBranchAction)
    ensures r.UseBase? <==> baseFlag.Some?
    ensures r.UseBase? ==> r.base == baseFlag.value
    ensures r == ErrorNotTty <==> baseFlag.None? && !isTty
    ensures r.Prompt? ==> r.defaultBranch == current && isTty
  {
    match baseFlag
    case Some(b) => UseBase(b)
    case None => if !isTty then ErrorNotTty else Prompt(current)
  }

  lemma ResolveBaseBranchExamples()
    ensures ResolveBaseBranch(Some("develop"), Some("feat"), true) == UseBase("develop")
    ensures ResolveBaseBranch(Some("develop"), None, false) == UseBase("develop")
    ensures ResolveBaseBranch(None, Some("feat"), true) == Prompt(Some("feat"))
    ensures ResolveBaseBranch(None, None, true) == Prompt(None)
    ensures ResolveBaseBranch(None, Some("feat"), false) == ErrorNotTty
    ensures ResolveBaseBranch(None, None, false) == ErrorNotTty
  {
  }

  /** What the command finds out while it runs. */
  datatype AddEnv = AddEnv(
    existing: set<Path>,            // paths that exist on disk
    localExists: bool,              // refs/heads/<branch> resolves
    remoteExists: bool,             // refs/remotes/origin/<branch> resolves
    current: Option<string>,        // the branch checked out where the command runs
    isTty: bool,                    // stdin is a terminal
    repoDefault: Option<string>,    // the repository's default branch, None when git fails
    answer: string)                 // the trimmed reply to the base-branch prompt

  /** `git worktree add [extraArgs] <path> <commitIsh>`. */
  datatype WorktreeAdd = WorktreeAdd(path: Path, commitIsh: string, extraArgs: seq<string>)

  datatype AddError = AlreadyExists(path: Path) | BaseRequired | DefaultBranchUnknown

  /** The argument list handed to git. */
  function GitArgs(cmd: WorktreeAdd, pathText: string): seq<string> {
    ["worktree", "add"] + cmd.extraArgs + [pathText, cmd.commitIsh]
  }

  /** The branch the new worktree has checked out: the one created with `-b`,
      or else the commit-ish itself. */
  function CheckedOut(cmd: WorktreeAdd): string {
    var n := |cmd.extraArgs|;
    if n >= 2 && cmd.extraArgs[n - 2] == "-b" then cmd.extraArgs[n - 1] else cmd.commitIsh
  }

  /** The target directory: the custom path, or the sibling of the bare
      repository that `worktree_dir` names. */
  function Target(repo: Path, branch: string, prefix: string, customPath: Option<Path>): (r: Path)
    requires customPath.Some? || (|repo| > 0 && repo[|repo| - 1] != Root)
    ensures customPath.Some? ==> r == customPath.value
    ensures customPath.None? ==> r == WorktreeDir(repo, branch, prefix)
  {
    match customPath
    case Some(p) => p
    case None => WorktreeDir(repo, branch, prefix)
  }

  /** The base a new branch starts from, or why there is none. */
  function NewBranchBase(baseFlag: Option<string>, env: AddEnv): (r: Result<string, AddError>)
    ensures baseFlag.Some? ==> r == Success(baseFlag.value)
    ensures r == Failure(BaseRequired) <==> baseFlag.None? && !env.isTty
    ensures r == Failure(DefaultBranchUnknown)
            <==> baseFlag.None? && env.isTty && env.current.None? && env.repoDefault.None?
    ensures r.Success? && baseFlag.None? && env.answer != "" ==> r.value == env.answer
    ensures r.Success? && baseFlag.None? && env.answer == "" && env.current.Some? ==> r.value == env.current.value
    ensures r.Success? && baseFlag.None? && env.answer == "" && env.current.None? ==> r.value == env.repoDefault.value
  {
    match ResolveBaseBranch(baseFlag, env.current, env.isTty)
    case UseBase(b) => Success(b)
    case ErrorNotTty => Failure(BaseRequired)
    case Prompt(offered) =>
      var effective := if offered.Some? then offered else env.repoDefault;
      match effective
      case None => Failure(DefaultBranchUnknown)
      case Some(d) => Success(if env.answer == "" then d else env.answer)
  }

  /** The decision `execute` makes. */
  function PlanAdd(repo: Path, branch: string, baseFlag: Option<string>, customPath: Option<Path>,
                   prefix: string, env: AddEnv): (r: Result<WorktreeAdd, AddError>)
    requires customPath.Some? || (|repo| > 0 && repo[|repo| - 1] != Root)
    ensures r == Failure(AlreadyExists(Target(repo, branch, prefix, customPath)))
            <==> Target(repo, branch, prefix, customPath) in env.existing
    ensures r.Success? ==> r.value.path == Target(repo, branch, prefix, customPath)
                           && r.value.path !in env.existing
    ensures r.Success? && env.localExists ==> r.value.commitIsh == branch && r.value.extraArgs == []
    ensures r.Success? && !env.localExists && env.remoteExists
            ==> r.value.commitIsh == "origin/" + branch && r.value.extraArgs == ["--track", "-b", branch]
    ensures r.Success? && !env.localExists && !env.remoteExists
            ==> NewBranchBase(baseFlag, env) == Success(r.value.commitIsh) && r.value.extraArgs == ["-b", branch]
    ensures r.Failure? && !r.error.AlreadyExists?
            ==> !env.localExists && !env.remoteExists && NewBranchBase(baseFlag, env) == Failure(r.error)
  {
    var target := Target(repo, branch, prefix, customPath);
    if target in env.existing then Failure(AlreadyExists(target))
    else if env.localExists then Success(WorktreeAdd(target, branch, []))
    else if env.remoteExists then Success(WorktreeAdd(target, "origin/" + branch, ["--track", "-b", branch]))
    else
      match NewBranchBase(baseFlag, env)
      case Success(base) => Success(WorktreeAdd(target, base, ["-b", branch]))
      case Failure(e) => Failure(e)
  }

  // ---------------------------------------------------------------- properties

  /** Whichever way it is created, the new worktree is on `branch`. */
  lemma PlanChecksOutBranch(repo: Path, branch: string, baseFlag: Option<string>, customPath: Option<Path>,
                            prefix: string, env: AddEnv)
    requires customPath.Some? || (|repo| > 0 && repo[|repo| - 1] != Root)
    ensures var r := PlanAdd(repo, branch, baseFlag, customPath, prefix, env);
            r.Success? ==> CheckedOut(r.value) == branch
  {
  }

  /** A flag or a TTY is only asked for when neither a local nor a remote
      branch exists: an existing branch is added without any base. */
  lemma ExistingBranchNeedsNoBase(repo: Path, branch: string, baseFlag: Option<string>, customPath: Option<Path>,
                                  prefix: string, env: AddEnv)
    requires customPath.Some? || (|repo| > 0 && repo[|repo| - 1] != Root)
    requires env.localExists || env.remoteExists
    requires Target(repo, branch, prefix, customPath) !in env.existing
    ensures PlanAdd(repo, branch, baseFlag, customPath, prefix, env).Success?
  {
  }

  /** An empty reply to the prompt takes the offered default: the current
      branch, or else the repository's default branch. */
  lemma EmptyAnswerTakesDefault(env: AddEnv)
    requires env.isTty && env.answer == ""
    requires env.current.Some? || env.repoDefault.Some?
    ensures NewBranchBase(None, env)
            == Success(if env.current.Some? then env.current.value else env.repoDefault.value)
  {
  }

  /** The git invocation for a remote branch: `worktree add --track -b <branch>
      <path> origin/<branch>`. */
  lemma RemoteBranchArgs(repo: Path, branch: string, baseFlag: Option<string>, customPath: Option<Path>,
                         prefix: string, env: AddEnv, pathText: string)
    requires customPath.Some? || (|repo| > 0 && repo[|repo| - 1] != Root)
    requires !env.localExists && env.remoteExists
    requires Target(repo, branch, prefix, customPath) !in env.existing
    ensures var r := PlanAdd(repo, branch, baseFlag, customPath, prefix, env);
            r.Success? && GitArgs(r.value, pathText)
                          == ["worktree", "add", "--track", "-b", branch, pathText, "origin/" + branch]
  {
    var target := Target(repo, branch, prefix, customPath);
    assert PlanAdd(repo, branch, baseFlag, customPath, prefix, env)
           == Success(WorktreeAdd(target, "origin/" + branch, ["--track", "-b", branch]));
    TrackingArgs(target, branch, pathText);
  }

  lemma TrackingArgs(target: Path, branch: string, pathText: string)
    ensures GitArgs(WorktreeAdd(target, "origin/" + branch, ["--track", "-b", branch]), pathText)
            == ["worktree", "add", "--track", "-b", branch, pathText, "origin/" + branch]
  {
  }
}
