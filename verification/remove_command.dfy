/** `grov remove <name>`: pick the worktree by branch or directory name,
    refuse when the pick is missing, ambiguous, the bare entry or has
    uncommitted changes, then remove it and optionally delete its branch.

    The worktree list and the dirty check are inputs; the result is the list
    of git operations the command performs in order, or the error it stops
    with. */
module RemoveCommand {
  import opened Options
  import opened Strings
  import opened Worktree

  /** `--match`: which names a worktree answers to. */
  datatype MatchMode = Auto | Branch | Dir

  predicate Selects(mode: MatchMode, w: WorktreeInfo, name: string) {
    match mode
    case Auto => MatchesBranch(w, name) || MatchesDir(w, name)
    case Branch => MatchesBranch(w, name)
    case Dir => MatchesDir(w, name)
  }

  /** The worktrees the mode selects, in list order. */
  function Filter(ws: seq<WorktreeInfo>, mode: MatchMode, name: string): (r: seq<WorktreeInfo>)
    ensures |r| <= |ws|
    ensures forall k :: 0 <= k < |r| ==> r[k] in ws && Selects(mode, r[k], name)
    ensures forall i :: 0 <= i < |ws| && Selects(mode, ws[i], name) ==> ws[i] in r
    decreases |ws|
  {
    if |ws| == 0 then []
    else
      var rest := Filter(ws[1..], mode, name);
      assert forall i :: 1 <= i < |ws| ==> ws[i] == ws[1..][i - 1];
      if Selects(mode, ws[0], name) then [ws[0]] + rest else rest
  }

  datatype RemoveError =
    | NotFound(name: string)
    | Ambiguous(name: string, candidates: seq<WorktreeInfo>)
    | BareEntry
    | Dirty

  datatype GitOp = RemoveWorktree(path: string, force: bool) | DeleteBranch(branch: string)

  /** Two different positions of the list are selected. */
  predicate TwoSelected(ws: seq<WorktreeInfo>, mode: MatchMode, name: string) {
    exists i, j :: 0 <= i < j < |ws| && Selects(mode, ws[i], name) && Selects(mode, ws[j], name)
  }

  /** The decision `execute` makes; `dirty` is the outcome of the dirty check
      on the selected worktree, none when that check itself failed. */
  function PlanRemove(ws: seq<WorktreeInfo>, name: string, mode: MatchMode, deleteBranch: bool,
                      force: bool, dirty: Option<bool>): (r: Result<seq<GitOp>, RemoveError>)
    ensures r == Failure(NotFound(name)) <==> forall i :: 0 <= i < |ws| ==> !Selects(mode, ws[i], name)
    ensures r.Failure? && r.error.Ambiguous? <==> TwoSelected(ws, mode, name)
    ensures r.Failure? && r.error.Ambiguous? ==> r.error.candidates == Filter(ws, mode, name)
    ensures r.Success? ==> 1 <= |r.value| <= 2 && !TwoSelected(ws, mode, name)
    ensures r.Success? ==>
              exists i :: 0 <= i < |ws| && Selects(mode, ws[i], name) && !ws[i].isBare
                          && (force || dirty != Some(true))
                          && r.value[0] == RemoveWorktree(ws[i].path, force)
                          && (|r.value| == 2 <==> deleteBranch && ws[i].branch.Some?)
                          && (|r.value| == 2 ==> r.value[1] == DeleteBranch(ws[i].branch.value))
  {
    var matches := Filter(ws, mode, name);
    FilterTwo(ws, mode, name);
    if |matches| == 0 then Failure(NotFound(name))
    else if |matches| > 1 then Failure(Ambiguous(name, matches))
    else
      var wt := matches[0];
      if wt.isBare then Failure(BareEntry)
      else if !force && dirty.GetOr(false) then Failure(Dirty)
      else
        Success([RemoveWorktree(wt.path, force)]
                + (if deleteBranch && wt.branch.Some? then [DeleteBranch(wt.branch.value)] else []))
  }

  lemma FilterUnfold(ws: seq<WorktreeInfo>, mode: MatchMode, name: string)
    requires |ws| > 0
    ensures Filter(ws, mode, name)
            == (if Selects(mode, ws[0], name) then [ws[0]] else []) + Filter(ws[1..], mode, name)
  {
  }

  /** Filtering distributes over concatenation, so the candidates keep the
      order the worktrees are listed in. */
  lemma {:induction false} FilterConcat(a: seq<WorktreeInfo>, b: seq<WorktreeInfo>, mode: MatchMode, name: string)
    ensures Filter(a + b, mode, name) == Filter(a, mode, name) + Filter(b, mode, name)
    decreases |a|
  {
    if |a| == 0 {
      assert a + b == b;
      assert Filter(a, mode, name) == [];
    } else {
      FilterConcat(a[1..], b, mode, name);
      FilterConsStep(a, b, mode, name);
      FilterUnfold(a, mode, name);
      AppendAssoc(if Selects(mode, a[0], name) then [a[0]] else [],
                  Filter(a[1..], mode, name), Filter(b, mode, name));
    }
  }

  lemma FilterConsStep(a: seq<WorktreeInfo>, b: seq<WorktreeInfo>, mode: MatchMode, name: string)
    requires |a| > 0
    ensures Filter(a + b, mode, name)
            == (if Selects(mode, a[0], name) then [a[0]] else []) + Filter(a[1..] + b, mode, name)
  {
    FilterUnfold(a + b, mode, name);
    assert (a + b)[0] == a[0];
    assert (a + b)[1..] == a[1..] + b;
  }

  /** Two selected positions leave at least two entries after filtering. */
  lemma {:induction false} TwoSelectedFilter(ws: seq<WorktreeInfo>, mode: MatchMode, name: string)
    requires TwoSelected(ws, mode, name)
    ensures |Filter(ws, mode, name)| >= 2
    decreases |ws|
  {
    var rest := ws[1..];
    FilterUnfold(ws, mode, name);
    var i, j :| 0 <= i < j < |ws| && Selects(mode, ws[i], name) && Selects(mode, ws[j], name);
    assert ws[j] == rest[j - 1];
    if i == 0 {
      assert rest[j - 1] in Filter(rest, mode, name);
    } else {
      assert ws[i] == rest[i - 1];
      assert Selects(mode, rest[i - 1], name) && Selects(mode, rest[j - 1], name);
      TwoSelectedFilter(rest, mode, name);
    }
  }

  /** At least two entries after filtering come from two selected positions. */
  lemma {:induction false} FilterTwoSelected(ws: seq<WorktreeInfo>, mode: MatchMode, name: string)
    requires |Filter(ws, mode, name)| >= 2
    ensures TwoSelected(ws, mode, name)
    decreases |ws|
  {
    var rest := ws[1..];
    FilterUnfold(ws, mode, name);
    var f := Filter(rest, mode, name);
    if Selects(mode, ws[0], name) {
      assert f[0] in rest && Selects(mode, f[0], name);
      var j :| 0 <= j < |rest| && rest[j] == f[0];
      assert ws[j + 1] == rest[j];
      assert Selects(mode, ws[0], name) && Selects(mode, ws[j + 1], name);
    } else {
      FilterTwoSelected(rest, mode, name);
      var i, j :| 0 <= i < j < |rest| && Selects(mode, rest[i], name) && Selects(mode, rest[j], name);
      assert ws[i + 1] == rest[i] && ws[j + 1] == rest[j];
      assert Selects(mode, ws[i + 1], name) && Selects(mode, ws[j + 1], name);
    }
  }

  lemma FilterTwo(ws: seq<WorktreeInfo>, mode: MatchMode, name: string)
    ensures |Filter(ws, mode, name)| >= 2 <==> TwoSelected(ws, mode, name)
  {
    if TwoSelected(ws, mode, name) {
      TwoSelectedFilter(ws, mode, name);
    }
    if |Filter(ws, mode, name)| >= 2 {
      FilterTwoSelected(ws, mode, name);
    }
  }

  /** The operations that are attempted when `ok[k]` tells whether operation
      `k` succeeds: each `?` stops the command at the first failure. */
  function Attempted(ops: seq<GitOp>, ok: seq<bool>): (r: seq<GitOp>)
    requires |ok| == |ops|
    ensures |r| <= |ops| && r == ops[..|r|]
    ensures forall k :: 0 <= k < |r| - 1 ==> ok[k]
    ensures |r| < |ops| ==> |r| > 0 && !ok[|r| - 1]
    decreases |ops|
  {
    if |ops| == 0 then []
    else if ok[0] then [ops[0]] + Attempted(ops[1..], ok[1..])
    else [ops[0]]
  }

  // ---------------------------------------------------------------- properties

  /** `Auto` selects exactly what `find_worktree` looks for, so a unique
      `Auto` pick is the worktree `find_worktree` returns. */
  lemma {:induction false} AutoPickIsFindWorktree(ws: seq<WorktreeInfo>, name: string)
    requires |Filter(ws, Auto, name)| > 0
    ensures FindWorktree(ws, name) == Some(Filter(ws, Auto, name)[0])
    decreases |ws|
  {
    if Matches(ws[0], name) {
    } else {
      AutoPickIsFindWorktree(ws[1..], name);
      match FindIndex(ws[1..], name)
      case Some(i) => assert ws[i + 1] == ws[1..][i];
      case None =>
    }
  }

  /** `Auto` selects the worktrees that either narrower mode selects. */
  lemma AutoIsUnion(ws: seq<WorktreeInfo>, name: string, w: WorktreeInfo)
    ensures w in Filter(ws, Auto, name) <==> w in Filter(ws, Branch, name) || w in Filter(ws, Dir, name)
  {
    var a, b, d := Filter(ws, Auto, name), Filter(ws, Branch, name), Filter(ws, Dir, name);
    if w in a {
      var k :| 0 <= k < |a| && a[k] == w;
      var i :| 0 <= i < |ws| && ws[i] == w;
      assert ws[i] in b || ws[i] in d;
    }
    if w in b {
      var k :| 0 <= k < |b| && b[k] == w;
      var i :| 0 <= i < |ws| && ws[i] == w;
      assert ws[i] in a;
    }
    if w in d {
      var k :| 0 <= k < |d| && d[k] == w;
      var i :| 0 <= i < |ws| && ws[i] == w;
      assert ws[i] in a;
    }
  }

  /** `--force` skips the dirty check: a unique, non-bare pick is removed
      whatever the check says. */
  lemma ForceSkipsDirtyCheck(ws: seq<WorktreeInfo>, name: string, mode: MatchMode, deleteBranch: bool,
                             dirty: Option<bool>)
    requires |Filter(ws, mode, name)| == 1 && !Filter(ws, mode, name)[0].isBare
    ensures PlanRemove(ws, name, mode, deleteBranch, true, dirty).Success?
  {
  }

  /** Without `--force`, only a check that reports changes stops the command;
      a failing check counts as clean. */
  lemma DirtyStopsRemoval(ws: seq<WorktreeInfo>, name: string, mode: MatchMode, deleteBranch: bool,
                          dirty: Option<bool>)
    requires |Filter(ws, mode, name)| == 1 && !Filter(ws, mode, name)[0].isBare
    ensures PlanRemove(ws, name, mode, deleteBranch, false, dirty) == Failure(Dirty) <==> dirty == Some(true)
  {
  }

  /** The bare entry is never removed. */
  lemma BareIsRefused(ws: seq<WorktreeInfo>, name: string, mode: MatchMode, deleteBranch: bool,
                      force: bool, dirty: Option<bool>)
    requires |Filter(ws, mode, name)| == 1 && Filter(ws, mode, name)[0].isBare
    ensures PlanRemove(ws, name, mode, deleteBranch, force, dirty) == Failure(BareEntry)
  {
  }

  /** The branch is deleted only once the worktree removal has succeeded. */
  lemma BranchDeletedAfterRemoval(ws: seq<WorktreeInfo>, name: string, mode: MatchMode, deleteBranch: bool,
                                  force: bool, dirty: Option<bool>, ok: seq<bool>, b: string)
    requires PlanRemove(ws, name, mode, deleteBranch, force, dirty).Success?
    requires |ok| == |PlanRemove(ws, name, mode, deleteBranch, force, dirty).value|
    requires DeleteBranch(b) in Attempted(PlanRemove(ws, name, mode, deleteBranch, force, dirty).value, ok)
    ensures deleteBranch && ok[0]
    ensures Attempted(PlanRemove(ws, name, mode, deleteBranch, force, dirty).value, ok)[0].RemoveWorktree?
  {
  }
}
