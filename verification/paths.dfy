/** Path and name helpers: turning a branch name into a directory name,
    placing a worktree next to the bare repository, deriving a project name
    from a clone URL, and writing one absolute path relative to another.

    A path is the sequence of its components; an absolute path starts with
    the root component "/". */
module Paths {
  import opened Options
  import opened Strings

  type Path = seq<string>

  const Root: string := "/"

  // ---------------------------------------------------------------- double dashes

  /** A "--" starts at position `i`. */
  predicate DashPairAt(s: string, i: nat) {
    i + 1 < |s| && s[i] == '-' && s[i + 1] == '-'
  }

  /** No two neighbouring dashes. */
  ghost predicate NoDoubleDash(s: string) {
    forall i: nat :: !DashPairAt(s, i)
  }

  lemma DoubleDashIsContains(s: string)
    ensures Contains(s, "--") <==> !NoDoubleDash(s)
  {
    ContainsAt(s, "--");
    if Contains(s, "--") {
      var i: nat :| OccursAt(s, "--", i);
      assert s[i..i + 2][0] == s[i] && s[i..i + 2][1] == s[i + 1];
      assert DashPairAt(s, i);
    }
    if !NoDoubleDash(s) {
      var i: nat :| DashPairAt(s, i);
      assert s[i..i + 2] == "--";
      assert OccursAt(s, "--", i);
    }
  }

  lemma NoDoubleDashSlice(s: string, a: nat, b: nat)
    requires a <= b <= |s| && NoDoubleDash(s)
    ensures NoDoubleDash(s[a..b])
  {
    forall i: nat
      ensures !DashPairAt(s[a..b], i)
    {
      assert !DashPairAt(s, a + i);
    }
  }

  lemma NoDashNoDoubleDash(s: string)
    requires '-' !in s
    ensures !Contains(s, "--")
  {
    DoubleDashIsContains(s);
    forall i: nat
      ensures !DashPairAt(s, i)
    {
      assert i < |s| ==> s[i] in s;
    }
  }

  // ---------------------------------------------------------------- sanitize_branch_name

  /** `replace('/', "-")`. */
  function ReplaceSlashes(s: string): (r: string)
    ensures |r| == |s| && '/' !in r
    ensures forall i :: 0 <= i < |s| ==> r[i] == (if s[i] == '/' then '-' else s[i])
  {
    seq(|s|, i requires 0 <= i < |s| => if s[i] == '/' then '-' else s[i])
  }

  /** One pass of `replace("--", "-")`: non-overlapping occurrences, found
      left to right, each become a single dash. */
  function ReplaceDoubleDash(s: string): (r: string)
    ensures |r| <= |s|
    ensures Contains(s, "--") ==> |r| < |s|
    ensures forall c :: c in r ==> c in s
    decreases |s|
  {
    if StartsWith(s, "--") then
      assert s[0] == s[..2][0];
      "-" + ReplaceDoubleDash(s[2..])
    else if |s| == 0 then ""
    else [s[0]] + ReplaceDoubleDash(s[1..])
  }

  /** `while result.contains("--") { result = result.replace("--", "-") }`;
      each pass shortens the text, which is why the loop ends. */
  function CollapseDashes(s: string): (r: string)
    ensures !Contains(r, "--")
    ensures forall c :: c in r ==> c in s
    decreases |s|
  {
    if Contains(s, "--") then CollapseDashes(ReplaceDoubleDash(s)) else s
  }

  /** `trim_matches('-')`. */
  function TrimDashes(s: string): (r: string)
    ensures |r| <= |s|
    ensures |r| > 0 ==> r[0] != '-' && r[|r| - 1] != '-'
  {
    TrimEnd(TrimStart(s, '-'), '-')
  }

  /** The trimmed text is a slice of the input, from `a` to `b`. */
  lemma TrimDashesSlice(s: string) returns (a: nat, b: nat)
    ensures a <= b <= |s| && TrimDashes(s) == s[a..b]
    ensures forall i :: 0 <= i < a ==> s[i] == '-'
    ensures forall i :: b <= i < |s| ==> s[i] == '-'
  {
    var t := TrimStart(s, '-');
    var u := TrimEnd(t, '-');
    a, b := |s| - |t|, |s| - |t| + |u|;
    assert t == s[a..];
    assert u == t[..|u|];
    assert s[a..][..|u|] == s[a..b];
    forall i | b <= i < |s|
      ensures s[i] == '-'
    {
      assert t[i - a] == s[i];
    }
  }

  lemma TrimKeepsNoDoubleDash(s: string)
    requires !Contains(s, "--")
    ensures !Contains(TrimDashes(s), "--")
  {
    DoubleDashIsContains(s);
    var t := TrimDashes(s);
    var a, b := TrimDashesSlice(s);
    NoDoubleDashSlice(s, a, b);
    DoubleDashIsContains(t);
  }

  lemma FallbackIsClean()
    ensures !Contains("branch", "--") && '/' !in "branch"
    ensures "branch"[0] != '-' && "branch"[5] != '-'
  {
    assert "branch"[0] == 'b';
    NoDashNoDoubleDash("branch");
  }

  lemma AbsentFromSlice(s: string, a: nat, b: nat, c: char)
    requires a <= b <= |s| && c !in s
    ensures c !in s[a..b]
  {
    assert forall j :: 0 <= j < b - a ==> s[a..b][j] == s[a + j];
  }

  lemma NoSlashSurvives(branch: string)
    ensures '/' !in TrimDashes(CollapseDashes(TrimStart(ReplaceSlashes(branch), '.')))
  {
    var replaced := ReplaceSlashes(branch);
    var dotless := TrimStart(replaced, '.');
    assert '/' !in dotless by {
      AbsentFromSlice(replaced, |replaced| - |dotless|, |replaced|, '/');
    }
    var collapsed := CollapseDashes(dotless);
    assert '/' !in collapsed;
    assert '/' !in TrimDashes(collapsed) by {
      var a, b := TrimDashesSlice(collapsed);
      AbsentFromSlice(collapsed, a, b, '/');
    }
  }

  /** The directory name a branch is checked out into. */
  function SanitizeBranchName(branch: string): (r: string)
    ensures |r| > 0
    ensures '/' !in r
    ensures !Contains(r, "--")
    ensures r[0] != '-' && r[|r| - 1] != '-'
  {
    var collapsed := CollapseDashes(TrimStart(ReplaceSlashes(branch), '.'));
    var trimmed := TrimDashes(collapsed);
    TrimKeepsNoDoubleDash(collapsed);
    FallbackIsClean();
    NoSlashSurvives(branch);
    if trimmed == "" then "branch" else trimmed
  }

  // ---------------------------------------------------------------- single-pass reference

  /** Every maximal run of dashes reduced to one dash, in a single scan;
      `afterDash` says whether the character before `s` was a kept dash. */
  function CollapseRuns(s: string, afterDash: bool): (r: string)
    decreases |s|
  {
    if |s| == 0 then ""
    else if s[0] == '-' && afterDash then CollapseRuns(s[1..], true)
    else [s[0]] + CollapseRuns(s[1..], s[0] == '-')
  }

  lemma {:induction false} ReplacePreservesRuns(s: string, afterDash: bool)
    ensures CollapseRuns(ReplaceDoubleDash(s), afterDash) == CollapseRuns(s, afterDash)
    decreases |s|
  {
    if StartsWith(s, "--") {
      assert s[0] == s[..2][0] && s[1] == s[..2][1];
      var rest := ReplaceDoubleDash(s[2..]);
      ReplacePreservesRuns(s[2..], true);
      assert ("-" + rest)[1..] == rest;
      assert s[1..][1..] == s[2..];
    } else if |s| > 0 {
      ReplacePreservesRuns(s[1..], s[0] == '-');
      assert ([s[0]] + ReplaceDoubleDash(s[1..]))[1..] == ReplaceDoubleDash(s[1..]);
    }
  }

  lemma {:induction false} RunsOfCollapsed(s: string, afterDash: bool)
    requires NoDoubleDash(s)
    requires afterDash && |s| > 0 ==> s[0] != '-'
    ensures CollapseRuns(s, afterDash) == s
    decreases |s|
  {
    if |s| > 0 {
      NoDoubleDashSlice(s, 1, |s|);
      if |s| > 1 {
        assert !DashPairAt(s, 0);
      }
      assert s[1..|s|] == s[1..];
      RunsOfCollapsed(s[1..], s[0] == '-');
      assert s == [s[0]] + s[1..];
    }
  }

  /** The dash-collapsing loop computes the single-scan collapse. */
  lemma {:induction false} CollapseDashesIsSingleScan(s: string)
    ensures CollapseDashes(s) == CollapseRuns(s, false)
    decreases |s|
  {
    if Contains(s, "--") {
      CollapseDashesIsSingleScan(ReplaceDoubleDash(s));
      ReplacePreservesRuns(s, false);
    } else {
      DoubleDashIsContains(s);
      RunsOfCollapsed(s, false);
    }
  }

  /** `sanitize_branch_name` as one scan: slashes to dashes, leading dots
      dropped, dash runs collapsed, edge dashes trimmed, "branch" if nothing
      is left. */
  lemma SanitizeSingleScan(branch: string)
    ensures var t := TrimDashes(CollapseRuns(TrimStart(ReplaceSlashes(branch), '.'), false));
            SanitizeBranchName(branch) == if t == "" then "branch" else t
  {
    CollapseDashesIsSingleScan(TrimStart(ReplaceSlashes(branch), '.'));
  }

  lemma TrimDashesClean(s: string)
    requires |s| > 0 && s[0] != '-' && s[|s| - 1] != '-'
    ensures TrimDashes(s) == s
  {
  }

  /** A name that already is a clean directory name is kept as it is. */
  lemma SanitizeKeepsCleanName(s: string)
    requires |s| > 0 && '/' !in s && !Contains(s, "--")
    requires s[0] != '.' && s[0] != '-' && s[|s| - 1] != '-'
    ensures SanitizeBranchName(s) == s
  {
    ReplaceSlashesNone(s);
    assert TrimStart(s, '.') == s;
    assert CollapseDashes(s) == s;
    TrimDashesClean(s);
    SanitizeStages(s);
  }

  lemma NoDoubleDashJoin(a: string, b: string)
    requires !Contains(a, "--") && !Contains(b, "--")
    requires |a| == 0 || |b| == 0 || a[|a| - 1] != '-' || b[0] != '-'
    ensures !Contains(a + b, "--")
  {
    DoubleDashIsContains(a);
    DoubleDashIsContains(b);
    DoubleDashIsContains(a + b);
    forall i: nat
      ensures !DashPairAt(a + b, i)
    {
      assert !DashPairAt(a, i);
      assert i >= |a| ==> !DashPairAt(b, i - |a|);
    }
  }

  /** One component of a nested branch name: no slash, no doubled dash and no
      dash at either end (single dashes inside are fine). */
  predicate PlainSegment(s: string) {
    |s| > 0 && '/' !in s && !Contains(s, "--") && s[0] != '-' && s[|s| - 1] != '-'
  }

  lemma NoDashPlain(s: string)
    requires |s| > 0 && '/' !in s && '-' !in s
    ensures PlainSegment(s)
  {
    NoDashNoDoubleDash(s);
    assert s[0] in s && s[|s| - 1] in s;
  }

  lemma DashJoinClean(group: string, name: string)
    requires PlainSegment(group) && PlainSegment(name)
    ensures !Contains(group + "-" + name, "--")
  {
    DoubleDashIsContains("-");
    NoDoubleDashJoin(group, "-");
    NoDoubleDashJoin(group + "-", name);
  }

  lemma ReplaceSlashesJoin(group: string, name: string)
    requires '/' !in group && '/' !in name
    ensures ReplaceSlashes(group + "/" + name) == group + "-" + name
  {
    var joined := group + "-" + name;
    var r := ReplaceSlashes(group + "/" + name);
    forall i | 0 <= i < |joined| ensures r[i] == joined[i] {
      if i < |group| {
        assert (group + "/" + name)[i] == group[i];
      } else if i > |group| {
        assert (group + "/" + name)[i] == name[i - |group| - 1];
      }
    }
  }

  lemma NestedIsClean(group: string, name: string)
    requires PlainSegment(group) && PlainSegment(name) && group[0] != '.'
    ensures var joined := group + "-" + name;
            |joined| > 0 && '/' !in joined && !Contains(joined, "--")
            && joined[0] != '.' && joined[0] != '-' && joined[|joined| - 1] != '-'
  {
    var joined := group + "-" + name;
    assert joined[0] == group[0] && joined[|joined| - 1] == name[|name| - 1];
    DashJoinClean(group, name);
  }

  /** A branch `group/name` of plain segments becomes `group-name`. */
  lemma SanitizeNestedBranch(group: string, name: string)
    requires PlainSegment(group) && PlainSegment(name) && group[0] != '.'
    ensures SanitizeBranchName(group + "/" + name) == group + "-" + name
  {
    ReplaceSlashesJoin(group, name);
    NestedIsClean(group, name);
    SanitizeKeepsCleanName(group + "-" + name);
  }

  /** The four stages of `sanitize_branch_name`, one after the other. */
  lemma SanitizeStages(branch: string)
    ensures var trimmed := TrimDashes(CollapseDashes(TrimStart(ReplaceSlashes(branch), '.')));
            SanitizeBranchName(branch) == if trimmed == "" then "branch" else trimmed
  {
  }

  lemma ReplaceSlashesNone(s: string)
    requires '/' !in s
    ensures ReplaceSlashes(s) == s
  {
    assert forall i :: 0 <= i < |s| ==> s[i] != '/' by {
      forall i | 0 <= i < |s| ensures s[i] != '/' { assert s[i] in s; }
    }
  }

  /** Leading dots are dropped from an otherwise clean name ("main" stays,
      ".hidden" becomes "hidden"). */
  lemma SanitizeDropsLeadingDots(k: nat, s: string)
    requires |s| > 0 && '/' !in s && !Contains(s, "--")
    requires s[0] != '.' && s[0] != '-' && s[|s| - 1] != '-'
    ensures SanitizeBranchName(Fill('.', k) + s) == s
  {
    var dotted := Fill('.', k) + s;
    assert ReplaceSlashes(dotted) == dotted by {
      DotsKeepNoSlash(k, s);
      ReplaceSlashesNone(dotted);
    }
    assert TrimStart(dotted, '.') == s by {
      TrimStartFill('.', k, s);
    }
    assert CollapseDashes(s) == s;
    assert TrimDashes(s) == s by {
      TrimDashesClean(s);
    }
    SanitizeStages(dotted);
  }

  lemma DotsKeepNoSlash(k: nat, s: string)
    requires '/' !in s
    ensures '/' !in Fill('.', k) + s
  {
    var dotted := Fill('.', k) + s;
    forall i | 0 <= i < |dotted| ensures dotted[i] != '/' {
      if i >= k { assert dotted[i] == s[i - k]; assert s[i - k] in s; }
    }
  }

  lemma {:induction false} TrimStartAll(s: string, ch: char)
    requires forall i :: 0 <= i < |s| ==> s[i] == ch
    ensures TrimStart(s, ch) == ""
    decreases |s|
  {
    if |s| > 0 {
      assert forall i :: 0 <= i < |s| - 1 ==> s[1..][i] == s[i + 1];
      TrimStartAll(s[1..], ch);
    }
  }

  lemma TrimAllDashes(s: string)
    requires forall c :: c in s ==> c == '-'
    ensures TrimDashes(s) == ""
  {
    assert forall i :: 0 <= i < |s| ==> s[i] in s;
    TrimStartAll(s, '-');
  }

  /** Dots followed by slashes leave nothing, so the name falls back to
      "branch" ("", "..." and "//" among them). */
  lemma SanitizeDegenerate(k: nat, m: nat)
    ensures SanitizeBranchName(Fill('.', k) + Fill('/', m)) == "branch"
  {
    var name := Fill('.', k) + Fill('/', m);
    var replaced := Fill('.', k) + Fill('-', m);
    ReplaceSlashesOfFill(k, m);
    TrimStartFill('.', k, Fill('-', m));
    DashesVanish(m);
    SanitizeStages(name);
  }

  lemma ReplaceSlashesOfFill(k: nat, m: nat)
    ensures ReplaceSlashes(Fill('.', k) + Fill('/', m)) == Fill('.', k) + Fill('-', m)
  {
  }

  /** A run of dashes collapses and trims to nothing. */
  lemma DashesVanish(m: nat)
    ensures TrimDashes(CollapseDashes(Fill('-', m))) == ""
  {
    var collapsed := CollapseDashes(Fill('-', m));
    assert forall c :: c in Fill('-', m) ==> c == '-';
    TrimAllDashes(collapsed);
  }

  lemma ReplaceDoubleDashStep(s: string)
    requires |s| > 0 && s[0] != '-'
    ensures ReplaceDoubleDash(s) == [s[0]] + ReplaceDoubleDash(s[1..])
  {
    DiffersAt(s, "--", 0);
  }

  lemma NoDashTail(a: string)
    requires |a| > 0 && '-' !in a
    ensures a[0] != '-' && '-' !in a[1..]
  {
    assert a[0] in a;
    assert forall i :: 0 <= i < |a| - 1 ==> a[1..][i] == a[i + 1] && a[i + 1] in a;
  }

  lemma {:induction false} ReplaceDoubleDashSkips(a: string, t: string)
    requires '-' !in a
    ensures ReplaceDoubleDash(a + t) == a + ReplaceDoubleDash(t)
    decreases |a|
  {
    if |a| > 0 {
      NoDashTail(a);
      assert ReplaceDoubleDash(a + t) == [a[0]] + ReplaceDoubleDash(a[1..] + t) by {
        HeadTailOfConcat(a, t);
        ReplaceDoubleDashStep(a + t);
      }
      ReplaceDoubleDashSkips(a[1..], t);
      HeadTailOfConcat(a, ReplaceDoubleDash(t));
    } else {
      assert a + t == t;
    }
  }

  lemma ReplaceSlashesDoubled(group: string, name: string)
    requires '/' !in group && '/' !in name
    ensures ReplaceSlashes(group + "//" + name) == group + "--" + name
  {
    var src := group + "//" + name;
    var dashed := group + "--" + name;
    var r := ReplaceSlashes(src);
    forall i | 0 <= i < |src| ensures r[i] == dashed[i] {
      if i < |group| { assert src[i] == group[i] && group[i] in group; }
      else if i >= |group| + 2 { assert src[i] == name[i - |group| - 2] && name[i - |group| - 2] in name; }
    }
  }

  lemma ReplaceDoubledDash(group: string, name: string)
    requires '-' !in group && '-' !in name
    ensures ReplaceDoubleDash(group + "--" + name) == group + "-" + name
  {
    var t := "--" + name;
    assert group + "--" + name == group + t;
    assert group + ("-" + name) == group + "-" + name;
    assert ReplaceDoubleDash(t) == "-" + name by {
      ReplaceDoubleDashHead(name);
      ReplaceDoubleDashSkips(name, "");
      assert name + "" == name;
    }
    assert ReplaceDoubleDash(group + t) == group + ("-" + name) by {
      ReplaceDoubleDashSkips(group, t);
    }
  }

  lemma ReplaceDoubleDashHead(t: string)
    ensures ReplaceDoubleDash("--" + t) == "-" + ReplaceDoubleDash(t)
  {
    assert StartsWith("--" + t, "--");
    assert ("--" + t)[2..] == t;
  }

  lemma CollapseDoubled(group: string, name: string)
    requires |group| > 0 && |name| > 0 && group[0] != '.'
    requires '/' !in group && '/' !in name && '-' !in group && '-' !in name
    ensures CollapseDashes(group + "--" + name) == group + "-" + name
  {
    var dashed := group + "--" + name;
    ReplaceDoubledDash(group, name);
    ContainsAt(dashed, "--");
    assert OccursAt(dashed, "--", |group|);
    NoDashPlain(group);
    NoDashPlain(name);
    NestedIsClean(group, name);
  }

  /** Two slashes in a row give one dash ("a//b" becomes "a-b"). */
  lemma SanitizeDoubledSlash(group: string, name: string)
    requires |group| > 0 && |name| > 0 && group[0] != '.'
    requires '/' !in group && '/' !in name && '-' !in group && '-' !in name
    ensures SanitizeBranchName(group + "//" + name) == group + "-" + name
  {
    var dashed := group + "--" + name;
    var joined := group + "-" + name;
    ReplaceSlashesDoubled(group, name);
    assert dashed[0] == group[0];
    assert TrimStart(dashed, '.') == dashed;
    CollapseDoubled(group, name);
    NoDashPlain(group);
    NoDashPlain(name);
    NestedIsClean(group, name);
    TrimDashesClean(joined);
    SanitizeStages(group + "//" + name);
  }

  lemma TrimLeadingDash(t: string)
    requires '-' !in t
    ensures TrimDashes("-" + t) == t
  {
    assert ("-" + t)[1..] == t;
    assert |t| > 0 ==> t[0] in t && t[|t| - 1] in t;
    assert TrimStart("-" + t, '-') == t;
    assert TrimEnd(t, '-') == t;
  }

  /** The dot strip runs before the dash trim, so a dot can end up leading
      ("/.x" becomes ".x"). */
  lemma SanitizeSlashDot(x: string)
    requires '/' !in x && '-' !in x
    ensures SanitizeBranchName("/." + x) == "." + x
  {
    var src := "/." + x;
    var dotted := "." + x;
    var replaced := "-" + dotted;
    assert ReplaceSlashes(src) == replaced by {
      var r := ReplaceSlashes(src);
      forall i | 0 <= i < |src| ensures r[i] == replaced[i] {
        if i >= 2 { assert src[i] == x[i - 2] && x[i - 2] in x; }
      }
    }
    assert TrimStart(replaced, '.') == replaced;
    assert '-' !in dotted by {
      forall i | 0 <= i < |dotted| ensures dotted[i] != '-' {
        if i > 0 { assert dotted[i] == x[i - 1] && x[i - 1] in x; }
      }
    }
    NoDashNoDoubleDash(dotted);
    DoubleDashIsContains("-");
    NoDoubleDashJoin("-", dotted);
    assert CollapseDashes(replaced) == replaced;
    TrimLeadingDash(dotted);
    SanitizeStages(src);
  }

  // ---------------------------------------------------------------- worktree_dir

  /** The directory name: the sanitized branch, behind `prefix_` when a
      prefix is configured. */
  function DirName(branch: string, prefix: string): string {
    if prefix == "" then SanitizeBranchName(branch) else prefix + "_" + SanitizeBranchName(branch)
  }

  /** The worktree directory: a sibling of the bare repository. The bare
      repository must have a parent, i.e. be neither empty nor the root. */
  function WorktreeDir(bareRepo: Path, branch: string, prefix: string): (r: Path)
    requires |bareRepo| > 0 && bareRepo[|bareRepo| - 1] != Root
    ensures |r| == |bareRepo|
    ensures r[..|r| - 1] == bareRepo[..|bareRepo| - 1]
    ensures prefix == "" ==> r[|r| - 1] == SanitizeBranchName(branch)
    ensures prefix != "" ==> r[|r| - 1] == prefix + "_" + SanitizeBranchName(branch)
  {
    bareRepo[..|bareRepo| - 1] + [DirName(branch, prefix)]
  }

  /** A dash inside the last segment stays: "feature/my-thing" becomes
      "feature-my-thing". */
  lemma SanitizeDashedName(group: string, a: string, b: string)
    requires |group| > 0 && group[0] != '.' && '/' !in group && '-' !in group
    requires |a| > 0 && '/' !in a && '-' !in a
    requires |b| > 0 && '/' !in b && '-' !in b
    ensures SanitizeBranchName(group + "/" + a + "-" + b) == group + "-" + a + "-" + b
  {
    var name := a + "-" + b;
    assert group + "/" + a + "-" + b == group + "/" + name;
    assert group + "-" + a + "-" + b == group + "-" + name;
    NoDashPlain(group);
    NoDashPlain(a);
    NoDashPlain(b);
    DashJoinClean(a, b);
    assert name[0] == a[0] && name[|name| - 1] == b[|b| - 1];
    assert '/' !in name by {
      forall k | 0 <= k < |name| ensures name[k] != '/' {
        if k < |a| { assert name[k] == a[k]; }
        else if k > |a| { assert name[k] == b[k - |a| - 1]; }
      }
    }
    SanitizeNestedBranch(group, name);
  }

  /** A branch `group/name` of plain words lands in `group-name`, next to the
      bare repository, behind the prefix when there is one. */
  lemma WorktreeDirOfNestedBranch(parent: Path, bare: string, group: string, name: string, prefix: string)
    requires bare != Root
    requires PlainSegment(group) && PlainSegment(name) && group[0] != '.'
    ensures WorktreeDir(parent + [bare], group + "/" + name, prefix)
            == parent + [if prefix == "" then group + "-" + name else prefix + "_" + (group + "-" + name)]
  {
    var branch := group + "/" + name;
    var bareRepo := parent + [bare];
    SanitizeNestedBranch(group, name);
    var d := SanitizeBranchName(branch);
    assert DirName(branch, prefix) == if prefix == "" then d else prefix + "_" + d;
    assert bareRepo[..|bareRepo| - 1] == parent;
  }

  // ---------------------------------------------------------------- repo_name_from_url

  /** `rsplit('/').next()`: the text after the last '/', or everything when
      there is none. */
  function LastSegment(s: string): (r: string)
    ensures '/' !in r
    ensures EndsWith(s, r)
    ensures |r| < |s| ==> s[|s| - |r| - 1] == '/'
    decreases |s|
  {
    if |s| == 0 || s[|s| - 1] == '/' then ""
    else
      var r0 := LastSegment(s[..|s| - 1]);
      SegmentSnoc(s, r0);
      r0 + [s[|s| - 1]]
  }

  /** Extending the text by a character other than '/' extends its last
      segment by that character. */
  lemma SegmentSnoc(s: string, r0: string)
    requires |s| > 0 && s[|s| - 1] != '/'
    requires '/' !in r0 && EndsWith(s[..|s| - 1], r0)
    requires |r0| < |s| - 1 ==> s[..|s| - 1][|s| - 1 - |r0| - 1] == '/'
    ensures var r := r0 + [s[|s| - 1]];
            '/' !in r && EndsWith(s, r) && (|r| < |s| ==> s[|s| - |r| - 1] == '/')
  {
    var init := s[..|s| - 1];
    assert s == init + [s[|s| - 1]];
    assert s[|s| - |r0| - 1..] == init[|init| - |r0|..] + [s[|s| - 1]];
  }

  /** The project name a clone URL suggests: trailing slashes dropped, the last
      segment taken, one ".git" suffix removed. */
  function RepoNameFromUrl(url: string): (r: string)
    ensures '/' !in r
    ensures |r| <= |url|
  {
    var name := LastSegment(TrimEnd(url, '/'));
    match StripSuffix(name, ".git")
    case Some(stem) => stem
    case None => name
  }

  lemma TrimEndSlashes(s: string, k: nat)
    requires |s| > 0 && s[|s| - 1] != '/'
    ensures TrimEnd(s + Fill('/', k), '/') == s
  {
    var t := TrimEnd(s + Fill('/', k), '/');
    assert (s + Fill('/', k))[|s| - 1] == s[|s| - 1];
    assert |t| >= |s|;
    assert t == (s + Fill('/', k))[..|s|];
  }

  lemma {:induction false} LastSegmentAfterSlash(host: string, name: string)
    requires '/' !in name
    ensures LastSegment(host + "/" + name) == name
    decreases |name|
  {
    var s := host + "/" + name;
    if |name| > 0 {
      var init := name[..|name| - 1];
      NoSlashInInit(name);
      LastSegmentAfterSlash(host, init);
      assert s[..|s| - 1] == host + "/" + init;
      assert s[|s| - 1] == name[|name| - 1];
      LastSegmentStep(s);
      assert name == init + [name[|name| - 1]];
    } else {
      assert s[|s| - 1] == '/';
    }
  }

  lemma NoSlashInInit(name: string)
    requires |name| > 0 && '/' !in name
    ensures '/' !in name[..|name| - 1] && name[|name| - 1] != '/'
  {
    var init := name[..|name| - 1];
    assert name[|name| - 1] in name;
    forall j | 0 <= j < |init| ensures init[j] != '/' {
      assert init[j] == name[j] && name[j] in name;
    }
  }

  lemma LastSegmentStep(s: string)
    requires |s| > 0 && s[|s| - 1] != '/'
    ensures LastSegment(s) == LastSegment(s[..|s| - 1]) + [s[|s| - 1]]
  {
  }

  /** Any URL whose last path segment is `name`, with or without trailing
      slashes, yields `name` without its ".git" suffix. */
  lemma {:induction false} RepoNameOfUrl(host: string, name: string, trailing: nat)
    requires |name| > 0 && '/' !in name
    ensures var expected := if EndsWith(name, ".git") then name[..|name| - 4] else name;
            RepoNameFromUrl(host + "/" + name + Fill('/', trailing)) == expected
  {
    var s := host + "/" + name;
    assert s[|s| - 1] == name[|name| - 1];
    assert name[|name| - 1] in name;
    TrimEndSlashes(s, trailing);
    LastSegmentAfterSlash(host, name);
  }

  /** The segment split always yields a piece, so a URL with nothing after its
      last slash gives the empty name: the "repo" fallback is never taken. */
  lemma RepoNameCanBeEmpty(host: string, trailing: nat)
    ensures RepoNameFromUrl(Fill('/', trailing)) == ""
    ensures RepoNameFromUrl(host + "/" + ".git" + Fill('/', trailing)) == ""
  {
    var t := TrimEnd(Fill('/', trailing), '/');
    assert forall j :: 0 <= j < |t| ==> t[j] == '/';
    RepoNameOfUrl(host, ".git", trailing);
  }

  // ---------------------------------------------------------------- relative_from

  /** How many leading components the two paths share. */
  function CommonPrefixLen(a: Path, b: Path): (n: nat)
    ensures n <= |a| && n <= |b|
    ensures a[..n] == b[..n]
    ensures n < |a| && n < |b| ==> a[n] != b[n]
    decreases |a|
  {
    if |a| > 0 && |b| > 0 && a[0] == b[0] then
      var n := 1 + CommonPrefixLen(a[1..], b[1..]);
      assert a[..n] == [a[0]] + a[1..][..n - 1];
      assert b[..n] == [b[0]] + b[1..][..n - 1];
      n
    else 0
  }

  /** `relative_from(target, base)`: climb out of the part of `base` that is
      not shared, then descend into the rest of `target`; "." when that is
      nothing. Paths with no common leading component come back unchanged. */
  function RelativeFrom(target: Path, base: Path): (r: Path)
    ensures CommonPrefixLen(base, target) == 0 ==> r == target
    ensures CommonPrefixLen(base, target) > 0 ==> |r| > 0
    ensures CommonPrefixLen(base, target) > 0 && base == target ==> r == ["."]
    ensures var c := CommonPrefixLen(base, target);
            c > 0 && base != target ==>
              |r| == (|base| - c) + (|target| - c)
              && (forall i :: 0 <= i < |base| - c ==> r[i] == "..")
              && r[|base| - c..] == target[c..]
  {
    var common := CommonPrefixLen(base, target);
    if common == 0 then target
    else
      var rel := Fill("..", |base| - common) + target[common..];
      if rel == [] then ["."] else rel
  }

  /** Following relative path `rel` from directory `dir`: ".." steps up, "."
      stays, anything else steps down. */
  function Resolve(dir: Path, rel: Path): Path
    decreases |rel|
  {
    if |rel| == 0 then dir
    else if rel[0] == ".." then Resolve(if |dir| > 0 then dir[..|dir| - 1] else dir, rel[1..])
    else if rel[0] == "." then Resolve(dir, rel[1..])
    else Resolve(dir + [rel[0]], rel[1..])
  }

  /** A plain component: not "..", not ".". */
  predicate Plain(p: Path) {
    forall i :: 0 <= i < |p| ==> p[i] != ".." && p[i] != "."
  }

  lemma {:induction false} ResolveDescend(dir: Path, rel: Path)
    requires Plain(rel)
    ensures Resolve(dir, rel) == dir + rel
    decreases |rel|
  {
    if |rel| > 0 {
      ResolveDescend(dir + [rel[0]], rel[1..]);
      assert dir + [rel[0]] + rel[1..] == dir + rel;
    }
  }

  lemma {:induction false} ResolveClimb(dir: Path, k: nat, rel: Path)
    requires k <= |dir|
    ensures Resolve(dir, Fill("..", k) + rel) == Resolve(dir[..|dir| - k], rel)
    decreases k
  {
    if k > 0 {
      var up := Fill("..", k) + rel;
      assert up[0] == "..";
      assert up[1..] == Fill("..", k - 1) + rel;
      assert Resolve(dir, up) == Resolve(dir[..|dir| - 1], up[1..]);
      ResolveClimb(dir[..|dir| - 1], k - 1, rel);
      assert dir[..|dir| - 1][..|dir| - 1 - (k - 1)] == dir[..|dir| - k];
    } else {
      assert Fill("..", k) + rel == rel;
      assert dir[..|dir| - k] == dir;
    }
  }

  lemma PlainSuffix(p: Path, k: nat)
    requires k <= |p| && Plain(p)
    ensures Plain(p[k..])
  {
    forall i | 0 <= i < |p| - k ensures p[k..][i] != ".." && p[k..][i] != "." {
      assert p[k..][i] == p[k + i];
    }
  }

  /** Following the relative path from `base` leads back to `target`, for
      absolute paths made of plain components. */
  lemma RelativeFromResolves(target: Path, base: Path)
    requires |target| > 0 && target[0] == Root && Plain(target)
    requires |base| > 0 && base[0] == Root && Plain(base)
    ensures Resolve(base, RelativeFrom(target, base)) == target
  {
    var common := CommonPrefixLen(base, target);
    assert base[..1] == target[..1];
    var rest := target[common..];
    var rel := Fill("..", |base| - common) + rest;
    PlainSuffix(target, common);
    ResolveClimb(base, |base| - common, rest);
    ResolveDescend(base[..common], rest);
    assert target == target[..common] + rest;
    if rel == [] {
      assert base == base[..common] && target == target[..common];
    } else {
      assert RelativeFrom(target, base) == rel;
    }
  }

  lemma RelativeFromSame()
    ensures RelativeFrom(["/", "a", "b"], ["/", "a", "b"]) == ["."]
  {
    assert CommonPrefixLen(["/", "a", "b"], ["/", "a", "b"]) == 3;
  }

  lemma RelativeFromChild()
    ensures RelativeFrom(["/", "a", "b"], ["/", "a"]) == ["b"]
  {
    assert CommonPrefixLen(["/", "a"], ["/", "a", "b"]) == 2;
  }

  lemma RelativeFromSibling()
    ensures RelativeFrom(["/", "a", "c"], ["/", "a", "b"]) == ["..", "c"]
  {
    assert CommonPrefixLen(["/", "a", "b"], ["/", "a", "c"]) == 2;
  }

  lemma RelativeFromNested()
    ensures RelativeFrom(["/", "a", "b", "c", "d"], ["/", "a", "x", "y"]) == ["..", "..", "b", "c", "d"]
  {
    assert CommonPrefixLen(["/", "a", "x", "y"], ["/", "a", "b", "c", "d"]) == 2;
  }

  lemma RelativeFromParent()
    ensures RelativeFrom(["/", "a"], ["/", "a", "b", "c"]) == ["..", ".."]
  {
    assert CommonPrefixLen(["/", "a", "b", "c"], ["/", "a"]) == 2;
  }
}
