/** `grov list`: one line per worktree. Compact mode prints only branch
    names; the full listing shows a current-worktree marker, the branch
    padded to a common width, the status, the ahead/behind counts against
    the upstream and the directory name.

    The worktree list and what git and the file system report about each
    worktree are inputs (`Probe`); terminal styling is left out, so every
    styled piece is its plain text. */
module ListCommand {
  import opened Options
  import opened Strings
  import opened Utf8
  import opened Worktree

  // ---------------------------------------------------------------- ahead/behind

  const AheadMark: char := '↑'
  const BehindMark: char := '↓'

  /** The counts a missing upstream stands for. */
  function Counts(ab: Option<(nat, nat)>): (nat, nat) {
    match ab
    case None => (0, 0)
    case Some(p) => p
  }

  /** `format_ahead_behind`: nothing without an upstream or when in sync;
      otherwise two spaces, then `↑a` and `↓b` for the counts that are not
      zero, ahead first, separated by one space. */
  function FormatAheadBehind(ab: Option<(nat, nat)>): (r: string)
    ensures r == "" <==> Counts(ab) == (0, 0)
    ensures r != "" ==> StartsWith(r, "  ")
  {
    match ab
    case None => ""
    case Some((ahead, behind)) =>
      var parts := (if ahead > 0 then [[AheadMark] + NatToString(ahead)] else [])
                   + (if behind > 0 then [[BehindMark] + NatToString(behind)] else []);
      if |parts| == 0 then "" else "  " + Join(parts, " ")
  }

  predicate AllDigits(s: string) {
    forall i :: 0 <= i < |s| ==> IsDigit(s[i])
  }

  /** One `↑a` or `↓b` part, read back as (ahead, behind). */
  function ParsePart(p: string): (r: Option<(nat, nat)>)
    ensures r.Some? ==> (r.value.0 == 0) != (r.value.1 == 0)
  {
    if |p| < 2 || !AllDigits(p[1..]) || ParseDigits(p[1..]) == 0 then None
    else if p[0] == AheadMark then Some((ParseDigits(p[1..]), 0))
    else if p[0] == BehindMark then Some((0, ParseDigits(p[1..])))
    else None
  }

  /** Reads a rendered ahead/behind suffix back as its counts; none for text
      `format_ahead_behind` never produces. */
  function ParseAheadBehind(s: string): (r: Option<(nat, nat)>)
    ensures r == Some((0, 0)) <==> s == ""
  {
    if s == "" then Some((0, 0))
    else match StripPrefix(s, "  ")
      case None => None
      case Some(body) =>
        var pieces := Split(body, ' ');
        if |pieces| == 1 then ParsePart(pieces[0])
        else if |pieces| == 2 then
          match (ParsePart(pieces[0]), ParsePart(pieces[1]))
          case (Some((a, 0)), Some((0, b))) => if a > 0 && b > 0 then Some((a, b)) else None
          case _ => None
        else None
  }

  lemma PartRoundTrip(mark: char, n: nat)
    requires n > 0 && (mark == AheadMark || mark == BehindMark)
    ensures ' ' !in [mark] + NatToString(n)
    ensures ParsePart([mark] + NatToString(n)) == Some(if mark == AheadMark then (n, 0) else (0, n))
  {
    var p := [mark] + NatToString(n);
    assert p[1..] == NatToString(n);
    ParseNatToString(n);
    assert forall i :: 0 <= i < |p| ==> p[i] != ' ' by {
      forall i | 0 <= i < |p| ensures p[i] != ' ' {
        if i > 0 { assert p[i] == NatToString(n)[i - 1]; }
      }
    }
  }

  lemma StripTwoSpaces(body: string)
    ensures StripPrefix("  " + body, "  ") == Some(body)
  {
    var r := StripPrefix("  " + body, "  ");
    assert StartsWith("  " + body, "  ");
    assert "  " + r.value == "  " + body;
    assert r.value == ("  " + r.value)[2..];
  }

  lemma BothRoundTrip(a: nat, b: nat)
    requires a > 0 && b > 0
    ensures ParseAheadBehind(FormatAheadBehind(Some((a, b)))) == Some((a, b))
  {
    var pa, pb := [AheadMark] + NatToString(a), [BehindMark] + NatToString(b);
    PartRoundTrip(AheadMark, a);
    PartRoundTrip(BehindMark, b);
    assert FormatAheadBehind(Some((a, b))) == "  " + Join([pa, pb], " ");
    assert Join([pa, pb], " ") == pa + [' '] + pb;
    StripTwoSpaces(pa + [' '] + pb);
    SplitPrefix(pa, ' ', pb);
    SplitNoSep(pb, ' ');
    assert Split(pa + [' '] + pb, ' ') == [pa, pb];
  }

  lemma OneRoundTrip(mark: char, n: nat)
    requires n > 0 && (mark == AheadMark || mark == BehindMark)
    ensures var ab := if mark == AheadMark then (n, 0) else (0, n);
            ParseAheadBehind(FormatAheadBehind(Some(ab))) == Some(ab)
  {
    var p := [mark] + NatToString(n);
    PartRoundTrip(mark, n);
    var ab := if mark == AheadMark then (n, 0) else (0, n);
    assert FormatAheadBehind(Some(ab)) == "  " + Join([p], " ");
    StripTwoSpaces(p);
    SplitNoSep(p, ' ');
  }

  /** The rendered suffix determines the counts it was made from. */
  lemma AheadBehindRoundTrip(ab: Option<(nat, nat)>)
    ensures ParseAheadBehind(FormatAheadBehind(ab)) == Some(Counts(ab))
  {
    var (a, b) := Counts(ab);
    if a > 0 && b > 0 {
      assert ab == Some((a, b));
      BothRoundTrip(a, b);
    } else if a > 0 {
      assert ab == Some((a, 0));
      OneRoundTrip(AheadMark, a);
    } else if b > 0 {
      assert ab == Some((0, b));
      OneRoundTrip(BehindMark, b);
    } else {
      assert FormatAheadBehind(ab) == "";
    }
  }

  lemma FormatAheadBehindExamples()
    ensures FormatAheadBehind(None) == ""
    ensures FormatAheadBehind(Some((0, 0))) == ""
    ensures FormatAheadBehind(Some((3, 0))) == "  ↑3"
    ensures FormatAheadBehind(Some((0, 2))) == "  ↓2"
  {
  }

  lemma FormatBothCounts()
    ensures FormatAheadBehind(Some((3, 2))) == "  ↑3 ↓2"
  {
    assert NatToString(3) == "3" && NatToString(2) == "2";
    assert [AheadMark] + NatToString(3) == "↑3" && [BehindMark] + NatToString(2) == "↓2";
    assert Join(["↑3", "↓2"], " ") == "↑3" + " " + "↓2";
  }

  // ---------------------------------------------------------------- compact mode

  /** Compact mode: the branch of every non-bare worktree that has one, in
      list order. */
  function Compact(ws: seq<WorktreeInfo>): (r: seq<string>)
    ensures |r| <= |ws|
    ensures |r| == 0 <==> forall i :: 0 <= i < |ws| ==> ws[i].isBare || ws[i].branch.None?
    decreases |ws|
  {
    if |ws| == 0 then []
    else
      var rest := Compact(ws[1..]);
      assert forall i :: 1 <= i < |ws| ==> ws[i] == ws[1..][i - 1];
      if !ws[0].isBare && ws[0].branch.Some? then [ws[0].branch.value] + rest else rest
  }

  function CompactHead(w: WorktreeInfo): seq<string> {
    if !w.isBare && w.branch.Some? then [w.branch.value] else []
  }

  lemma CompactUnfold(ws: seq<WorktreeInfo>)
    requires |ws| > 0
    ensures Compact(ws) == CompactHead(ws[0]) + Compact(ws[1..])
  {
  }

  /** A non-bare worktree with a branch has its line. */
  lemma {:induction false} CompactHasBranch(ws: seq<WorktreeInfo>, i: nat)
    requires i < |ws| && !ws[i].isBare && ws[i].branch.Some?
    ensures ws[i].branch.value in Compact(ws)
    decreases i
  {
    CompactUnfold(ws);
    if i > 0 {
      assert ws[1..][i - 1] == ws[i];
      CompactHasBranch(ws[1..], i - 1);
    }
  }

  /** Every line is the branch of a non-bare worktree: the one at `i`. */
  lemma {:induction false} CompactLineSource(ws: seq<WorktreeInfo>, k: nat) returns (i: nat)
    requires k < |Compact(ws)|
    ensures i < |ws| && !ws[i].isBare && ws[i].branch == Some(Compact(ws)[k])
    decreases |ws|
  {
    CompactUnfold(ws);
    var head := CompactHead(ws[0]);
    if k < |head| {
      i := 0;
    } else {
      var j := CompactLineSource(ws[1..], k - |head|);
      i := j + 1;
      assert ws[i] == ws[1..][j];
    }
  }

  /** Compact mode prints the branch of exactly the non-bare worktrees that
      have one. */
  lemma CompactContents(ws: seq<WorktreeInfo>, b: string)
    ensures b in Compact(ws) <==> exists i :: 0 <= i < |ws| && !ws[i].isBare && ws[i].branch == Some(b)
  {
    if b in Compact(ws) {
      var k :| 0 <= k < |Compact(ws)| && Compact(ws)[k] == b;
      var i := CompactLineSource(ws, k);
    }
    if exists i :: 0 <= i < |ws| && !ws[i].isBare && ws[i].branch == Some(b) {
      var i :| 0 <= i < |ws| && !ws[i].isBare && ws[i].branch == Some(b);
      CompactHasBranch(ws, i);
    }
  }

  /** Compact output keeps list order: the lines of a list are the lines of
      its parts, one after the other. */
  lemma {:induction false} CompactConcat(a: seq<WorktreeInfo>, b: seq<WorktreeInfo>)
    ensures Compact(a + b) == Compact(a) + Compact(b)
    decreases |a|
  {
    if |a| == 0 {
      assert a + b == b;
    } else {
      var ab := a + b;
      assert ab[0] == a[0];
      assert ab[1..] == a[1..] + b;
      CompactUnfold(ab);
      CompactUnfold(a);
      CompactConcat(a[1..], b);
    }
  }

  // ---------------------------------------------------------------- full listing

  datatype Status = Clean | Dirty | Missing | Unknown

  /** What the command learns about one worktree: whether its path exists,
      the dirty check (none when it fails), the ahead/behind counts (none
      without an upstream or when git fails) and whether the command runs
      inside it. */
  datatype Probe = Probe(pathExists: bool, dirty: Option<bool>, aheadBehind: Option<(nat, nat)>, isCurrent: bool)

  datatype Entry = Entry(branch: string, isCurrent: bool, status: Status, aheadBehind: Option<(nat, nat)>,
                         dirName: string)

  const Detached: string := "(detached)"

  function StatusOf(p: Probe): (s: Status)
    ensures s == Missing <==> !p.pathExists
    ensures s == Unknown <==> p.pathExists && p.dirty.None?
    ensures s == Dirty <==> p.pathExists && p.dirty == Some(true)
    ensures s == Clean <==> p.pathExists && p.dirty == Some(false)
  {
    if !p.pathExists then Missing
    else match p.dirty
      case Some(true) => Dirty
      case Some(false) => Clean
      case None => Unknown
  }

  /** The entry of one non-bare worktree. Ahead/behind counts are only asked
      for when the status is known. */
  function MakeEntry(w: WorktreeInfo, p: Probe): (e: Entry)
    ensures w.branch.Some? ==> e.branch == w.branch.value
    ensures w.branch.None? ==> e.branch == Detached
    ensures e.status == StatusOf(p)
    ensures e.aheadBehind.Some? ==> p.pathExists && p.dirty.Some? && e.aheadBehind == p.aheadBehind
    ensures p.pathExists && p.dirty.Some? ==> e.aheadBehind == p.aheadBehind
    ensures e.dirName == FileName(w.path).GetOr("")
    ensures e.isCurrent == p.isCurrent
  {
    var status := StatusOf(p);
    Entry(w.branch.GetOr(Detached), p.isCurrent, status,
          if status == Clean || status == Dirty then p.aheadBehind else None,
          FileName(w.path).GetOr(""))
  }

  /** The entries of the non-bare worktrees, in list order; `probes[i]` is what
      was found out about `ws[i]`. */
  function Entries(ws: seq<WorktreeInfo>, probes: seq<Probe>): (r: seq<Entry>)
    requires |probes| == |ws|
    ensures |r| <= |ws|
    decreases |ws|
  {
    if |ws| == 0 then []
    else
      var rest := Entries(ws[1..], probes[1..]);
      if ws[0].isBare then rest else [MakeEntry(ws[0], probes[0])] + rest
  }

  /** Every worktree has an entry exactly when none of them is the bare one. */
  lemma {:induction false} EntriesKeepAll(ws: seq<WorktreeInfo>, probes: seq<Probe>)
    requires |probes| == |ws|
    ensures |Entries(ws, probes)| == |ws| <==> forall i :: 0 <= i < |ws| ==> !ws[i].isBare
    decreases |ws|
  {
    if |ws| > 0 {
      EntriesUnfold(ws, probes);
      EntriesKeepAll(ws[1..], probes[1..]);
      assert forall i :: 1 <= i < |ws| ==> ws[i] == ws[1..][i - 1];
    }
  }

  lemma EntriesUnfold(ws: seq<WorktreeInfo>, probes: seq<Probe>)
    requires |probes| == |ws| > 0
    ensures Entries(ws, probes)
            == (if ws[0].isBare then [] else [MakeEntry(ws[0], probes[0])]) + Entries(ws[1..], probes[1..])
  {
  }

  /** A non-bare worktree has its entry. */
  lemma {:induction false} EntriesHasEntry(ws: seq<WorktreeInfo>, probes: seq<Probe>, i: nat)
    requires |probes| == |ws| && i < |ws| && !ws[i].isBare
    ensures MakeEntry(ws[i], probes[i]) in Entries(ws, probes)
    decreases i
  {
    EntriesUnfold(ws, probes);
    if i > 0 {
      assert ws[1..][i - 1] == ws[i] && probes[1..][i - 1] == probes[i];
      EntriesHasEntry(ws[1..], probes[1..], i - 1);
    }
  }

  /** Every entry is the entry of a non-bare worktree: the one at `i`. */
  lemma {:induction false} EntrySource(ws: seq<WorktreeInfo>, probes: seq<Probe>, k: nat) returns (i: nat)
    requires |probes| == |ws| && k < |Entries(ws, probes)|
    ensures i < |ws| && !ws[i].isBare && Entries(ws, probes)[k] == MakeEntry(ws[i], probes[i])
    decreases |ws|
  {
    var head := if ws[0].isBare then [] else [MakeEntry(ws[0], probes[0])];
    var rest := Entries(ws[1..], probes[1..]);
    EntriesUnfold(ws, probes);
    assert Entries(ws, probes) == head + rest;
    if k < |head| {
      i := 0;
    } else {
      assert Entries(ws, probes)[k] == rest[k - |head|];
      var j := EntrySource(ws[1..], probes[1..], k - |head|);
      i := j + 1;
      assert ws[i] == ws[1..][j] && probes[i] == probes[1..][j];
    }
  }

  /** The full listing has an entry for exactly the non-bare worktrees. */
  lemma EntriesContents(ws: seq<WorktreeInfo>, probes: seq<Probe>, e: Entry)
    requires |probes| == |ws|
    ensures e in Entries(ws, probes)
            <==> exists i :: 0 <= i < |ws| && !ws[i].isBare && e == MakeEntry(ws[i], probes[i])
  {
    if e in Entries(ws, probes) {
      var k :| 0 <= k < |Entries(ws, probes)| && Entries(ws, probes)[k] == e;
      var i := EntrySource(ws, probes, k);
    }
    if exists i :: 0 <= i < |ws| && !ws[i].isBare && e == MakeEntry(ws[i], probes[i]) {
      var i :| 0 <= i < |ws| && !ws[i].isBare && e == MakeEntry(ws[i], probes[i]);
      EntriesHasEntry(ws, probes, i);
    }
  }

  /** The full listing keeps list order: the entries of a list are the
      entries of its parts, one after the other. */
  lemma {:induction false} EntriesConcat(a: seq<WorktreeInfo>, pa: seq<Probe>, b: seq<WorktreeInfo>, pb: seq<Probe>)
    requires |pa| == |a| && |pb| == |b|
    ensures Entries(a + b, pa + pb) == Entries(a, pa) + Entries(b, pb)
    decreases |a|
  {
    if |a| == 0 {
      assert a + b == b && pa + pb == pb;
      assert Entries(a, pa) == [];
    } else {
      EntriesConcat(a[1..], pa[1..], b, pb);
      EntriesUnfold(a, pa);
      EntriesConsStep(a, pa, b, pb);
      AppendAssoc(if a[0].isBare then [] else [MakeEntry(a[0], pa[0])],
                  Entries(a[1..], pa[1..]), Entries(b, pb));
    }
  }

  lemma EntriesConsStep(a: seq<WorktreeInfo>, pa: seq<Probe>, b: seq<WorktreeInfo>, pb: seq<Probe>)
    requires |pa| == |a| > 0 && |pb| == |b|
    ensures Entries(a + b, pa + pb)
            == (if a[0].isBare then [] else [MakeEntry(a[0], pa[0])]) + Entries(a[1..] + b, pa[1..] + pb)
  {
    EntriesUnfold(a + b, pa + pb);
    assert (a + b)[0] == a[0] && (pa + pb)[0] == pa[0];
    assert (a + b)[1..] == a[1..] + b;
    assert (pa + pb)[1..] == pa[1..] + pb;
  }

  // ---------------------------------------------------------------- padding

  function Saturating(a: nat, b: nat): nat {
    if a >= b then a - b else 0
  }

  /** The widest of some lengths, 0 for none. */
  function MaxOf(lens: seq<nat>): (m: nat)
    ensures forall k :: 0 <= k < |lens| ==> lens[k] <= m
    ensures |lens| > 0 ==> m in lens
    ensures |lens| == 0 ==> m == 0
    decreases |lens|
  {
    if |lens| == 0 then 0
    else
      var rest := MaxOf(lens[1..]);
      assert forall k :: 1 <= k < |lens| ==> lens[k] == lens[1..][k - 1];
      if lens[0] >= rest then lens[0] else rest
  }

  function Branches(es: seq<Entry>): (r: seq<string>)
    ensures |r| == |es| && forall k :: 0 <= k < |es| ==> r[k] == es[k].branch
  {
    seq(|es|, k requires 0 <= k < |es| => es[k].branch)
  }

  /** Column width as the code computes it: the longest branch in UTF-8
      bytes (`str::len`). */
  function ByteWidth(names: seq<string>): nat {
    MaxOf(seq(|names|, k requires 0 <= k < |names| => ByteLen(names[k])))
  }

  /** `format!("{name}{}", " ".repeat(width.saturating_sub(name.len())))`:
      padding counted in bytes. */
  function PadBytes(name: string, width: nat): (r: string)
    ensures ByteLen(r) == if ByteLen(name) >= width then ByteLen(name) else width
    ensures |r| >= |name| && r[..|name|] == name
    ensures forall j :: |name| <= j < |r| ==> r[j] == ' '
  {
    ByteLenConcat(name, Fill(' ', Saturating(width, ByteLen(name))));
    SpacesByteLen(Saturating(width, ByteLen(name)));
    name + Fill(' ', Saturating(width, ByteLen(name)))
  }

  lemma {:induction false} SpacesByteLen(n: nat)
    ensures ByteLen(Fill(' ', n)) == n
    decreases n
  {
    if n > 0 {
      SpacesByteLen(n - 1);
      assert Fill(' ', n)[1..] == Fill(' ', n - 1);
    }
  }

  /** As the code pads: every padded name has the same length in bytes. */
  lemma BytePaddingAlignsBytes(names: seq<string>)
    ensures forall k :: 0 <= k < |names| ==> ByteLen(PadBytes(names[k], ByteWidth(names))) == ByteWidth(names)
  {
    var lens := seq(|names|, k requires 0 <= k < |names| => ByteLen(names[k]));
    assert forall k :: 0 <= k < |names| ==> lens[k] == ByteLen(names[k]);
  }

  /** A terminal advances one column per character (for the narrow
      characters branch names are made of), not per byte: a two-byte "é"
      leaves byte-counted padding one column short. */
  lemma BytePaddingMisaligns()
    ensures var names := ["fé", "ab"];
            ByteWidth(names) == 3
            && |PadBytes(names[0], ByteWidth(names))| == 2
            && |PadBytes(names[1], ByteWidth(names))| == 3
  {
    var names := ["fé", "ab"];
    assert ByteLen("fé") == 3;
    assert ByteLen("ab") == 2;
    var lens := seq(|names|, k requires 0 <= k < |names| => ByteLen(names[k]));
    assert lens == [3, 2];
    assert MaxOf(lens[1..]) == 2;
  }

  /** Column width in characters: the longest branch name. */
  function CharWidth(names: seq<string>): nat {
    MaxOf(seq(|names|, k requires 0 <= k < |names| => |names[k]|))
  }

  /** Padding counted in characters. */
  function PadChars(name: string, width: nat): string {
    name + Fill(' ', Saturating(width, |name|))
  }

  /** Every padded name is exactly as wide as the widest name, and starts
      with the name followed by spaces only. */
  lemma CharPaddingAligns(names: seq<string>)
    ensures forall k :: 0 <= k < |names| ==>
              |PadChars(names[k], CharWidth(names))| == CharWidth(names)
              && PadChars(names[k], CharWidth(names))[..|names[k]|] == names[k]
              && forall j :: |names[k]| <= j < CharWidth(names) ==> PadChars(names[k], CharWidth(names))[j] == ' '
    ensures |names| > 0 ==> exists k :: 0 <= k < |names| && PadChars(names[k], CharWidth(names)) == names[k]
  {
    var lens := seq(|names|, k requires 0 <= k < |names| => |names[k]|);
    assert forall k :: 0 <= k < |names| ==> lens[k] == |names[k]|;
    if |names| > 0 {
      var k :| 0 <= k < |names| && lens[k] == CharWidth(names);
      assert PadChars(names[k], CharWidth(names)) == names[k] + Fill(' ', 0);
    }
  }

  // ---------------------------------------------------------------- rows

  function Marker(isCurrent: bool): char {
    if isCurrent then '●' else '○'
  }

  function StatusText(s: Status): string {
    match s
    case Clean => "✓ clean"
    case Dirty => "✦ dirty"
    case Missing => "! missing"
    case Unknown => "? unknown"
  }

  /** The part of a row from the status on. */
  function Tail(e: Entry): string {
    StatusText(e.status) + FormatAheadBehind(e.aheadBehind) + "  (" + e.dirName + ")"
  }

  /** One line of the full listing, the branch padded to `width` characters. */
  function Row(e: Entry, width: nat): string {
    "  " + [Marker(e.isCurrent)] + " " + PadChars(e.branch, width) + "  " + Tail(e)
  }

  /** The lines `list` prints. */
  function Listing(ws: seq<WorktreeInfo>, probes: seq<Probe>, compact: bool): (r: seq<string>)
    requires |probes| == |ws|
    ensures compact ==> r == Compact(ws)
    ensures !compact && Entries(ws, probes) == [] ==> r == ["No worktrees found."]
    ensures !compact && Entries(ws, probes) != [] ==> |r| == |Entries(ws, probes)|
  {
    if compact then Compact(ws)
    else
      var es := Entries(ws, probes);
      if |es| == 0 then ["No worktrees found."]
      else
        var w := CharWidth(Branches(es));
        seq(|es|, k requires 0 <= k < |es| => Row(es[k], w))
  }

  /** One line of the full listing as the code builds it: the branch padded
      to `width` bytes. */
  function RowAsWritten(e: Entry, width: nat): string {
    "  " + [Marker(e.isCurrent)] + " " + PadBytes(e.branch, width) + "  " + Tail(e)
  }

  /** The lines `list` prints as the code is written, with the column width
      and padding counted in bytes. */
  function ListingAsWritten(ws: seq<WorktreeInfo>, probes: seq<Probe>, compact: bool): (r: seq<string>)
    requires |probes| == |ws|
    ensures compact ==> r == Compact(ws)
    ensures !compact && Entries(ws, probes) == [] ==> r == ["No worktrees found."]
    ensures !compact && Entries(ws, probes) != [] ==> |r| == |Entries(ws, probes)|
  {
    if compact then Compact(ws)
    else
      var es := Entries(ws, probes);
      if |es| == 0 then ["No worktrees found."]
      else
        var w := ByteWidth(Branches(es));
        seq(|es|, k requires 0 <= k < |es| => RowAsWritten(es[k], w))
  }

  /** With ASCII branch names, bytes and characters agree, so the listing as
      written is the corrected one. */
  lemma AsciiListingsAgree(ws: seq<WorktreeInfo>, probes: seq<Probe>, compact: bool)
    requires |probes| == |ws|
    requires forall k :: 0 <= k < |Entries(ws, probes)| ==> Ascii(Entries(ws, probes)[k].branch)
    ensures ListingAsWritten(ws, probes, compact) == Listing(ws, probes, compact)
  {
    var es := Entries(ws, probes);
    if !compact && |es| > 0 {
      var names := Branches(es);
      var bytes := seq(|names|, k requires 0 <= k < |names| => ByteLen(names[k]));
      var chars := seq(|names|, k requires 0 <= k < |names| => |names[k]|);
      forall k | 0 <= k < |names|
        ensures bytes[k] == chars[k]
      {
        AsciiByteLen(names[k]);
      }
      assert bytes == chars;
      var w := CharWidth(names);
      forall k | 0 <= k < |es|
        ensures RowAsWritten(es[k], w) == Row(es[k], w)
      {
        AsciiByteLen(es[k].branch);
      }
    }
  }

  /** One row: the marker at column 2, the branch from column 4, and the
      status from column 6 + width. */
  lemma RowLayout(e: Entry, width: nat)
    requires |e.branch| <= width
    ensures var row := Row(e, width);
            |row| >= 6 + width && row[2] == Marker(e.isCurrent)
            && row[4..4 + |e.branch|] == e.branch && row[6 + width..] == Tail(e)
  {
    var padded := PadChars(e.branch, width);
    var head := "  " + [Marker(e.isCurrent)] + " " + padded + "  ";
    assert Row(e, width) == head + Tail(e);
    assert |head| == 6 + width;
    assert head[4..4 + |e.branch|] == padded[..|e.branch|] == e.branch;
  }

  /** In the full listing, every row shows its entry's marker and branch at
      the same place, and its status begins at the same column. */
  lemma ListingColumnsAlign(ws: seq<WorktreeInfo>, probes: seq<Probe>)
    requires |probes| == |ws|
    requires Entries(ws, probes) != []
    ensures var es := Entries(ws, probes);
            var rows := Listing(ws, probes, false);
            var col := 6 + CharWidth(Branches(es));
            forall k :: 0 <= k < |rows| ==>
              |rows[k]| >= col
              && rows[k][2] == Marker(es[k].isCurrent)
              && rows[k][4..4 + |es[k].branch|] == es[k].branch
              && rows[k][col..] == Tail(es[k])
  {
    var es := Entries(ws, probes);
    var names := Branches(es);
    var w := CharWidth(names);
    var lens := seq(|names|, k requires 0 <= k < |names| => |names[k]|);
    assert forall k :: 0 <= k < |names| ==> lens[k] == |names[k]|;
    forall k | 0 <= k < |es|
      ensures var row := Row(es[k], w);
              |row| >= 6 + w && row[2] == Marker(es[k].isCurrent)
              && row[4..4 + |es[k].branch|] == es[k].branch && row[6 + w..] == Tail(es[k])
    {
      assert lens[k] <= w;
      RowLayout(es[k], w);
    }
  }
}
