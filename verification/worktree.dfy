/** The worktree listing: the parser for `git worktree list --porcelain`
    output, written as a fold over its lines, and the lookup of a worktree by
    branch or directory name.

    The porcelain format is a sequence of blocks separated by blank lines;
    each block describes one worktree with lines `worktree <path>`,
    `HEAD <sha>`, optionally `branch refs/heads/<name>`, and `bare`. */
module Worktree {
  import opened Options
  import opened Strings

  datatype WorktreeInfo = WorktreeInfo(path: string, head: string, branch: Option<string>, isBare: bool)

  /** What the parser has seen since the last record. */
  datatype Pending = Pending(path: Option<string>, head: Option<string>, branch: Option<string>, isBare: bool)

  const Start: Pending := Pending(None, None, None, false)

  // ---------------------------------------------------------------- splitting the output into lines

  /** `str::lines`: pieces between '\n'; a piece ended by '\n' loses one
      trailing '\r'; an empty piece after the last '\n' is no line. */
  function Lines(output: string): (r: seq<string>)
    ensures forall i :: 0 <= i < |r| ==> '\n' !in r[i]
  {
    var pieces := Split(output, '\n');
    var ended := DropCrs(pieces[..|pieces| - 1]);
    if pieces[|pieces| - 1] == "" then ended else ended + [pieces[|pieces| - 1]]
  }

  /** `s` without one trailing '\r'. */
  function DropCr(s: string): (r: string)
    ensures r == s || r + "\r" == s
  {
    StripSuffix(s, "\r").GetOr(s)
  }

  function DropCrs(pieces: seq<string>): (r: seq<string>)
    requires forall i :: 0 <= i < |pieces| ==> '\n' !in pieces[i]
    ensures |r| == |pieces|
    ensures forall i :: 0 <= i < |r| ==> r[i] == DropCr(pieces[i]) && '\n' !in r[i]
  {
    seq(|pieces|, i requires 0 <= i < |pieces| =>
      var d := DropCr(pieces[i]);
      assert d == pieces[i][..|d|];
      d)
  }

  lemma {:induction false} JoinSnoc(parts: seq<string>, last: string, sep: string)
    requires |parts| > 0
    ensures Join(parts + [last], sep) == Join(parts, sep) + sep + last
    decreases |parts|
  {
    if |parts| > 1 {
      JoinSnoc(parts[1..], last, sep);
      assert (parts + [last])[1..] == parts[1..] + [last];
    } else {
      assert (parts + [last])[1..] == [last];
    }
  }

  lemma SplitTerminated(lines: seq<string>)
    requires |lines| > 0
    requires forall i :: 0 <= i < |lines| ==> '\n' !in lines[i]
    ensures Split(Join(lines, "\n") + "\n", '\n') == lines + [""]
  {
    JoinSnoc(lines, "", "\n");
    assert Join(lines + [""], "\n") == Join(lines, "\n") + "\n";
    SplitJoin(lines + [""], '\n');
  }

  /** Text made of lines, each ended by '\n', splits back into those lines. */
  lemma LinesOfTerminatedText(lines: seq<string>)
    requires |lines| > 0
    requires forall i :: 0 <= i < |lines| ==> '\n' !in lines[i] && !EndsWith(lines[i], "\r")
    ensures Lines(Join(lines, "\n") + "\n") == lines
  {
    SplitTerminated(lines);
    var pieces := lines + [""];
    assert pieces[..|pieces| - 1] == lines;
    forall i | 0 <= i < |lines|
      ensures DropCr(lines[i]) == lines[i]
    {
      assert StripSuffix(lines[i], "\r") == None;
    }
    assert DropCrs(lines) == lines;
  }

  // ---------------------------------------------------------------- the fold

  /** `strip_prefix("refs/heads/").unwrap_or(b)`. */
  function BranchName(b: string): (r: string)
    ensures StartsWith(b, "refs/heads/") ==> "refs/heads/" + r == b
    ensures !StartsWith(b, "refs/heads/") ==> r == b
  {
    StripPrefix(b, "refs/heads/").GetOr(b)
  }

  /** The kinds of line the parser tells apart, in the order it tests them. */
  datatype LineKind = PathLine(path: string) | HeadLine(head: string) | BranchLine(branch: string)
                    | BareLine | BlankLine | OtherLine

  function Classify(line: string): (k: LineKind)
    ensures k.PathLine? <==> StartsWith(line, "worktree ")
    ensures k.PathLine? ==> "worktree " + k.path == line
    ensures k.HeadLine? <==> !StartsWith(line, "worktree ") && StartsWith(line, "HEAD ")
    ensures k.HeadLine? ==> "HEAD " + k.head == line
    ensures k.BranchLine? ==> StartsWith(line, "branch ")
    ensures k.BlankLine? <==> line == ""
    ensures k.BareLine? <==> line == "bare"
    ensures k.OtherLine? <==> !StartsWith(line, "worktree ") && !StartsWith(line, "HEAD ")
                              && !StartsWith(line, "branch ") && line != "bare" && line != ""
  {
    match StripPrefix(line, "worktree ")
    case Some(p) => PathLine(p)
    case None =>
      match StripPrefix(line, "HEAD ")
      case Some(h) => HeadLine(h)
      case None =>
        match StripPrefix(line, "branch ")
        case Some(b) => BranchLine(BranchName(b))
        case None =>
          if line == "bare" then BareLine
          else if line == "" then BlankLine
          else OtherLine
  }

  lemma ClassifyPathLine(path: string)
    ensures Classify("worktree " + path) == PathLine(path)
  {
    assert StripPrefix("worktree " + path, "worktree ") == Some(path);
  }

  lemma ClassifyHeadLine(head: string)
    ensures Classify("HEAD " + head) == HeadLine(head)
  {
    DiffersAt("HEAD " + head, "worktree ", 0);
    assert StripPrefix("HEAD " + head, "HEAD ") == Some(head);
  }

  lemma ClassifyBranchLine(ref: string)
    ensures Classify("branch " + ref) == BranchLine(BranchName(ref))
  {
    DiffersAt("branch " + ref, "worktree ", 0);
    DiffersAt("branch " + ref, "HEAD ", 0);
    assert StripPrefix("branch " + ref, "branch ") == Some(ref);
  }

  lemma ClassifyBareLine()
    ensures Classify("bare") == BareLine
  {
    DiffersAt("bare", "worktree ", 0);
    DiffersAt("bare", "HEAD ", 0);
    DiffersAt("bare", "branch ", 1);
  }

  /** The record pending at `p`, if both its path and HEAD have been seen. */
  function Emit(p: Pending): (r: seq<WorktreeInfo>)
    ensures |r| <= 1
    ensures |r| == 1 <==> p.path.Some? && p.head.Some?
    ensures |r| == 1 ==> r[0] == WorktreeInfo(p.path.value, p.head.value, p.branch, p.isBare)
  {
    if p.path.Some? && p.head.Some? then [WorktreeInfo(p.path.value, p.head.value, p.branch, p.isBare)]
    else []
  }

  /** The state after a blank line: path, HEAD and bareness are cleared; the
      branch is handed to the record when one is emitted, and otherwise kept. */
  function AfterBlank(p: Pending): (q: Pending)
    ensures q.path == None && q.head == None && !q.isBare
    ensures q.branch == if |Emit(p)| == 1 then None else p.branch
  {
    Pending(None, None, if p.path.Some? && p.head.Some? then None else p.branch, false)
  }

  /** A non-blank line updates the pending record. */
  function Absorb(p: Pending, line: string): (q: Pending)
    requires line != ""
    ensures Classify(line).PathLine? ==> q == p.(path := Some(Classify(line).path))
    ensures Classify(line).HeadLine? ==> q == p.(head := Some(Classify(line).head))
    ensures Classify(line).BranchLine? ==> q == p.(branch := Some(Classify(line).branch))
    ensures Classify(line).BareLine? ==> q == p.(isBare := true)
    ensures Classify(line).OtherLine? ==> q == p
  {
    match Classify(line)
    case PathLine(v) => p.(path := Some(v))
    case HeadLine(v) => p.(head := Some(v))
    case BranchLine(v) => p.(branch := Some(v))
    case BareLine => p.(isBare := true)
    case _ => p
  }

  /** One iteration of the loop: the new state, and the records pushed. */
  function Step(p: Pending, line: string): (r: (Pending, seq<WorktreeInfo>))
    ensures line == "" ==> r == (AfterBlank(p), Emit(p))
    ensures line != "" ==> r == (Absorb(p, line), [])
  {
    if line == "" then (AfterBlank(p), Emit(p)) else (Absorb(p, line), [])
  }

  function ParseFrom(p: Pending, lines: seq<string>): seq<WorktreeInfo>
    decreases |lines|
  {
    if |lines| == 0 then Emit(p)
    else
      var (q, out) := Step(p, lines[0]);
      out + ParseFrom(q, lines[1..])
  }

  /** The worktrees described by the porcelain lines, in order. */
  function ParsePorcelain(lines: seq<string>): seq<WorktreeInfo> {
    ParseFrom(Start, lines)
  }

  function ParseOutput(output: string): seq<WorktreeInfo> {
    ParsePorcelain(Lines(output))
  }

  // ---------------------------------------------------------------- block reference

  /** The blank-separated blocks of the lines; no block holds a blank line. */
  function Blocks(lines: seq<string>): (r: seq<seq<string>>)
    ensures |r| > 0
    ensures forall i, j :: 0 <= i < |r| && 0 <= j < |r[i]| ==> r[i][j] != ""
    decreases |lines|
  {
    if |lines| == 0 then [[]]
    else
      var rest := Blocks(lines[1..]);
      if lines[0] == "" then [[]] + rest
      else [[lines[0]] + rest[0]] + rest[1..]
  }

  /** The last value a line of `block` gives through `pick`, or `dflt`. */
  function LastPath(block: seq<string>, dflt: Option<string>): Option<string>
    decreases |block|
  {
    if |block| == 0 then dflt
    else if Classify(block[|block| - 1]).PathLine? then Some(Classify(block[|block| - 1]).path)
    else LastPath(block[..|block| - 1], dflt)
  }

  function LastHead(block: seq<string>, dflt: Option<string>): Option<string>
    decreases |block|
  {
    if |block| == 0 then dflt
    else if Classify(block[|block| - 1]).HeadLine? then Some(Classify(block[|block| - 1]).head)
    else LastHead(block[..|block| - 1], dflt)
  }

  function LastBranch(block: seq<string>, dflt: Option<string>): Option<string>
    decreases |block|
  {
    if |block| == 0 then dflt
    else if Classify(block[|block| - 1]).BranchLine? then Some(Classify(block[|block| - 1]).branch)
    else LastBranch(block[..|block| - 1], dflt)
  }

  /** The record a block describes: its last path and last HEAD, its last
      branch or the one carried over, and whether it says `bare`. */
  function BlockRecord(block: seq<string>, carried: Option<string>): Option<WorktreeInfo> {
    var path := LastPath(block, None);
    var head := LastHead(block, None);
    if path.Some? && head.Some? then
      Some(WorktreeInfo(path.value, head.value, LastBranch(block, carried), "bare" in block))
    else None
  }

  /** Block by block: a block with both a path and a HEAD gives a record; a
      block without one hands its branch on to the next block. */
  function ParseBlocks(blocks: seq<seq<string>>, carried: Option<string>): seq<WorktreeInfo>
    decreases |blocks|
  {
    if |blocks| == 0 then []
    else
      match BlockRecord(blocks[0], carried)
      case Some(w) => [w] + ParseBlocks(blocks[1..], None)
      case None => ParseBlocks(blocks[1..], LastBranch(blocks[0], carried))
  }

  /** The fold over a block that contains no blank line. */
  function AbsorbAll(p: Pending, block: seq<string>): Pending
    requires forall j :: 0 <= j < |block| ==> block[j] != ""
    decreases |block|
  {
    if |block| == 0 then p else AbsorbAll(Absorb(p, block[0]), block[1..])
  }

  lemma AbsorbAllTwo(p: Pending, a: string, b: string)
    requires a != "" && b != ""
    ensures AbsorbAll(p, [a, b]) == Absorb(Absorb(p, a), b)
  {
    assert [a, b][1..] == [b];
    assert [b][1..] == [];
    assert AbsorbAll(p, [a, b]) == AbsorbAll(Absorb(p, a), [b]);
    assert AbsorbAll(Absorb(p, a), [b]) == AbsorbAll(Absorb(Absorb(p, a), b), []);
  }

  lemma AbsorbAllThree(p: Pending, a: string, b: string, c: string)
    requires a != "" && b != "" && c != ""
    ensures AbsorbAll(p, [a, b, c]) == Absorb(Absorb(Absorb(p, a), b), c)
  {
    assert [a, b, c][1..] == [b, c];
    AbsorbAllTwo(Absorb(p, a), b, c);
  }

  /** The parser's view of the block structure: absorb the first block, then
      emit at its end. */
  function ParseFromBlocks(p: Pending, blocks: seq<seq<string>>): seq<WorktreeInfo>
    requires |blocks| > 0
    requires forall i, j :: 0 <= i < |blocks| && 0 <= j < |blocks[i]| ==> blocks[i][j] != ""
    decreases |blocks|
  {
    var q := AbsorbAll(p, blocks[0]);
    if |blocks| == 1 then Emit(q) else Emit(q) + ParseFromBlocks(AfterBlank(q), blocks[1..])
  }

  lemma {:induction false} ParseFromIsBlockwise(p: Pending, lines: seq<string>)
    ensures ParseFrom(p, lines) == ParseFromBlocks(p, Blocks(lines))
    decreases |lines|
  {
    if |lines| > 0 {
      var rest := Blocks(lines[1..]);
      if lines[0] == "" {
        ParseFromIsBlockwise(AfterBlank(p), lines[1..]);
        assert Blocks(lines) == [[]] + rest;
        assert ([[]] + rest)[1..] == rest;
      } else {
        ParseFromIsBlockwise(Absorb(p, lines[0]), lines[1..]);
        var bs := [[lines[0]] + rest[0]] + rest[1..];
        assert Blocks(lines) == bs;
        assert ([lines[0]] + rest[0])[1..] == rest[0];
        assert AbsorbAll(p, bs[0]) == AbsorbAll(Absorb(p, lines[0]), rest[0]);
        if |rest| > 1 {
          assert bs[1..] == rest[1..];
        }
      }
    }
  }

  lemma {:induction false} AbsorbAllSnoc(p: Pending, block: seq<string>, line: string)
    requires forall j :: 0 <= j < |block| ==> block[j] != ""
    requires line != ""
    ensures AbsorbAll(p, block + [line]) == Absorb(AbsorbAll(p, block), line)
    decreases |block|
  {
    if |block| > 0 {
      AbsorbAllSnoc(Absorb(p, block[0]), block[1..], line);
      assert (block + [line])[1..] == block[1..] + [line];
    }
  }

  /** Absorbing a block leaves its last path, last HEAD, last branch, and
      whether it says `bare`. */
  lemma {:induction false} AbsorbAllIsLast(p: Pending, block: seq<string>)
    requires forall j :: 0 <= j < |block| ==> block[j] != ""
    ensures AbsorbAll(p, block)
            == Pending(LastPath(block, p.path), LastHead(block, p.head), LastBranch(block, p.branch),
                       p.isBare || "bare" in block)
    decreases |block|
  {
    if |block| > 0 {
      var init := block[..|block| - 1];
      var line := block[|block| - 1];
      assert block == init + [line];
      AbsorbAllSnoc(p, init, line);
      AbsorbAllIsLast(p, init);
      assert ("bare" in block) == ("bare" in init || line == "bare");
    }
  }

  lemma {:induction false} BlocksFromInitial(blocks: seq<seq<string>>, carried: Option<string>)
    requires |blocks| > 0
    requires forall i, j :: 0 <= i < |blocks| && 0 <= j < |blocks[i]| ==> blocks[i][j] != ""
    ensures ParseFromBlocks(Pending(None, None, carried, false), blocks) == ParseBlocks(blocks, carried)
    decreases |blocks|
  {
    var p := Pending(None, None, carried, false);
    AbsorbAllIsLast(p, blocks[0]);
    var q := AbsorbAll(p, blocks[0]);
    if |blocks| == 1 {
      assert blocks[1..] == [];
    } else {
      BlocksFromInitial(blocks[1..], AfterBlank(q).branch);
    }
  }

  /** The line fold agrees with the block reading of the format. */
  lemma ParseIsBlockwise(lines: seq<string>)
    ensures ParsePorcelain(lines) == ParseBlocks(Blocks(lines), None)
  {
    ParseFromIsBlockwise(Start, lines);
    BlocksFromInitial(Blocks(lines), None);
  }

  // ---------------------------------------------------------------- properties of the parser

  /** A blank line at the end adds nothing: the last block is emitted either way. */
  lemma {:induction false} TrailingBlankIsHarmless(p: Pending, lines: seq<string>)
    ensures ParseFrom(p, lines + [""]) == ParseFrom(p, lines)
    decreases |lines|
  {
    if |lines| == 0 {
      assert ParseFrom(p, [""]) == Emit(p) + ParseFrom(AfterBlank(p), []);
    } else {
      TrailingBlankIsHarmless(Step(p, lines[0]).0, lines[1..]);
      assert (lines + [""])[1..] == lines[1..] + [""];
    }
  }

  /** Lines the parser does not recognise change nothing. */
  lemma UnknownLineIgnored(p: Pending, line: string, rest: seq<string>)
    requires Classify(line).OtherLine?
    ensures ParseFrom(p, [line] + rest) == ParseFrom(p, rest)
  {
    assert ([line] + rest)[1..] == rest;
  }

  /** A block followed by a blank line: its record, then the rest. */
  lemma {:induction false} ParseFromBlock(p: Pending, block: seq<string>, rest: seq<string>)
    requires forall j :: 0 <= j < |block| ==> block[j] != ""
    ensures ParseFrom(p, block + [""] + rest)
            == Emit(AbsorbAll(p, block)) + ParseFrom(AfterBlank(AbsorbAll(p, block)), rest)
    decreases |block|
  {
    if |block| == 0 {
      assert block + [""] + rest == [""] + rest;
      assert ([""] + rest)[1..] == rest;
    } else {
      ParseFromBlock(Absorb(p, block[0]), block[1..], rest);
      assert (block + [""] + rest)[1..] == block[1..] + [""] + rest;
    }
  }

  /** The final block, with no blank line after it. */
  lemma {:induction false} ParseFromLastBlock(p: Pending, block: seq<string>)
    requires forall j :: 0 <= j < |block| ==> block[j] != ""
    ensures ParseFrom(p, block) == Emit(AbsorbAll(p, block))
    decreases |block|
  {
    if |block| > 0 {
      ParseFromLastBlock(Absorb(p, block[0]), block[1..]);
    }
  }

  /** A block without a path or HEAD emits nothing, and its branch is carried
      into the next record. */
  lemma BranchCarriesOver(ref: string, path: string, head: string)
    ensures ParsePorcelain(["branch refs/heads/" + ref, "", "worktree " + path, "HEAD " + head])
            == [WorktreeInfo(path, head, Some(ref), false)]
  {
    var b, w, h := "branch refs/heads/" + ref, "worktree " + path, "HEAD " + head;
    var p1 := Start.(branch := Some(ref));
    AbsorbBranchLine(Start, ref);
    assert AbsorbAll(Start, [b]) == p1;
    assert Emit(p1) == [];
    var q := AfterBlank(p1);
    AbsorbPathHead(q, path, head);
    assert [b] + [""] + [w, h] == [b, "", w, h];
    ParseFromBlock(Start, [b], [w, h]);
    ParseFromLastBlock(q, [w, h]);
  }

  lemma AbsorbBranchLine(p: Pending, ref: string)
    ensures AbsorbAll(p, ["branch refs/heads/" + ref]) == p.(branch := Some(ref))
  {
    var b := "branch refs/heads/" + ref;
    assert b == "branch " + ("refs/heads/" + ref);
    ClassifyBranchLine("refs/heads/" + ref);
    assert StripPrefix("refs/heads/" + ref, "refs/heads/") == Some(ref);
    assert [b][1..] == [];
  }

  lemma AbsorbPathHead(p: Pending, path: string, head: string)
    ensures AbsorbAll(p, ["worktree " + path, "HEAD " + head]) == p.(path := Some(path), head := Some(head))
  {
    ClassifyPathLine(path);
    ClassifyHeadLine(head);
    AbsorbAllTwo(p, "worktree " + path, "HEAD " + head);
  }

  /** The three lines git prints for a worktree on a branch. */
  lemma AbsorbBranchEntry(p: Pending, path: string, head: string, name: string)
    ensures AbsorbAll(p, ["worktree " + path, "HEAD " + head, "branch refs/heads/" + name])
            == p.(path := Some(path), head := Some(head), branch := Some(name))
  {
    ClassifyPathLine(path);
    ClassifyHeadLine(head);
    assert "branch refs/heads/" + name == "branch " + ("refs/heads/" + name);
    ClassifyBranchLine("refs/heads/" + name);
    assert StripPrefix("refs/heads/" + name, "refs/heads/") == Some(name);
    AbsorbAllThree(p, "worktree " + path, "HEAD " + head, "branch refs/heads/" + name);
  }

  /** The three lines git prints for the bare repository. */
  lemma AbsorbBareEntry(p: Pending, path: string, head: string)
    ensures AbsorbAll(p, ["worktree " + path, "HEAD " + head, "bare"])
            == p.(path := Some(path), head := Some(head), isBare := true)
  {
    ClassifyPathLine(path);
    ClassifyHeadLine(head);
    ClassifyBareLine();
    AbsorbAllThree(p, "worktree " + path, "HEAD " + head, "bare");
  }

  /** The listing of a bare repository with two worktrees, as git prints it:
      the bare entry first, without a branch. */
  function BareListing(p1: string, h1: string, p2: string, h2: string, n2: string,
                       p3: string, h3: string, n3: string): seq<string>
  {
    ["worktree " + p1, "HEAD " + h1, "bare"] + [""]
    + (["worktree " + p2, "HEAD " + h2, "branch refs/heads/" + n2] + [""]
       + ["worktree " + p3, "HEAD " + h3, "branch refs/heads/" + n3])
  }

  lemma {:induction false} BareAndTwoWorktrees(p1: string, h1: string, p2: string, h2: string, n2: string,
                                               p3: string, h3: string, n3: string)
    ensures ParsePorcelain(BareListing(p1, h1, p2, h2, n2, p3, h3, n3))
            == [WorktreeInfo(p1, h1, None, true), WorktreeInfo(p2, h2, Some(n2), false),
                WorktreeInfo(p3, h3, Some(n3), false)]
  {
    var b1 := ["worktree " + p1, "HEAD " + h1, "bare"];
    var b2 := ["worktree " + p2, "HEAD " + h2, "branch refs/heads/" + n2];
    var b3 := ["worktree " + p3, "HEAD " + h3, "branch refs/heads/" + n3];
    AbsorbBareEntry(Start, p1, h1);
    var q1 := AbsorbAll(Start, b1);
    AbsorbBranchEntry(AfterBlank(q1), p2, h2, n2);
    var q2 := AbsorbAll(AfterBlank(q1), b2);
    AbsorbBranchEntry(AfterBlank(q2), p3, h3, n3);
    ParseFromBlock(Start, b1, b2 + [""] + b3);
    ParseFromBlock(AfterBlank(q1), b2, b3);
    ParseFromLastBlock(AfterBlank(q2), b3);
  }

  // ---------------------------------------------------------------- find_worktree

  /** `Path::file_name`: the last component, ignoring empty and "." components;
      none when that component is ".." or there is no component. */
  function FileName(path: string): (r: Option<string>)
    ensures r.Some? ==> '/' !in r.value && r.value != "" && r.value != "." && r.value != ".."
  {
    var names := Components(Split(path, '/'));
    if |names| == 0 || names[|names| - 1] == ".." then None else Some(names[|names| - 1])
  }

  /** The pieces that name something: not empty, not ".". */
  function Components(pieces: seq<string>): (r: seq<string>)
    requires forall i :: 0 <= i < |pieces| ==> '/' !in pieces[i]
    ensures forall i :: 0 <= i < |r| ==> r[i] != "" && r[i] != "." && '/' !in r[i]
    decreases |pieces|
  {
    if |pieces| == 0 then []
    else if pieces[0] == "" || pieces[0] == "." then Components(pieces[1..])
    else [pieces[0]] + Components(pieces[1..])
  }

  /** The worktree's branch is `name`. */
  predicate MatchesBranch(w: WorktreeInfo, name: string) {
    w.branch == Some(name)
  }

  /** The worktree's directory is called `name`. */
  predicate MatchesDir(w: WorktreeInfo, name: string) {
    FileName(w.path) == Some(name)
  }

  predicate Matches(w: WorktreeInfo, name: string) {
    MatchesBranch(w, name) || MatchesDir(w, name)
  }

  /** The position of the first worktree that matches `name`. */
  function FindIndex(worktrees: seq<WorktreeInfo>, name: string): (r: Option<nat>)
    ensures r.Some? ==> r.value < |worktrees| && Matches(worktrees[r.value], name)
    ensures r.Some? ==> forall j :: 0 <= j < r.value ==> !Matches(worktrees[j], name)
    ensures r.None? <==> forall j :: 0 <= j < |worktrees| ==> !Matches(worktrees[j], name)
    decreases |worktrees|
  {
    if |worktrees| == 0 then None
    else if Matches(worktrees[0], name) then Some(0)
    else
      var rest := FindIndex(worktrees[1..], name);
      assert forall j :: 1 <= j < |worktrees| ==> worktrees[j] == worktrees[1..][j - 1];
      match rest
      case None => None
      case Some(i) => Some(i + 1)
  }

  /** `find_worktree`: the first worktree, in list order, whose branch or
      directory is called `name`. */
  function FindWorktree(worktrees: seq<WorktreeInfo>, name: string): (r: Option<WorktreeInfo>)
    ensures r.Some? ==> r.value in worktrees && Matches(r.value, name)
    ensures r.None? <==> forall j :: 0 <= j < |worktrees| ==> !Matches(worktrees[j], name)
    ensures r.Some? ==> exists i :: 0 <= i < |worktrees| && worktrees[i] == r.value
                                   && forall j :: 0 <= j < i ==> !Matches(worktrees[j], name)
  {
    match FindIndex(worktrees, name)
    case None => None
    case Some(i) => Some(worktrees[i])
  }

  lemma {:induction false} ComponentsSnoc(pieces: seq<string>, last: string)
    requires forall i :: 0 <= i < |pieces| ==> '/' !in pieces[i]
    requires '/' !in last && last != "" && last != "."
    ensures Components(pieces + [last]) == Components(pieces) + [last]
    decreases |pieces|
  {
    if |pieces| == 0 {
      assert Components([last][1..]) == [];
    } else {
      ComponentsSnoc(pieces[1..], last);
      assert (pieces + [last])[1..] == pieces[1..] + [last];
    }
  }

  /** A path whose last component is an ordinary name has that file name. */
  lemma FileNameOfChild(dir: string, name: string)
    requires '/' !in name && name != "" && name != "." && name != ".."
    ensures FileName(dir + "/" + name) == Some(name)
  {
    SplitLast(dir, '/', name);
    assert dir + "/" + name == dir + ['/'] + name;
    ComponentsSnoc(Split(dir, '/'), name);
  }

}
