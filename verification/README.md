# grov core, modelled in Dafny

grov manages git worktrees that sit next to a bare repository. This project
models the parts of grov that decide things; everything that talks to git, the
file system or the terminal is left outside. It covers:

- **The terminal widgets.** `TextInput` is a one-line editor whose cursor is a
  UTF-8 byte offset. `SelectList` is a filterable list with wrap-around
  selection and extra actions after a separator. `Confirm` is a No/Yes toggle.
  `StepBar` is a read-only progress line.
- **Path helpers.** These are branch-name sanitizing, the worktree directory
  beside the bare repository, the project name taken from a clone URL, and one
  path written relative to another.
- **The worktree list.** This is the parser for `git worktree list --porcelain`
  and `find_worktree`.
- **Three commands, each as a pure decision:**
  - `add`: where the worktree goes, and which of the three ways of creating it
    is taken.
  - `remove`: which worktree is picked, which errors stop the command, and the
    order of the git operations.
  - `list`: the compact listing, the entries, the ahead/behind text and the
    padded rows.

Modules, in dependency order:
- `Options` holds Option and Result.
- `Strings` holds the string helpers.
- `Utf8` holds byte lengths and character boundaries.
- `Keys` holds the key events.
- The widget modules, one per widget.
- `Paths`, `Worktree`, then one module per command: `AddCommand`,
  `RemoveCommand` and `ListCommand`.

Each widget's `handle_event` is a function from a state and an event to the
next state and an `Action`. Ctrl+C, which the source handles by exiting the
process with status 130, becomes `Terminate(130)`. Facts a command learns at
run time are parameters:
- whether a path exists;
- whether a worktree is dirty;
- the ahead/behind counts;
- which branches exist;
- whether stdin is a terminal;
- the reply to a prompt.

A path is the sequence of its components. An absolute path starts with the
component "/".

## Model

| member | source | states |
|---|---|---|
| Utf8.CharLen | src/tui/text_input.rs:54 | a character takes 1 to 4 bytes in UTF-8, and exactly 1 when it is ASCII |
| TextInputWidget.New | src/tui/text_input.rs:23-30 | a new input is empty, valid, has its cursor at 0 and no default, and keeps the label it was given |
| TextInputWidget.WithDefault | src/tui/text_input.rs:32-35 | setting a default changes neither the value nor the cursor |
| TextInputWidget.WithInitial | src/tui/text_input.rs:37-42 | an initial value puts the cursor after its last character, at its byte length |
| TextInputWidget.ResultText | src/tui/text_input.rs:44-50 | the result is the typed value when there is one, else the default; it is empty exactly when both are empty |
| TextInputWidget.InsertChar | src/tui/text_input.rs:52-55 | the character goes in at the cursor's character position; the cursor moves past it by its UTF-8 length |
| TextInputWidget.DeleteChar | src/tui/text_input.rs:57-67 | Backspace removes the character before the cursor and moves back by that character's byte length; it does nothing at the start |
| TextInputWidget.DeleteForward | src/tui/text_input.rs:69-73 | Delete removes the character under the cursor and keeps the cursor; it does nothing at the end |
| TextInputWidget.MoveLeft | src/tui/text_input.rs:75-84 | the cursor moves one character left, staying on a character boundary; nothing happens at the start |
| TextInputWidget.MoveRight | src/tui/text_input.rs:86-95 | the cursor moves one character right, staying on a character boundary; nothing happens at the end |
| TextInputWidget.MoveHome | src/tui/text_input.rs:97-99 | the cursor goes before the first character |
| TextInputWidget.MoveEnd | src/tui/text_input.rs:101-103 | the cursor goes after the last character |
| TextInputWidget.HandleEvent | src/tui/text_input.rs:105-127 | Ctrl+C terminates with 130, Enter submits the result, Esc cancels and a character is inserted; Backspace deletes before the cursor, Delete deletes after it, Left/Right/Home/End move the cursor; the value changes only for a character, Backspace or Delete; other events change nothing |
| TextInputWidget.CursorColumn | src/tui/text_input.rs:165-167 | the screen column is 4 plus the number of characters before the cursor |
| TextInputWidget.InsertThenDelete | src/tui/text_input.rs:52-67 | Backspace right after typing a character restores the input exactly |
| TextInputWidget.MoveRightThenLeft | src/tui/text_input.rs:75-95 | away from the end, Right then Left returns to the same input |
| TextInputWidget.MoveLeftThenRight | src/tui/text_input.rs:75-95 | away from the start, Left then Right returns to the same input |
| TextInputWidget.DeleteForwardIsRightThenBackspace | src/tui/text_input.rs:57-95 | away from the end, Delete equals moving right and then Backspace |
| TextInputWidget.TypeOne | src/tui/text_input.rs:105-124 | with the cursor at the end, a typed character is appended and the cursor stays at the end |
| TextInputWidget.TypingAppends | src/tui/text_input.rs:105-124 | with the cursor at the end, typing a string appends it, keeps the cursor at the end and never ends the widget |
| TextInputWidget.TypeThenSubmit | src/tui/text_input.rs:219-230 | typing into a fresh input with a default and pressing Enter submits what was typed, or the default when nothing was |
| SelectListWidget.FilterIndices | src/tui/select_list.rs:53-69 | the filtered indices are strictly increasing, and an index is in them exactly when its item contains the filter, ignoring ASCII case |
| SelectListWidget.EmptyFilterKeepsAll | src/tui/select_list.rs:33-47 | the empty filter keeps every item, in order |
| SelectListWidget.New | src/tui/select_list.rs:33-47 | a new list shows every item, and selects the first entry exactly when there is one |
| SelectListWidget.UpdateFilter | src/tui/select_list.rs:53-69 | refiltering keeps the items and extras, and the selection is on the first visible entry or none |
| SelectListWidget.Pop | src/tui/select_list.rs:117-119 | Backspace drops the last filter character; an empty filter stays empty |
| SelectListWidget.MoveUp | src/tui/select_list.rs:71-79 | Up selects the previous visible entry and wraps from the first to the last; with nothing visible nothing changes |
| SelectListWidget.MoveDown | src/tui/select_list.rs:81-89 | Down selects the next visible entry and wraps from the last to the first; with nothing visible nothing changes |
| SelectListWidget.HandleEvent | src/tui/select_list.rs:91-129 | Enter selects the highlighted item, given by its original index, or else the extra; Esc cancels and Up/Down move; a character or Backspace refilters; the list stays valid |
| SelectListWidget.Rows | src/tui/select_list.rs:159-178 | the rendered rows are the visible entries plus one separator row when both items and extras are visible |
| SelectListWidget.RowAt | src/tui/select_list.rs:159-178 | row k is the k-th filtered item, then the separator, then the extras in order |
| SelectListWidget.VisualSelection | src/tui/select_list.rs:181-196 | the highlighted row skips the separator and shows the selected entry; there is none exactly when nothing is selected |
| SelectListWidget.MoveDownThenUp | src/tui/select_list.rs:71-89 | Down then Up restores the list |
| SelectListWidget.MoveUpThenDown | src/tui/select_list.rs:71-89 | Up then Down restores the list |
| SelectListWidget.EnterPicksHighlightedRow | src/tui/select_list.rs:100-113 | Enter yields exactly the entry the highlighted row shows |
| SelectListWidget.UnmatchedFilter | src/tui/select_list.rs:53-69 | a filter no item contains leaves only the extras, with the first extra selected if there is one |
| SelectListWidget.TypeThenErase | src/tui/select_list.rs:117-124 | typing a character and erasing it restores the filter and its matches, and selects the first entry |
| ConfirmWidget.New | src/tui/confirm.rs:21-26 | a new confirm starts on No |
| ConfirmWidget.HandleEvent | src/tui/confirm.rs:28-48 | y/Y and Enter-on-Yes confirm true, n/N and Enter-on-No confirm false, Esc cancels and a toggle key flips the choice; any outcome other than Continue leaves the state unchanged |
| ConfirmWidget.NoButton | src/tui/confirm.rs:65-72 | the No button shows "No" and is bracketed exactly when No is selected |
| ConfirmWidget.YesButton | src/tui/confirm.rs:65-72 | the Yes button shows "Yes" and is bracketed exactly when Yes is selected |
| ConfirmWidget.ButtonTexts | src/tui/confirm.rs:65-72 | exactly one of the two buttons is bracketed, and it is the selected one |
| ConfirmWidget.ToggleTwice | src/tui/confirm.rs:41-43 | two toggles restore the choice |
| ConfirmWidget.EnterAfterToggle | src/tui/confirm.rs:37-43 | Enter after one toggle confirms the opposite of the starting choice |
| ConfirmWidget.FreshEnterIsNo | src/tui/confirm.rs:119-123 | Enter on a fresh confirm answers No |
| StepBarWidget.Classify | src/tui/step_bar.rs:26-33 | a step before the current one is completed, the current one is active and later ones are pending |
| StepBarWidget.Render | src/tui/step_bar.rs:18-39 | the bar starts with the lead span |
| StepBarWidget.StepSpansViews | src/tui/step_bar.rs:22-35 | one step shows its name once, styled by its status, with a separator unless it is first, a dot when active and a check when completed |
| StepBarWidget.RenderShowsEveryLabel | src/tui/step_bar.rs:18-39 | the bar shows every step name, in order, each styled by its status |
| StepBarWidget.RenderCounts | src/tui/step_bar.rs:18-39 | there is one separator fewer than steps, one dot when the current step exists, and one check per completed step |
| Paths.ReplaceSlashes | src/paths.rs:6 | every '/' becomes '-' and every other character is kept |
| Paths.CollapseDashes | src/paths.rs:11-14 | after collapsing, no "--" is left and no new character appears |
| Paths.TrimDashes | src/paths.rs:17 | the trimmed text is no longer than the input and neither starts nor ends with '-' |
| Paths.TrimDashesSlice | src/paths.rs:17 | the trimmed text is a slice of the input, and everything cut off before or after it is '-' |
| Paths.SanitizeBranchName | src/paths.rs:5-24 | a sanitized name is never empty, has no '/', no "--", and no leading or trailing '-' |
| Paths.CollapseDashesIsSingleScan | src/paths.rs:11-14 | the repeated replace loop equals one scan that keeps only the first dash of each run |
| Paths.SanitizeKeepsCleanName | src/paths.rs:101-103 | a name that is already clean comes back unchanged |
| Paths.SanitizeNestedBranch | src/paths.rs:106-108 | "group/name" becomes "group-name" when neither segment has a slash, a doubled dash or a dash at its ends |
| Paths.SanitizeDashedName | src/paths.rs:105-107 | a dash inside the last segment stays: "group/a-b" becomes "group-a-b", as "feature/my-thing" becomes "feature-my-thing" |
| Paths.SanitizeDropsLeadingDots | src/paths.rs:111-113 | any number of leading dots is dropped from a clean name |
| Paths.SanitizeDoubledSlash | src/paths.rs:116-118 | "a//b" of plain words becomes "a-b" |
| Paths.SanitizeDegenerate | src/paths.rs:19-21 | a name made only of dots then slashes falls back to "branch" |
| Paths.SanitizeSlashDot | src/paths.rs:5-24 | "/." followed by a plain word keeps its dot: the dash left by the slash shields it from the dot trim |
| Paths.WorktreeDir | src/paths.rs:30-41 | the worktree is a sibling of the bare repository, named by the sanitized branch and prefixed by "prefix_" when a prefix is set |
| Paths.WorktreeDirOfNestedBranch | src/paths.rs:120-136 | a "group/name" branch lands in "group-name", or in "prefix_group-name", beside the bare repository |
| Paths.LastSegment | src/paths.rs:45-49 | the segment is the suffix after the last '/' and contains no '/' |
| Paths.RepoNameFromUrl | src/paths.rs:44-52 | the project name contains no '/' and is no longer than the URL |
| Paths.RepoNameOfUrl | src/paths.rs:138-165 | for any host, a last segment "name" with or without ".git" and any trailing slashes gives "name" |
| Paths.RepoNameCanBeEmpty | src/paths.rs:44-52 | a URL of slashes only, or one ending in "/.git", gives the empty name; the "repo" fallback is never reached |
| Paths.CommonPrefixLen | src/paths.rs:60-73 | the shared count is the length of the longest common leading run of components |
| Paths.RelativeFrom | src/paths.rs:59-94 | with no shared component the target comes back as is; for equal paths it is "."; otherwise it is one ".." per unshared component of the base followed by the unshared tail of the target |
| Paths.RelativeFromResolves | src/paths.rs:54-94 | for absolute paths without "." or "..", following the relative path from the base reaches the target |
| Paths.RelativeFromSame | src/paths.rs:167-173 | a path relative to itself is "." |
| Paths.RelativeFromChild | src/paths.rs:175-181 | a child is reached by its last component |
| Paths.RelativeFromSibling | src/paths.rs:183-189 | a sibling is "../name" |
| Paths.RelativeFromNested | src/paths.rs:191-197 | a deeper target below a different branch climbs out first and then descends |
| Paths.RelativeFromParent | src/paths.rs:199-205 | an ancestor is reached by ".." steps only |
| Worktree.Lines | src/git/worktree.rs:23 | output lines contain no newline |
| Worktree.LinesOfTerminatedText | src/git/worktree.rs:23 | newline-terminated text splits back into exactly the lines that were joined |
| Worktree.BranchName | src/git/worktree.rs:28-31 | "refs/heads/" is stripped when present, and otherwise the ref is kept whole |
| Worktree.Classify | src/git/worktree.rs:24-34 | the prefix tests run in the source's order: "worktree ", then "HEAD ", then "branch ", then "bare" and the blank line |
| Worktree.Emit | src/git/worktree.rs:35-42 | a record is emitted exactly when both a path and a HEAD were seen |
| Worktree.AfterBlank | src/git/worktree.rs:34-44 | a blank line clears the path, HEAD and bare flag; it clears the branch only when a record was emitted |
| Worktree.Absorb | src/git/worktree.rs:24-33 | each kind of line sets its own field only, and an unknown line changes nothing |
| Worktree.Step | src/git/worktree.rs:23-45 | a blank line emits and resets; any other line is absorbed and emits nothing |
| Worktree.ParseIsBlockwise | src/git/worktree.rs:15-58 | the line-by-line parse equals parsing the blank-separated blocks, each block giving at most one record |
| Worktree.TrailingBlankIsHarmless | src/git/worktree.rs:47-55 | a final blank line gives the same records as ending without one |
| Worktree.UnknownLineIgnored | src/git/worktree.rs:23-45 | a line of unknown kind does not affect the result |
| Worktree.BranchCarriesOver | src/git/worktree.rs:34-44 | a branch line in a block without path and HEAD carries over to the next record |
| Worktree.BareAndTwoWorktrees | src/git/worktree.rs:139-200 | a bare entry followed by two branch worktrees parses to three records: bare without a branch, then the two branches |
| Worktree.FileName | src/git/worktree.rs:126 | a file name, when there is one, has no '/' and is neither empty, "." nor ".." |
| Worktree.FileNameOfChild | src/git/worktree.rs:126 | the file name of "dir/name" is "name" |
| Worktree.FindIndex | src/git/worktree.rs:117-133 | the index found is the first worktree matching by branch or directory; none exactly when nothing matches |
| Worktree.FindWorktree | src/git/worktree.rs:117-133 | the worktree found is a member of the list that matches; none exactly when nothing matches |
| AddCommand.ResolveBaseBranch | src/commands/add.rs:19-33 | an explicit base is used exactly when given; otherwise a terminal gets a prompt offering the current branch, and no terminal is an error |
| AddCommand.ResolveBaseBranchExamples | src/commands/add.rs:122-170 | the six combinations of flag, current branch and terminal resolve as the tests expect |
| AddCommand.Target | src/commands/add.rs:48-52 | the custom path wins; otherwise it is the worktree directory beside the bare repository |
| AddCommand.NewBranchBase | src/commands/add.rs:72-107 | the flag wins; no terminal is BaseRequired; a non-empty reply wins; an empty reply takes the current branch, then the repository default; DefaultBranchUnknown when neither exists |
| AddCommand.PlanAdd | src/commands/add.rs:35-116 | an existing target is refused; otherwise a local branch is checked out, a remote one is tracked, or a new branch starts from the resolved base |
| AddCommand.PlanChecksOutBranch | src/commands/add.rs:59-107 | whichever way it is created, the new worktree is on the requested branch |
| AddCommand.ExistingBranchNeedsNoBase | src/commands/add.rs:61-71 | an existing local or remote branch is added without consulting the flag, terminal or prompt |
| AddCommand.EmptyAnswerTakesDefault | src/commands/add.rs:82-100 | an empty prompt reply takes the current branch, or else the repository default |
| AddCommand.RemoteBranchArgs | src/commands/add.rs:64-71 | a remote-only branch runs `git worktree add --track -b <branch> <path> origin/<branch>` |
| RemoveCommand.Filter | src/commands/remove.rs:21-30 | every candidate is a worktree the match mode selects, and every selected worktree is a candidate |
| RemoveCommand.FilterConcat | src/commands/remove.rs:21-30 | filtering a list is filtering its parts one after the other, so the candidates keep list order |
| RemoveCommand.PlanRemove | src/commands/remove.rs:11-84 | NotFound exactly when nothing is selected, Ambiguous exactly when two are; otherwise a non-bare, clean (or forced) pick is removed, and its branch is deleted second when asked and present |
| RemoveCommand.FilterTwo | src/commands/remove.rs:35 | at least two candidates exactly when two different positions are selected |
| RemoveCommand.Attempted | src/commands/remove.rs:66-75 | operations run in order and stop at the first failure |
| RemoveCommand.AutoPickIsFindWorktree | src/commands/remove.rs:24-26 | the first Auto candidate is the worktree find_worktree returns |
| RemoveCommand.AutoIsUnion | src/commands/remove.rs:23-29 | Auto selects exactly the worktrees that Branch or Dir selects |
| RemoveCommand.ForceSkipsDirtyCheck | src/commands/remove.rs:58-61 | with --force, a unique non-bare pick is removed whatever the dirty check says |
| RemoveCommand.DirtyStopsRemoval | src/commands/remove.rs:58-61 | without --force, only a check that reports changes stops the command; a failed check counts as clean |
| RemoveCommand.BareIsRefused | src/commands/remove.rs:54-56 | the bare entry is never removed |
| RemoveCommand.BranchDeletedAfterRemoval | src/commands/remove.rs:66-81 | the branch is deleted only when asked for and after the worktree removal succeeded |
| ListCommand.FormatAheadBehind | src/commands/list.rs:117-135 | the text is empty exactly for no counts or zero counts, and otherwise starts with two spaces |
| ListCommand.AheadBehindRoundTrip | src/commands/list.rs:117-135 | the text reads back to the counts it was made from |
| ListCommand.FormatAheadBehindExamples | src/commands/list.rs:117-135 | none and zero give "", and one nonzero count gives "  ↑n" or "  ↓n" |
| ListCommand.FormatBothCounts | src/commands/list.rs:117-135 | both counts are shown ahead first, separated by one space |
| ListCommand.Compact | src/commands/list.rs:22-32 | the compact listing is empty exactly when no non-bare worktree has a branch |
| ListCommand.CompactContents | src/commands/list.rs:22-32 | a name is printed exactly when it is the branch of a non-bare worktree |
| ListCommand.CompactConcat | src/commands/list.rs:22-32 | the compact listing treats each worktree independently and keeps list order |
| ListCommand.StatusOf | src/commands/list.rs:49-57 | missing exactly when the path is gone, unknown exactly when the dirty check fails, dirty or clean exactly as the check says otherwise |
| ListCommand.MakeEntry | src/commands/list.rs:38-69 | a detached worktree shows "(detached)"; the status is the probe's; the counts are the probe's exactly when the path is present and the dirty check worked, and absent otherwise; the directory name is the path's file name or "" |
| ListCommand.EntriesKeepAll | src/commands/list.rs:35-71 | every worktree gets an entry exactly when none is bare |
| ListCommand.EntriesContents | src/commands/list.rs:35-71 | the entries are exactly those of the non-bare worktrees |
| ListCommand.EntriesConcat | src/commands/list.rs:35-71 | entries are made per worktree and keep list order |
| ListCommand.MaxOf | src/commands/list.rs:79 | the width is at least every length and is one of them, or 0 for none |
| ListCommand.PadBytes | src/commands/list.rs:106-109 | as written: the name followed by spaces only, bringing it to the width in bytes and never shortening it |
| ListCommand.BytePaddingAlignsBytes | src/commands/list.rs:79-109 | as written, the padded names all have the same byte length |
| ListCommand.BytePaddingMisaligns | src/commands/list.rs:79-109 | as written, "fé" and "ab" pad to 2 and 3 characters, so their columns differ |
| ListCommand.CharPaddingAligns | src/commands/list.rs:79-109 | padding by characters makes every name exactly as wide as the widest, the name followed by spaces only |
| ListCommand.Listing | src/commands/list.rs:14-115 | corrected: compact prints the compact listing; otherwise "No worktrees found." or one row per entry, padded by characters |
| ListCommand.ListingAsWritten | src/commands/list.rs:14-115 | as written: the same three outcomes, with the width and padding counted in bytes |
| ListCommand.AsciiListingsAgree | src/commands/list.rs:79-109 | when every branch name is ASCII the listing as written is the corrected listing |
| Utf8.AsciiByteLen | src/commands/list.rs:79 | a string has at least as many bytes as characters, and exactly as many precisely when it is ASCII |
| ListCommand.RowLayout | src/commands/list.rs:111 | a row has the marker at column 2, the branch from column 4, and the status from column 6 plus the width |
| ListCommand.ListingColumnsAlign | src/commands/list.rs:79-112 | in the corrected full listing every row has its marker, branch and status at the same columns |

## Left out

- Terminal setup, raw mode, the event loop and the crash hook (`src/tui/terminal.rs`) are outside the model. Widgets receive events as values.
- Rendering geometry, colours and styles are left out. Only the text and order of what is drawn is modelled: SelectList's rows, Confirm's buttons, StepBar's spans and list's rows. The SelectList view height clipping is left out too.
- TextInputWidget.HandleEvent: Ctrl+C exits the process with status 130. The model returns `Terminate(130)` instead.
- SelectListWidget.FilterIndices: `to_lowercase` is modelled on ASCII letters only. Unicode case mapping is left out.
- TextInputWidget.CursorColumn: the source casts the column to `u16`. The model's column is an unbounded integer, so truncation past 65535 is not modelled.
- ListCommand.FormatAheadBehind: counts are naturals. The `u32` bound of the source is not modelled because formatting never overflows.
- The git invocations, file-system checks and prompt I/O are inputs, not operations. These are: existence checks, `is_dirty`, `ahead_behind`, branch lookups, `default_branch`, canonicalization and reading the prompt reply. Their errors appear only where the command reacts to them: a failing dirty check counts as clean in `remove`, and as Unknown in `list`. I/O errors that the commands just propagate with `?` are left out. So are the messages they print: success lines, the fetch warning, and the candidate text of the ambiguous-match error.
- AddCommand.PlanAdd: the source fetches from origin before it looks for the remote branch. A failing fetch only prints a warning, so the fetch is left out and the remote-branch lookup is an input.
- AddCommand.NewBranchBase: the prompt reply arrives already trimmed, as the prompt in `src/ui.rs:5-19` returns it.
- `add_worktree`, `remove_worktree` and `delete_branch` are not modelled as operations. The model stops at the argument list or the operation it would run: `GitArgs`, `GitOp`.
- `matches_branch_name`, `matches_dir_name` and `worktree_dir_name` are imported by `src/commands/remove.rs` but are not part of this model. The `src/git/worktree.rs` modelled here does not define them. They are modelled by the two tests inside `find_worktree`: branch equality and file-name equality.
- Paths.WorktreeDir: the directory name is always kept as one component. In the code a prefix containing '/' makes the joined name span several components, and a prefix starting with '/' makes it absolute, so `Path::join` drops the parent altogether.
- Paths.RelativeFrom: components are compared as whole strings. Windows prefixes, "." or ".." inside the inputs, and symbolic links are not modelled.
- ListCommand.MakeEntry: whether a worktree is the current one comes from comparing canonical paths, which is an input here.
- ListCommand.CharPaddingAligns: wide characters (two terminal columns) are counted as one column.
- ListCommand.Listing: pads branch names by characters, the corrected behaviour. The code pads by bytes; that is `ListCommand.ListingAsWritten`, and the two agree when every branch name is ASCII.
- ListCommand.ListingColumnsAlign: states the column alignment of the corrected listing only. With non-ASCII branch names the listing as written does not align (see Findings).
- The wizards in `src/commands/init.rs` and the interactive add and remove pickers are not part of this model. The same holds for the configuration file (`src/config.rs`) and the completions.

## Findings

| source | as written | input that shows it | evidently intended | confidence | as-written member | corrected member |
|---|---|---|---|---|---|---|
| src/commands/list.rs:79-109 | the branch column width and padding count UTF-8 bytes (`str::len`) | branches "fé" and "ab": width 3, so "fé" gets no padding (2 columns) and "ab" gets one space (3 columns) | pad by characters so every status starts in the same column | medium, not executed | ListCommand.BytePaddingMisaligns | ListCommand.CharPaddingAligns |

`ListCommand.Row` and `ListCommand.Listing` use the corrected padding (`PadChars`, `CharWidth`). `ListCommand.PadBytes`, `ListCommand.RowAsWritten`, `ListCommand.ListingAsWritten` and `ListCommand.BytePaddingAlignsBytes` keep the code as written.

Two more behaviours are modelled as written and proved above:
- `repo_name_from_url` can return the empty name, so its "repo" fallback is dead code (`Paths.RepoNameCanBeEmpty`).
- A `branch` line in a block without path and HEAD is carried into the next record (`Worktree.BranchCarriesOver`).
