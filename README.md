# rmrf, modelled in Dafny

`rmrf` deletes a directory tree, or only the subdirectories with given names
below a starting directory. While it deletes, it shows a one-line progress bar
on the terminal and redraws only the glyphs that changed. This project models
the program's single source file, `Program.cs`, as five modules:

- `Args` covers the command line (`TryParse`). A two-stage specification,
  `Tokenize` then `ApplyAll`, states what the index-driven loop computes.
- `DirTree` covers target selection and flattening. `GetTargets` and
  `CollectIncludes` choose the targets. `FlattenTargets` and `CollectInner`
  list every directory of every target, each after everything below it.
  The filesystem is an immutable tree `Dir(name, children)`, and a path is
  the list of its components. The methods append to a `PathList` class, as the C# code
  appends to a shared `List<string>`.
- `ProgressBar` covers the `Bar` class and its drawing: `CreateBar`,
  `DrawInitial`, `MoveDelta`, `DrawComplete`, `Recover` and `CountProgress`.
  The output stream is a `Terminal.Stream` object whose `written` field
  collects the tokens written to it. There are two kinds of token:
  - `Esc(code)`, which is `ESC [` followed by `code`;
  - `Text(text)`.
  Terminal semantics (`Terminal.Run`) interpret the tokens as cursor moves
  and cell writes on a `Screen`. The layout function `Cell` gives the glyph
  or character each column of the line must show. The drawing methods are
  proved against that layout.
- `Rmrf` covers the deletion loop of `Main`, and `Main` itself as
  `Execute`. A `Disk` object stands for the filesystem operations:
  - it records the paths handed to `DeleteDirectory`, and the ones that
    the call's own final `Directory.Delete(path)` (`Program.cs:75`)
    removed;
  - it holds the text of the working directory, which the guard at
    `Program.cs:73` compares with the text of each path, spelled as
    `Directory.GetDirectories` spells it (`PathText`);
  - it is given, as data, which paths fail and with what error text.
- `Strings` and `Wrappers` hold the string helpers (`PadLeft`,
  `Split`, decimal text) and `Option`.

The main results are these:

- The parser accepts exactly the tokenisable argument lists. A later flag
  overrides an earlier one. A dangling value flag or an unknown argument is
  rejected.
- The whole flattened list of a run holds each directory of each target's
  subtree exactly once, and every directory comes after all of its
  descendants, across the targets as well as within each. This holds
  because no selected target lies under another. Each target comes last in
  its own subtree.
- The targets are exactly the included directories, reached through
  directories that are neither included nor excluded. The starting path is
  never a target, and at every level the included children come before
  anything found deeper down.
- `MoveDelta` writes nothing when nothing changed. On every forward move
  (the fill index does not decrease, as in `Main`) it turns a line that
  shows one bar state into a line that shows the next state. It touches
  nothing to the right of the percentage: not the `%` cell, the cursor
  visibility or the colour. A backward move is not covered: it leaves the
  old fillers on the line.
- The guard of `DeleteDirectory` keeps every path whose text is the working
  directory: no run records such a path as removed at `Program.cs:75`.
- The deletion loop stops at the first failure and has attempted exactly the
  paths up to it. The count of deleted directories is the index of that first
  failure. The line ends showing the full bar only when every deletion
  succeeded. After the verdict the cursor is visible and the colour is reset.

## Model

| member | source | states |
|---|---|---|
| Terminal.OutEsc | Program.cs:292-296 | one escape token (the `ESC [` prefix and the code) is appended to the stream and nothing else changes |
| Terminal.OutText | Program.cs:298-301 | the text is appended to the stream as one token |
| Terminal.CursorToColumn | Program.cs:262-265 | the escape written as `<n>G` is read back by the terminal as a move to column `n` |
| Strings.PadLeft | Program.cs:284 | the result is `width` long (or the input when longer), ends with the input and is filled with the pad character before it |
| Strings.IntToString | Program.cs:284 | the decimal text of an integer is non-empty, all digits exactly when the integer is non-negative, and at most three characters below 1000 |
| Strings.ParseNatToString | Program.cs:284 | reading the decimal text of `n` back gives `n` |
| Strings.Split | Program.cs:186 | splitting on `,` gives at least one piece and no piece contains a comma |
| Strings.JoinSplit | Program.cs:186 | joining the pieces of a split with commas gives back the original text |
| Strings.SplitJoin | Program.cs:192 | splitting a comma-joined list of comma-free names gives back the list |
| Args.TryParse | Program.cs:170-210 | the loop succeeds exactly when the arguments tokenise, and then returns the settings the options give when applied in order to the defaults |
| Args.ParseEmpty | Program.cs:172-174 | no arguments give success with the current directory as path, no lists and animation on |
| Args.TokenizeAppend | Program.cs:175-208 | reading a well-formed prefix and then the rest gives the prefix's options followed by the rest's |
| Args.LaterFlagWins | Program.cs:177-194 | `-p`, `-i` or `-e` with a value appended to accepted arguments is accepted, and overrides only that setting, with the lists split on commas |
| Args.NoAnimationFlag | Program.cs:195-198 | `-na` appended to accepted arguments sets `NoAnimation` and changes nothing else |
| Args.DanglingFlagRejected | Program.cs:177-206 | a value flag as the last argument makes the parse fail |
| Args.UnknownArgumentRejected | Program.cs:199-206 | an argument that is not one of the four flags makes the parse fail, whatever follows |
| ProgressBar.CreateBar | Program.cs:101-108 | a fresh bar 30 cells wide at index 0 and 0% |
| ProgressBar.CountProgress | Program.cs:87-91 | for `0 <= current <= total` and a bar at least one cell wide, the percentage lies in 0..100 and the fill index in 0..Width-1 |
| ProgressBar.CountProgressFloors | Program.cs:87-91 | the percentage is the floor of `100 * current / total` and the fill index is the floor of `(Width - 1) * current / total` |
| ProgressBar.CountProgressRange | Program.cs:87-91 | for `0 <= c1 <= c2 <= total`, both components lie in 0..100 and 0..Width-1 and do not decrease, `0` gives (0, 0) and `total` gives (100, Width-1) |
| ProgressBar.PctText | Program.cs:284 | the percentage text is three characters for 0..100 |
| ProgressBar.DrawInitial | Program.cs:212-223 | writes the cursor-hide escape, a move to column 1, the begin glyph, `Width` space glyphs, the finish glyph and `   0%` |
| ProgressBar.RunInitialTokens | Program.cs:212-223 | on the terminal the initial writes hide the cursor and put the four texts side by side from column 1 |
| ProgressBar.InitialLayout | Program.cs:216-222 | those four texts lay out exactly the line of the layout for index 0 and 0% |
| ProgressBar.DrawInitialShows | Program.cs:212-223 | after the initial drawing the line shows the empty bar at 0%, the cursor is hidden and the colour untouched |
| ProgressBar.MoveDelta | Program.cs:252-290 | the bar takes the new index and percentage, keeps its width, and exactly the delta writes for old to new state are appended |
| ProgressBar.DrawBarSegment | Program.cs:258-280 | writes the bar segment: the filled begin glyph at column 1 from index 0, a move to column `2 + Ind`, one filler per step and the head, or a filler and the filled finish glyph on the last index |
| ProgressBar.DrawPct | Program.cs:281-286 | writes a move to column `4 + Width` and the percentage padded on the left to three characters |
| ProgressBar.DeltaTokensWrites | Program.cs:254-286 | nothing is written exactly when index and percentage are unchanged; the filled begin glyph is written exactly on a move away from index 0; the filled finish glyph exactly when the index moves to the last cell |
| ProgressBar.BarTokensGlyphs | Program.cs:258-280 | a bar segment is never empty, holds the filled begin glyph exactly when it starts at index 0 and the filled finish glyph exactly when it ends on the last index |
| ProgressBar.PctTokensPlain | Program.cs:281-286 | the percentage writes are empty exactly when the percentage is unchanged and never hold a bar glyph |
| ProgressBar.RunBarTokens | Program.cs:258-280 | on the terminal the segment puts the filled begin glyph at column 1 (from index 0) and then fillers and the tail from column `2 + Ind` |
| ProgressBar.BarStepShows | Program.cs:258-280 | a segment from a smaller to a larger index turns the line for the old index into the line for the new one and touches nothing outside the bar |
| ProgressBar.CellPct | Program.cs:222 | the percentage occupies exactly the three columns `Width + 4` to `Width + 6` of the line |
| ProgressBar.PctStepShows | Program.cs:281-286 | redrawing the percentage turns the line for the old percentage into the line for the new one and touches only those three columns, never the `%` cell |
| ProgressBar.MoveDeltaShows | Program.cs:252-290 | for a non-decreasing index in the bar and a percentage in 0..100, the delta writes turn the line for the old state into the line for the new one; nothing right of the percentage, nor cursor visibility nor colour, changes |
| ProgressBar.DrawComplete | Program.cs:225-244 | writes the colour reset, a line break, the verdict in green or red, the colour reset, the error text on its own line when there is one, and the cursor-show escape |
| ProgressBar.VerdictSays | Program.cs:229-236 | "Over" is written exactly on success, "Failed" exactly on failure |
| ProgressBar.ErrorKeepsColour | Program.cs:238-242 | writing the error text leaves the colour as it was |
| ProgressBar.CompleteRestores | Program.cs:225-244 | after the verdict the cursor is visible and the colour is the default |
| ProgressBar.Recover | Program.cs:246-250 | writes the colour reset and the cursor-show escape |
| ProgressBar.RecoverRestores | Program.cs:246-250 | after recovery the cursor is visible, the colour is the default and no cell of the line changed |
| DirTree.PathList.Add | Program.cs:127 | the path is appended to the list |
| DirTree.CollectInner | Program.cs:120-128 | appends the post-order listing of the subtree at `p` |
| DirTree.PostOrderSize | Program.cs:120-128 | the listing of a subtree has one entry per directory in it |
| DirTree.PostOrderUnder | Program.cs:120-128 | every entry lies under `p`, and `p` itself comes last |
| DirTree.PostOrderMember | Program.cs:120-128 | a path is listed exactly when it names a directory of the subtree |
| DirTree.PostOrderOrder | Program.cs:120-128 | every directory is listed after all of its descendants |
| DirTree.PostOrderAllSize | Program.cs:123-126 | the listings of the children together have one entry per directory below the parent |
| DirTree.PostOrderAllUnder | Program.cs:123-126 | every entry of the children's listings lies strictly under the parent, below one of its children |
| DirTree.PostOrderAllMember | Program.cs:123-126 | a path is in the children's listings exactly when it names a directory below one of the children |
| DirTree.PostOrderAllOrder | Program.cs:123-126 | across the children's listings every directory still comes after all of its descendants |
| DirTree.FlattenTargets | Program.cs:110-118 | succeeds exactly when every target exists, and then lists the targets' subtrees in post-order, target after target |
| DirTree.FlattenAppend | Program.cs:113-116 | the listing of two runs of targets is the listing of the first followed by that of the second |
| DirTree.GetTargets | Program.cs:130-142 | without an include list the result is exactly the starting path, otherwise the selection `CollectIncludes` makes below it |
| DirTree.CollectIncludes | Program.cs:144-168 | appends the included children of `d`, in listing order, and then the selection below each explorable child in turn |
| DirTree.MatchingMember | Program.cs:148-154 | the first loop adds exactly the paths of the children whose name is in the include list, whatever the exclude list says |
| DirTree.ChildNamedToExplore | Program.cs:155-162 | a child is looked inside exactly when its name is neither included nor excluded |
| DirTree.IncludesMember | Program.cs:144-168 | a path is selected exactly when it names an included directory reached only through directories neither included nor excluded |
| DirTree.ExploreAllMember | Program.cs:164-167 | the second loop selects exactly the targets below the explored children |
| DirTree.IncludesDepth | Program.cs:144-168 | every selected path lies strictly below the starting path |
| DirTree.IncludesOrder | Program.cs:144-168 | the starting path is never selected, and the included children come before everything found deeper down |
| DirTree.TargetFound | Program.cs:144-168 | a selected path names an existing directory of the tree |
| DirTree.TargetsFound | Program.cs:130-142 | every path `GetTargets` returns exists, so flattening them cannot fail |
| DirTree.PathText | Program.cs:122 | the text of a path begins with the text of the starting path it was reached from |
| DirTree.TargetPrefix | Program.cs:148-167 | of two targets neither lies strictly below the other: an included directory is taken and never looked inside |
| DirTree.MatchingNoRepeats | Program.cs:148-154 | the first loop adds each included child once |
| DirTree.IncludesNoRepeats | Program.cs:144-168 | the selection holds no path twice |
| DirTree.ExploreAllNoRepeats | Program.cs:164-167 | what the explored children yield together holds no path twice |
| DirTree.IncludesApart | Program.cs:144-168 | no selected path lies under, or equals, another selected path |
| DirTree.FlattenSize | Program.cs:110-118 | the whole listing has one entry per directory of each target's subtree |
| DirTree.FlattenUnder | Program.cs:110-118 | every entry of the listing lies under one of the targets |
| DirTree.FlattenOrder | Program.cs:110-118 | for targets that lie apart, across the whole listing every directory comes after all of its descendants and no path repeats |
| DirTree.TargetsListing | Program.cs:33 | for the targets `GetTargets` returns, the listing `FlattenTargets` builds has one entry per directory of their subtrees, repeats none, and puts every directory after all of its descendants |
| Rmrf.Disk.DeleteDirectory | Program.cs:60-85 | the attempt is recorded; it fails exactly when the path fails, with its error text; on success the call's own final delete removes the path unless its text, as `GetDirectories` spells it, is the working directory's |
| Rmrf.FirstFailure | Program.cs:46-50 | the index of the first failing path: every earlier path succeeds and the path at it fails, or it is the length when none fails |
| Rmrf.KeepsWorkingDirectory | Program.cs:73-76 | adding the removals of a run to the record adds no path whose text is the working directory |
| Rmrf.RemovableMember | Program.cs:73-76 | a path is recorded as removed at line 75 exactly when it was deleted successfully and its text is not the working directory's |
| Rmrf.DeleteNext | Program.cs:48 | one more path is attempted and recorded; the outcome is that path's |
| Rmrf.Advance | Program.cs:51-53 | the count goes up by one and the bar and the written tokens move to the state for the new count |
| Rmrf.ProgressStep | Program.cs:51-53 | each counted deletion appends exactly the delta from the bar state of the old count to that of the new |
| Rmrf.DeleteEach | Program.cs:44-54 | the loop attempts the paths up to and including the first failure and no later one; `deleted` is that index; success exactly when none failed; the error is the failing path's; the bar and output are those of `deleted` steps |
| Rmrf.DeleteAll | Program.cs:38-57 | as `DeleteEach`, and the bar ends full at 100% exactly on success; the output is the initial drawing, the steps, the final full-bar move on success only, and the verdict; no path whose text is the working directory is added to the removals |
| Rmrf.BarAtRange | Program.cs:52 | the bar states of the loop stay in the bar and in 0..100, never move backwards, and reach (Width-1, 100) at the last path |
| Rmrf.TrailForward | Program.cs:46-54 | the states the loop draws start at (0, 0) and move forward only |
| Rmrf.MovesShows | Program.cs:46-54 | drawing a forward run of states turns the line for the first into the line for the last, touching nothing right of the percentage |
| Rmrf.ProgressShows | Program.cs:46-54 | after `done` steps the line shows the bar state for `done` |
| Rmrf.ProgressScreen | Program.cs:43-54 | after the initial drawing and `done` steps the cursor is hidden and the line shows the state for `done` |
| Rmrf.FinishScreen | Program.cs:55-56 | the closing move turns the line into the full bar at 100% |
| Rmrf.FinishAfterAll | Program.cs:55-56 | with at least one path, the closing move writes nothing because the last step already drew the full bar; with none, it draws the full bar |
| Rmrf.DeletionScreen | Program.cs:43-57 | before the verdict the line shows the full bar on success and the reached state otherwise, with the cursor hidden; after it the cursor is visible and the colour default |
| Rmrf.Execute | Program.cs:25-57 | with the disk's working directory the one the path defaults to, a rejected command line writes and deletes nothing; otherwise "Analyzing..." is written, the selected subtrees are flattened and deleted in order up to the first failure, and the output is the drawing `DeleteAll` produces; the run always happens without an include list or in a well-formed tree; in every run, no path whose text is the working directory is recorded as removed |
| Rmrf.Analyze | Program.cs:32-33 | writes "Analyzing..."; the listing succeeds exactly when every target exists, which always holds without an include list or in a well-formed tree, and is then the targets' subtrees flattened in order |
| Rmrf.SingleTarget | Program.cs:135-139 | without an include list the one target always exists and the listing is its whole subtree |
| Rmrf.PlainRunKeepsStart | Program.cs:73-76 | a run without `-p` and `-i` lists the starting directory last and never removes it, whatever fails |

## Left out

- The real filesystem. A directory tree is an immutable `Dir` value given to
  `Execute` as a function from the starting path to its tree. Listing
  failures and races with other processes are not modelled. `FlattenTargets`
  failing on a missing target is modelled as `Execute` returning `false`.
- The work inside `DeleteDirectory`: listing and deleting the
  subdirectories and files, and the exception. They are abstracted into a
  map from failing paths to their error text, and `Disk.removed` records
  the removal each call makes at `Program.cs:75`. The text of
  `e.ToString()` is that error text.
- CountProgress, CountProgressFloors: compute and state the integer
  floors `100 * current / total` and `(Width - 1) * current / total`. The
  source computes in `double` (`Program.cs:89-90`), which can come out one
  lower (29 of 100 gives 28). The ranges, endpoints and monotonicity proved
  in `CountProgress` and `CountProgressRange` hold for both.
- 32-bit integer overflow. Integers are unbounded, and no count in the
  program comes near the limit.
- Console set-up: `Console.OutputEncoding`, `CreateStream`,
  `StreamWriter.AutoFlush` and `Console.SetOut`. The stream is a plain
  `Terminal.Stream` object.
- The `CancelKeyPress` handler (`Program.cs:39-41`), which runs
  asynchronously. `Recover` and what it does to the terminal are modelled
  on their own.
- The usage text `TryParse` prints before it returns false. The model only
  returns false.
- `NoAnimation` is parsed and stored, but nothing in the program reads it,
  so nothing else depends on it.
- Line breaks on the terminal. `Screen` models one line. Text written after
  the `"\r\n"` of `DrawComplete` is not placed on a second line, so only
  cursor visibility and colour are proved after the verdict.
- DrawBarSegment, DrawPct, Analyze, DeleteEach, DeleteNext and Advance are
  factored out of `MoveDelta` and `Main`. Their statements are those of the
  cited lines, in the same order.
- `RmrfArgs` is a datatype, and `Path` is a list of path components in
  place of a string joined with separators; `PathText` gives that string
  where the program compares it.
- Rmrf.Disk.DeleteDirectory: `Disk.removed` records only the removal at
  `Program.cs:75`. Lines 65-68 of a call also delete every subdirectory
  still listed. In the post-order listing the only one still there is a
  directory whose text is the working directory, kept by an earlier call.
  So when the working directory lies strictly inside a target, the parent's call removes it at
  line 67 or fails there, depending on the platform. The model does not
  capture this; the guard keeps the working directory only when it is a
  target root, as in a plain run (`PlainRunKeepsStart`) or an `-i` target
  whose text is the working directory.
- Rmrf.Execute: requires the disk's working directory to be the `cwd` the
  path defaults to. Both stand for `Directory.GetCurrentDirectory()`
  (`Program.cs:73` and `174`); the current-directory check at line 73
  compares the text of each path with `Disk.cwd`, which is that directory.
- DirTree.PathText: joins names with `/`, the separator on Unix-like
  systems. Windows' `\` separator is not modelled. Like the source, the
  model compares texts, so a path that names the working directory in
  other words (`.`, a trailing separator, a link) is not recognised.
