# git-switch picker core in Dafny

A model of the core of git-switch, a terminal branch picker. The model covers three parts.

- **The list-selection engine.** The renderer keeps its session state: the search input, the visible list, the selection, the scroll window and the quit flag. Its `Run` applies one key event to that state in place. The visible list puts pinned branches first and filters by case-insensitive substring.
- **The shared pin list.** The branch selector's pin and unpin closures change this caller-owned list in place. When the persistence callback fails, they roll the change back.
- **The older single-file picker.** The `main.go` event loop checks out the chosen branch.

Two more parts are modelled:

- **The per-repository configuration table**, in both versions of the storage package.
- **The parser for `git branch -r` output.**

Layout, one module per file:

| file | module | models |
|---|---|---|
| `wrappers.dfy` | `Wrappers` | `Option` and `Result` |
| `seqs.dfy` | `Seqs` | the slice helpers the code uses (`lo.Filter`, `lo.Uniq`, `lo.IndexOf`, `lo.FindIndexOf`, splicing out one element) and their properties |
| `text.dfy` | `Text` | `strings.ToLower`, `Contains`, `EqualFold`, `TrimSpace`, `Split` and `Join` |
| `matching.dfy` | `Matching` | the ordered list and the filters of the renderer and of `main.go` |
| `pinned_list.dfy` | `PinnedList` | the shared `*[]string` as the class `PinList`, with the selector's `OnPin`/`OnUnpin` closures |
| `events.dfy` | `Events` | key events and the clamp that runs after each key |
| `renderer.dfy` | `Renderer` | `internal/renderer.go`: the class `Renderer`, its event handling, and `refreshBranchListWithSelection` |
| `branch_selector.dfy` | `BranchSelector` | `pkg/branch-selector.go`: `PickBranch` |
| `legacy_picker.dfy` | `LegacyPicker` | `main.go` |
| `git_branches.dfy` | `GitBranches` | `internal/git/branches.go` |
| `storage.dfy` | `Storage` | `internal/storage/config.go`, `pinning.go` and `tracking.go` |
| `storage_legacy.dfy` | `LegacyStorage` | `internal/storage/storage.go` |

### Modelling choices

- **Callbacks.** The renderer's `SelectionHandler` callbacks are named instead of passed as closures (`PinHook`):
  - no callback (nil);
  - a plain callback that only answers with an error or nil;
  - the branch selector's closure. This one changes the shared list itself and asks the persistence callback.

  With the branch selector's closure, the renderer's own membership test (`internal/renderer.go:295` and `:311`) sees a list that the callback has already changed. So a pin key is never "handled" by the renderer itself. Neither is an unpin key when the pins hold no duplicate: control falls through to the common refilter and clamp, and the selection index stays where it was. When the pins hold the selected label twice, Ctrl+U removes it twice. The closure removes the first copy, in memory and through the persistence callback. The renderer then finds the second copy, removes it as well, and refreshes with the next, else previous, label selected. `Renderer.PinOfSpec` and `Renderer.UnpinOfSpec` prove both cases.
- **Persistence and I/O.**
  - Persistence callbacks are functions from a branch to an optional error.
  - Writing the configuration file is a step whose error is an input.
  - The output of git is an input.
- **Event sources.** Events come from a finite sequence instead of `PollEvent`.

### Duplicates in the visible list

The renderer's filter (`internal/renderer.go:110-123`) deduplicates with `lo.Uniq` (`:122-123`) only for non-empty search text. With empty input it returns the ordered list as it is. The model states both cases:

- with empty input, a label pinned twice is shown twice (`Matching.DuplicatesOnlyWithoutInput`);
- for non-empty input, the visible list is free of duplicates unconditionally;
- it is free of duplicates for every input when neither the branches nor the pins hold duplicates (`Matching.ViewSpec`).

The pin closures and the renderer keep the pin list free of duplicates (`Renderer.RunNextSpec`, `BranchSelector.PickBranch`).

## Model

| member | source | states |
|---|---|---|
| `Seqs.IndexOf` | internal/renderer.go:311 | `lo.IndexOf`: -1 exactly when the label is absent, otherwise an index holding it with no earlier occurrence |
| `Seqs.FindIndexOf` | internal/storage/pinning.go:28-30 | `lo.FindIndexOf`: -1 exactly when no element satisfies the predicate, otherwise the first element that does |
| `Seqs.FilterMembers` | internal/renderer.go:46-53 | `lo.Filter` keeps exactly the elements the predicate accepts |
| `Seqs.FilterSubseq` | internal/renderer.go:118-120 | `lo.Filter` keeps the order of what it keeps (a subsequence) |
| `Seqs.FilterCount` | main.go:104-106 | `lo.Filter` keeps every accepted element with its full multiplicity, so it never deduplicates |
| `Seqs.UniqSpec` | internal/renderer.go:123 | `lo.Uniq` keeps exactly the elements of its input and leaves no duplicate |
| `Seqs.UniqSubseq` | internal/renderer.go:123 | `lo.Uniq` keeps the input's order (its result is a subsequence) |
| `Seqs.UniqOrder` | internal/renderer.go:123 | `lo.Uniq` lists the distinct elements in the order of their first occurrences |
| `Seqs.FilterFirstOrder` | internal/renderer.go:118-120 | `lo.Filter` keeps the relative order of the first occurrences of what it keeps |
| `Seqs.UniqOfNoDup` | internal/renderer.go:123 | `lo.Uniq` is the identity on a list without duplicates |
| `Seqs.RemoveFirstSpec` | internal/renderer.go:311-317 | splicing out the first occurrence removes exactly one copy, keeps the order of the rest, leaves a list without the label absent unchanged, and keeps a duplicate-free list duplicate-free |
| `Text.ContainsSpec` | internal/renderer.go:119 | `strings.Contains` holds exactly when the text occurs at some index |
| `Text.TrimStartSpec` | internal/storage/pinning.go:16 | the forward scan of `strings.TrimSpace` passes only white space and stops at the end or at a character that is not white space |
| `Text.TrimEndSpec` | internal/storage/pinning.go:16 | the backward scan passes only white space and stops at its lower bound or after a character that is not white space |
| `Text.TrimSpaceSpec` | internal/storage/pinning.go:16 | `strings.TrimSpace`: the result is a middle slice, everything cut off is white space, and neither end of the result is |
| `Text.TrimSpaceIdempotent` | internal/storage/tracking.go:11 | trimming an already trimmed label changes nothing |
| `Text.Split` | internal/git/branches.go:16 | `strings.Split` on "\n": at least one piece, and no piece holds the separator |
| `Text.JoinSplit` | internal/git/branches.go:16 | joining the pieces of a split gives back the text |
| `Text.SplitJoin` | internal/git/branches.go:16 | splitting a join of separator-free pieces gives back the pieces |
| `Matching.OrderedSpec` | internal/renderer.go:46-55 | the ordered list holds exactly the branches, as pinned real branches in pin order followed by the others in original order; stale pins are dropped; pinned labels come first; no duplicates when neither input has any |
| `Matching.ViewSpec` | internal/renderer.go:94-124 | the filter holds exactly the branches containing the input ignoring case; it is a subsequence of the ordered list, so pinned first; it has no duplicates for non-empty input; with duplicate-free inputs it is exactly the matching subsequence |
| `Matching.MatchesEmpty` | internal/renderer.go:110-115 | every label matches the empty input |
| `Matching.DuplicatesOnlyWithoutInput` | internal/renderer.go:110-123 | a label pinned twice is shown twice with empty input and once, ignoring case, with search text |
| `Matching.MainFilterSpec` | main.go:100-107 | the older filter is the identity on empty input and otherwise the order-preserving case-insensitive filter, keeping every copy of a match |
| `PinnedList.PinnedSpec` | pkg/branch-selector.go:77-79 | pinning keeps the existing pins as a prefix, appends the label only when absent, and never creates a duplicate |
| `PinnedList.PinThenUnpin` | pkg/branch-selector.go:77-117 | pinning a new label and then unpinning it restores the list |
| `PinnedList.UnpinThenPin` | pkg/branch-selector.go:92-117 | unpinning and re-pinning a pinned label keeps the same labels and moves it to the end |
| `PinnedList.PinList.constructor` | pkg/branch-selector.go:18 | the shared list starts with the given pins |
| `PinnedList.PinList.OnPin` | pkg/branch-selector.go:75-91 | a pinned label changes nothing and is not persisted; a new label is appended and persisted; on a persistence error the list is back to its old value and the error is returned |
| `PinnedList.PinList.OnUnpin` | pkg/branch-selector.go:92-122 | a label that is not pinned changes nothing and is not persisted; otherwise the first occurrence is removed and the removal persisted; on a persistence error the saved copy is restored and the error is returned |
| `Events.ClampOf` | internal/renderer.go:339-351 | the clamp as a value: the selection is usable (0 on an empty list, an index of the list otherwise); an in-range selection is kept, one past the end becomes the last index and a negative one 0; the window starts at or before the selection, at 0 or later when it did, and does not run past the end; a window that contained the selection still does; a settled state is left alone |
| `Events.Clamp` | internal/renderer.go:339-351 | the clamp as the code runs it, step by step, computes `ClampOf` |
| `Renderer.NextTarget` | internal/renderer.go:319-325 | the label to select after unpinning is a neighbour of the selection in the list, and there is none when the list has a single item |
| `Renderer.SelectTarget` | internal/renderer.go:405-425 | a present target is selected at its first index; otherwise the old index is kept when in range and clamped when not |
| `Renderer.ScrollTo` | internal/renderer.go:427-436 | the window starts at 0 or later and contains the selection; a window already containing it is unchanged |
| `Renderer.Opening` | internal/renderer.go:44-62 | the state `NewRenderer` starts in shows the ordered list with a usable selection |
| `Renderer.SettleOf` | internal/renderer.go:339-351 | the post-processing as a value: the list is the filter of the input over the pins, the selection is usable, the quit flag is kept |
| `Renderer.RefreshOf` | internal/renderer.go:367-437 | a refresh as a value: the list is the filter of the input over the pins and the selection is usable |
| `Renderer.SettleKeeps` | internal/renderer.go:339-351 | the post-processing keeps the input, the quit flag and the pins; a window that started at 0 or later and held the selection still does; the window does not run past the end; a selection and window at the top stay there |
| `Renderer.RefreshKeeps` | internal/renderer.go:367-437 | a refresh keeps the input, the quit flag and the pins, selects a shown non-empty target, and leaves a window at 0 or later that holds the selection when the window size is positive |
| `Renderer.KeyEdit` | internal/renderer.go:256-337 | the key switch before the post-processing: the quit flag is set exactly by Esc or Ctrl+C |
| `Renderer.EnterOf` | internal/renderer.go:279-286 | Enter as a value: it quits exactly on a non-empty list, hands `OnSelect` the selected label exactly when the list is non-empty and `OnSelect` is set, and keeps the view valid |
| `Renderer.PinOf` | internal/renderer.go:287-302 | Ctrl+D as a value: the error is the callback's answer for the selected label; an error leaves the state exactly as it was; the quit flag is kept and the view stays valid |
| `Renderer.UnpinOf` | internal/renderer.go:303-331 | Ctrl+U as a value: the error is the callback's answer for the selected label; an error leaves the state exactly as it was; the quit flag is kept and the view stays valid |
| `Renderer.RunNext` | internal/renderer.go:252-357 | one event as a value: the view stays valid; an event without a key changes nothing; an error comes only from Ctrl+D or Ctrl+U on a non-empty list, is the callback's answer, and leaves the state as it was; the run quits exactly on Esc, Ctrl+C or Enter on a non-empty list; `OnSelect` gets a label exactly on that Enter when set, and it is the selected one |
| `Renderer.PinOfSpec` | internal/renderer.go:287-302 | Ctrl+D: no callback or an empty list means only the post-processing; after a successful callback the pins are its list pinned once more by the renderer, a label the renderer pins itself is then selected (when non-empty) in a valid window, and any other case is the post-processing; with the selector's closure it is always the post-processing over the pinned list; the input and quit flag stay, a valid window stays valid, and the pins gain no duplicate and no non-branch |
| `Renderer.UnpinOfSpec` | internal/renderer.go:303-331 | Ctrl+U: no callback or an empty list means only the post-processing; after a successful callback the pins lose the first occurrence left by it; when the renderer removes one itself the next, else previous, label is selected when still shown, in a valid window; otherwise it is the post-processing; with the selector's closure on duplicate-free pins it is always the post-processing over the list without the label; the input and quit flag stay, a valid window stays valid, and the pins gain nothing |
| `Renderer.KeyEditSpec` | internal/renderer.go:256-351 | the keys that neither select nor pin, with the post-processing, keep the pins and a valid window, and only Backspace and a rune change the input, resetting selection and window to 0 |
| `Renderer.RunNextSpec` | internal/renderer.go:252-357 | one event keeps a valid window valid, never gives the pins a duplicate or a non-branch, errs only about a branch, selects only a branch, and changes the input only on Backspace or a rune, back to the top |
| `Renderer.Renderer.constructor` | internal/renderer.go:44-91 | the first view is the ordered list, with empty input and the first item selected; the search label defaults to "search" |
| `Renderer.Renderer.Refresh` | internal/renderer.go:367-437 | the list is refiltered from the current pins; a present target is selected; otherwise the selection stays when possible; the window is valid |
| `Renderer.Renderer.AddPin` | internal/renderer.go:295-300 | the renderer's own pin appends the label only when absent and then follows it |
| `Renderer.Renderer.DropPin` | internal/renderer.go:311-329 | the renderer's own unpin removes the first occurrence and then selects the next target |
| `Renderer.Renderer.PinKey` | internal/renderer.go:287-302 | Ctrl+D in place computes `PinOf` on the shared pin list, calling the callback before anything else changes, and keeps the view valid |
| `Renderer.Renderer.UnpinKey` | internal/renderer.go:303-331 | Ctrl+U in place computes `UnpinOf` on the shared pin list, calling the callback before anything else changes, and keeps the view valid |
| `Renderer.Renderer.Settle` | internal/renderer.go:339-351 | the post-processing refilters from the input and the pins and establishes the clamp's guarantees |
| `Renderer.Renderer.QuitKey` | internal/renderer.go:257-258 | Esc or Ctrl+C sets the quit flag and keeps the state valid |
| `Renderer.Renderer.Erase` | internal/renderer.go:259-264 | Backspace drops exactly the last element of non-empty input and resets the selection and window to 0; on empty input the input is unchanged |
| `Renderer.Renderer.Type` | internal/renderer.go:332-337 | a key carrying a rune appends it and resets the selection and window to 0 |
| `Renderer.Renderer.MoveUp` | internal/renderer.go:265-271 | Up from a settled state moves the selection up by one unless at 0, and scrolls by one only when the selection leaves the window |
| `Renderer.Renderer.MoveDown` | internal/renderer.go:272-278 | Down from a settled state moves the selection down by one unless at the last item, and scrolls by one only when needed |
| `Renderer.Renderer.EnterKey` | internal/renderer.go:279-286 | Enter on a non-empty list sets quit and hands the selected branch to `OnSelect` (returning at once); on an empty list nothing but the clamp happens |
| `Renderer.Renderer.BasicKey` | internal/renderer.go:256-351 | quit, editing and arrow keys in place compute the key switch followed by the post-processing (`KeyEdit`, then `SettleOf`), and keep the view valid |
| `Renderer.Renderer.Run` | internal/renderer.go:252-357 | one event in place computes `RunNext` (state, error and the label handed to `OnSelect`) and keeps the view valid |
| `BranchSelector.PickBranch` | pkg/branch-selector.go:40-133 | the loop over the renderer computes `PickRun` from the state `NewRenderer` starts in: the result, the error, the events consumed `n` and the pins left behind; pins never gain a duplicate or a non-branch |
| `BranchSelector.Pass` | pkg/branch-selector.go:70-127 | one pass of the loop: an event that quits or fails ends `PickRun` with the new state, its error and the label handed to `OnSelect`; any other hands nothing to `OnSelect` and the run goes on from the new state |
| `BranchSelector.PickPins` | pkg/branch-selector.go:75-121 | over a whole run the pins gain no duplicate and no label other than a branch |
| `BranchSelector.PickRunSpec` | pkg/branch-selector.go:70-127 | from any state that has not quit, the trace starts in it and the run does what `PickOutcome` says: no event before the last consumed one quits or is Enter on a non-empty list; stopping early is a quit key, that Enter, or a failed persistence; quit exactly on those keys; that Enter selects exactly the selected label, a branch; a non-empty result comes only from it; an error leaves the result "" and is a persistence callback's error for the selected branch on Ctrl+D or Ctrl+U |
| `BranchSelector.PickOutcomeSpec` | pkg/branch-selector.go:40-133 | the same for the run from the state `NewRenderer` starts in, whose first list is the ordered list of the branches and the old pins with empty input |
| `LegacyPicker.Start` | main.go:40-44 | the loop starts with empty input, all branches and a valid window |
| `LegacyPicker.MainKey` | main.go:117-158 | the key switch computes `KeyEdit`: Backspace drops the last element, a rune is appended, both reset to the top; the arrows move by one and scroll by one when needed |
| `LegacyPicker.Settled` | main.go:159-171 | the state after the refilter and the clamp has a usable selection |
| `LegacyPicker.Settle` | main.go:159-171 | the refilter and clamp compute `Settled`, establish the clamp's guarantees and leave a settled state alone |
| `LegacyPicker.KeyStep` | main.go:117-171 | a key that does not end the loop computes `KeyNext`, keeps the loop invariant; arrows move exactly by one |
| `LegacyPicker.MainNext` | main.go:113-171 | one pass as a value: it quits exactly on Esc or Ctrl+C, checks out exactly on Enter on a non-empty list, and then the selected match; a pass that stops or gets no key leaves the state alone; a key pass refilters from the new input; the selection stays usable |
| `LegacyPicker.MainStep` | main.go:113-171 | one pass computes `MainNext`; Esc and Ctrl+C stop without the clamp; Enter on a non-empty list checks out the selected match; any other key keeps the invariant |
| `LegacyPicker.MainRunSpec` | main.go:109-179 | a run of the loop consumes at most the remaining events; none of the events before the last consumed one quits; the stopping step is the pass of the stopping state on the last consumed event; running out of events means none quit; a quit is Esc or Ctrl+C, and a checkout is Enter on a non-empty list, of the selected match, which is a branch |
| `LegacyPicker.MainTraceSpec` | main.go:109-179 | the trace of a run holds the state each consumed event arrived in, starting in the first: every pass before the last consumed event continued into the next state; a run that stopped stopped in the last state; one that ran out of events continued from the last state into its final one |
| `LegacyPicker.MainOutcomeSpec` | main.go:109-179 | the outcome of a run from the start state: no event before the last consumed one quits; cancelling is that last event being Esc or Ctrl+C; a checkout or its failure is that last event being Enter on a non-empty filtered list, on its selected match, a branch, whose checkout succeeded or gave that error; waiting means every event was consumed and none quit |
| `LegacyPicker.MainSession` | main.go:22-179 | a git error ends the run with that error before any event; otherwise the loop runs over the remote branches, and the outcome, the events consumed `n` and the final state are those of `MainRun` from the start state, with the checkout's error reported |
| `LegacyPicker.MainLoop` | main.go:109-179 | the event loop computes `MainRun` from the start state, event by event through `MainStep`: the outcome is what its stopping pass reports (cancelled, checked out, or the checkout's error), `n` the events consumed, and the state it stopped in keeps the loop invariant |
| `GitBranches.RemoteName` | internal/git/branches.go:17-26 | a line names nothing exactly when it has no '/' before its last character; otherwise it names the non-empty text after its first '/' |
| `GitBranches.RemoteNames` | internal/git/branches.go:16-27 | never more names than lines; its contents are `RemoteNameOf`, `RemoteNamesAppend`, `RemoteNamesNonEmpty` and `RemoteBranchesRoundTrip`: the named branch of each "<remote>/<branch>" line, in line order |
| `GitBranches.RemoteBranches` | internal/git/branches.go:10-28 | a command error yields that error and no list; otherwise at most one name per line |
| `GitBranches.RemoteNameOf` | internal/git/branches.go:21-26 | "<remote>/<branch>" names exactly the branch |
| `GitBranches.RemoteNamesAppend` | internal/git/branches.go:16 | names keep the line order |
| `GitBranches.RemoteNamesNonEmpty` | internal/git/branches.go:16-27 | every name is non-empty and comes from some line |
| `GitBranches.RemoteNamesOfListing` | internal/git/branches.go:16-27 | lines "<remote>/<name>" yield exactly the names |
| `GitBranches.RemoteBranchesRoundTrip` | internal/git/branches.go:10-28 | newline-terminated output listing "<remote>/<name>" lines parses back to exactly the names, in order |
| `Storage.PinInSpec` | internal/storage/pinning.go:28-39 | a known repository's pins gain the label only when absent, never a duplicate, and no other record changes; an unknown repository gets one new record pinning just the label |
| `Storage.PinInIdempotent` | internal/storage/pinning.go:31-33 | pinning twice is pinning once |
| `Storage.UnpinInSpec` | internal/storage/pinning.go:55-76 | `ErrBranchNotPinned` exactly when the repository or the pin is missing; otherwise only that record loses exactly one copy, in order |
| `Storage.PinThenUnpinIn` | internal/storage/pinning.go:15-79 | pinning a new label in a known repository and unpinning it restores the table |
| `Storage.ClearInSpec` | internal/storage/pinning.go:92-96 | only the matching repository's pins are emptied; an unknown repository leaves the table unchanged; clearing is idempotent |
| `Storage.SetLastInSpec` | internal/storage/tracking.go:23-33 | only the known repository's last branch changes, or one record without pins is appended; the table grows by at most one |
| `Storage.Config.constructor` | internal/storage/config.go:59-64 | the defaults: prefix "★", window size 10, no pruning, no repositories |
| `Storage.Config.Unmarshal` | internal/storage/config.go:89-92 | settings present in the file replace the defaults, absent ones keep them |
| `Storage.Config.GetRepositoryConfig` | internal/storage/config.go:34-48 | the first record matching the path ignoring case is returned as a copy with the table unchanged; otherwise one new empty record is appended, written and returned; afterwards the path has a record |
| `Storage.GetConfig` | internal/storage/config.go:50-103 | a missing file yields the defaults; file errors are returned; a loaded empty prefix becomes "★" and a zero window size 10, and every other value is kept |
| `Storage.Pin` | internal/storage/pinning.go:15-42 | the label is trimmed, then pinned in the table, then written |
| `Storage.AddPin` | internal/storage/pinning.go:28-39 | the table after pinning an already trimmed label is the pinning function of the old table |
| `Storage.Unpin` | internal/storage/pinning.go:44-79 | `ErrBranchNotPinned` without change, or the first occurrence removed and written |
| `Storage.ClearPins` | internal/storage/pinning.go:81-99 | the repository's pins are emptied and the table written |
| `Storage.SetLastBranch` | internal/storage/tracking.go:10-36 | the label is trimmed, recorded as the last branch, and written |
| `Storage.RecordLast` | internal/storage/tracking.go:23-33 | the table after recording an already trimmed label is the last-branch function of the old table |
| `LegacyStorage.PinInSpec` | internal/storage/storage.go:113-124 | a known repository's pins become exactly the old pins with the label appended when absent, unchanged when present, so never a duplicate; an unknown repository gets one new record |
| `LegacyStorage.UnpinInSpec` | internal/storage/storage.go:145-165 | `ErrBranchNotPinned` exactly when the repository or the pin is missing; otherwise only that record changes and its pins lose exactly the first occurrence, in order |
| `LegacyStorage.Config.constructor` | internal/storage/storage.go:38-42 | the defaults: prefix "★", window size 10, no repositories |
| `LegacyStorage.GetConfig` | internal/storage/storage.go:29-81 | a missing file yields the defaults; a loaded empty prefix becomes "★" and a zero window size 10 |
| `LegacyStorage.Pin` | internal/storage/storage.go:100-127 | the label is trimmed, then pinned in the working directory's record, then written |
| `LegacyStorage.AddPin` | internal/storage/storage.go:113-124 | the table after pinning an already trimmed label is the pinning function of the old table |
| `LegacyStorage.Unpin` | internal/storage/storage.go:133-168 | `ErrBranchNotPinned` without change, or the first occurrence removed and written |

## Left out

- Drawing (`Draw`, the `draw` closure of `main.go`) and text styles are terminal output.
- The highlighting of matches in the drawn list is left out too; it slices by byte offsets of the lower-cased label.
- Screen creation, `Init`, `Fini`, and the errors of creating or initialising the screen are left out. `NewRenderer` and `main` are modelled from the point where the screen exists.
- `PollEvent` is not modelled; the loops consume a finite sequence of events. In `main.go` a run whose events run out before Esc, Ctrl+C or a checkout ends as `Waiting`. `PickBranch` returns what it has gathered when its events run out.
- Concurrency is left out: the goroutines, the `sync.WaitGroup` of `PickBranch`, and the `time.Sleep` polling of `main.go`. The loops are sequential.
- Running git is left out: `execute`, `Checkout`, `ListRemotes`, repository detection, and installation checks. The output of `git branch -r` and the result of a checkout are inputs.
- File access is left out: YAML marshalling, the configuration directory, `os.Stat`, `ReadFile`/`WriteFile`, `os.Getwd` and `git.GetRepositoryPath`. The parsed file, the repository path and the error of each write are inputs.
- `internal/app/version.go` reports build information and has nothing to verify.
- Text.LowerChar: case folding covers ASCII letters only, not Unicode case mapping.
- Renderer.Renderer.Erase: input is a sequence of characters, so Backspace drops one character rather than one byte.
- LegacyPicker.MainKey: likewise, Backspace in `main.go` (main.go:124) drops one character rather than one byte.
- Renderer.PinHook: a plain callback is not modelled as changing the shared pin list itself. Only the branch selector's closure does.
- Renderer.Renderer.MoveUp: exact movement is stated from a settled state, where the window holds the selection and does not run past the end. Otherwise only the clamp's guarantees are stated.
- Renderer.Renderer.MoveDown: likewise, exact movement is stated only from a settled state.
- Events.ClampOf: the window guarantees need a positive window size. With a window size of 0 or less, only the selection bounds are stated.
- Storage.Config.GetRepositoryConfig: the returned record is a value, so a caller's change to it cannot reach the table. The Go code gets the same effect by returning a pointer to a loop-local copy.
