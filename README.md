# Mobile heuristics builder — a Dafny model of its core

The application is a single-page tool in which a designer records *heuristics*:
rules of the form "when this element, inside that parent, of this category,
meets this condition, take this action, producing this output". A six-step
wizard fills in a draft. Saving the draft appends a record to a library.
Library records can later be edited field by field, given a status, reverted
to an earlier value, deleted or exported as CSV. Every edit is recorded in a
per-field history that only grows. The record cards render the stored tokens
as readable text: a title-cased label, a condition value rewritten by a chain
of regular-expression replacements, an action label picked by a keyword
chain, and an output panel that parses pixel sizes out of the output token.

All of this lives in `src/App.jsx`. The model has seven modules.

- `Records` (records.dfy) holds the record data (`Fields`, `Entry`,
  `Heuristic` with `history: map<Field, seq<Entry>>`). It also holds the pure
  per-record and per-list transforms that the store's setters apply:
  `prev.map(...)` and `prev.filter(...)`.
- `Store` (store.dfy) is the `useHeuristics` hook. It is a class whose fields
  `heuristics`, `draft` and `error` are the hook's state cells. Each method
  replaces them as the matching callback does.
- `Wizard` (wizard.dfy) is the `useWizard` hook, a class with `step`,
  `isTransitioning` and a queue of scheduled step commits. It also holds the
  `canProceed` gate.
- `CsvExport` (csv.dfy) is `exportToCSV`. Its partner is `String.split`.
- `DisplayText` (text.dfy) holds the global `String.prototype.replace`,
  modelled as a left-to-right scan. It also holds the condition-value
  formatter, the title-case idiom, the condition-type label and the action
  label.
- `OutputPanel` (output.dfy) holds `parseOutput` with its leftmost
  `str.match`, and the choice of what the output panel shows.
- `AppFlow` (app.dfy) is `handleAddHeuristic`: it commits the draft and sends
  the wizard back to step 1.

Conventions:

- A field value that the source may leave `undefined` or `null` is the empty
  string, so `x || d` reads "`d` when `x` is empty".
- The remote CMS is an oracle. Each operation that calls it receives the
  outcome as a parameter (`Created`/`CreateFailed`, `Synced`/`SyncFailed`).
  `isWixConfigured()` is the store's `configured` constant.
- `generateId()` and the ISO timestamps are parameters (`freshId`, `now`).

## Model

| member | source | states |
|---|---|---|
| Records.Fields.Set | src/App.jsx:424-426 | `{ ...prev, [field]: value }`: the named field takes the value and every other field keeps its own |
| Records.NewRecord | src/App.jsx:448 | `{ ...draft, id }` carries the draft's fields under the given id, with no history for any field |
| Records.WithField | src/App.jsx:541-565 | editing one record sets the field, appends exactly one entry {old value, new value, not a revert} to that field's history, and leaves the other fields and the other histories alone |
| Records.RecordedStatus | src/App.jsx:515 | the previous status recorded is the record's status, or 'Active' when it has none; it is never empty |
| Records.WithStatus | src/App.jsx:498-520 | a status change sets the status to the new value, unvalidated, and appends one entry {recorded previous status, new status}; nothing else changes |
| Records.Reverted | src/App.jsx:586-611 | an index outside the field's history leaves the record identical; otherwise the value the entry replaced comes back and one entry marked as a revert of that index is appended |
| Records.TransformsExtend | src/App.jsx:496-613 | every record transform keeps the id and only appends to histories: each old history is a prefix of the new one |
| Records.ExtendsTransitive | src/App.jsx:496-613 | history growth composes: a record edited twice still extends the original |
| Records.MapId | src/App.jsx:498 | `prev.map(h => h.id !== id ? h : t(h))` keeps the length, leaves records with other ids identical and transforms each record with the id |
| Records.UpdateField | src/App.jsx:543-567 | `updateHeuristicField`'s map keeps every record in its place with its id, and an id no record has changes nothing |
| Records.UpdateStatus | src/App.jsx:499-520 | `updateStatus`'s map keeps every record in its place with its id, and an id no record has changes nothing |
| Records.RevertField | src/App.jsx:586-611 | `revertHeuristicField`'s map keeps every record in its place with its id, and an id no record has changes nothing |
| Records.UpdateFieldSpec | src/App.jsx:539-567 | `updateHeuristicField`'s list update: same length; an unknown id changes nothing; every record with the id gets the field set and exactly one entry appended; other records, fields and histories are untouched |
| Records.UpdateStatusSpec | src/App.jsx:496-521 | the same for `updateStatus`, recording the old status or 'Active' when it was missing |
| Records.RevertFieldSpec | src/App.jsx:585-613 | `revertHeuristicField`'s list update: unknown id or out-of-range index changes nothing; otherwise the field gets the entry's `value`, the earlier entries are untouched, and one revert entry {value before, restored value, revertedFrom index} is appended |
| Records.RevertOfRevert | src/App.jsx:585-613 | reverting the entry a revert wrote restores the value that was current before the first revert, and the history grows by two |
| Records.UpdateManySpec | src/App.jsx:539-567 | after a series of edits to one field, its history grows by one entry per edit, the old history stays a prefix, and the field holds the last value written |
| Records.RemoveId | src/App.jsx:475 | `prev.filter(h => h.id !== id)` never grows the list, and every record it keeps was in the list and has another id |
| Records.RemoveIdAppend | src/App.jsx:475 | the filter distributes over concatenation, so the kept records stay in their original order |
| Records.RemoveUnknownId | src/App.jsx:475 | deleting an id no record has leaves the list identical |
| Records.RemoveIdCount | src/App.jsx:475 | deleting removes exactly the records with the id, as many as there are, and keeps every other record as many times as it occurred |
| Records.DeleteUniqueSpec | src/App.jsx:463-478 | with unique ids, deleting a known id removes exactly one record, and an unknown id removes none |
| Records.AppendFreshKeepsUnique | src/App.jsx:455-456 | appending a record under a fresh id keeps ids unique |
| Store.DeleteError | src/App.jsx:467-473 | a remote delete failure is reported exactly when it is not 'NOT_CONFIGURED', with the message 'Failed to delete from Wix CMS: ' + the error |
| Store.HeuristicStore.constructor | src/App.jsx:370-374 | the store starts with no records, the initial draft and no error |
| Store.HeuristicStore.UpdateDraft | src/App.jsx:424-426 | the draft's named field takes the value; every other field, the records and the error are unchanged |
| Store.HeuristicStore.ResetDraft | src/App.jsx:428-430 | the draft becomes `INITIAL_HEURISTIC`; the records are unchanged |
| Store.HeuristicStore.AddHeuristic | src/App.jsx:432-461 | returns true exactly when element and action are filled in. Otherwise nothing changes. On success exactly one record is appended at the end (the remote copy on remote success, else the draft under the fresh id), the earlier records are kept, the draft is reset, and the error is set only on a remote failure |
| Store.HeuristicStore.DeleteHeuristic | src/App.jsx:463-478 | the list becomes the filter of the old list; the error reflects the remote outcome only when a CMS is configured |
| Store.HeuristicStore.UpdateStatus | src/App.jsx:496-537 | the list becomes `UpdateStatus` of the old list; an earlier error is not cleared; a sync error is reported only when configured, the id was present and the remote call failed |
| Store.HeuristicStore.UpdateHeuristicField | src/App.jsx:539-583 | the list becomes `UpdateField` of the old list; the error is cleared first and set only on a configured, present-id remote failure |
| Store.HeuristicStore.RevertHeuristicField | src/App.jsx:585-613 | the list becomes `RevertField` of the old list; draft and error are untouched |
| Wizard.CanProceed | src/App.jsx:690-701 | the gate passes only at steps 1 to 6 |
| Wizard.InitialDraftGates | src/App.jsx:690-701 | the initial draft passes exactly the gates of steps 2 and 4, through its 'any' parent and 'none' condition |
| Wizard.CategoryAloneDoesNotPass | src/App.jsx:693 | step 3 needs a subcategory as well as a category |
| Wizard.Wizard.constructor | src/App.jsx:344-346 | a new wizard is at step 1, unlocked, with nothing scheduled |
| Wizard.Wizard.GoToStep | src/App.jsx:348-355 | an out-of-range target, or any request while locked, changes nothing; otherwise the lock is taken and the target is scheduled; the step itself does not change yet; the step stays in range |
| Wizard.Wizard.NextStep | src/App.jsx:357 | schedules step + 1 when accepted; at the last step it does nothing |
| Wizard.Wizard.PrevStep | src/App.jsx:358 | schedules step - 1 when accepted; at step 1 it does nothing |
| Wizard.Wizard.Reset | src/App.jsx:359-365 | takes the lock even when it is held, and schedules step 1 |
| Wizard.Wizard.TimerFires | src/App.jsx:351-354 | the oldest scheduled callback commits its step and releases the lock |
| Wizard.Wizard.Settle | src/App.jsx:351-354 | after every scheduled callback fires in order, the wizard is at the step scheduled last, unlocked |
| Wizard.Wizard.Continue | src/App.jsx:1103 | the Continue button, disabled unless `canProceed`: it schedules the next step only when the gate passes and the wizard accepts |
| Wizard.ResetEndsAtStepOne | src/App.jsx:359-365 | from any reachable state, `reset` and the timers leave the wizard at step 1, unlocked |
| Wizard.WalkThrough | src/App.jsx:344-365 | with every question answered, Continue walks from step 1 to step 6, and `nextStep` at step 6 is rejected, so the wizard stays at step 6 |
| Wizard.StuckAtType | src/App.jsx:693 | Continue at step 3 without a subcategory leaves the wizard at step 3 |
| CsvExport.Cells | src/App.jsx:312-322 | a record line has exactly as many cells as the header has columns, nine |
| CsvExport.Rows | src/App.jsx:312-323 | one line per record |
| CsvExport.Join | src/App.jsx:323 | `join` begins with its first part |
| CsvExport.ExportCsv | src/App.jsx:310-324 | the export begins with the header line of nine column names, and with no records it is that line alone |
| CsvExport.SplitJoin | src/App.jsx:323 | splitting a join gives back its parts when no part holds the separator |
| CsvExport.ExportLines | src/App.jsx:310-324 | when no cell holds a line break, the export has `1 + |hs|` lines: the header line, then each record's line in order |
| CsvExport.HeaderSplits | src/App.jsx:311 | the header line splits back into the nine column names |
| CsvExport.RowSplits | src/App.jsx:312-323 | a record line splits back into its nine cells when no cell holds ',' |
| CsvExport.ExportCells | src/App.jsx:310-324 | when no cell holds ',' or a line break, the export has `1 + |hs|` lines of nine cells: the column names, then each record's cells |
| DisplayText.ReplaceNowhere | src/App.jsx:3055-3067 | a global replace whose pattern matches at no position returns its input |
| DisplayText.MatchAt | src/App.jsx:3055-3067 | a match of the replace patterns at a position is non-empty and lies within the text |
| DisplayText.ReplaceAll | src/App.jsx:3055-3067 | a global replace by a literal never lengthens the text when the replacement is no longer than the literal, and keeps its length when they are equally long |
| DisplayText.ReplaceWhole | src/App.jsx:3055-3067 | a text that is exactly one match is replaced by that match's text |
| DisplayText.ReplaceWithout | src/App.jsx:3055-3067 | a pattern that needs a letter the text lacks (up to case) leaves the text unchanged |
| DisplayText.ReplaceBySelf | src/App.jsx:3066 | `.replace(/px/g, 'px')` changes nothing |
| DisplayText.ReplaceRemoves | src/App.jsx:3065 | after `.replace(/_/g, ' / ')` no underscore is left |
| DisplayText.FormatConditionValue | src/App.jsx:3055-3067 | whatever the condition value, the formatted text has no '_' |
| DisplayText.RatioMatch | src/App.jsx:3058 | `atob` with digit runs a and b becomes `a:b` |
| DisplayText.NoRatioAtNonDigits | src/App.jsx:3058 | text of non-digits before a ratio is copied unchanged |
| DisplayText.TaggedMatch | src/App.jsx:3059-3062 | `tag` + digits + "px" is one match of `/tag(\d+)px/gi`, and is replaced by the phrase followed by the digits and "px" |
| DisplayText.FormatLessOrEqual | src/App.jsx:3055-3067 | for every digit run N, `lte_Npx` reads "is equal / less than Npx" |
| DisplayText.FormatGreaterOrEqual | src/App.jsx:3055-3067 | for every digit run N, `gte_Npx` reads "is equal / greater than Npx" |
| DisplayText.FormatPortrait | src/App.jsx:3055-3067 | for every digit runs a and b, `portrait_atob` reads "Portrait: a:b" |
| DisplayText.HumanizeSpec | src/App.jsx:1165 | title case keeps the length; each '_' becomes ' '; the first `\w` character of each word is upper-cased; every other character is kept |
| DisplayText.Humanize | src/App.jsx:1165 | title-casing keeps the text's length |
| DisplayText.HumanizeNoUnderscore | src/App.jsx:1165 | a title-cased text has no '_' |
| DisplayText.HumanizeIdempotent | src/App.jsx:1165 | title-casing twice is title-casing once |
| DisplayText.ConditionTypeLabel | src/App.jsx:3044-3053 | no condition-type label, fixed or title-cased, shows '_' |
| DisplayText.ActionRule | src/App.jsx:3090-3107 | every label the keyword chain picks is free of '_' |
| DisplayText.ActionLabel | src/App.jsx:3087-3110 | no action label shows '_' |
| DisplayText.NoRuleWithoutLetters | src/App.jsx:3090-3107 | an action with no lower-case letter matches no keyword, so it gets a rule exactly when the output is a scaling reset |
| DisplayText.MissingActionShowsDash | src/App.jsx:3088-3110 | a record with no action shows '—' unless its output is a scaling reset |
| OutputPanel.Backtrack | src/App.jsx:3190 | the `(\w+)` of the margin pattern is a non-empty split no longer than the word run, and the rest of the pattern matches after it |
| OutputPanel.PixelsAtSpec | src/App.jsx:3154 | `(\d+)px` captures a non-empty digit run that the text begins with, followed by "px" |
| OutputPanel.PixelsAt | src/App.jsx:3154 | a `(\d+)px` capture is non-empty and no longer than the text |
| OutputPanel.SplitAtSpec | src/App.jsx:3190 | a margin split captures a non-empty `\w` word and digits that the text holds followed by "px" |
| OutputPanel.MatchHereSpec | src/App.jsx:3154-3190 | a match begins with the pattern's first word and captures digits that the text holds followed by "px"; only the margin pattern captures a word |
| OutputPanel.MatchHere | src/App.jsx:3154-3190 | a match captures a non-empty digit run, and a word exactly when the pattern is the margin pattern |
| OutputPanel.FirstSpec | src/App.jsx:3154-3190 | what `str.match` finds: the pattern's first word and the captured digits + "px" both occur in the string |
| OutputPanel.First | src/App.jsx:3154-3190 | `str.match` captures a non-empty digit run, and a word exactly when the pattern is the margin pattern |
| OutputPanel.FirstIsLeftmost | src/App.jsx:3154-3190 | `str.match` finds a match exactly when some position begins one, and then it is the match at the leftmost such position |
| OutputPanel.BacktrackFinds | src/App.jsx:3190 | when some split of length v works, backtracking from any w >= v finds a split |
| OutputPanel.BacktrackSkipsLonger | src/App.jsx:3190 | no split longer than the one backtracking finds works |
| OutputPanel.BacktrackLongest | src/App.jsx:3190 | `\w+` finds a split exactly when one of length 1..w works, and then it takes the longest one |
| OutputPanel.FontItems | src/App.jsx:3153-3159 | the font step adds at most one item, a font size |
| OutputPanel.WidthItems | src/App.jsx:3161-3173 | the width step adds at most one item, a width |
| OutputPanel.HeightItems | src/App.jsx:3175-3187 | the height step adds at most one item, a height |
| OutputPanel.MarginItems | src/App.jsx:3189-3193 | the margin step adds at most one item, a margin |
| OutputPanel.ParseOutput | src/App.jsx:3150-3196 | `parseOutput` yields at most four items |
| OutputPanel.ParseOutputOrder | src/App.jsx:3150-3196 | `parseOutput` yields at most four items, at most one of each kind, in the order font size, width, height, margin |
| OutputPanel.ParseOutputNothing | src/App.jsx:3150-3196 | an output mentioning none of font, width, height and margin yields no item |
| OutputPanel.ParseOutputValues | src/App.jsx:3150-3196 | every shown value is Keep, 100%, Auto or Aspect Ratio, or a digit run followed by "px" that occurs in the output |
| OutputPanel.NoFontNoMargin | src/App.jsx:3154-3193 | an output without 'f' and 'm' has no font item and no margin item |
| OutputPanel.ParseWidthAndHeight | src/App.jsx:3150-3196 | "width-100pct_height-auto", with either separator in the middle, shows exactly Width 100% then Height Auto |
| OutputPanel.ShowOutput | src/App.jsx:3137-3209 | a listing shows one to four items, and output shown as plain text has no '_' left |
| OutputPanel.MissingOutputShowsDash | src/App.jsx:3137-3209 | a record with no output shows a plain '—' |
| AppFlow.CommitGuardIsTwoGates | src/App.jsx:433 | the save guard is the conjunction of the step-1 and step-5 gates |
| AppFlow.HandleAddHeuristic | src/App.jsx:669-675 | on a committable draft, the record is appended, the draft is reset and step 1 is scheduled; otherwise the store and the wizard are unchanged |
| AppFlow.CommitFreshDraft | src/App.jsx:669-675 | answering all six questions of a fresh wizard without a CMS and saving leaves one record holding the answers under the fresh id, status Active, with no history; the draft is blank and the wizard is at step 1 |

## Left out

- Loading and refreshing the library (`loadHeuristics`, `refreshFromCMS`) and the `localStorage` persistence effect: they are browser and network I/O.
- The `isLoading`, `isSyncing` and `isWixConnected` flags: they only drive spinners and badges.
- `exportToJSON` is `JSON.stringify`, a library call. `downloadFile` and `handleExport` are DOM and Blob plumbing.
- `generateId` uses the clock and `Math.random`. The record timestamps use `new Date().toISOString()`. Both are parameters of the model.
- The 150 ms timers of `goToStep` and `reset`: time is not modelled. The scheduled commits are a queue, fired in the order they were scheduled.
- The payloads sent to `wixCMS.updateHeuristic`: the remote side is an oracle, and only its success or failure is modelled. `src/services/wixCMS.js` and `src/services/wixClient.js` are not part of this model.
- `mobile-algorithm-builder-v4.jsx` is a static mock-up, and `vite.config.js` is build configuration.
- JSX rendering, styles, icons, hover state and the edit-mode widgets: they are presentation only.
- The scaling formula the output panel shows is reduced to whether it carries the "[100% max]" cap.
- `undefined`, `null` and `''` are one value, the empty string. A record field that holds a non-string is not modelled.
- DisplayText.Lower: the `i` flag's case folding is modelled on ASCII letters only, which is all the patterns contain.
- DisplayText.FormatConditionValue: the `lt_` and `gt_` steps are modelled, but no lemma states their own readings. The `lte_`, `gte_` and portrait readings, and the absence of '_', are proved.
- Store.HeuristicStore.AddHeuristic, DeleteHeuristic, UpdateStatus and UpdateHeuristicField: each runs to completion as one step, with the remote outcome as a parameter. The source awaits the CMS call in the middle (src/App.jsx:439, 468, 528 and 574), so another operation can run in between: a second click on Save while the first is pending, or an error set late by an earlier call. That interleaving is not modelled.
