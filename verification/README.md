# Kanban board, SQL*Plus helper and calendar picker — a Dafny model

This project models the logic of a small browser toolbox as pure Dafny functions and proves properties of them.

- **Kanban board** (`js/todo.js`). The `KanbanDB` IndexedDB store becomes one immutable value: four maps from id to record plus the set of task–label links. The model covers:
  - every store method;
  - the drag-and-drop ordering engine (fractional positions, the renumber trigger);
  - the sort and filter views;
  - the one-time migration from the old local-storage format;
  - backup export, import and restore;
  - adding and deleting columns;
  - the "changed since last export" flag.
- **SQL*Plus helper** (`js/sql.js`). The model covers:
  - the connection-environment list and its selection rule;
  - the environment form's validators;
  - the `sqlplus` command line;
  - the bind-variable script built from `TYPE_DEFS`.
- **Calendar picker** (`js/base/date_picker.js`). The model covers:
  - month and year navigation;
  - the per-year holiday cache;
  - the month grid;
  - `YYYY-MM-DD` formatting;
  - the holiday computation of Japan's Act on National Holidays (Act No. 178 of 1948): Article 2, and Article 3 paragraphs 2 and 3.
- **Recent-values list** (`js/base/local_storage.js`): `saveToStorage` and `saveToStorageWithLimit`.
- **Placeholder substitution**: `getString`, whose definition is the same in `js/base/common.js` and `js/common.js` (js/base/common.js also holds `createSelect`, which is not modelled).

Everything the browser supplies becomes a parameter:
- the clock (ISO timestamps, "today", `Date.now()`);
- fresh ids from IndexedDB's key generator;
- the results of `JSON.parse` and `confirm`/`prompt`.

Each store method is one atomic transition. A failed transaction leaves the state unchanged. Positions are exact `real`s, and all integers are unbounded.

Migrated notes are joined in their stored order (js/todo.js:455-457); see `Migration.DescriptionLines`.

Files, one module each:
- `wrappers.dfy`: `Option` and `Result`.
- Text helpers: `text.dfy`, `decimal.dfy`, `lex_order.dfy`.
- Recent values and substitution: `mru.dfy`, `placeholder.dfy`.
- Calendar: `calendar.dfy`, `holidays.dfy`, `date_picker.dfy`.
- SQL helper: `sql_env.dfy`, `sql_form.dfy`, `sql_command.dfy`.
- Kanban board:
  - `kanban_store.dfy`, `enumeration.dfy`, `backup.dfy`;
  - `sorting.dfy`, `ordering.dfy`, `board_view.dfy`;
  - `migration.dfy`, `columns.dfy`, `dirty.dfy`.

## Model

| member | source | states |
|---|---|---|
| KanbanStore.NewTask | js/todo.js:97-108 | The stored task takes the given title and column unless they are missing or empty, in which case it gets "(無題)" and "backlog". Description and due date are the given ones, or "" when missing. A missing position becomes 0 (an explicit one is kept). Both timestamps are the clock reading. |
| KanbanStore.AddTask | js/todo.js:97-114 | The new id joins the task keys and holds the record `NewTask` describes. Every other record and store is unchanged. |
| KanbanStore.UpdateTask | js/todo.js:116-129 | For an existing id, a field present in the patch replaces the stored one. An absent field keeps its old value. `updated_at` is always the new clock reading and `created_at` is kept. No other task or store changes. |
| KanbanStore.UpdateTaskThen | js/todo.js:116-129 | Two updates equal one update with the merged patch, in which the later field wins. |
| KanbanStore.UpdateTaskNoChange | js/todo.js:122 | An empty patch only refreshes `updated_at`. |
| KanbanStore.DeleteTask | js/todo.js:131-145 | Removes the task. Removes exactly the comments and links whose task id is the deleted one, and keeps every other record as it was. |
| KanbanStore.DeleteTaskKeepsIntegrity | js/todo.js:131-145 | After the cascade, no comment or link points at a missing task or label. |
| KanbanStore.DeleteAddTask | js/todo.js:97-145 | Deleting a freshly added task gives back the store exactly. |
| KanbanStore.AddComment | js/todo.js:153-161 | The new comment is stored under the fresh id with its task id and body. Nothing else changes. |
| KanbanStore.CommentRoundTrip | js/todo.js:153-170 | A comment on an existing task keeps integrity, and deleting it restores the store. |
| KanbanStore.AddLabel | js/todo.js:177-185 | Stores `{name, color}` under the fresh id and changes nothing else. |
| KanbanStore.DeleteLabel | js/todo.js:187-198 | Removes the label and exactly the links naming it. |
| KanbanStore.DeleteLabelKeepsIntegrity | js/todo.js:187-198 | The label cascade keeps every link pointing at existing records. |
| KanbanStore.DeleteAddLabel | js/todo.js:177-198 | Deleting a freshly added label restores the store. |
| KanbanStore.TaskLabelLaws | js/todo.js:204-220 | `addTaskLabel` is idempotent: it uses `put` on the pair key. `removeTaskLabel` undoes a new link. |
| KanbanStore.AddColumn | js/todo.js:227-235 | The add fails exactly when another column already has the key (the unique index). Otherwise the column is stored under the fresh id. |
| KanbanStore.ColumnsKeepUniqueKeys | js/todo.js:227-244 | Adding and deleting columns keep column keys unique. |
| KanbanStore.RenumberPositionsEffect | js/todo.js:276-287 | The i-th listed task is put back at position (i+1)*1000. Unlisted tasks are untouched. |
| KanbanStore.RenumberChangesPositionsOnly | js/todo.js:276-287 | When the list is the column as stored, only the positions change. |
| Backup.Listing | js/todo.js:247-252 | `getAll` lists each record once, with its stored value, in ascending id order. |
| Backup.ExportAll | js/todo.js:247-254 | The export carries version 2 and the clock reading, and lists every store. Links are in `[task_id, label_id]` key order and are exactly the stored ones. |
| Backup.PutAllLastWins | js/todo.js:264-268 | After the `put` loop, an id holds the last record listed under it. |
| Backup.PutAllUntouched | js/todo.js:264-268 | An id no record names keeps what it had. |
| Backup.PutAllListing | js/todo.js:264-268 | Putting a listing of a map into a store adds exactly that map. |
| Backup.PutColumnsListing | js/todo.js:268 | A listing of columns with unique keys goes in without a constraint error. |
| Backup.ImportAll | js/todo.js:257-270 | The import fails exactly when a column put breaks the unique key. Links are exactly those listed, and a missing list leaves that store empty. |
| Backup.ImportExport | js/todo.js:247-270 | Importing an export restores the store exactly, ids included. |
| Backup.AddDefaultColumns | js/todo.js:511-519 | On an empty columns store, the four default columns (backlog, in_progress, in_review, done at positions 0-3) all go in. |
| Backup.RestoreBackup | js/todo.js:496-539 | An unparsable file is refused. A parsed file is refused as badly formatted exactly when `version` is falsy in JavaScript's sense or `tasks` is missing; any truthy version, a string "2" included, passes. A well-formed file is cancelled exactly when the user does not confirm, and rejected exactly when, confirmed, the import fails. On success the tasks, comments, labels and links are those the import stores, the columns are the imported ones or, when there are none, the four defaults, and the flags read "just exported". |
| Backup.VersionTruthiness | js/todo.js:505 | The version test is JavaScript truthiness: "2", 2 and an object pass; missing, null, 0, "" and false fail. |
| Backup.RestoreOwnExport | js/todo.js:496-536 | Restoring one's own export brings the store back unchanged and clears the dirty flag. |
| Backup.RestoreWithoutColumns | js/todo.js:509-520 | A backup without columns comes back with exactly the four default columns. |
| Enumeration.Ascending | js/todo.js:247-252 | Lists a finite set once per element, in strictly ascending order. |
| Ordering.DropPosition | js/todo.js:1161-1170 | With both neighbours, the midpoint, which lies strictly between them when prev < next. With only prev, prev + 1000. With only next, next/2, which is between 0 and next for a positive next. With neither, 1000. |
| Ordering.MinGap | js/todo.js:1187-1188 | The minimum gap between neighbours, attained at some pair. It is absent exactly for fewer than two positions. |
| Ordering.NeedsRenumberIff | js/todo.js:1187-1191 | Renumbering is triggered exactly when two neighbours are closer than 0.001. It never fires for fewer than two cards. |
| Ordering.RenumberedGaps | js/todo.js:276-287 | After renumbering, neighbours are exactly 1000 apart, so the trigger no longer fires. |
| Ordering.AppendPosition | js/todo.js:1476-1478 | In a column ordered by position, a card added or moved there lands after every card: one step (1000) past the last cached card, or at 1000 in an empty column. |
| Ordering.AppendKeepsOrder | js/todo.js:1337-1342 | Pushing the new card onto an ordered column's cached list keeps it ordered by position, with the new card last and the others in place. |
| Ordering.PlaceCardBetween | js/todo.js:1161-1184 | The dropped card is stored in the target column. Its position lies strictly between ordered neighbours, is one step past a last neighbour, half of a first neighbour's, or one step when the column has no neighbours. Every other card is stored as before. |
| Ordering.SettleOrders | js/todo.js:1184-1191 | The column list ends up sorted by position with as many cards. When no gap is too small, the store is untouched and the cards are the same. Otherwise the renumbered list holds the same card ids, as often, and no longer triggers renumbering. |
| Ordering.OnEndIgnores | js/todo.js:1124-1129 | A drop without both columns or without a usable id changes nothing. |
| Ordering.OnEndSortActive | js/todo.js:1131-1148 | With a sort active, a cross-column drop stores only the new column; the position and every other field are kept. A drop within a column stores nothing. The board is marked dirty either way. |
| Sorting.SortBySorted | js/todo.js:317 | With a total-preorder comparator, the sorted copy is ordered. |
| Sorting.SortByOrderedInput | js/todo.js:317 | An input that is already ordered comes back unchanged. |
| BoardView.Compare | js/todo.js:325 | -1, 0 or 1 exactly as the first string is less than, equal to or greater than the second in JavaScript's UTF-16 code-unit order. |
| BoardView.ComparatorIsTotal | js/todo.js:317-327 | The comparator of `sortTasksArray` is a total preorder for every field and direction. |
| BoardView.SortTasksOrders | js/todo.js:315-328 | Without a field the list comes back unchanged. Otherwise the result is a permutation ordered by the comparator. |
| BoardView.SortedPairMeaning | js/todo.js:318-326 | For two cards in sorted order, the field values ascend, or descend for "desc". By due date, an undated card is followed only by undated ones. |
| BoardView.UndatedLast | js/todo.js:320-324 | Sorting by due date puts every undated card after every dated one, in both directions. |
| BoardView.SortTasksKeepsOrdered | js/todo.js:317 | A list already in order is returned as it is. |
| BoardView.VisibleIff | js/todo.js:369-388 | A card is visible iff two conditions hold. First, the text is empty or the lower-cased title contains the lower-cased text. Second, no label is selected or the card's labels meet the selection. |
| BoardView.InactiveShowsAll | js/todo.js:369-387 | An inactive filter shows every card. |
| BoardView.NarrowingText | js/todo.js:369-381 | Typing more text only hides cards, and the text's case does not matter. |
| BoardView.WideningLabels | js/todo.js:383-386 | Selecting one more label only shows more cards. |
| BoardView.ColumnCount | js/todo.js:389-394 | The badge shows the cached count when the filter is inactive, and never more than the cards present. |
| BoardView.ColumnCountCounts | js/todo.js:373-394 | While the filter is active, the badge is the number of positions in the list whose card the filter shows. |
| BoardView.FilterExample | js/todo.js:369-387 | "ToDo" matches "Write todo list". The label selection {1} rejects a card labelled {2, 5}. |
| Migration.ColumnOf | js/todo.js:444-448 | Groups 0-3 go to backlog, in_progress, in_review and done. Every later group goes to done. |
| Migration.AddTasksStores | js/todo.js:458-464 | The k-th migrated task is stored under the k-th fresh id, with the record `addTask` builds. |
| Migration.AddTasksKeeps | js/todo.js:458-464 | Migrated ids join the old ones. Old tasks and the other stores are unchanged. |
| Migration.RunMapsEachTask | js/todo.js:436-470 | Old task k of group g lands in column ColumnOf(g) at position g*1000+t*10. Its title is its name or "(無題)", its description comes from its notes, and its due date is its date or "". The old key is removed. |
| Migration.RunNoOp | js/todo.js:437-442 | A missing or empty old key, unparsable text or a non-array changes nothing and keeps the key. |
| Migration.PositionsOrdered | js/todo.js:462 | Positions strictly increase within a group. A group's first hundred tasks come before the next group's. |
| Migration.PositionsCollide | js/todo.js:447-462 | Task 100 of group 3 and task 0 of group 4 get the same position in the same "done" column. |
| Migration.DescriptionLines | js/todo.js:455-457 | The description splits back into the note lines in their stored order. Links are "val url" trimmed. |
| Columns.MaxPosition | js/todo.js:1633 | The largest column position, attained by some column, or -1 for none. |
| Columns.OnAddColumn | js/todo.js:1630-1643 | A cancelled or blank name changes nothing, and so does a key the store refuses. Otherwise the trimmed name is stored under key "col_"+milliseconds at position max+1, shown last with an empty card list, and the board is marked dirty. |
| Columns.AddColumnLast | js/todo.js:1630-1643 | The screen list keeps mirroring the store, and keys stay unique. The add changes nothing exactly when the key is already taken. The new column's position exceeds every existing one. |
| Columns.OnDeleteColumn | js/todo.js:1646-1663 | Refused while the column's cached list is non-empty, and dropped when not confirmed. Otherwise only that column's record leaves the store, only its entry leaves the cache, it leaves the screen list, and the board is marked dirty. |
| Columns.AddThenDelete | js/todo.js:1630-1663 | Deleting a just-added empty column restores the store, the cache and the screen list. |
| Columns.DeleteKeepsSynced | js/todo.js:1655-1657 | A delete keeps the screen list mirroring the store. |
| Dirty.Reloaded | js/todo.js:1748-1751 | On start-up the flag is off when no dirty time is stored. With no export time stored, it is on iff a non-empty dirty time is stored. |
| Dirty.ReloadAgrees | js/todo.js:359-363 | While the clock moves forward, the in-memory flags after a change or an export (which a restore also records) are exactly what a reload computes. |
| LexOrder.LessTotal | js/todo.js:325 | String `<`, which compares UTF-16 code units, is total on distinct strings. |
| LexOrder.Utf16Injective | js/todo.js:325 | Distinct strings have distinct UTF-16 encodings. |
| LexOrder.CodeUnitOrder | js/todo.js:325 | When two strings start with different characters below U+10000, the one with the smaller first character sorts first. A first character above U+FFFF (a surrogate pair) sorts below any first character from U+E000 to U+FFFF. |
| LexOrder.PinBeforeFullWidth | js/todo.js:325 | "📌a" sorts before "（急）" and not after it, although U+1F4CC is above U+FF08. |
| LexOrder.LessTransitive | js/todo.js:325 | String `<` is transitive. |
| LexOrder.EmptyIsLeast | js/todo.js:1750 | "" is below every non-empty string. |
| SqlEnv.LoadEnvs | js/sql.js:20-31 | The stored list is used, or the defaults when it is missing or unparsable. The selection names an environment, or is empty when the stored list is empty. |
| SqlEnv.LoadEnvsSelection | js/sql.js:27-30 | The stored selection is kept iff it is non-empty and some environment has that key. Otherwise the first key is chosen, or "" for an empty list. |
| SqlEnv.GetSelectedEnv | js/sql.js:40-42 | Returns an environment of the list, or the first default when the list is empty. |
| SqlEnv.GetSelectedEnvMatches | js/sql.js:40-42 | With a valid selection, the returned environment has the selected key. |
| SqlEnv.FindKey | js/sql.js:41 | Finds an environment with the key exactly when one exists. |
| SqlEnv.AddEnv | js/sql.js:270-284 | Rejected iff the key, user or connect identifier is empty, or the key exists; the list is then unchanged. Otherwise exactly one entry is appended. |
| SqlEnv.AddEnvKeepsInvariants | js/sql.js:270-284 | An accepted add keeps keys unique and the selection valid. |
| SqlEnv.DeleteEnv | js/sql.js:286-299 | Refused with at most one environment, and dropped when not confirmed. Otherwise the key's entries are removed. A removed selection moves to the first remaining key. |
| SqlEnv.DeleteEnvKeepsInvariants | js/sql.js:286-299 | Deleting keeps the selection valid and the keys unique. With unique keys it removes exactly one entry. |
| SqlEnv.DeleteEnvCanEmptyList | js/sql.js:287-292 | The guard counts entries, not keys: a list of two entries with one key can be emptied. |
| SqlEnv.ImportEnvJson | js/sql.js:318-345 | Accepted iff the data is a non-empty array whose every entry has a key, user and connect identifier. The list is then replaced and the first key selected. |
| SqlEnv.ImportEnvJsonValid | js/sql.js:318-345 | An accepted import leaves a valid selection. |
| SqlForm.CheckAccepts | js/sql.js:153-181 | The form is accepted iff every trimmed field passes its check. The connect identifier is host:port/service, with port 1521 by default. |
| SqlForm.CheckFirstError | js/sql.js:153-179 | Each of the eight errors (empty key, empty or bad user, empty or bad host, bad port, empty or bad service) is reported exactly when its check is the first to fail, in the handler's order. |
| SqlForm.NamesHaveNoSeparators | js/sql.js:157-179 | Checked user, host, port and service names contain none of the separators `/`, `@` and `:`. |
| SqlForm.ConnectIdentifierSplits | js/sql.js:180-181 | The connect identifier splits back into host, port and service. |
| SqlForm.SubmitForm | js/sql.js:143-185 | An accepted form adds exactly one entry and keeps the selection. A form that fails validation reports the validation error. |
| SqlForm.SubmitFormAdds | js/sql.js:180-185 | A valid form is added unless its key is taken. |
| SqlCommand.ConnCommandWords | js/sql.js:418-428 | The command is "sqlplus", then the checked flags, then user/pass@conn, then the trimmed extra text when non-empty, all joined by spaces. |
| SqlCommand.CheckedFlagsExact | js/sql.js:421-423 | Exactly the flags of the checked options appear, in option order. |
| SqlCommand.ParamTextLines | js/sql.js:645-681 | The script is the VAR and EXEC lines of the used rows with a known type, two per row in row order, each followed by a newline. |
| SqlCommand.ParamTextAppend | js/sql.js:647-679 | The script of two row lists is the concatenation of their scripts. |
| SqlCommand.RowLinesShape | js/sql.js:657-677 | VAR names the variable (B{no} when blank) and the type, with "(len)" only for a non-DATE type with a length. The second line is an `EXEC :` assignment. |
| SqlCommand.ExecValueByType | js/sql.js:667-677 | DATE gives TO_DATE('v','YYYY-MM-DD'), with today when v is empty. NVARCHAR2 gives N'v', VARCHAR2/CHAR give 'v', and NUMBER gives v, or 0 when empty. |
| SqlCommand.TypeDefKeys | js/sql.js:56-62 | Exactly the five listed types are known, each named by its key. DATE is the only one with no length. |
| DatePicker.ActionOf | js/base/date_picker.js:118-189 | Only the eleven action names act. `pick-date` carries the button's date. |
| DatePicker.KeyActionCases | js/base/date_picker.js:93-103 | Only the four arrow keys act, each moving one month or one year. |
| DatePicker.FormatParse | js/base/date_picker.js:250-254 | Reading back a formatted date (four-digit year) gives the date. |
| DatePicker.ParseFormat | js/base/date_picker.js:141 | Formatting a parsed YYYY-MM-DD string, whose year has no leading zero, gives back the string. |
| DatePicker.RefreshMakesFresh | js/base/date_picker.js:196-202 | After a refresh the cache holds the shown year's holidays. A cached year is not recomputed, and only the cache fields change. |
| DatePicker.OpenShows | js/base/date_picker.js:65-90 | Opening shows the given date's month (today's when empty), selects the date and leaves the cache fresh. A malformed date is the only failure. |
| DatePicker.Navigation | js/base/date_picker.js:120-139 | prev-month and next-month move the month count by exactly one, wrapping the month in 0..11 and changing the year only on wrap. prev-year and next-year change only the year. |
| DatePicker.NextPrevMonthInverse | js/base/date_picker.js:130-139 | next-month then prev-month returns to the same month. |
| DatePicker.HandleActionKeepsFresh | js/base/date_picker.js:118-190 | Every action keeps the cache fresh and the month in range. |
| DatePicker.QuickButtons | js/base/date_picker.js:144-172 | today, tomorrow and month-end select that day and show its month. |
| DatePicker.Closing | js/base/date_picker.js:173-188 | confirm passes the selected date as YYYY-MM-DD to a registered select callback. An invalid date is passed as "NaN-NaN-NaN", and nothing is passed when no date is selected. clear calls a registered clear callback, and cancel calls nothing. All three close the picker. |
| DatePicker.CellShape | js/base/date_picker.js:239-261 | A day button sits in its weekday's grid column. It gets the Sunday class for a Sunday or holiday, and otherwise the Saturday class for a Saturday. It is marked selected iff it is the picked date, and today iff it is today. |
| DatePicker.RenderShape | js/base/date_picker.js:205-272 | One button per day of the month, in order, after as many blanks as the first weekday. |
| DatePicker.RenderSelectsAtMostOne | js/base/date_picker.js:263-267 | At most one button is marked selected. |
| DatePicker.PickRenderedDate | js/base/date_picker.js:140-143 | Clicking a button selects exactly the date it shows. |
| Calendar.NextDay | js/base/date_picker.js:339-343 | The following day is a valid date. It is either the 1st or in the same month and year. |
| Calendar.NextDayFollows | js/base/date_picker.js:339-343 | The following day is exactly one day number later and one weekday later. |
| Calendar.KnownWeekdays | js/base/date_picker.js:292 | The weekday function agrees with the real calendar at reference points. |
| Calendar.YearLength | js/base/date_picker.js:338-344 | Leap years have 366 days and other years 365. |
| Holidays.EquinoxRange | js/base/date_picker.js:316-318 | Over 1980-2099 the approximated equinoxes fall on March 19-21 and September 22-23. |
| Holidays.NthWeekdayCorrect | js/base/date_picker.js:291-295 | The n-th weekday lies in [7(n-1)+1, 7n] and has the requested weekday. |
| Holidays.FixedDaysEras | js/base/date_picker.js:298-307 | 02-23 is a fixed holiday iff year ≥ 2020, and 08-11 iff year ≥ 2016. No September day is fixed. |
| Holidays.FixedHolidays | js/base/date_picker.js:298-307 | 01-01, 02-11, 04-29, 05-03..05, 11-03 and 11-23 are holidays every year. |
| Holidays.Article2Eras | js/base/date_picker.js:298-320 | Before substitutes, 02-23 is a holiday iff year ≥ 2020, and 08-11 iff year ≥ 2016. |
| Holidays.Article2Members | js/base/date_picker.js:298-320 | Article 2 holidays are exactly the fixed days, the four Happy Mondays and the two equinoxes. |
| Holidays.HappyMondays | js/base/date_picker.js:310-313 | The 2nd Monday of January and October, and the 3rd Monday of July and September, are holidays on Mondays in the right week. |
| Holidays.CitizensDayIsTuesday | js/base/date_picker.js:325-326 | The day after Respect for the Aged Day is always a Tuesday. |
| Holidays.CitizensHoliday | js/base/date_picker.js:322-329 | Before substitutes, 09-(agingDay+1) is a holiday iff the autumnal equinox is one or two days after Respect for the Aged Day. One day after, it is the equinox itself. Two days after, it is the sandwiched Citizens' Holiday. |
| Holidays.FirstFreeIsFirst | js/base/date_picker.js:341-344 | The substitute search returns the first day not blocked; every skipped day was blocked. |
| Holidays.SubstitutesAreNew | js/base/date_picker.js:331-347 | Substitute days are distinct and none was a holiday already. |
| Holidays.SundayHolidaysCovered | js/base/date_picker.js:331-347 | After every Sunday holiday, the following days stay holidays up to and including a substitute day that was not a holiday before (or for all 367 days checked). |
| Holidays.SubstituteDaysOrigins | js/base/date_picker.js:331-347 | The substitute pass adds only substitutes. The j-th added day comes from its own Sunday holiday of the snapshot, and those holidays appear in the snapshot's order, so no two added days share one. It is the first day after that holiday that is neither in the snapshot nor among the days added before it. |
| Holidays.HolidaysKeepArticle2 | js/base/date_picker.js:347 | The substitute pass keeps every holiday it started from. |
| Holidays.ComputeHolidaysDefined | js/base/date_picker.js:275-282 | Over 1980-2099 the year's holidays are well defined. |
| Mru.SaveToStorage | js/base/local_storage.js:9-12 | Nothing is stored when a validator is given and rejects the value. Otherwise the value is stored. |
| Mru.SaveTwice | js/base/local_storage.js:9-12 | Of two saves under one key the later accepted value is kept; a rejected later value leaves the earlier save; saving a value again changes nothing. |
| Mru.SaveWithLimit | js/base/local_storage.js:14-36 | A rejected value leaves the list unchanged. An accepted one ends up at index 0. |
| Mru.SaveWithLimitKeepsOrder | js/base/local_storage.js:29-35 | The other entries keep their relative order. |
| Mru.SaveWithLimitContents | js/base/local_storage.js:29-35 | A value already present only moves to the front. When the list is full, a new one drops the oldest entry. |
| Mru.SaveWithLimitBounded | js/base/local_storage.js:32-33 | A list within maxSize stays within it. |
| Mru.SaveWithLimitUnique | js/base/local_storage.js:29-35 | From a list without duplicates, the value ends up exactly once and no duplicate appears. |
| Mru.SaveWithLimitAsWritten | js/base/local_storage.js:35 | As written, every accepted save throws and nothing is stored. |
| Mru.AsWrittenNeverStores | js/base/local_storage.js:35 | Saving "x" into an empty list stores nothing, where the documented behaviour gives ["x"]. |
| Placeholder.ReplaceAllAbsent | js/base/common.js:30 | Replacing a key that does not occur changes nothing. |
| Placeholder.ReplaceAllSelf | js/common.js:30 | Replacing a key by itself changes nothing. |
| Placeholder.ReplaceAllLeftmost | js/base/common.js:30 | The leftmost occurrence is replaced first, and scanning resumes after it: occurrences do not overlap. |
| Placeholder.GetString | js/base/common.js:26-33 | With no params, or an empty object, the origin is returned unchanged. |
| Placeholder.ApplyAllSequential | js/base/common.js:28-31 | Replacements apply one key at a time, in key order. |
| Placeholder.GetStringNoKeyOccurs | js/common.js:26-33 | When no key occurs in the origin, the origin is returned. |
| Placeholder.GetStringSelfKeys | js/common.js:29-31 | Keys mapped to themselves leave the origin unchanged. |
| Placeholder.GetStringChains | js/base/common.js:29-31 | The fold is not simultaneous: with a→b then b→c, "a" becomes "c". |
| Text.SplitJoin | js/todo.js:456 | Splitting a join undoes it when no piece contains the separator. |
| Text.LowerIdempotent | js/todo.js:369-380 | Lower-casing twice equals lower-casing once. |

## Left out

- IndexedDB, localStorage, Promises and transaction callbacks. Each store method is one atomic transition. A failed transaction (a `ConstraintError` on the column key index) leaves the store unchanged.
- Key generation. Fresh ids are parameters, required to be unused.
- Clock reads (`new Date().toISOString()`, `Date.now()`, today's date). These are parameters.
- Everything DOM-bound: rendering, toasts, modals, `renderFilterLabels`, `renderTextWithLinks`, `createSelect` (it calls `getStorages`, which is not part of this model), the sql.js row construction and `updateFields`, `renderTuneGrid`, `js/index.js` and `js/home.js`.
- `JSON.parse`/`stringify`, file reading, downloads, the clipboard and `window.open`. A parse result is an input: a datatype with a case for unparsable text. Fields of the wrong JSON type are not modelled.
- `confirm` and `prompt`. Their answers are inputs.
- Floating point. Positions are exact reals, so the precision loss that motivates the 0.001 threshold is not captured.
- Holidays.EquinoxOf: the approximation at js/base/date_picker.js:316-318 is evaluated in exact rational arithmetic, not IEEE doubles.
- DatePicker.YearHolidays: gives no holidays for a year whose approximated equinox falls outside March 1-31 or September 1-30. The source would still compute keys for such years, which lie far outside 1980-2099.
- Holidays.FirstFree: the substitute search runs on fuel 366. A year has fewer days than that, so the search never runs out for a real year. The bound is not proved in general.
- Holidays.Article2Eras: states only the two era-dependent days before substitutes are added, not for the final set.
- JavaScript `Date` years 0-99, which `new Date(y, m, d)` maps to 1900-1999, and V8's lenient date parsing. `ParseIsoDate` accepts only strict `YYYY-MM-DD`.
- DatePicker.Open: a non-empty `dateStr` that is not a date gives `None`. It stands for the NaN year and month the source is left with.
- `$` patterns in `replaceAll` replacement strings, and empty keys. Keys must be non-empty and values free of `$`.
- Prototype keys of `TYPE_DEFS` such as `toString`: only the five own keys are modelled.
- Text.Lower: only ASCII letters are lower-cased; `toLowerCase` on other scripts is not modelled.
- BoardView.SortTasks: the sort fields are the text fields of a task. Sorting by the numeric `id` or `position` is not modelled.
- Sorting.SortBy: the insertion sort stands for `Array.prototype.sort`. Stability is shown for already ordered input, and a permutation ordered by the comparator for every input. The engine's exact order of equal elements in general is not modelled.
- Ordering.OnEnd: needs the target column's key in the card cache, as every column rendered on the board has one. Dropping on a column whose key is missing from the cache is not modelled.
- Backup.ImportAll: a column list that breaks the unique key aborts the whole import, and the store is left as it was before. Records without ids and stores given as non-arrays are not modelled.
- SqlEnv.ImportEnvJson: entry fields are strings or missing. The source's `!e.key` test also accepts a truthy non-string such as `"key": 5`, and stores it unchanged. Such entries are not modelled, because an environment's fields are strings throughout.
- The older `DatePicker` object inside js/todo.js:555-716. It shares most actions with js/base/date_picker.js but has no year buttons and adds a `goto-today` action (js/todo.js:691-697) that shows today's month without selecting it. Only js/base/date_picker.js is modelled.
- SortableJS drag capture. A drop arrives as the columns, the card id and its neighbours' ids.
- `getCommentsByTask` ordering and the other read-only queries. They only filter the maps.

## Findings

| source | as written | input that shows it | evidently intended | confidence | as-written member | corrected member |
|---|---|---|---|---|---|---|
| js/base/local_storage.js:35 | `storageValues.unshift(val)` names an undeclared `val`, so every accepted call throws a ReferenceError before anything is stored | `saveToStorageWithLimit("k", "x", 5)` with no stored list | `unshift(value)`: the value goes to the front of the de-duplicated, size-capped list, as the comment at lines 14-22 describes | not executed | Mru.AsWrittenNeverStores | Mru.SaveWithLimit |
