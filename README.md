# Diary entry engine

A Dafny model of the entry engine inside the personal diary manager's JavaFX
window (`DiaryApp.java`). The diary keeps one HTML document per calendar date
in a directory, as files named `<date>.html`. It keeps an index of known dates,
newest first. It also tracks the date being edited and the content last
loaded or saved for that date. The engine has these parts:

- `DateKey` (date_key.dfy): the date as `java.time.LocalDate` holds it, its
  order, and the file name codec. The name is the date rendered by
  `LocalDate.toString` in the calendar-date extended format `YYYY-MM-DD`
  (section 4.1.2.2 of ISO 8601:2004), followed by `.html`. Decoding takes the
  name, drops its last five characters and parses the rest strictly.
- `EntryIndex` (entry_index.dfy): the index as a list of dates. It covers
  "add, then sort with `Comparator.reverseOrder()`", "remove the first
  occurrence", and the order facts these keep.
- `Search` (search.dfy): the predicate the search box installs on the
  filtered list, and the list it shows.
- `Diary` (diary.dfy): class `DiaryEngine`. Its four fields follow the
  application's state:
  - `store` is the diary directory, as a map from file name to content.
  - `entries` is the index.
  - `currentDate` is an `Option` standing for the nullable field.
  - `currentContent` is the synced content.

  The load and save tasks are each split into three steps: the code that
  starts the task, its `call()` and its `succeeded()`. Each step is one
  atomic method. `LoadRound` and `AutoSaveRound` run the three steps back to
  back. The rebuild task of `loadAllEntries` has no `succeeded()` and is one
  method, `LoadAllEntries`.

An I/O failure is a `bool` parameter, `ioError`, of the step that would
throw. The editor's current HTML is a string parameter of the auto-save tick.

In four places the code behaves differently from what a reader might
expect; the model follows the code:

- Completions are applied unconditionally. A load or save that finishes after
  the user has switched dates still sets `currentContent`. `LoadSucceeded`
  and `SaveSucceeded` do not look at `currentDate`.
- Nothing keeps two saves from overlapping. Every tick that finds the buffer
  dirty starts a new save.
- `loadOrCreateDate` adds a date to the index without creating its file. The
  file appears only at the first successful save. So the index may hold dates
  that have no file. The model proves that the index matches the files only
  right after `LoadAllEntries`.
- A failed load still switches dates. `loadEntry` sets `currentDate` before
  the read (line 241), and its `failed()` leaves `currentContent` and the
  editor holding the previous date's document. The next tick finds the
  buffer unchanged and saves nothing, but any edit then makes it dirty
  (lines 304-307), and the save writes that text into the new date's file
  (lines 323-329). `LoadRound` with `ioError` keeps `currentContent` and
  makes the new date current, so `AutoSaveRound` afterwards writes to that
  date's file.

Modelling assumptions:

- Dates are restricted to years 0 to 9999, the years `LocalDate.toString`
  writes as four digits. Months run 1 to 12, and days are checked against
  the Gregorian month lengths.
- `toLowerCase` is modelled on ASCII letters only.
- `isBlank` uses the characters `Character.isWhitespace` accepts.

## Model

| member | source | states |
|---|---|---|
| `DateKey.ParseFormat` | src/chapter4_challenge_diarymanager_gui/DiaryApp.java:215 | parsing the text `LocalDate.toString` gives for a date returns that same date |
| `DateKey.Parse` | src/chapter4_challenge_diarymanager_gui/DiaryApp.java:215 | `LocalDate.parse` accepts only canonical `YYYY-MM-DD` text: a parsed date formats back to exactly the input text |
| `DateKey.Format` | src/chapter4_challenge_diarymanager_gui/DiaryApp.java:149 | a date's text, as `date + ".html"` uses it, is ten characters long |
| `DateKey.FormatPads` | src/chapter4_challenge_diarymanager_gui/DiaryApp.java:242 | a year below 1000, 100 or 10 is written with one, two or three leading zeros, and a month or day below 10 with one |
| `DateKey.FileName` | src/chapter4_challenge_diarymanager_gui/DiaryApp.java:242 | a date's file name (`date + ".html"`) matches the `*.html` glob; dropping its last 5 characters gives the date's text; decoding the name gives back the date |
| `DateKey.DecodeFileName` | src/chapter4_challenge_diarymanager_gui/DiaryApp.java:210-215 | a name that decodes matches the glob, and its stem without the last 5 characters is exactly the decoded date's text |
| `DateKey.Before` | src/chapter4_challenge_diarymanager_gui/DiaryApp.java:223 | the natural date order behind `Comparator.reverseOrder()` agrees with a numeric rank of (year, month, day) |
| `DateKey.DecodeFileNameIff` | src/chapter4_challenge_diarymanager_gui/DiaryApp.java:210-215 | a listed name decodes to date d if and only if it is d's file name, so every other name is skipped |
| `DateKey.FileNameInjective` | src/chapter4_challenge_diarymanager_gui/DiaryApp.java:242 | two distinct dates never resolve to the same file |
| `DateKey.BeforeIsStrictTotalOrder` | src/chapter4_challenge_diarymanager_gui/DiaryApp.java:223 | the (year, month, day) order used for sorting is irreflexive, asymmetric, transitive and total |
| `EntryIndex.InsertDescending` | src/chapter4_challenge_diarymanager_gui/DiaryApp.java:234 | inserts one date into a descending list: the result is descending, has the old elements plus the new one, and has no duplicates if the input had none and lacked the date |
| `EntryIndex.SortDescending` | src/chapter4_challenge_diarymanager_gui/DiaryApp.java:223 | sorting with `Comparator.reverseOrder()` gives a descending permutation of its input, duplicate-free when the input is |
| `EntryIndex.SortedIndex` | src/chapter4_challenge_diarymanager_gui/DiaryApp.java:223 | sorting a duplicate-free list gives a strictly newest-first list of exactly the same dates |
| `EntryIndex.NewestFirstUnique` | src/chapter4_challenge_diarymanager_gui/DiaryApp.java:223 | two newest-first lists that hold the same dates are equal |
| `EntryIndex.InsertIntoIndex` | src/chapter4_challenge_diarymanager_gui/DiaryApp.java:232-235 | adding an absent date and re-sorting keeps the index newest first; the result holds the old dates plus the new one |
| `EntryIndex.RemoveFirstIsFirst` | src/chapter4_challenge_diarymanager_gui/DiaryApp.java:284 | `remove(Object)` removes exactly the first occurrence of the date: the elements before it and after it stay, in order |
| `EntryIndex.RemoveFirst` | src/chapter4_challenge_diarymanager_gui/DiaryApp.java:284 | `remove(Object)` removes one occurrence of the date, leaves a list without the date unchanged, and keeps the remaining elements in their relative order |
| `EntryIndex.RemoveFromIndex` | src/chapter4_challenge_diarymanager_gui/DiaryApp.java:284 | removing from a newest-first index leaves it newest first, with the date gone and every other date kept |
| `EntryIndex.SubsequenceKeepsNewestFirst` | src/chapter4_challenge_diarymanager_gui/DiaryApp.java:141-142 | any order-preserving selection from a newest-first list is newest first |
| `Search.IsBlank` | src/chapter4_challenge_diarymanager_gui/DiaryApp.java:144 | the empty string is blank, and lower-casing leaves a blank string as it is |
| `Search.Contains` | src/chapter4_challenge_diarymanager_gui/DiaryApp.java:153 | every text contains the empty string and itself; a text contains only patterns no longer than itself |
| `Search.Visible` | src/chapter4_challenge_diarymanager_gui/DiaryApp.java:144-157 | a date the predicate accepts under a non-blank query has a file whose content is at least as long as the query (its acceptance under a blank query and its case-insensitivity are stated by `Search.BlankQueryShowsAll`, `Search.Filter` and `Search.SearchIgnoresCase`) |
| `Search.Lower` | src/chapter4_challenge_diarymanager_gui/DiaryApp.java:147 | lower-casing keeps the length of the text |
| `Search.Filter` | src/chapter4_challenge_diarymanager_gui/DiaryApp.java:141-157 | the shown list is an order-preserving subsequence of the index; a date is shown if and only if it is in the index and the predicate accepts it; under a non-blank query every shown date has a file |
| `Search.BlankQueryShowsAll` | src/chapter4_challenge_diarymanager_gui/DiaryApp.java:144-145 | a null or blank query shows the whole index, in order |
| `Search.FilterKeepsOrder` | src/chapter4_challenge_diarymanager_gui/DiaryApp.java:141-142 | the list shown for a newest-first index is newest first |
| `Search.SearchIgnoresCase` | src/chapter4_challenge_diarymanager_gui/DiaryApp.java:147-153 | two queries that differ only in letter case show the same dates |
| `Search.LowerKeepsBlank` | src/chapter4_challenge_diarymanager_gui/DiaryApp.java:144-147 | lower-casing does not change whether a query is blank |
| `Search.VacationExample` | src/chapter4_challenge_diarymanager_gui/DiaryApp.java:147-157 | given "Went to the beach" on 2024-01-01 and "Planning a VACATION" on 2024-01-02, the query "vacation" shows only 2024-01-02 |
| `Diary.WriteThenRead` | src/chapter4_challenge_diarymanager_gui/DiaryApp.java:248-251 | after a date's file is written with some text, a load of that date (the document `ReadDocument` reads, lines 248-251) yields the text; loading any other date yields what it yielded before |
| `Diary.DeleteThenRead` | src/chapter4_challenge_diarymanager_gui/DiaryApp.java:248-251 | after a date's file is deleted, loading that date yields the empty document `<html><body></body></html>`; other dates are unaffected |
| `Diary.RebuiltIndexIsUnique` | src/chapter4_challenge_diarymanager_gui/DiaryApp.java:210-223 | the index a rebuild produces is fixed by the files alone, whatever order the directory lists them in |
| `Diary.DiaryEngine.constructor` | src/chapter4_challenge_diarymanager_gui/DiaryApp.java:33-36 | the application starts with an empty index, no current date and empty synced content |
| `Diary.DiaryEngine.LoadAllEntries` | src/chapter4_challenge_diarymanager_gui/DiaryApp.java:205-228 | after a rebuild the index holds exactly the dates whose file exists, newest first and without duplicates; when the listing cannot be opened the index is unchanged |
| `Diary.DiaryEngine.LoadOrCreateDate` | src/chapter4_challenge_diarymanager_gui/DiaryApp.java:230-238 | afterwards d is the current date and in the index; the index stays newest first and holds the old dates plus d; if d was already present the index is unchanged |
| `Diary.DiaryEngine.LoadEntry` | src/chapter4_challenge_diarymanager_gui/DiaryApp.java:240-243 | starting a load makes the date current at once |
| `Diary.DiaryEngine.ReadEntryFile` | src/chapter4_challenge_diarymanager_gui/DiaryApp.java:247-252 | the load task returns the file's content when the file exists, otherwise exactly the empty document; it fails only on a read error of an existing file; what it returns is the document a load of the date reads (`ReadDocument`) |
| `Diary.DiaryEngine.LoadSucceeded` | src/chapter4_challenge_diarymanager_gui/DiaryApp.java:255-261 | a completed load sets the synced content to the loaded value, whatever the current date is by then |
| `Diary.DiaryEngine.LoadRound` | src/chapter4_challenge_diarymanager_gui/DiaryApp.java:240-271 | loading d makes it current; on success the synced content is d's stored document or the empty document; on failure it is unchanged |
| `Diary.DiaryEngine.DeleteEntry` | src/chapter4_challenge_diarymanager_gui/DiaryApp.java:280-295 | a confirmed delete removes d's file and d from the index; other entries keep their order; deleting a date without a file leaves the directory unchanged and deleting a date not in the index leaves the index unchanged; the session is cleared exactly when d was current; an I/O error changes nothing |
| `Diary.DiaryEngine.AutoSaveTick` | src/chapter4_challenge_diarymanager_gui/DiaryApp.java:303-310 | a tick issues a save if and only if a date is current and the editor's text differs from the synced content; the save targets that date with that text; otherwise nothing happens |
| `Diary.DiaryEngine.SaveCurrentEntry` | src/chapter4_challenge_diarymanager_gui/DiaryApp.java:321-326 | without a current date nothing is saved; otherwise the save's target is fixed to the date current at dispatch |
| `Diary.DiaryEngine.WriteEntryFile` | src/chapter4_challenge_diarymanager_gui/DiaryApp.java:328-331 | the save task writes the text to the dispatched date's file and changes no other file; on failure the directory is unchanged |
| `Diary.DiaryEngine.SaveSucceeded` | src/chapter4_challenge_diarymanager_gui/DiaryApp.java:334-338 | a completed save sets the synced content to the saved text, whatever the current date is by then |
| `Diary.DiaryEngine.AutoSaveRound` | src/chapter4_challenge_diarymanager_gui/DiaryApp.java:303-344 | after a tick and its save: on success a load of the date yields the text, the session is clean, and other dates read as before; on failure the directory and synced content are unchanged, so the next tick saves again |

## Left out

- Window construction, layout, list cell formatting, the theme (`loadTheme`), the date picker and the buttons: these are presentation only. The `HTMLEditor` and `WebView` are left out too; the editor's text is a parameter of the tick.
- Threads, `Task`, `Platform.runLater` and `java.util.Timer` are not modelled. Each task step is one atomic method, and interleavings are not modelled. That covers the race between the start-up rebuild and `loadOrCreateDate(LocalDate.now())` at line 180, and the order in which the rebuild's `runLater` calls run.
- `startAutoSave` / `stopAutoSave`, the focus listener and the 5-second schedule: the timer is reduced to its tick body.
- `showProgress`, `showError` and the confirmation `Alert`: delete is modelled as already confirmed. The load task's `failed()` only reports an error and changes no engine state, so it has no method.
- `createDiaryDirectory` and the `Files.exists(diaryDir)` test in `loadAllEntries`: the directory is assumed to exist.
- LoadAllEntries: only a failure to open the listing is modelled. An error raised part-way through the iteration is not.
- DeleteEntry: the model has no selection listener. Removing the selected date from `entries` at line 284 changes the filtered list behind the list view (lines 141-142), and the list view may then select another row. That would fire the listener at lines 162-166, whose `loadEntry` changes `currentDate` before the test at line 285. The model does not capture this; it treats the list view's selection as presentation.
- LoadOrCreateDate: `select(currentDate)` at line 236 can make the selection listener (lines 162-166) call `loadEntry` a second time for the same date. The model performs one load.
- Filter: a date whose file cannot be read is hidden by the search predicate; the model has no read failure there. `FilteredList` re-evaluates the predicate only when it is set or the list changes, not when a file's content changes. The model does not capture that staleness.
- WriteEntryFile: a failed write is modelled as leaving the file unchanged. `Files.writeString` truncates the file first, so a failure part-way through can leave a shortened file.
- DateKey.Parse: `LocalDate.parse` also accepts signed years and years beyond 9999, such as `+10000-01-01`. The model's dates stop at year 9999, so those names are treated as not parsing.
- Search.Lower: Unicode and locale-dependent case mapping are not modelled; only ASCII letters are lower-cased.
- Strings are sequences of Unicode scalar values, not Java's UTF-16 code units. The model does not cover file encoding and the malformed input `Files.readString` rejects; such a read counts as an `ioError`.
- The application's `start` and `stop` and the clock behind `LocalDate.now()` are not modelled. The date to open is a parameter.
