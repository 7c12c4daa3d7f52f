# fnotes: notes, attachments and the main screen, in Dafny

fnotes is an offline Android note-taking app. This project models the logic
inside its single source file, `app/src/main/java/com/foss/fnotes/MainActivity.kt`.
That logic has three parts:

- **The note database.** Room keeps two tables: `notes`, and `attachments` with a
  foreign key to `notes` that cascades on delete. `NotesViewModel` writes to them
  in several steps. `saveNote` inserts a note and then one attachment row per
  distinct path. `updateNote` rewrites the note, deletes its attachments and
  inserts the new ones. `deleteNote` deletes the note, and the cascade removes its
  attachments. Module `Store` holds the class `NoteStore`: a map from note id to
  `Note` and the sequence of `Attachment` rows in rowid order.
- **The main screen's state.** `MainScreen` keeps its state in Compose `var`s: the
  page, whether the note dialog is open, the draft (title, text, pin, two font
  sizes, attachment paths, the note being edited) and the search bar. Its event
  handlers update those `var`s in place. Module `Screen` holds the class
  `MainScreen`, with one method per handler. The autosave `saveAction` writes
  through the store.
- **Pure pieces.** These are the search filter, the listing order of the
  `getAllNotes` query (`ORDER BY isPriority DESC, timestamp DESC`), and the text
  that both share and copy-to-clipboard hand on. Kotlin's `isBlank`,
  `contains(…, ignoreCase = true)`, `distinct()` and `List.minus` are modelled
  too (modules `Text`, `Lists`, `Listing`, `Search`).

Inputs from outside the program are parameters:

- the wall-clock time (`System.currentTimeMillis()`);
- the id SQLite gives a new note (any id not yet in the table);
- the paths that the file picker copied successfully.

Attachment ids come from an autoincrement counter kept in the store.

Two details follow the code and SQLite's documented behaviour:

- An `insert` with `OnConflictStrategy.REPLACE` on an existing note id deletes
  the old row first, so the foreign key's `ON DELETE CASCADE` removes that note's
  attachments (`NoteStore.InsertNote`). `updateNote` deletes them explicitly
  right afterwards anyway, so its end state is the same either way.
- The toolbar's search/close toggle (line 331) only flips `isSearchActive`. It
  does not clear the query, so the list stays filtered by a query that is no
  longer shown. The back gesture (line 314) and the back arrow (line 330) clear
  it as they leave search. `MainScreen.ToggleSearch` keeps `searchQuery`, and
  `MainScreen.Back` and `MainScreen.NavigateUp` set it to "".

Each event method `requires` the condition under which its control is on
screen. For example, the "new note" button exists only on the list page with no
dialog open, and the steppers only inside the dialog. The framework runs the
`LaunchedEffect` at lines 275-281 after the dialog opens or closes. It is the
explicit method `MainScreen.LoadDraftAttachments`.

## Model

| member | source | states |
|---|---|---|
| Lists.Distinct | app/src/main/java/com/foss/fnotes/MainActivity.kt:130 | `distinct()` yields a list without duplicates holding exactly the elements of its input |
| Lists.DistinctSnoc | app/src/main/java/com/foss/fnotes/MainActivity.kt:130 | `distinct()` of `s + [x]` is `distinct(s)` when `x` already occurs, else `distinct(s) + [x]`: first occurrences, in order |
| Lists.DistinctOfUnique | app/src/main/java/com/foss/fnotes/MainActivity.kt:130 | a list without duplicates is its own `distinct()` |
| Lists.DistinctIdempotent | app/src/main/java/com/foss/fnotes/MainActivity.kt:138 | `distinct()` applied twice equals `distinct()` applied once |
| Lists.RemoveFirst | app/src/main/java/com/foss/fnotes/MainActivity.kt:375 | `list - x` removes exactly one occurrence of `x` (multiset difference) |
| Lists.RemoveFirstAt | app/src/main/java/com/foss/fnotes/MainActivity.kt:375 | `list - x` removes the first occurrence of `x` and keeps everything before and after it, in order |
| Lists.RemoveFirstNotIn | app/src/main/java/com/foss/fnotes/MainActivity.kt:375 | `list - x` returns the list unchanged when `x` does not occur in it |
| Lists.RemoveFirstOfUnique | app/src/main/java/com/foss/fnotes/MainActivity.kt:375 | on a duplicate-free list, `list - x` drops `x` entirely, shortens the list by one, and keeps every other element |
| Text.IsBlank | app/src/main/java/com/foss/fnotes/MainActivity.kt:285 | `isBlank()`: every character is whitespace in the JVM's sense, so the empty string is blank; its meaning over concatenation is `Text.BlankConcat` |
| Text.BlankConcat | app/src/main/java/com/foss/fnotes/MainActivity.kt:285 | `isBlank` of a concatenation holds iff it holds of both parts |
| Text.IndexOfIgnoreCase | app/src/main/java/com/foss/fnotes/MainActivity.kt:267 | the result is the first offset at which the query matches ignoring case, and -1 iff it matches nowhere |
| Text.ContainsIgnoreCase | app/src/main/java/com/foss/fnotes/MainActivity.kt:267 | `contains(q, true)`: `indexOf` finds a match; `Text.ContainsIgnoreCaseIff` states it as "some offset matches", `Text.ContainsEmpty` and `Text.ContainsInfix` give its basic cases |
| Text.ContainsIgnoreCaseIff | app/src/main/java/com/foss/fnotes/MainActivity.kt:267 | `contains(q, true)` holds iff some offset of the string matches `q` character by character, ignoring case |
| Text.ContainsEmpty | app/src/main/java/com/foss/fnotes/MainActivity.kt:267 | the empty query is contained in every string, including the empty one |
| Text.ContainsInfix | app/src/main/java/com/foss/fnotes/MainActivity.kt:267 | any string occurring inside another is found in it |
| Text.ContainsIgnoresQueryCase | app/src/main/java/com/foss/fnotes/MainActivity.kt:267 | upper-casing the query never changes whether it is found |
| Text.SharePayload | app/src/main/java/com/foss/fnotes/MainActivity.kt:175-184 | the text handed to the share and clipboard intents ends with the note's content; `Text.PayloadParts` and `Text.PayloadBlankIff` state the rest of its shape |
| Text.PayloadParts | app/src/main/java/com/foss/fnotes/MainActivity.kt:175-184 | the shared/copied text ends with the content; with a blank title it is the content alone; otherwise it starts with the title and a blank line |
| Text.PayloadBlankIff | app/src/main/java/com/foss/fnotes/MainActivity.kt:176 | the shared text is blank iff title and content are both blank, the same test that decides whether `saveAction` writes |
| Listing.ListingOrderIff | app/src/main/java/com/foss/fnotes/MainActivity.kt:100 | listing order holds iff every pinned note precedes every unpinned one and timestamps do not increase within each group |
| Listing.InsertListed | app/src/main/java/com/foss/fnotes/MainActivity.kt:100 | inserting into a listing keeps it in listing order and adds exactly that note |
| Listing.SortForListing | app/src/main/java/com/foss/fnotes/MainActivity.kt:100 | the sorted rows are in listing order and are a permutation of the input |
| Search.Filter | app/src/main/java/com/foss/fnotes/MainActivity.kt:267 | `filteredNotes` is no longer than the listing and keeps only listed notes that match; `Search.FilterMembership` (iff), `Search.FilterAppend` (order), `Search.FilterEmptyQuery` state the rest |
| Search.FilterMembership | app/src/main/java/com/foss/fnotes/MainActivity.kt:267 | a note is shown iff it is listed and the query occurs, ignoring case, in its content or its title |
| Search.FilterAppend | app/src/main/java/com/foss/fnotes/MainActivity.kt:267 | filtering distributes over concatenation, so it preserves the relative order of the notes it keeps |
| Search.FilterIsSubsequence | app/src/main/java/com/foss/fnotes/MainActivity.kt:267 | the filtered list is a subsequence of the listing |
| Search.FilterEmptyQuery | app/src/main/java/com/foss/fnotes/MainActivity.kt:267 | the empty query keeps every note, in order |
| Search.FilterKeepsListingOrder | app/src/main/java/com/foss/fnotes/MainActivity.kt:267 | filtering a listing that is in listing order leaves it in listing order |
| Store.RowsOfAppend | app/src/main/java/com/foss/fnotes/MainActivity.kt:110-111 | a note's attachments in a concatenation of rows are its attachments in each part, in order |
| Store.RowsOfRowsNotOf | app/src/main/java/com/foss/fnotes/MainActivity.kt:112-113 | after deleting a note's attachment rows that note has none, and every other note has the same rows as before |
| Store.RowsOfNewRows | app/src/main/java/com/foss/fnotes/MainActivity.kt:130 | rows inserted for a note belong to that note and to no other |
| Store.UrisOfNewRows | app/src/main/java/com/foss/fnotes/MainActivity.kt:130 | the rows inserted for a list of paths carry exactly those paths, in order |
| Store.RowsOfMembership | app/src/main/java/com/foss/fnotes/MainActivity.kt:110-111 | the rows a note selects are exactly the rows whose `noteId` is that note |
| Store.RowsOfAbsent | app/src/main/java/com/foss/fnotes/MainActivity.kt:110-111 | a note that no row refers to has no attachments |
| Store.NoteStore.constructor | app/src/main/java/com/foss/fnotes/MainActivity.kt:116-120 | a new database has no notes and no attachments, and the first autoincrement id is 1 |
| Store.NoteStore.AttachmentsFor | app/src/main/java/com/foss/fnotes/MainActivity.kt:110-111 | `getAttachments(noteId)` returns exactly the stored rows whose `noteId` is that note |
| Store.NoteStore.InsertNote | app/src/main/java/com/foss/fnotes/MainActivity.kt:102 | insert-or-replace: the row under the note's id becomes the note; a replaced note's attachments are removed by the cascade; the table invariant is kept |
| Store.NoteStore.InsertAttachment | app/src/main/java/com/foss/fnotes/MainActivity.kt:107 | appends one row with the next autoincrement id for an existing note |
| Store.NoteStore.DeleteAttachmentsForNote | app/src/main/java/com/foss/fnotes/MainActivity.kt:112-113 | the note's rows are gone and every other note keeps its rows |
| Store.NoteStore.InsertAttachments | app/src/main/java/com/foss/fnotes/MainActivity.kt:130 | the `forEach` loop appends one row per path, in order, with consecutive ids |
| Store.NoteStore.DeleteNote | app/src/main/java/com/foss/fnotes/MainActivity.kt:88-103 | `deleteNote` removes the note row and, by the cascade, exactly the attachments whose `noteId` is that note; nothing else changes |
| Store.NoteStore.SaveNote | app/src/main/java/com/foss/fnotes/MainActivity.kt:127-132 | the new note is stored under the new id and stamped `now`; its attachments are exactly `distinct(uris)`, one row per path, tagged with that id; other notes and their attachments are unchanged |
| Store.NoteStore.NewRowsBelongTo | app/src/main/java/com/foss/fnotes/MainActivity.kt:127-140 | appending a note's new rows adds them to that note's attachments and to no other note's |
| Store.NoteStore.UpdateNote | app/src/main/java/com/foss/fnotes/MainActivity.kt:134-140 | the row under `note.id` becomes `note`; its attachments become exactly `distinct(uris)`, whatever they were before; other notes' attachments are unchanged |
| Store.NoteStore.AllNotes | app/src/main/java/com/foss/fnotes/MainActivity.kt:99-101 | `getAllNotes` returns each stored note exactly once, in listing order |
| Screen.MainScreen.constructor | app/src/main/java/com/foss/fnotes/MainActivity.kt:252-264 | the screen starts on the list page, dialog closed, search off with an empty query, and a blank draft (sizes 20/16) |
| Screen.MainScreen.SaveAction | app/src/main/java/com/foss/fnotes/MainActivity.kt:284-294 | writes only if title or content is not blank (as a new note, or over the edited note's row with its full attachment replacement); closes the dialog in every case; keeps stored font sizes within bounds |
| Screen.MainScreen.DismissDialog | app/src/main/java/com/foss/fnotes/MainActivity.kt:361 | tapping outside the dialog autosaves exactly as the Save button does (line 410) |
| Screen.MainScreen.Back | app/src/main/java/com/foss/fnotes/MainActivity.kt:312-316 | an open dialog is saved and closed; else active search is left and its query cleared; else the list page is shown; the gesture is handled only on settings, while searching, or with the dialog open |
| Screen.MainScreen.OpenNewNote | app/src/main/java/com/foss/fnotes/MainActivity.kt:336 | opens the dialog with the draft reset to "", "", unpinned, 20/16, no paths, no edited note |
| Screen.MainScreen.OpenNote | app/src/main/java/com/foss/fnotes/MainActivity.kt:351 | opens the dialog with the note's fields copied into the draft and the note as the edited one |
| Screen.MainScreen.LoadDraftAttachments | app/src/main/java/com/foss/fnotes/MainActivity.kt:275-281 | with the dialog open on a stored note, the draft's paths become that note's stored paths; with the dialog closed they are emptied |
| Screen.MainScreen.Cancel | app/src/main/java/com/foss/fnotes/MainActivity.kt:411 | closes the dialog and leaves the store untouched |
| Screen.MainScreen.DeleteEditedNote | app/src/main/java/com/foss/fnotes/MainActivity.kt:406 | deletes the edited note with its attachments and closes the dialog without saving |
| Screen.MainScreen.ToggleSearch | app/src/main/java/com/foss/fnotes/MainActivity.kt:331 | flips search on or off and keeps the query |
| Screen.MainScreen.OpenSettings | app/src/main/java/com/foss/fnotes/MainActivity.kt:331 | shows the settings page |
| Screen.MainScreen.NavigateUp | app/src/main/java/com/foss/fnotes/MainActivity.kt:330 | the back arrow leaves search and clears the query if search is active, else returns to the list |
| Screen.MainScreen.EditQuery | app/src/main/java/com/foss/fnotes/MainActivity.kt:325 | the query becomes the typed text |
| Screen.MainScreen.EditTitle | app/src/main/java/com/foss/fnotes/MainActivity.kt:365 | the draft title becomes the typed text |
| Screen.MainScreen.EditText | app/src/main/java/com/foss/fnotes/MainActivity.kt:367 | the draft content becomes the typed text |
| Screen.MainScreen.DecreaseTitleSize | app/src/main/java/com/foss/fnotes/MainActivity.kt:386 | the title size drops by exactly 1 unless already 12, when nothing changes; it stays in [12,40] |
| Screen.MainScreen.IncreaseTitleSize | app/src/main/java/com/foss/fnotes/MainActivity.kt:388 | the title size grows by exactly 1 unless already 40, when nothing changes; it stays in [12,40] |
| Screen.MainScreen.DecreaseContentSize | app/src/main/java/com/foss/fnotes/MainActivity.kt:393 | the content size drops by exactly 1 unless already 10, when nothing changes; it stays in [10,35] |
| Screen.MainScreen.IncreaseContentSize | app/src/main/java/com/foss/fnotes/MainActivity.kt:395 | the content size grows by exactly 1 unless already 35, when nothing changes; it stays in [10,35] |
| Screen.MainScreen.TogglePin | app/src/main/java/com/foss/fnotes/MainActivity.kt:402 | the pin flag is negated |
| Screen.MainScreen.RemoveAttachment | app/src/main/java/com/foss/fnotes/MainActivity.kt:375 | the draft's paths lose the first occurrence of the removed path and keep the rest in order (`Lists.RemoveFirstAt`) |
| Screen.MainScreen.AddPickedFiles | app/src/main/java/com/foss/fnotes/MainActivity.kt:306 | the copied paths are appended to the draft's paths |
| Scenario.CreateGroceries | app/src/main/java/com/foss/fnotes/MainActivity.kt:284-294 | a new note "Groceries" / "milk, eggs" saved with two images is stored under its id with exactly those two paths |
| Scenario.GroceriesMatchEgg | app/src/main/java/com/foss/fnotes/MainActivity.kt:267 | that note is found by the query "egg" |

`Scenario.GroceriesScenario` goes on from `CreateGroceries`. It reopens the
note, loads its attachments, edits the content, removes one image and taps
outside the dialog. The store then holds the edited content and exactly one
attachment row for the note.

## Left out

- Rendering: `Scaffold`, `NoteCard` and its attachment count, `SettingsScreen`, and the colour-scheme choice (lines 222-228, which depends on the SDK version and the system dark mode).
- Persistence across process restarts, the destructive schema migration, and `Flow` observation. Each store operation runs to completion before the next event. The coroutine launch, and a crash between the steps of `saveNote` or `updateNote`, are not modelled.
- DataStore settings (theme mode, biometric flag) and `showBiometricPrompt` with the unlock gate. These are OS and library integration.
- `openFile`, the share and clipboard intents, and the toast. Only their payload (`Text.SharePayload`) is modelled.
- The file-picker copy loop (lines 296-305): stream I/O with exceptions swallowed. Its result enters as the `copiedPaths` argument of `AddPickedFiles`.
- The focus request when search opens (line 309).
- Text.CharsEqualIgnoreCase: case mapping covers ASCII letters only. The JVM's Unicode `uppercaseChar`/`lowercaseChar` tables are not modelled.
- Store.NoteStore.AttachmentsFor: the query at line 110 has no `ORDER BY`. The model returns a note's rows in rowid order, which is what SQLite's scan through the `noteId` index yields, but the query itself does not promise it. The order claims of `Store.NoteStore.SaveNote` and `Store.NoteStore.UpdateNote` (`UrisFor(id) == distinct(uris)` as a sequence) rest on that order.
- Store.NoteStore.AllNotes: rows that tie on both sort keys come back in an order SQLite does not specify. The model returns one such order and promises only the listing order.
- Integer widths: ids and timestamps are unbounded integers. The `Long` to `Int` conversion `noteId.toInt()` and overflow of the autoincrement are not modelled.
- The checks Room makes at run time are preconditions here: the foreign key on attachment inserts, and picking a fresh id for a new note.
