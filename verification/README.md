# Notes: the list screen's note store

This project models the note store of a single-screen iOS note-taking app. The list screen (`RootViewController`) owns an ordered list `notes` of `Note` objects and a derived list `filteredNotes`, which holds the notes whose title matches the search bar. Users can compose a note (appended with an empty text), delete a row, drag a row to a new position, and search. Each change is saved to one slot of the preference store, and the list is loaded from that slot when the screen appears. A `Note` is a reference type with three mutable string fields. `filteredNotes` therefore holds the very objects that `notes` holds: a title edited from the detail screen shows through both lists.

Files and modules:

- `wrappers.dfy` (`Wrappers`): `Option`, for Swift optionals.
- `sequences.dfy` (`Sequences`): the array operations the controller performs in place. These are `remove(at:)` (`RemoveAt`), `insert(_:at:)` (`InsertAt`) and the remove-then-insert of a row move (`Moved`). The file also has their lemmas and a definition of "subsequence" as an increasing embedding.
- `text.dfy` (`Text`): lower-casing (ASCII) and the substring scan behind `contains`, proved equal to "occurs at some position".
- `note.dfy` (`NoteModel`): the `Note` class, its initializer, its two field setters, and the construction of fresh notes from decoded values.
- `search_filter.dfy` (`SearchFilter`): `isSearchBarEmpty`, `isFiltering`, the per-note match test and the filter. It proves the filter sound, complete and order-preserving.
- `root_view_controller.dfy` (`RootView`): the `RootViewController` class. Its fields are `notes`, `filteredNotes` and the search controller's state. Its methods are submit, delete, move, save, load, update-search-results, the row count and the row lookup. It also holds the save/load slot functions and the lemma showing the delete-while-filtering mismatch.

The class predicate `IsFiltering` and the function `Displayed` carry no contract of their own. `Displayed` is the sequence the table shows: `filteredNotes` while filtering, `notes` otherwise. The row count (lines 112-118), the cell lookup (lines 124-128) and the selection lookup (lines 140-144) are all stated against it. `NoteAtRow` stands for both lookups.

Behaviour of the code that the model keeps as it is:

- `remove(at:)` and `insert(_:at:)` trap on an index out of range. The delete and move methods therefore take their bounds as `requires`.
- The delete action always indexes `notes` with the table row, even while the table shows `filteredNotes` (see Findings).
- `loadNotes` keeps `notes` as it was when the slot is missing, holds something other than `Data`, or does not decode.
- `submitNote` does not check the new id for uniqueness. The id is a parameter.
- Every change to the list ends with `saveNotes()`. The mutating methods take the current defaults and the encoder and return the defaults after the save.
- In submit and delete, the table update (`insertRows`, `deleteRows`) runs before the save. UIKit raises when the row count the table reads back is not the old count plus or minus one. The save then never runs. The model returns `None` for the defaults in that case. While filtering, the table's count is that of the unchanged `filteredNotes`, so the check fails.

## Model

| member | source | states |
|---|---|---|
| `NoteModel.Note.constructor` | Model/Note.swift:15-19 | the new note stores exactly the given id, title and text |
| `NoteModel.Note.SetTitle` | Controllers/NoteViewController.swift:98-100 | assigning the title sets it and leaves id and text unchanged |
| `NoteModel.Note.SetText` | Controllers/NoteViewController.swift:30-31 | assigning the text sets it and leaves id and title unchanged |
| `NoteModel.NotesFromValues` | Controllers/RootViewController.swift:104 | decoding builds one distinct fresh `Note` per decoded value, whose field values are the decoded values in order |
| `Text.Lower` | Controllers/RootViewController+Filter.swift:27 | lower-casing keeps the length, turns each upper-case letter into the letter 32 code points above it, and keeps every other character |
| `Text.LowerIdempotent` | Controllers/RootViewController+Filter.swift:27 | lower-casing an already lower-cased string changes nothing |
| `Text.LowerOfLowerCase` | Controllers/RootViewController+Filter.swift:27 | a string with no upper-case letter is its own lower-cased form |
| `Text.LowerIgnoresCase` | Controllers/RootViewController+Filter.swift:27 | two strings that differ only in letter case lower-case to the same string |
| `Text.ContainsIsSubstring` | Controllers/RootViewController+Filter.swift:27 | the left-to-right `contains` scan is true exactly when the query occurs at some position of the string |
| `SearchFilter.SearchBarEmptyCases` | Controllers/RootViewController+Filter.swift:14-16 | the search bar counts as empty exactly when its text is nil or the empty string |
| `SearchFilter.FilteringCases` | Controllers/RootViewController+Filter.swift:19-21 | filtering is on exactly when the search controller is active and the bar holds a non-empty text |
| `SearchFilter.MatchesIgnoresCase` | Controllers/RootViewController+Filter.swift:27 | titles that differ only in letter case, matched against queries that differ only in letter case, give the same answer |
| `SearchFilter.MatchesAfterLower` | Controllers/RootViewController+Filter.swift:27 | lower-casing the title or the query before the test changes nothing |
| `SearchFilter.GroMatchesGroceries` | Controllers/RootViewController+Filter.swift:27 | the query "gro" matches the title "Groceries" despite the capital letter |
| `SearchFilter.GroMatchesGroovyTunes` | Controllers/RootViewController+Filter.swift:27 | the query "gro" matches the title "groovy tunes" |
| `SearchFilter.GroMissesBudgetPlan` | Controllers/RootViewController+Filter.swift:27 | the query "gro" does not match the title "Budget Plan" |
| `SearchFilter.GroScenario` | Controllers/RootViewController+Filter.swift:26-28 | over notes titled "Groceries", "Budget Plan" and "groovy tunes", the query "gro" keeps exactly the first and the third, in that order |
| `SearchFilter.FilterByTitle` | Controllers/RootViewController+Filter.swift:26-28 | every kept note is one of the input notes and matches the query (sound); every input note that matches is kept (complete) |
| `SearchFilter.FilterIsSubsequence` | Controllers/RootViewController+Filter.swift:26-28 | the filtered notes are a subsequence of the notes: an increasing embedding exists, so relative order is kept |
| `SearchFilter.FilterAppend` | Controllers/RootViewController+Filter.swift:26-28 | filtering a concatenation is the concatenation of the filtered parts |
| `SearchFilter.FilterIdempotent` | Controllers/RootViewController+Filter.swift:26-28 | filtering the filtered list again with the same query gives the same list |
| `Sequences.RemoveAt` | Controllers/RootViewController.swift:80 | removal at an in-range index shortens by one, keeps the prefix before the index and shifts the suffix down by one |
| `Sequences.InsertAt` | Controllers/RootViewController.swift:163 | insertion at an index up to the length lengthens by one, places the element at the index, keeps the prefix and shifts the suffix up |
| `Sequences.RemoveAtMultiset` | Controllers/RootViewController.swift:80 | removal takes exactly one copy of the removed element out of the multiset of notes |
| `Sequences.InsertAtMultiset` | Controllers/RootViewController.swift:163 | insertion adds exactly one copy of the inserted element |
| `Sequences.InsertRemoveInverse` | Controllers/RootViewController.swift:161-163 | re-inserting a removed element where it was restores the sequence |
| `Sequences.RemoveInsertInverse` | Controllers/RootViewController.swift:161-163 | removing a just-inserted element restores the sequence |
| `Sequences.Moved` | Controllers/RootViewController.swift:160-163 | a move keeps the length and puts the moved note at the destination row |
| `Sequences.MovedIsPermutation` | Controllers/RootViewController.swift:160-163 | a move keeps the multiset of notes: nothing lost, nothing duplicated |
| `Sequences.MovedKeepsOthersInOrder` | Controllers/RootViewController.swift:160-163 | with the moved note taken out, the result equals the input with the source row taken out, so the other notes keep their order |
| `Sequences.MoveToSameRow` | Controllers/RootViewController.swift:161-163 | moving a row onto itself leaves the notes unchanged |
| `Sequences.MoveBack` | Controllers/RootViewController.swift:160-163 | moving from a to b and then from b to a restores the original order |
| `Sequences.MovedAt` | Controllers/RootViewController.swift:160-163 | the position of every element after a move: the rows between source and destination shift by one towards the source |
| `Sequences.SubsequenceCons` | Controllers/RootViewController+Filter.swift:26 | dropping or keeping a leading note preserves the subsequence relation, the two steps of the filter |
| `RootView.SaveThenRead` | Controllers/RootViewController.swift:92-107 | a load decodes exactly the bytes the last successful save wrote; a failed encode leaves what a load finds unchanged; no other key is touched |
| `RootView.NeverWrittenReadsNothing` | Controllers/RootViewController.swift:100-101 | a slot that was never written yields nothing to load |
| `RootView.RootViewController.constructor` | Controllers/RootViewController.swift:11-14 | the screen starts with both lists empty and no search |
| `RootView.RootViewController.NumberOfRows` | Controllers/RootViewController.swift:112-118 | the row count is the length of the displayed sequence: the filtered notes' count while filtering, the notes' count otherwise |
| `RootView.RootViewController.NoteAtRow` | Controllers/RootViewController.swift:124-128 | the note at a row is that row of the same displayed sequence the row count comes from |
| `RootView.RootViewController.SubmitNote` | Controllers/RootViewController.swift:64-70 | exactly one fresh note is appended, with the given id and title and empty text; earlier notes are unchanged and in order; the returned row is the old count, which is the new note's index; the filtered list is untouched; when not filtering, the defaults returned are the save of the new notes; while filtering the table's row count does not grow, UIKit raises at the row insertion and nothing is saved (`None`) |
| `RootView.RootViewController.DeleteNote` | Controllers/RootViewController.swift:79-83 | removes the note at the given row from `notes` only, even while filtering; `filteredNotes` is unchanged; when not filtering, the defaults returned are the save of the new notes; while filtering the table's row count does not drop, UIKit raises at the row deletion and nothing is saved (`None`) |
| `RootView.RootViewController.DeleteDisplayedNote` | Controllers/RootViewController.swift:79-83 | removes the note shown at the row, from `notes` and, while filtering, from `filteredNotes`; the multiset of notes loses exactly that note and the row count drops by one, so UIKit accepts the deletion and the save of the new notes is always returned |
| `RootView.RootViewController.MoveRow` | Controllers/RootViewController.swift:160-165 | the notes become the move of the old notes from the source row to the destination row; the filtered list is untouched; the defaults returned are the save of the new notes |
| `RootView.RootViewController.SaveIfRowsAgree` | Controllers/RootViewController.swift:69-70 | the save runs, and its defaults are returned, exactly when the row count after the change is the count before plus the rows inserted or minus the rows deleted; otherwise nothing is saved |
| `RootView.RootViewController.SaveNotes` | Controllers/RootViewController.swift:92-98 | the notes slot is written with the encoded values only when encoding succeeds; otherwise the defaults are unchanged; other keys never change |
| `RootView.RootViewController.LoadNotes` | Controllers/RootViewController.swift:100-108 | the notes are replaced by fresh notes carrying the decoded values only when the slot holds data that decodes, each a distinct object; otherwise they stay exactly as they were |
| `RootView.RootViewController.UpdateSearchResults` | Controllers/RootViewController+Filter.swift:24-32 | with a text in the bar the filtered list becomes the filter of the notes by that text; with no text it is kept; `notes` is not modified |
| `RootView.RootViewController.RetitleRow` | Controllers/RootViewController.swift:140-146 | the note picked at a row is the shared object: its new title shows through every position of both lists that holds it, and no other note changes |
| `RootView.DeleteWhileFilteringRemovesAnotherNote` | Controllers/RootViewController.swift:80 | with notes [a, b] and a query only b matches, the table shows b at row 0, yet deleting row 0 removes a and keeps b |

## Findings

| source | as written | input that shows it | evidently intended | confidence | as-written member | corrected member |
|---|---|---|---|---|---|---|
| Controllers/RootViewController.swift:80 | the delete action removes `notes[row]`, using the row of the table, while the table may be showing `filteredNotes` (lines 113-117) | notes [a, b], a search text that only b's title contains, search active; delete row 0 | remove the note shown at that row, from `notes` and from `filteredNotes`, so the row count drops by one | high (not executed) | `RootView.RootViewController.DeleteNote`, `RootView.DeleteWhileFilteringRemovesAnotherNote` | `RootView.RootViewController.DeleteDisplayedNote` |

In that input, the as-written delete also leaves `filteredNotes` at one row while the table is told that one row went away. UIKit raises on that mismatch at line 81, so the app stops before the save at line 82. `DeleteNote` returns `None` for the defaults in that state. `DeleteDisplayedNote` keeps the row count consistent, so its save always runs. Submitting a note while filtering hits the same row-count check at line 69, since `filteredNotes` does not grow. `SubmitNote` returns `None` there too.

## Left out

- Text.Lower: lower-cases ASCII letters only. Swift's `lowercased()` follows full Unicode case mapping, which is not modelled.
- Text.Contains: compares one `char` at a time. Swift's `contains` compares `Character`s, which are grapheme clusters under canonical equivalence. So a title spelled "Cafe" followed by a combining acute accent contains the query "Café" with a precomposed é in Swift, but not in the model.
- Text.ContainsIsSubstring: an empty query counts as found. Swift's `contains("")` differs between library versions. No property is stated about empty queries, which `isFiltering` masks anyway.
- The JSON encoder and decoder are function parameters (`encode`, `decode`). No round trip is claimed for them. The decoder's construction of `Note` objects is `NotesFromValues`.
- `UserDefaults` is a map passed in. `SaveNotes` returns the new map. A failing write is not modelled; the app ignores it.
- `UUID()` is a parameter: `SubmitNote` takes the id from its caller. Uniqueness is not checked by the app and not claimed.
- The search controller's `isActive` and search-bar text are fields that UIKit sets. The calls UIKit makes on each edit are not modelled.
- Table updates (`insertRows`, `deleteRows`, `reloadData`) are modelled only by UIKit's row-count check (`RowUpdateAccepted`) and its outcome: the save runs or it does not. The animation, the `reloadData` redraw and the raised exception itself are not modelled. Alerts, navigation, toolbars, cell rendering and storyboard instantiation are UI plumbing and are left out. Only the list mutations inside the alert closures are modelled.
- The detail screen's undo/redo, sharing and keyboard-inset adjustment are platform UI. Only its two field writes are modelled (`Note.SetTitle`, `Note.SetText`).
