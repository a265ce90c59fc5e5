/**
 * The list screen's note store (Controllers/RootViewController.swift and its
 * search extension): the ordered `notes`, the derived `filteredNotes`, the
 * search controller's state, and the operations that change them.
 */
module RootView {
  import opened Wrappers
  import opened Sequences
  import opened NoteModel
  import SearchFilter

  type Bytes = seq<bv8>

  /** What `UserDefaults.object(forKey:)` can hand back for a key: a `Data`
      blob, or an object of some other type (which `as? Data` rejects). */
  datatype StoredObject = DataObject(bytes: Bytes) | OtherObject

  /** The preference store, as a value: key to stored object. */
  type Defaults = map<string, StoredObject>

  /** The slot the notes live in. */
  const NotesKey: string := "Notes Key"

  /** The defaults after a save: the encoded bytes replace the slot when
      encoding succeeded; otherwise nothing is written. */
  function StoreEncoded(defaults: Defaults, encoded: Option<Bytes>): Defaults
  {
    match encoded
    case Some(bytes) => defaults[NotesKey := DataObject(bytes)]
    case None => defaults
  }

  /** What a load finds: the decoded values when the slot holds `Data` and
      the decoder accepts it, `None` for a missing slot, a non-`Data` object
      or bytes the decoder rejects. */
  function ReadSlot(defaults: Defaults, decode: Bytes -> Option<seq<NoteValue>>): Option<seq<NoteValue>>
  {
    if NotesKey in defaults && defaults[NotesKey].DataObject? then decode(defaults[NotesKey].bytes)
    else None
  }

  /** A load reads back through the decoder exactly the bytes the last
      successful save wrote; a failed save leaves what a load finds as it
      was; no other key is touched. Nothing is claimed about the codec. */
  lemma SaveThenRead(defaults: Defaults, encoded: Option<Bytes>, decode: Bytes -> Option<seq<NoteValue>>)
    ensures encoded.Some? ==> ReadSlot(StoreEncoded(defaults, encoded), decode) == decode(encoded.value)
    ensures encoded.None? ==> ReadSlot(StoreEncoded(defaults, encoded), decode) == ReadSlot(defaults, decode)
    ensures forall k :: k != NotesKey ==>
      (k in StoreEncoded(defaults, encoded) <==> k in defaults) &&
      (k in defaults ==> StoreEncoded(defaults, encoded)[k] == defaults[k])
  {
  }

  /** A slot that was never written loads nothing. */
  lemma NeverWrittenReadsNothing(defaults: Defaults, decode: Bytes -> Option<seq<NoteValue>>)
    requires NotesKey !in defaults
    ensures ReadSlot(defaults, decode) == None
  {
  }

  /** UIKit's rule for `insertRows`/`deleteRows`: after the update the data
      source must report the old row count plus the rows inserted (or minus
      the rows deleted). When it does not, UIKit raises and the app stops
      before the next statement. */
  predicate RowUpdateAccepted(countBefore: nat, countAfter: nat, change: int)
  {
    countAfter == countBefore + change
  }

  class RootViewController {
    var notes: seq<Note>
    var filteredNotes: seq<Note>
    /** `searchController.isActive` */
    var searchActive: bool
    /** `searchController.searchBar.text` */
    var searchText: Option<string>

    /** The stored property initialisers: both lists empty, search inactive. */
    constructor ()
      ensures notes == [] && filteredNotes == []
      ensures !searchActive && searchText == None
    {
      notes := [];
      filteredNotes := [];
      searchActive := false;
      searchText := None;
    }

    /** `isFiltering` */
    predicate IsFiltering()
      reads this
    {
      SearchFilter.IsFiltering(searchActive, searchText)
    }

    /** The sequence the table shows: the filtered notes while filtering,
        all notes otherwise. */
    function Displayed(): seq<Note>
      reads this
    {
      if IsFiltering() then filteredNotes else notes
    }

    /** `tableView(_:numberOfRowsInSection:)`: the length of the sequence the
        rows are read from. */
    method NumberOfRows() returns (count: nat)
      ensures count == |Displayed()|
      ensures IsFiltering() ==> count == |filteredNotes|
      ensures !IsFiltering() ==> count == |notes|
    {
      if IsFiltering() {
        count := |filteredNotes|;
      } else {
        count := |notes|;
      }
    }

    /** The note behind a row, as `cellForRowAt` and `didSelectRowAt` pick it:
        row `row` of the same sequence the row count is taken from. */
    method NoteAtRow(row: nat) returns (note: Note)
      requires row < |Displayed()|
      ensures note == Displayed()[row]
    {
      if IsFiltering() {
        note := filteredNotes[row];
      } else {
        note := notes[row];
      }
    }

    /** `submitNote(_:)`: a fresh note with the caller's id, the given title
        and empty text is appended; the row handed to the table is its index.
        The table is told that one row was inserted; when the row count it
        reads back agrees, the notes are saved (`Some`). While filtering the
        row count is that of the unchanged `filteredNotes`, so UIKit raises
        and nothing is saved (`None`). */
    method SubmitNote(uuidString: string, title: string, defaults: Defaults, encode: seq<NoteValue> -> Option<Bytes>)
      returns (row: nat, saved: Option<Defaults>)
      modifies this`notes
      ensures old(IsFiltering()) ==> saved == None
      ensures !old(IsFiltering()) ==> saved == Some(StoreEncoded(defaults, encode(Values(notes))))
      ensures row == |old(notes)|
      ensures |notes| == |old(notes)| + 1 && notes[..row] == old(notes)
      ensures fresh(notes[row]) && notes[row].Value() == NoteValue(uuidString, title, "")
      ensures filteredNotes == old(filteredNotes)
    {
      var note := new Note(uuidString, title, "");
      var countBefore := |Displayed()|;
      row := |notes|;
      notes := notes + [note];
      saved := SaveIfRowsAgree(countBefore, 1, defaults, encode);
    }

    /** The body of the delete action: `notes.remove(at: row)` with the row
        index the table reported, whichever sequence the table is showing.
        The table is told that one row was deleted; the notes are saved only
        when the row count it reads back agrees. While filtering that count
        is that of the unchanged `filteredNotes`, so UIKit raises and nothing
        is saved (`None`). */
    method DeleteNote(row: nat, defaults: Defaults, encode: seq<NoteValue> -> Option<Bytes>) returns (saved: Option<Defaults>)
      requires row < |notes|
      modifies this`notes
      ensures old(IsFiltering()) ==> saved == None
      ensures !old(IsFiltering()) ==> saved == Some(StoreEncoded(defaults, encode(Values(notes))))
      ensures notes == RemoveAt(old(notes), row)
      ensures filteredNotes == old(filteredNotes)
    {
      var countBefore := |Displayed()|;
      notes := RemoveAt(notes, row);
      saved := SaveIfRowsAgree(countBefore, -1, defaults, encode);
    }

    /** Deleting the note the table shows at `row`: the displayed object is
        taken out of `notes` (its first occurrence), and out of
        `filteredNotes` too while filtering, so the row count drops by one,
        UIKit accepts the row deletion in every state, and the notes are
        always saved. */
    method DeleteDisplayedNote(row: nat, defaults: Defaults, encode: seq<NoteValue> -> Option<Bytes>) returns (saved: Option<Defaults>)
      requires row < |Displayed()|
      modifies this`notes, this`filteredNotes
      ensures saved == Some(StoreEncoded(defaults, encode(Values(notes))))
      ensures !old(IsFiltering()) ==> notes == RemoveAt(old(notes), row)
      ensures old(IsFiltering()) ==>
        var shown := old(filteredNotes)[row];
        if shown in old(notes) then notes == RemoveAt(old(notes), IndexOf(old(notes), shown))
        else notes == old(notes)
      ensures old(Displayed())[row] in old(notes) ==>
        multiset(notes) == multiset(old(notes)) - multiset{old(Displayed())[row]}
      ensures old(IsFiltering()) ==> filteredNotes == RemoveAt(old(filteredNotes), row)
      ensures !old(IsFiltering()) ==> filteredNotes == old(filteredNotes)
      ensures IsFiltering() == old(IsFiltering())
      ensures |Displayed()| == |old(Displayed())| - 1
    {
      var countBefore := |Displayed()|;
      if IsFiltering() {
        var shown := filteredNotes[row];
        filteredNotes := RemoveAt(filteredNotes, row);
        if shown in notes {
          RemoveAtMultiset(notes, IndexOf(notes, shown));
          notes := RemoveAt(notes, IndexOf(notes, shown));
        }
      } else {
        RemoveAtMultiset(notes, row);
        notes := RemoveAt(notes, row);
      }
      saved := SaveIfRowsAgree(countBefore, -1, defaults, encode);
    }

    /** `tableView(_:moveRowAt:to:)`: take the note out at `from` and insert it
        at `to`, then save the notes. */
    method MoveRow(from: nat, to: nat, defaults: Defaults, encode: seq<NoteValue> -> Option<Bytes>) returns (saved: Defaults)
      requires from < |notes| && to < |notes|
      modifies this`notes
      ensures saved == StoreEncoded(defaults, encode(Values(notes)))
      ensures notes == Moved(old(notes), from, to)
      ensures filteredNotes == old(filteredNotes)
    {
      var noteSource := notes[from];
      notes := RemoveAt(notes, from);
      notes := InsertAt(notes, to, noteSource);
      saved := SaveNotes(defaults, encode);
    }

    /** The table update followed by `saveNotes()`: the save happens only
        when UIKit accepts the row change. */
    method SaveIfRowsAgree(countBefore: nat, change: int, defaults: Defaults, encode: seq<NoteValue> -> Option<Bytes>)
      returns (saved: Option<Defaults>)
      ensures RowUpdateAccepted(countBefore, |Displayed()|, change) ==>
        saved == Some(StoreEncoded(defaults, encode(Values(notes))))
      ensures !RowUpdateAccepted(countBefore, |Displayed()|, change) ==> saved == None
    {
      if RowUpdateAccepted(countBefore, |Displayed()|, change) {
        var s := SaveNotes(defaults, encode);
        saved := Some(s);
      } else {
        saved := None;
      }
    }

    /** `saveNotes()`: encode the notes' values; on success the bytes replace
        the notes slot, on failure the defaults are left as they were. */
    method SaveNotes(defaults: Defaults, encode: seq<NoteValue> -> Option<Bytes>) returns (saved: Defaults)
      ensures saved == StoreEncoded(defaults, encode(Values(notes)))
      ensures forall k :: k != NotesKey && k in defaults ==> k in saved && saved[k] == defaults[k]
      ensures encode(Values(notes)).None? ==> saved == defaults
    {
      var encoded := encode(Values(notes));
      if encoded.Some? {
        saved := defaults[NotesKey := DataObject(encoded.value)];
      } else {
        saved := defaults;
      }
    }

    /** `loadNotes()`: the notes are replaced by freshly built notes with the
        decoded values only when the slot holds `Data` that decodes; in every
        other case `notes` stays exactly as it was. */
    method LoadNotes(defaults: Defaults, decode: Bytes -> Option<seq<NoteValue>>)
      modifies this`notes
      ensures ReadSlot(defaults, decode).Some? ==>
        Values(notes) == ReadSlot(defaults, decode).value &&
        forall i :: 0 <= i < |notes| ==> fresh(notes[i])
      ensures ReadSlot(defaults, decode).Some? ==>
        forall i, j :: 0 <= i < j < |notes| ==> notes[i] != notes[j]
      ensures ReadSlot(defaults, decode).None? ==> notes == old(notes)
      ensures filteredNotes == old(filteredNotes)
    {
      if NotesKey in defaults && defaults[NotesKey].DataObject? {
        var loadedNotes := decode(defaults[NotesKey].bytes);
        if loadedNotes.Some? {
          notes := NotesFromValues(loadedNotes.value);
        }
      }
    }

    /** `updateSearchResults(for:)`: with a text in the bar, `filteredNotes`
        becomes the notes whose title matches it; with no text it is kept. */
    method UpdateSearchResults()
      modifies this`filteredNotes
      ensures searchText.Some? ==> filteredNotes == SearchFilter.FilterByTitle(notes, searchText.value)
      ensures searchText.None? ==> filteredNotes == old(filteredNotes)
      ensures notes == old(notes)
    {
      if searchText.Some? {
        filteredNotes := SearchFilter.FilterByTitle(notes, searchText.value);
      }
    }

    /** Renaming the note picked at `row` from the detail screen: the object
        is shared, so the new title shows through every position of `notes`
        and `filteredNotes` that holds it, and no other note changes. */
    method RetitleRow(row: nat, title: string) returns (note: Note)
      requires row < |Displayed()|
      modifies Displayed()[row]
      ensures note == old(Displayed()[row])
      ensures notes == old(notes) && filteredNotes == old(filteredNotes)
      ensures note.title == title && note.Value() == old(note.Value()).(title := title)
      ensures forall i :: 0 <= i < |notes| && notes[i] == note ==> notes[i].title == title
      ensures forall i :: 0 <= i < |filteredNotes| && filteredNotes[i] == note ==> filteredNotes[i].title == title
      ensures forall n :: n in old(notes) + old(filteredNotes) && n != note ==> n.Value() == old(n.Value())
    {
      note := NoteAtRow(row);
      note.SetTitle(title);
    }
  }

  /** The delete action reads the row index against `notes` even while the
      table shows the filtered notes. With `a` hidden by the query and `b`
      shown as the only row, deleting row 0 removes `a` from `notes` and
      keeps `b`: the note the user deleted is still there, a note the user
      did not see is gone from memory, and the table's row count does not
      drop, so UIKit raises at the row deletion and the app stops before
      saving (`DeleteNote` returns `None`). */
  lemma DeleteWhileFilteringRemovesAnotherNote(a: Note, b: Note, query: string)
    requires a != b
    requires !SearchFilter.Matches(a.title, query) && SearchFilter.Matches(b.title, query)
    ensures SearchFilter.FilterByTitle([a, b], query) == [b]
    ensures RemoveAt([a, b], 0) == [b]
    ensures a !in RemoveAt([a, b], 0) && b in RemoveAt([a, b], 0)
  {
    assert [a, b][1..] == [b];
    assert [b][1..] == [];
    assert SearchFilter.FilterByTitle([b], query) == [b] + SearchFilter.FilterByTitle([], query);
  }
}
