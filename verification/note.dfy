/**
 * One note (Model/Note.swift): a reference type with three mutable string
 * fields. Every sequence that holds a `Note` holds the object itself, so a
 * field written through one of them is seen through all of them.
 */
module NoteModel {

  /** The three fields of a note as a value: what the JSON coder reads and
      writes for one note. */
  datatype NoteValue = NoteValue(uuidString: string, title: string, text: string)

  class Note {
    var uuidString: string
    var title: string
    var text: string

    /** `init(uuidString:title:text:)` stores the three given values. */
    constructor (uuidString: string, title: string, text: string)
      ensures this.uuidString == uuidString
      ensures this.title == title
      ensures this.text == text
    {
      this.uuidString := uuidString;
      this.title := title;
      this.text := text;
    }

    /** The current field values of this note. */
    function Value(): NoteValue
      reads this
    {
      NoteValue(uuidString, title, text)
    }

    /** `note.title = t`, as the title editor does: the other fields stay. */
    method SetTitle(t: string)
      modifies this
      ensures title == t
      ensures uuidString == old(uuidString) && text == old(text)
    {
      title := t;
    }

    /** `note.text = t`, as the text editor does on every change: the other
        fields stay. */
    method SetText(t: string)
      modifies this
      ensures text == t
      ensures uuidString == old(uuidString) && title == old(title)
    {
      text := t;
    }
  }

  /** The field values of a sequence of notes, in order. */
  function Values(ns: seq<Note>): seq<NoteValue>
    reads ns
  {
    seq(|ns|, i reads ns requires 0 <= i < |ns| => ns[i].Value())
  }

  /** What the decoder does after parsing: build one new `Note` per decoded
      value, in order, each a distinct fresh object. */
  method NotesFromValues(vs: seq<NoteValue>) returns (ns: seq<Note>)
    ensures Values(ns) == vs
    ensures forall i :: 0 <= i < |ns| ==> fresh(ns[i])
    ensures forall i, j :: 0 <= i < j < |ns| ==> ns[i] != ns[j]
  {
    ns := [];
    while |ns| < |vs|
      invariant |ns| <= |vs|
      invariant forall i :: 0 <= i < |ns| ==> fresh(ns[i]) && ns[i].Value() == vs[i]
      invariant forall i, j :: 0 <= i < j < |ns| ==> ns[i] != ns[j]
    {
      var v := vs[|ns|];
      var n := new Note(v.uuidString, v.title, v.text);
      ns := ns + [n];
    }
  }
}
