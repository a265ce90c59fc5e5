/**
 * The search part of the list screen (Controllers/RootViewController+Filter.swift):
 * when the list is filtered, and which notes the filter keeps.
 */
module SearchFilter {
  import opened Wrappers
  import opened Text
  import opened Sequences
  import opened NoteModel

  /** `searchBar.text?.isEmpty ?? true`: no text at all counts as empty. */
  predicate IsSearchBarEmpty(text: Option<string>)
  {
    match text
    case None => true
    case Some(t) => |t| == 0
  }

  /** The list shows the filtered notes while the search controller is
      active and the search bar is not empty. */
  predicate IsFiltering(active: bool, text: Option<string>)
  {
    active && !IsSearchBarEmpty(text)
  }

  /** The bar is empty exactly when it holds no text or the empty text. */
  lemma SearchBarEmptyCases(text: Option<string>)
    ensures IsSearchBarEmpty(text) <==> text == None || text == Some("")
  {
  }

  /** Filtering is on exactly when the controller is active and the bar holds
      a non-empty text. */
  lemma FilteringCases(active: bool, text: Option<string>)
    ensures IsFiltering(active, text) <==> active && text.Some? && text.value != ""
  {
  }

  /** The filter's test for one note: the lower-cased query occurs in the
      lower-cased title. */
  predicate Matches(title: string, query: string)
  {
    Contains(Lower(title), Lower(query))
  }

  /** The test ignores case on both sides: titles that differ only in letter
      case, matched against queries that differ only in letter case, give
      the same answer. */
  lemma MatchesIgnoresCase(title: string, title2: string, query: string, query2: string)
    requires SameUpToCase(title, title2) && SameUpToCase(query, query2)
    ensures Matches(title, query) == Matches(title2, query2)
  {
    LowerIgnoresCase(title, title2);
    LowerIgnoresCase(query, query2);
  }

  /** In particular, lower-casing the title or the query first changes
      nothing. */
  lemma MatchesAfterLower(title: string, query: string)
    ensures Matches(Lower(title), query) == Matches(title, query)
    ensures Matches(title, Lower(query)) == Matches(title, query)
  {
    LowerIdempotent(title);
    LowerIdempotent(query);
  }

  /** The example of a case-insensitive match: "gro" is found in
      "Groceries" and in "groovy tunes" but not in "Budget Plan". */
  lemma GroMatchesGroceries()
    ensures Matches("Groceries", "gro")
  {
    LowerOfLowerCase("gro");
    assert Lower("Groceries")[..3] == "gro";
  }

  lemma GroMatchesGroovyTunes()
    ensures Matches("groovy tunes", "gro")
  {
    LowerOfLowerCase("gro");
    LowerOfLowerCase("groovy tunes");
    assert "groovy tunes"[..3] == "gro";
  }

  lemma GroMissesBudgetPlan()
    ensures !Matches("Budget Plan", "gro")
  {
    var lowered := Lower("Budget Plan");
    assert lowered == "budget plan";
    LowerOfLowerCase("gro");
    assert forall i :: 0 <= i < |lowered| - 1 ==> !(lowered[i] == 'g' && lowered[i + 1] == 'r');
    NoOccurrenceOfPair(lowered, "gro");
    ContainsIsSubstring(lowered, "gro");
  }

  /** The search example in full: over three notes titled "Groceries",
      "Budget Plan" and "groovy tunes", the query "gro" keeps the first and
      the third, in that order. */
  lemma GroScenario(g: Note, b: Note, t: Note)
    requires g.title == "Groceries" && b.title == "Budget Plan" && t.title == "groovy tunes"
    ensures FilterByTitle([g, b, t], "gro") == [g, t]
  {
    GroMatchesGroceries();
    GroMissesBudgetPlan();
    GroMatchesGroovyTunes();
    assert [g, b, t][1..] == [b, t];
    assert [b, t][1..] == [t];
    assert [t][1..] == [];
    assert FilterByTitle([t], "gro") == [t];
    assert FilterByTitle([b, t], "gro") == FilterByTitle([t], "gro");
    assert FilterByTitle([g, b, t], "gro") == [g] + FilterByTitle([b, t], "gro");
  }

  /** `notes.filter { $0.title.lowercased().contains(query.lowercased()) }`:
      the same note objects, not copies. Every note kept matches (sound) and
      every matching note is kept (complete). */
  function FilterByTitle(notes: seq<Note>, query: string): (r: seq<Note>)
    reads notes
    ensures forall n :: n in r ==> n in notes && Matches(n.title, query)
    ensures forall n :: n in notes && Matches(n.title, query) ==> n in r
  {
    if notes == [] then []
    else if Matches(notes[0].title, query) then [notes[0]] + FilterByTitle(notes[1..], query)
    else FilterByTitle(notes[1..], query)
  }

  /** The filtered notes appear in the same relative order as in `notes`. */
  lemma {:induction false} FilterIsSubsequence(notes: seq<Note>, query: string)
    ensures IsSubsequence(FilterByTitle(notes, query), notes)
  {
    if notes == [] {
      assert IsEmbedding([], [], notes);
    } else {
      FilterIsSubsequence(notes[1..], query);
      SubsequenceCons(notes[0], FilterByTitle(notes[1..], query), notes[1..]);
      assert [notes[0]] + notes[1..] == notes;
    }
  }

  /** Filtering a concatenation filters each part. */
  lemma {:induction false} FilterAppend(a: seq<Note>, b: seq<Note>, query: string)
    ensures FilterByTitle(a + b, query) == FilterByTitle(a, query) + FilterByTitle(b, query)
  {
    if a == [] {
      assert a + b == b;
    } else {
      FilterAppend(a[1..], b, query);
      assert (a + b)[1..] == a[1..] + b;
    }
  }

  /** Filtering the filtered list again with the same query changes nothing. */
  lemma {:induction false} FilterIdempotent(notes: seq<Note>, query: string)
    ensures FilterByTitle(FilterByTitle(notes, query), query) == FilterByTitle(notes, query)
  {
    if notes != [] {
      FilterIdempotent(notes[1..], query);
    }
  }
}
