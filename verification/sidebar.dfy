/**
  The sidebar's pure logic: the search filter over the notes it is given, the
  grouping of the filtered notes by folder, and the guard on the "new folder"
  dialog. A note's `folderId` is optional on this side; `None` is JavaScript's
  `undefined`, which is what `notesInFolder()` compares against.
 */
module Sidebar {
  import opened Basics
  import opened Seqs
  import opened Text

  /** A note as the sidebar sees it. */
  datatype SidebarNote = SidebarNote(id: string, title: string, content: string, folderId: Option<string>)

  /** The search predicate: the lower-cased title or content contains the lower-cased query. */
  predicate Matches(n: SidebarNote, query: string)
  {
    Includes(Lower(n.title), Lower(query)) || Includes(Lower(n.content), Lower(query))
  }

  function MatchesQuery(query: string): SidebarNote -> bool
  {
    (n: SidebarNote) => Matches(n, query)
  }

  function InFolder(folderId: Option<string>): SidebarNote -> bool
  {
    (n: SidebarNote) => n.folderId == folderId
  }

  /** `filteredNotes`. */
  function FilterNotes(notes: seq<SidebarNote>, query: string): (r: seq<SidebarNote>)
  {
    Filter(notes, MatchesQuery(query))
  }

  /** `notesInFolder(folderId)`: the filtered notes whose folder is exactly `folderId`. */
  function NotesInFolder(notes: seq<SidebarNote>, query: string, folderId: Option<string>): (r: seq<SidebarNote>)
  {
    Filter(FilterNotes(notes, query), InFolder(folderId))
  }

  /** A note matches exactly when the lower-cased query occurs somewhere in its lower-cased title or content. */
  lemma MatchesSpec(n: SidebarNote, query: string)
    ensures Matches(n, query) <==>
      (exists i :: OccursAt(Lower(n.title), Lower(query), i)) || (exists i :: OccursAt(Lower(n.content), Lower(query), i))
  {
    IncludesSpec(Lower(n.title), Lower(query));
    IncludesSpec(Lower(n.content), Lower(query));
  }

  /** The filter keeps exactly the matching notes, in their original order. */
  lemma FilterNotesSpec(notes: seq<SidebarNote>, query: string)
    ensures forall n :: n in FilterNotes(notes, query) <==> n in notes && Matches(n, query)
    ensures IsSubseq(FilterNotes(notes, query), notes)
  {
    FilterMembers(notes, MatchesQuery(query));
    FilterIsSubseq(notes, MatchesQuery(query));
  }

  /** Every title contains the empty string, so an empty search shows every note. */
  lemma EmptyQueryKeepsAll(notes: seq<SidebarNote>)
    ensures FilterNotes(notes, "") == notes
  {
    forall i | 0 <= i < |notes|
      ensures MatchesQuery("")(notes[i])
    {
      IncludesEmpty(Lower(notes[i].title));
    }
    FilterAll(notes, MatchesQuery(""));
  }

  /**
    A folder group holds exactly the matching notes of that folder, in the
    filtered order, and is the same as searching within the folder's notes.
   */
  lemma NotesInFolderSpec(notes: seq<SidebarNote>, query: string, folderId: Option<string>)
    ensures forall n :: n in NotesInFolder(notes, query, folderId) <==>
      n in notes && Matches(n, query) && n.folderId == folderId
    ensures IsSubseq(NotesInFolder(notes, query, folderId), FilterNotes(notes, query))
    ensures NotesInFolder(notes, query, folderId) == FilterNotes(Filter(notes, InFolder(folderId)), query)
  {
    FilterNotesSpec(notes, query);
    FilterMembers(FilterNotes(notes, query), InFolder(folderId));
    FilterIsSubseq(FilterNotes(notes, query), InFolder(folderId));
    FilterCommutes(notes, MatchesQuery(query), InFolder(folderId));
  }

  /** The "All Notes" group, `notesInFolder()`, shows only the matching notes that are in no folder. */
  lemma AllNotesGroupIsUnfiled(notes: seq<SidebarNote>, query: string)
    ensures forall n :: n in NotesInFolder(notes, query, None) <==>
      n in notes && Matches(n, query) && n.folderId.None?
  {
    NotesInFolderSpec(notes, query, None);
  }

  /** Groups for different folder ids share no note. */
  lemma GroupsDisjoint(notes: seq<SidebarNote>, query: string, f: Option<string>, g: Option<string>)
    requires f != g
    ensures forall n :: n in NotesInFolder(notes, query, f) ==> n !in NotesInFolder(notes, query, g)
  {
    NotesInFolderSpec(notes, query, f);
    NotesInFolderSpec(notes, query, g);
  }

  // ------------------------------------------------------- folder dialog

  /** The "new folder" dialog: the typed name and whether the dialog is open. */
  datatype FolderDialog = FolderDialog(name: string, open: bool)

  /**
    `handleCreateFolder`: when the trimmed name is not empty, it is handed to
    `onFolderCreate` and the dialog is cleared and closed; otherwise nothing
    happens.
   */
  function HandleCreateFolder(d: FolderDialog): (r: (Option<string>, FolderDialog))
    ensures r.0.None? <==> AllSpace(d.name)
    ensures r.0.Some? ==> r.0.value == Trim(d.name)
    ensures r.0.None? ==> r.1 == d
    ensures r.0.Some? ==> r.1 == FolderDialog("", false)
  {
    TrimEmptyIffAllSpace(d.name);
    var name := Trim(d.name);
    if name != "" then (Some(name), FolderDialog("", false)) else (None, d)
  }

  /**
    What reaches `onFolderCreate` is never empty, starts and ends with a
    non-space, and is the typed name with only whitespace removed from its
    ends; trimming it again changes nothing.
   */
  lemma EmittedNameIsTrimmed(d: FolderDialog)
    requires HandleCreateFolder(d).0.Some?
    ensures var name := HandleCreateFolder(d).0.value;
      && name != ""
      && !IsSpace(name[0]) && !IsSpace(name[|name| - 1])
      && (exists i, j :: 0 <= i <= j <= |d.name| && AllSpace(d.name[..i]) && AllSpace(d.name[j..]) && name == d.name[i..j])
      && Trim(name) == name
  {
    TrimSpec(d.name);
    TrimIdempotent(d.name);
  }
}
