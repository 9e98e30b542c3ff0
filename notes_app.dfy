/**
 * The `Notes` object: its list of records is a field that the operations
 * read and replace. Console prompts become parameters (the raw typed
 * strings, and ids already parsed as integers); each method returns what the
 * program would report and, where the program changes the list, says what
 * the new list is in terms of the old one, through the functions of
 * module `NoteStore`.
 */
module NotesApp {
  import opened Wrappers
  import opened Text
  import opened Crypto
  import opened NoteStore

  class Notes {
    /** The cipher built from the key (`self.fernet`). */
    const fernet: Fernet
    /** The records, in insertion order (`self.notes`). */
    var notes: seq<Note>

    /** `__init__`: the key is ready and the store is loaded from what the notes file held. */
    constructor (fernet: Fernet, stored: StoredFile)
      ensures this.fernet == fernet
      ensures notes == Loaded(stored)
    {
      this.fernet := fernet;
      notes := Loaded(stored);
    }

    /** `load_notes`: replaces the records by the file's, or by none when the file is missing or unreadable. */
    method LoadNotes(stored: StoredFile)
      modifies this
      ensures notes == Loaded(stored)
    {
      match stored
      case Parsed(records) => notes := records;
      case _ => notes := [];
    }

    /** `add_note` with the typed title and content and the encryption's randomness. */
    method AddNote(rawTitle: string, rawContent: string, nonce: Nonce) returns (outcome: AddOutcome)
      modifies this
      ensures Step(outcome, notes) == AddStep(fernet, old(notes), rawTitle, rawContent, nonce)
      ensures IdsDistinct(old(notes)) ==> IdsDistinct(notes)
    {
      if IdsDistinct(notes) {
        AddPreservesDistinct(fernet, notes, rawTitle, rawContent, nonce);
      }
      var title := Strip(rawTitle);
      if title == [] {
        return EmptyTitle;
      }
      var content := Strip(rawContent);
      if content == [] {
        return EmptyContent;
      }
      var token := fernet.encrypt(content, nonce);
      var note := Note(NextId(notes), title, token);
      notes := notes + [note];
      outcome := Added(note);
    }

    /** `get_note_by_id`: the first record with the given id, or `None` when there is none. */
    method GetNoteById(noteId: int) returns (r: Option<Note>)
      ensures r.None? <==> !HasId(notes, noteId)
      ensures r.Some? ==> exists k: nat :: IsFirstMatch(notes, noteId, k) && r.value == notes[k]
    {
      var i := 0;
      while i < |notes|
        invariant 0 <= i <= |notes|
        invariant forall j :: 0 <= j < i ==> notes[j].id != noteId
      {
        if notes[i].id == noteId {
          assert IsFirstMatch(notes, noteId, i);
          return Some(notes[i]);
        }
        i := i + 1;
      }
      return None;
    }

    /** `view_note` with the parsed id. */
    method ViewNote(noteId: int) returns (outcome: ViewOutcome)
      ensures outcome == ViewResult(fernet, notes, noteId)
    {
      if notes == [] {
        return ViewNoNotes;
      }
      var found := GetNoteById(noteId);
      match found
      case None =>
        outcome := ViewNotFound;
      case Some(note) =>
        ghost var k: nat :| IsFirstMatch(notes, noteId, k) && note == notes[k];
        FirstMatchUnique(notes, noteId, IndexOf(notes, noteId).value, k);
        match fernet.decrypt(note.content)
        case None =>
          outcome := CannotDecrypt;
        case Some(text) =>
          outcome := Viewed(note.id, note.title, text);
    }

    /** `delete_note` with the parsed id: the loop finds the first record with that id and removes it. */
    method DeleteNote(noteId: int) returns (outcome: DeleteOutcome)
      modifies this
      ensures Step(outcome, notes) == DeleteStep(old(notes), noteId)
      ensures IdsDistinct(old(notes)) ==> IdsDistinct(notes) && !HasId(notes, noteId)
    {
      if IdsDistinct(notes) {
        DeletePreservesDistinct(notes, noteId);
      }
      if notes == [] {
        return DeleteNoNotes;
      }
      var found := GetNoteById(noteId);
      if found.None? {
        return DeleteNotFound;
      }
      var i := 0;
      while i < |notes| && notes[i].id != noteId
        invariant 0 <= i <= |notes|
        invariant forall j :: 0 <= j < i ==> notes[j].id != noteId
      {
        i := i + 1;
      }
      FirstMatchUnique(notes, noteId, IndexOf(notes, noteId).value, i);
      var deleted := notes[i];
      notes := notes[..i] + notes[i + 1..];
      outcome := Deleted(deleted);
    }

    /** `list_notes`: the loop renders one row per record, with its preview. */
    method ListNotes() returns (outcome: ListOutcome)
      ensures outcome == Listing(fernet, notes)
    {
      if notes == [] {
        return NoNotesToList;
      }
      var rows: seq<string> := [];
      var i := 0;
      while i < |notes|
        invariant 0 <= i <= |notes|
        invariant rows == Rows(fernet, notes[..i])
      {
        RowsStep(fernet, notes, i);
        rows := rows + [Row(fernet, notes[i])];
        i := i + 1;
      }
      assert notes[..i] == notes;
      outcome := Listed(rows);
    }

    /** `export_notes` with the typed file name: the loop writes one block per record. */
    method ExportNotes(rawPath: string) returns (outcome: ExportOutcome)
      ensures outcome == ExportResult(fernet, notes, rawPath)
    {
      var path := Strip(rawPath);
      if path == [] {
        return ExportCancelled;
      }
      var written := "";
      var i := 0;
      while i < |notes|
        invariant 0 <= i <= |notes|
        invariant written == ExportText(fernet, notes[..i])
      {
        ExportStep(fernet, notes, i);
        written := written + Block(fernet, notes[i]);
        i := i + 1;
      }
      assert notes[..i] == notes;
      outcome := Exported(path, written);
    }
  }
}
