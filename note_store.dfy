/**
 * The behaviour of the notes store as functions of its list of records:
 * id assignment, the guarded add, lookup by id, removal of the first match,
 * the view, the listing preview and the export text. The `Notes` class in
 * module `NotesApp` implements these on its mutable list.
 */
module NoteStore {
  import opened Wrappers
  import opened Text
  import opened Crypto

  /** One record of the store: the id, the plaintext title and the encrypted content. */
  datatype Note = Note(id: int, title: string, content: Token)

  /** What an operation reports, together with the list of records it leaves. */
  datatype Step<O> = Step(outcome: O, notes: seq<Note>)

  predicate HasId(notes: seq<Note>, id: int)
  {
    exists i :: 0 <= i < |notes| && notes[i].id == id
  }

  /** The store's intended invariant: no two records share an id. */
  predicate IdsDistinct(notes: seq<Note>)
  {
    forall i, j :: 0 <= i < j < |notes| ==> notes[i].id != notes[j].id
  }

  /** `k` is the position of the first record whose id is `id`. */
  predicate IsFirstMatch(notes: seq<Note>, id: int, k: nat)
  {
    k < |notes| && notes[k].id == id && forall j :: 0 <= j < k ==> notes[j].id != id
  }

  lemma FirstMatchUnique(notes: seq<Note>, id: int, k: nat, k': nat)
    requires IsFirstMatch(notes, id, k) && IsFirstMatch(notes, id, k')
    ensures k == k'
  {
  }

  function Min(a: int, b: int): int
  {
    if a <= b then a else b
  }

  // ---------------------------------------------------------------- loading

  /** What reading the notes file produced. */
  datatype StoredFile =
    | Parsed(records: seq<Note>)  // the file held a JSON list of records
    | Missing                     // FileNotFoundError
    | Undecodable                 // json.JSONDecodeError
    | Unreadable                  // any other exception while reading

  /** The list `load_notes` leaves: the parsed records, or an empty list on every failure. */
  function Loaded(stored: StoredFile): (r: seq<Note>)
    ensures stored.Parsed? ==> r == stored.records
    ensures !stored.Parsed? ==> r == []
  {
    match stored
    case Parsed(records) => records
    case _ => []
  }

  // ----------------------------------------------------------- id assignment

  /** The largest id of a non-empty list (Python's `max` over the ids). */
  function MaxId(notes: seq<Note>): (m: int)
    requires notes != []
    ensures forall i :: 0 <= i < |notes| ==> notes[i].id <= m
    ensures HasId(notes, m)
  {
    if |notes| == 1 then notes[0].id
    else
      var rest := MaxId(notes[1..]);
      if notes[0].id >= rest then notes[0].id else rest
  }

  /**
   * `get_next_id`: 1 for an empty list, otherwise one more than the largest
   * id. It is recomputed from the current records on every call; no counter
   * is kept, so an id freed by a delete can be handed out again.
   */
  function NextId(notes: seq<Note>): (r: int)
    ensures forall i :: 0 <= i < |notes| ==> notes[i].id < r
    ensures notes == [] ==> r == 1
    ensures notes != [] ==> HasId(notes, r - 1)
  {
    if notes == [] then 1 else MaxId(notes) + 1
  }

  // -------------------------------------------------------------------- add

  datatype AddOutcome = EmptyTitle | EmptyContent | Added(note: Note)

  /**
   * `add_note` given the typed title and content: both are stripped; an
   * empty title is refused first, then an empty content; otherwise the
   * stripped content is encrypted and one record with a fresh id is appended.
   */
  function AddStep(f: Fernet, notes: seq<Note>, rawTitle: string, rawContent: string, nonce: Nonce): (r: Step<AddOutcome>)
    ensures Strip(rawTitle) == [] ==> r == Step(EmptyTitle, notes)
    ensures Strip(rawTitle) != [] && Strip(rawContent) == [] ==> r == Step(EmptyContent, notes)
    ensures r.outcome.Added? <==> Strip(rawTitle) != [] && Strip(rawContent) != []
    ensures r.outcome.Added? ==>
      && r.notes == notes + [r.outcome.note]
      && r.outcome.note.id == NextId(notes)
      && !HasId(notes, r.outcome.note.id)
      && r.outcome.note.title == Strip(rawTitle)
      && r.outcome.note.content == f.encrypt(Strip(rawContent), nonce)
  {
    var title := Strip(rawTitle);
    if title == [] then Step(EmptyTitle, notes)
    else
      var content := Strip(rawContent);
      if content == [] then Step(EmptyContent, notes)
      else
        var note := Note(NextId(notes), title, f.encrypt(content, nonce));
        Step(Added(note), notes + [note])
  }

  /** A successful add keeps the ids pairwise distinct. */
  lemma AddPreservesDistinct(f: Fernet, notes: seq<Note>, rawTitle: string, rawContent: string, nonce: Nonce)
    requires IdsDistinct(notes)
    ensures IdsDistinct(AddStep(f, notes, rawTitle, rawContent, nonce).notes)
  {
    var r := AddStep(f, notes, rawTitle, rawContent, nonce);
    if r.outcome.Added? {
      forall i, j | 0 <= i < j < |r.notes| ensures r.notes[i].id != r.notes[j].id {
        if j == |notes| {
          assert r.notes[i] == notes[i];
        } else {
          assert r.notes[i] == notes[i] && r.notes[j] == notes[j];
        }
      }
    }
  }

  // ----------------------------------------------------------------- lookup

  /** The position of the first record with the given id, if any (the search of `get_note_by_id`). */
  function IndexOf(notes: seq<Note>, id: int): (r: Option<nat>)
    ensures r.None? <==> !HasId(notes, id)
    ensures r.Some? ==> IsFirstMatch(notes, id, r.value)
  {
    if notes == [] then None
    else if notes[0].id == id then Some(0)
    else
      match IndexOf(notes[1..], id)
      case None =>
        assert forall i :: 1 <= i < |notes| ==> notes[i] == notes[1..][i - 1];
        None
      case Some(k) =>
        assert forall j :: 1 <= j <= k ==> notes[j] == notes[1..][j - 1];
        Some(k + 1)
  }

  // ----------------------------------------------------------------- delete

  datatype DeleteOutcome = DeleteNoNotes | DeleteNotFound | Deleted(note: Note)

  /**
   * `delete_note` given the parsed id: an empty store and an absent id leave
   * the records as they are; otherwise the first record with that id is
   * removed and returned.
   */
  function DeleteStep(notes: seq<Note>, id: int): (r: Step<DeleteOutcome>)
    ensures notes == [] ==> r == Step(DeleteNoNotes, notes)
    ensures notes != [] && !HasId(notes, id) ==> r == Step(DeleteNotFound, notes)
    ensures HasId(notes, id) ==>
      exists k: nat :: IsFirstMatch(notes, id, k) && r == Step(Deleted(notes[k]), notes[..k] + notes[k + 1..])
  {
    if notes == [] then Step(DeleteNoNotes, notes)
    else
      match IndexOf(notes, id)
      case None => Step(DeleteNotFound, notes)
      case Some(k) => Step(Deleted(notes[k]), notes[..k] + notes[k + 1..])
  }

  /** Where each record of a list with position `k` removed came from. */
  lemma RemovedAt(notes: seq<Note>, k: nat)
    requires k < |notes|
    ensures var rest := notes[..k] + notes[k + 1..];
      && |rest| == |notes| - 1
      && forall j :: 0 <= j < |rest| ==> rest[j] == notes[if j < k then j else j + 1]
  {
  }

  /**
   * A successful delete shortens the list by one, keeps every other record in
   * its relative order, and returns a record with the requested id.
   */
  lemma DeleteShape(notes: seq<Note>, id: int)
    requires HasId(notes, id)
    ensures var r := DeleteStep(notes, id); var k := IndexOf(notes, id).value;
      && r.outcome == Deleted(notes[k]) && notes[k].id == id
      && |r.notes| == |notes| - 1
      && (forall j :: 0 <= j < k ==> r.notes[j] == notes[j])
      && (forall j :: k <= j < |r.notes| ==> r.notes[j] == notes[j + 1])
  {
    var k := IndexOf(notes, id).value;
    RemovedAt(notes, k);
  }

  /** Deleting keeps distinct ids distinct, and then no record with the deleted id is left. */
  lemma DeletePreservesDistinct(notes: seq<Note>, id: int)
    requires IdsDistinct(notes)
    ensures IdsDistinct(DeleteStep(notes, id).notes)
    ensures !HasId(DeleteStep(notes, id).notes, id)
  {
    if HasId(notes, id) {
      var k := IndexOf(notes, id).value;
      var rest := notes[..k] + notes[k + 1..];
      assert DeleteStep(notes, id).notes == rest;
      RemovedAt(notes, k);
      forall i, j | 0 <= i < j < |rest| ensures rest[i].id != rest[j].id {
        var oi, oj := if i < k then i else i + 1, if j < k then j else j + 1;
        assert rest[i] == notes[oi] && rest[j] == notes[oj] && oi < oj;
      }
      forall j | 0 <= j < |rest| ensures rest[j].id != id {
        var o := if j < k then j else j + 1;
        assert rest[j] == notes[o] && o != k;
        // before k: k is the first match; after k: ids are distinct
        assert o < k ==> notes[o].id != id;
        assert o > k ==> notes[k].id != notes[o].id;
      }
    }
  }

  /** Deleting the only record brings the next id back to 1: no counter survives. */
  lemma DeleteOnlyNoteResetsId(n: Note)
    ensures DeleteStep([n], n.id).notes == []
    ensures NextId(DeleteStep([n], n.id).notes) == 1
  {
    assert IndexOf([n], n.id) == Some(0);
  }

  /**
   * With pairwise distinct ids, after the record with the largest id is
   * deleted, the next id is recomputed from what remains: 1 for an empty
   * store, otherwise at most the deleted id, so that id (or a smaller one) is
   * handed out again. (A duplicate of the largest id would survive the
   * delete of its first copy and keep the next id above it.)
   */
  lemma DeleteMaxReusesId(notes: seq<Note>)
    requires notes != [] && IdsDistinct(notes)
    ensures var rest := DeleteStep(notes, MaxId(notes)).notes;
      && (rest == [] ==> NextId(rest) == 1)
      && (rest != [] ==> NextId(rest) <= MaxId(notes))
  {
    var m := MaxId(notes);
    var k := IndexOf(notes, m).value;
    var rest := notes[..k] + notes[k + 1..];
    assert DeleteStep(notes, m).notes == rest;
    DeletePreservesDistinct(notes, m);
    if rest != [] {
      var top := MaxId(rest);
      var j :| 0 <= j < |rest| && rest[j].id == top;
      RemovedAt(notes, k);
      var o := if j < k then j else j + 1;
      assert rest[j] == notes[o];
      assert top < m;
    }
  }

  // ------------------------------------------------------------------- view

  datatype ViewOutcome = ViewNoNotes | ViewNotFound | CannotDecrypt | Viewed(id: int, title: string, text: string)

  /**
   * `view_note` given the parsed id: the first record with that id, with its
   * content decrypted; a failed decryption is reported and changes nothing.
   */
  function ViewResult(f: Fernet, notes: seq<Note>, id: int): (r: ViewOutcome)
    ensures r.ViewNoNotes? <==> notes == []
    ensures r.ViewNotFound? <==> notes != [] && !HasId(notes, id)
    ensures r.CannotDecrypt? || r.Viewed? <==> HasId(notes, id)
    ensures HasId(notes, id) ==>
      exists k: nat :: IsFirstMatch(notes, id, k)
        && (r.Viewed? <==> f.decrypt(notes[k].content).Some?)
        && (r.Viewed? ==> r == Viewed(id, notes[k].title, f.decrypt(notes[k].content).value))
  {
    if notes == [] then ViewNoNotes
    else
      match IndexOf(notes, id)
      case None => ViewNotFound
      case Some(k) =>
        match f.decrypt(notes[k].content)
        case None => CannotDecrypt
        case Some(text) => Viewed(notes[k].id, notes[k].title, text)
  }

  /**
   * Viewing the record just added gives back its stripped title and content,
   * whatever the store held before (its new id is larger than every other).
   */
  lemma ViewAfterAdd(f: Fernet, notes: seq<Note>, rawTitle: string, rawContent: string, nonce: Nonce)
    requires RoundTrips(f)
    requires !AllSpace(rawTitle) && !AllSpace(rawContent)
    ensures var r := AddStep(f, notes, rawTitle, rawContent, nonce);
      && r.outcome.Added?
      && ViewResult(f, r.notes, r.outcome.note.id) == Viewed(NextId(notes), Strip(rawTitle), Strip(rawContent))
  {
    var r := AddStep(f, notes, rawTitle, rawContent, nonce);
    var n := r.outcome.note;
    assert r.notes[|notes|] == n;
    assert IsFirstMatch(r.notes, n.id, |notes|);
    var k := IndexOf(r.notes, n.id).value;
    FirstMatchUnique(r.notes, n.id, k, |notes|);
  }

  // ---------------------------------------------------------------- listing

  /** The listing preview: the first 20 characters of the plaintext and "...", or a marker when decryption fails. */
  function Preview(f: Fernet, token: Token): (r: string)
    ensures f.decrypt(token).None? ==> r == "[Cannot decrypt preview]"
    ensures f.decrypt(token).Some? ==>
      var text := f.decrypt(token).value;
      && |r| == Min(20, |text|) + 3
      && r[..|r| - 3] == text[..Min(20, |text|)]
      && r[|r| - 3..] == "..."
  {
    match f.decrypt(token)
    case None => "[Cannot decrypt preview]"
    case Some(text) => text[..Min(20, |text|)] + "..."
  }

  /** The preview of a record encrypted under the store's key shows its own content. */
  lemma PreviewOfEncrypted(f: Fernet, text: string, nonce: Nonce)
    requires RoundTrips(f)
    ensures Preview(f, f.encrypt(text, nonce)) == text[..Min(20, |text|)] + "..."
  {
    assert f.decrypt(f.encrypt(text, nonce)) == Some(text);
  }

  /** A short note's row, under the store's key, shows its whole content. */
  lemma RowOfShortNote(f: Fernet, id: int, title: string, text: string, nonce: Nonce)
    requires RoundTrips(f) && |text| <= 20
    ensures Row(f, Note(id, title, f.encrypt(text, nonce)))
      == "ID: " + IntToString(id) + ", Title: " + title + ", Preview: " + text + "..."
  {
    PreviewOfEncrypted(f, text, nonce);
    assert text[..Min(20, |text|)] == text;
  }

  /** One line of the listing. */
  function Row(f: Fernet, n: Note): string
  {
    "ID: " + IntToString(n.id) + ", Title: " + n.title + ", Preview: " + Preview(f, n.content)
  }

  /** `render` applied to each record, in store order: the shape of both the listing and the export. */
  function EachNote(render: Note -> string, notes: seq<Note>): (r: seq<string>)
    ensures |r| == |notes|
    ensures forall k :: 0 <= k < |notes| ==> r[k] == render(notes[k])
  {
    if notes == [] then [] else EachNote(render, notes[..|notes| - 1]) + [render(notes[|notes| - 1])]
  }

  /** Rendering a list renders its parts, one after the other. */
  lemma EachNoteAppend(render: Note -> string, a: seq<Note>, b: seq<Note>)
    ensures EachNote(render, a + b) == EachNote(render, a) + EachNote(render, b)
  {
    assert forall k :: 0 <= k < |b| ==> (a + b)[|a| + k] == b[k];
  }

  /** Rendering the first `i + 1` records extends the rendering of the first `i` by one. */
  lemma EachNoteStep(render: Note -> string, notes: seq<Note>, i: nat)
    requires i < |notes|
    ensures EachNote(render, notes[..i + 1]) == EachNote(render, notes[..i]) + [render(notes[i])]
  {
    assert notes[..i + 1][..i] == notes[..i];
  }

  /** The rows of the listing, one per record, in store order. */
  function Rows(f: Fernet, notes: seq<Note>): seq<string>
  {
    EachNote(n => Row(f, n), notes)
  }

  /** The rows of the first `i + 1` records extend those of the first `i` by one row. */
  lemma RowsStep(f: Fernet, notes: seq<Note>, i: nat)
    requires i < |notes|
    ensures Rows(f, notes[..i + 1]) == Rows(f, notes[..i]) + [Row(f, notes[i])]
  {
    EachNoteStep(n => Row(f, n), notes, i);
  }

  datatype ListOutcome = NoNotesToList | Listed(rows: seq<string>)

  /** What `list_notes` prints: "No notes available." for an empty store, otherwise `Listed`, which stands for the "Your Notes:" header line followed by one row per record, in order. */
  function Listing(f: Fernet, notes: seq<Note>): (r: ListOutcome)
    ensures r.NoNotesToList? <==> notes == []
    ensures r.Listed? ==> |r.rows| == |notes| && forall k :: 0 <= k < |notes| ==> r.rows[k] == Row(f, notes[k])
  {
    if notes == [] then NoNotesToList else Listed(Rows(f, notes))
  }

  // ----------------------------------------------------------------- export

  /** The content written for one record: the plaintext, or a marker when decryption fails. */
  function ExportContent(f: Fernet, token: Token): (r: string)
    ensures f.decrypt(token).Some? ==> r == f.decrypt(token).value
    ensures f.decrypt(token).None? ==> r == "[Cannot decrypt note]"
  {
    match f.decrypt(token)
    case None => "[Cannot decrypt note]"
    case Some(text) => text
  }

  /** The block written for one record. */
  function Block(f: Fernet, n: Note): string
  {
    "ID: " + IntToString(n.id) + "\nTitle: " + n.title + "\nContent: " + ExportContent(f, n.content) + "\n\n"
  }

  /** The blocks of the export, one per record, in store order. */
  function Blocks(f: Fernet, notes: seq<Note>): seq<string>
  {
    EachNote(n => Block(f, n), notes)
  }

  /** The whole export file: the blocks of the records written one after another. */
  function ExportText(f: Fernet, notes: seq<Note>): string
  {
    Concat(Blocks(f, notes))
  }

  /** The export of a list is the export of its parts, one after the other: one block per record, in order. */
  lemma ExportAppend(f: Fernet, a: seq<Note>, b: seq<Note>)
    ensures ExportText(f, a + b) == ExportText(f, a) + ExportText(f, b)
  {
    EachNoteAppend(n => Block(f, n), a, b);
    ConcatAppend(Blocks(f, a), Blocks(f, b));
  }

  /** Exporting one more record writes its block after everything before it. */
  lemma ExportSnoc(f: Fernet, notes: seq<Note>, n: Note)
    ensures ExportText(f, notes + [n]) == ExportText(f, notes) + Block(f, n)
  {
    EachNoteAppend(n => Block(f, n), notes, [n]);
    ConcatSnoc(Blocks(f, notes), Block(f, n));
  }

  /** The export of the first `i + 1` records extends that of the first `i` by one block. */
  lemma ExportStep(f: Fernet, notes: seq<Note>, i: nat)
    requires i < |notes|
    ensures ExportText(f, notes[..i + 1]) == ExportText(f, notes[..i]) + Block(f, notes[i])
  {
    EachNoteStep(n => Block(f, n), notes, i);
    ConcatSnoc(Blocks(f, notes[..i]), Block(f, notes[i]));
  }

  /** Records encrypted under the store's key are exported with their plaintext. */
  lemma BlockOfEncrypted(f: Fernet, id: int, title: string, text: string, nonce: Nonce)
    requires RoundTrips(f)
    ensures Block(f, Note(id, title, f.encrypt(text, nonce)))
      == "ID: " + IntToString(id) + "\nTitle: " + title + "\nContent: " + text + "\n\n"
  {
    assert f.decrypt(f.encrypt(text, nonce)) == Some(text);
  }

  datatype ExportOutcome = ExportCancelled | Exported(path: string, text: string)

  /** `export_notes` given the typed file name: a blank name cancels, otherwise the export text goes to the stripped name. */
  function ExportResult(f: Fernet, notes: seq<Note>, rawPath: string): (r: ExportOutcome)
    ensures r.ExportCancelled? <==> Strip(rawPath) == []
    ensures r.Exported? ==> r.path == Strip(rawPath) && r.text == ExportText(f, notes)
  {
    var path := Strip(rawPath);
    if path == [] then ExportCancelled else Exported(path, ExportText(f, notes))
  }

  // --------------------------------------------------------------- scenario

  /** On an empty store, an add of a title and content that are not blank creates the single record, with id 1. */
  lemma AddToEmptyStore(f: Fernet, rawTitle: string, rawContent: string, nonce: Nonce)
    requires !AllSpace(rawTitle) && !AllSpace(rawContent)
    ensures var n := Note(1, Strip(rawTitle), f.encrypt(Strip(rawContent), nonce));
      AddStep(f, [], rawTitle, rawContent, nonce) == Step(Added(n), [n])
  {
    assert NextId([]) == 1;
  }

  /** With a key that round-trips, the listing of a store holding one short note with id 1, encrypted under that key. */
  lemma ListingOfFirstNote(f: Fernet, title: string, content: string, nonce: Nonce)
    requires RoundTrips(f) && |content| <= 20
    ensures Listing(f, [Note(1, title, f.encrypt(content, nonce))])
      == Listed(["ID: 1, Title: " + title + ", Preview: " + content + "..."])
  {
    var n := Note(1, title, f.encrypt(content, nonce));
    RowOfShortNote(f, 1, title, content, nonce);
    assert IntToString(1) == "1" by {
      assert DigitChar(1) == '1';
    }
    assert "ID: " + "1" + ", Title: " == "ID: 1, Title: ";
    assert Rows(f, [n]) == [Row(f, n)];
  }

  /**
   * One add / list / view / delete / add cycle on an empty store (for
   * example "Shopping" and "milk, eggs"): the note gets id 1, the listing
   * shows its whole short content followed by "...", viewing id 1 gives the
   * plaintext back, deleting id 1 empties the store, and the next add is
   * given id 1 again.
   */
  lemma AddListViewDeleteCycle(f: Fernet, title: string, content: string, nonce: Nonce, nonce2: Nonce)
    requires RoundTrips(f)
    requires Trimmed(title) && title != [] && Trimmed(content) && content != [] && |content| <= 20
    ensures var added := AddStep(f, [], title, content, nonce);
      && added.outcome == Added(Note(1, title, f.encrypt(content, nonce)))
      && Listing(f, added.notes) == Listed(["ID: 1, Title: " + title + ", Preview: " + content + "..."])
      && ViewResult(f, added.notes, 1) == Viewed(1, title, content)
      && var deleted := DeleteStep(added.notes, 1);
      && deleted == Step(Deleted(added.outcome.note), [])
      && Listing(f, deleted.notes) == NoNotesToList
      && AddStep(f, deleted.notes, title, content, nonce2).outcome.note.id == 1
  {
    var n := Note(1, title, f.encrypt(content, nonce));
    assert !AllSpace(title) && !AllSpace(content) by {
      assert !IsSpace(title[0]) && !IsSpace(content[0]);
    }
    StripTrimmed(title);
    StripTrimmed(content);
    AddToEmptyStore(f, title, content, nonce);
    ListingOfFirstNote(f, title, content, nonce);
    ViewAfterAdd(f, [], title, content, nonce);
    DeleteOnlyNoteResetsId(n);
    assert IndexOf([n], 1) == Some(0);
    AddToEmptyStore(f, title, content, nonce2);
  }
}
