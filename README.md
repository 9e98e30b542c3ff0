# Encrypted notes store and QR file-name rules, modelled in Dafny

This project models two small command-line utilities.

**The notes app** (`notes_app.py`). A `Notes` object keeps an ordered list of
records `{id, title, content}` in `self.notes`. The title is plaintext. The
content is a Fernet token. The object adds, lists, views, deletes and exports
records:

- ids come from `get_next_id`. It returns 1 for an empty list and `max(id) + 1`
  otherwise, recomputed on every call.
- `add_note` strips the typed title and content. It refuses an empty title (checked first), then an empty content. Otherwise it encrypts the content and appends one record.
- `get_note_by_id` finds the first record with an id.
- `delete_note` removes the first record with an id.
- `list_notes` shows a 20-character preview of each decrypted content.
- `export_notes` writes one `ID/Title/Content` block per record.
- `load_notes` falls back to an empty list whenever the file is missing or cannot be parsed.

**The QR script** (`qr_generator.py`). Before anything is encoded, the script
picks the text. The text comes from a file, or is typed and refused when blank.
The script then normalises the output file name: empty becomes `my_qrcode.png`;
a name already ending in `.png` in any letter case is kept; anything else gets
`.png` appended.

Files:

- `wrappers.dfy` defines `Option` and `Result`.
- `text.dfy` models Python's `str.strip()`, `str.lower()`, `str.endswith()` and `str(int)`.
- `crypto.dfy` models the Fernet boundary. A `Fernet` value is a pair of functions bound to one key. `RoundTrips(f)` states that decrypting a token made with the same key returns the plaintext. Lemmas that rely on this take it as a precondition; it is never assumed.
- `note_store.dfy` holds every operation of the store as a function of the record list, with lemmas about them.
- `notes_app.dfy` is the `Notes` class. Its field `notes: seq<Note>` is reassigned by its methods. `GetNoteById`, `DeleteNote`, `ListNotes` and `ExportNotes` keep the source's loops. Every method is proved against the functions of `note_store.dfy`.
- `qr_generator.dfy` models the input and file-name rules.

Console input becomes parameters. The typed strings are passed raw and stripped inside the model. Ids are passed already parsed as integers. Fernet's per-call randomness (IV and timestamp) is a `nonce` parameter.

Points where the program's behaviour is easy to misread:

- The program never enforces unique ids: a loaded file can hold anything. So the model does not assume distinct ids; it proves that add and delete preserve distinctness.
- `add_note` asks for the content only after the title has been accepted, so an empty title is reported first.
- In the QR script, typed text is blank-checked on its stripped form but encoded unstripped. A file's text is not blank-checked at all.

## Model

| member | source | states |
|---|---|---|
| Text.ConcatAppend | notes_app.py:171-176 | writing two runs of strings to the file writes the first run, then the second |
| Text.Strip | notes_app.py:62-66 | Python `strip()`: the result is the input with exactly its leading and trailing whitespace (Python's `isspace` set) cut off; it has no whitespace at either end, and it is empty exactly when every input character is whitespace |
| Text.StripIdempotent | notes_app.py:62-66 | stripping is a normalisation: stripping an already stripped title or content changes nothing |
| Text.Lower | qr_generator.py:24 | `lower()` keeps the length and maps each character through the letter-case map |
| Text.EndsWith | qr_generator.py:24 | Python `str.endswith(suffix)`: the suffix fits in the string and its last `len(suffix)` characters are the suffix; this is the definition itself |
| Text.NatToString | notes_app.py:103 | `str(n)` for `n >= 0`: at least one character, all decimal digits, and no leading `0` unless `n` is 0 |
| Text.IntToString | notes_app.py:103 | `str(id)` in the f-strings is at least one character and starts with `-` exactly for negative ids |
| Text.IntToStringValue | notes_app.py:103 | `str(id)` is the decimal numeral of the id: a non-negative id reads back as itself, a negative one as its magnitude after the `-` |
| Text.NatToStringValue | notes_app.py:176 | the decimal digits written for an id read back as that id |
| Text.IntToStringInjective | notes_app.py:176 | different ids print as different `ID:` fields |
| NoteStore.Loaded | notes_app.py:47-58 | loading gives the parsed records, or the empty list when the file is missing, is not valid JSON, or cannot be read |
| NoteStore.MaxId | notes_app.py:89 | `max` over the ids bounds every id and is one of them |
| NoteStore.NextId | notes_app.py:85-89 | the next id is 1 for an empty store; otherwise it is larger than every id and exactly one more than some id (so it is `max + 1`) |
| NoteStore.AddStep | notes_app.py:60-80 | an empty stripped title, or else an empty stripped content, leaves the list unchanged; otherwise exactly one record is appended: id `NextId` of the old list, so fresh; the stripped title; the encrypted stripped content; earlier records unchanged |
| NoteStore.AddPreservesDistinct | notes_app.py:73-79 | if ids are pairwise distinct before an add, they are afterwards |
| NoteStore.IndexOf | notes_app.py:105-110 | the search finds the first position with the id, and finds none exactly when no record has it |
| NoteStore.DeleteStep | notes_app.py:139-157 | an empty store and an absent id leave the list unchanged; otherwise the first matching record is returned, and the new list is the old one without that position |
| NoteStore.DeleteShape | notes_app.py:152-154 | a successful delete returns a record with the id, shortens the list by one, and keeps the records before and after in their order |
| NoteStore.DeletePreservesDistinct | notes_app.py:152-154 | if ids are pairwise distinct before a delete, they are afterwards, and no record with the deleted id remains |
| NoteStore.DeleteOnlyNoteResetsId | notes_app.py:87-88 | deleting the only record makes the next id 1 again, because no counter is kept |
| NoteStore.DeleteMaxReusesId | notes_app.py:87-89 | with pairwise distinct ids, after the largest-id record is deleted, the next id is recomputed: 1 when the store is empty, otherwise at most the deleted id |
| NoteStore.ViewResult | notes_app.py:112-133 | viewing reports an empty store, an unknown id, or a decryption failure; otherwise it shows the first matching record's id, title and decrypted content |
| NoteStore.ViewAfterAdd | notes_app.py:71-80 | with a key that round-trips, adding a title and content that are not all whitespace succeeds, and viewing the id just assigned shows the stripped title and content |
| NoteStore.Row | notes_app.py:103 | the listing row is exactly `"ID: " + str(id) + ", Title: " + title + ", Preview: " + preview`, the format itself; `RowOfShortNote` states what it shows for a short note |
| NoteStore.Preview | notes_app.py:98-102 | the preview is the first `min(20, length)` characters of the plaintext followed by `...`, or `[Cannot decrypt preview]` when decryption fails |
| NoteStore.PreviewOfEncrypted | notes_app.py:100 | with a key that round-trips, a record's preview is the prefix of its own content followed by `...` |
| NoteStore.RowOfShortNote | notes_app.py:100-103 | with a key that round-trips, the row of a note of at most 20 characters is `ID: n, Title: t, Preview: c...` with the whole content `c` |
| NoteStore.EachNote | notes_app.py:97-103 | the per-record loops render exactly one entry per record, in store order |
| NoteStore.EachNoteAppend | notes_app.py:97-103 | rendering a list renders its parts one after the other |
| NoteStore.Listing | notes_app.py:91-103 | an empty store reports `No notes available.`; otherwise the listing has one row per record, in order, each `ID: n, Title: t, Preview: p` |
| NoteStore.Block | notes_app.py:176 | the export block is exactly `"ID: " + str(id) + "\nTitle: " + title + "\nContent: " + content + "\n\n"`, the format itself; `BlockOfEncrypted` states what it holds under a round-tripping key |
| NoteStore.ExportText | notes_app.py:171-176 | the file body is the records' blocks written one after another in store order; `ExportAppend` and `ExportSnoc` state this |
| NoteStore.ExportContent | notes_app.py:172-175 | the exported content is the plaintext, or `[Cannot decrypt note]` when decryption fails |
| NoteStore.ExportAppend | notes_app.py:171-176 | the export of a list is the exports of its parts concatenated: one block per record, in store order |
| NoteStore.ExportSnoc | notes_app.py:171-176 | exporting one more record appends exactly its block |
| NoteStore.BlockOfEncrypted | notes_app.py:176 | with a key that round-trips, a record's block is `ID: n\nTitle: t\nContent: c\n\n` with its own plaintext `c` |
| NoteStore.ExportResult | notes_app.py:163-177 | a blank file name cancels the export; otherwise the whole export text goes to the stripped name |
| NoteStore.ListingOfFirstNote | notes_app.py:91-103 | with a key that round-trips, a store holding one note with id 1 whose content `c` of at most 20 characters is encrypted under that key lists exactly one row, `ID: 1, Title: t, Preview: c...` |
| NoteStore.AddToEmptyStore | notes_app.py:60-89 | on an empty store, an add whose title and content are not all whitespace creates the only record: id 1, the stripped title, the encrypted stripped content |
| NoteStore.AddListViewDeleteCycle | notes_app.py:60-157 | add then list, view, delete and add again on an empty store: id 1, the full short content in the preview, the plaintext back on view, an empty store after delete, and id 1 again |
| NotesApp.Notes.constructor | notes_app.py:7-13 | a new store holds the cipher and the loaded records |
| NotesApp.Notes.LoadNotes | notes_app.py:47-58 | the record list becomes the loaded list (empty on every failure) |
| NotesApp.Notes.AddNote | notes_app.py:60-80 | the outcome and new list are those of `AddStep` on the old list; distinct ids stay distinct |
| NotesApp.Notes.GetNoteById | notes_app.py:105-110 | the loop returns the first record with the id, and `None` exactly when there is none |
| NotesApp.Notes.ViewNote | notes_app.py:112-133 | the outcome is `ViewResult` of the current list |
| NotesApp.Notes.DeleteNote | notes_app.py:139-157 | the loop finds the first match; the outcome and new list are those of `DeleteStep`; distinct ids stay distinct and the deleted id is gone |
| NotesApp.Notes.ListNotes | notes_app.py:91-103 | the loop renders exactly `Listing` of the current list |
| NotesApp.Notes.ExportNotes | notes_app.py:163-177 | the loop writes exactly `ExportText` of the current list to the stripped name, or cancels on a blank name |
| QrGenerator.HasPngSuffix | qr_generator.py:24 | `filename.lower().endswith('.png')`, written as that composition |
| QrGenerator.OutputFilename | qr_generator.py:21-25 | an empty stripped name becomes `my_qrcode.png`; a name ending in `.png` ignoring case is kept as typed; any other gets `.png` appended; the result always ends in `.png` ignoring case |
| QrGenerator.OutputFilenameIdempotent | qr_generator.py:21-25 | normalising a normalised name changes nothing |
| QrGenerator.UpperCaseSuffixKept | qr_generator.py:24 | a name ending in `.PNG` is kept with its upper-case suffix |
| QrGenerator.InputData | qr_generator.py:7-19 | with a path, the file's text is used, or "file not found" if there is no such file; without one, blank typed text is refused and other typed text is used unstripped |
| QrGenerator.PlanQr | qr_generator.py:7-25 | a refused text decides the outcome before a file name is chosen; an accepted text is paired with the normalised file name |
| QrGenerator.BlankTextRejected | qr_generator.py:16-19 | with no path and blank typed text, the outcome is "input cannot be empty", whatever file name would follow |

## Left out

- Fernet itself: the cipher, key generation, and reading and writing `secret.key` (notes_app.py:1, 15-38). This is a third-party cryptographic library. Encryption and decryption are a pair of functions handed to the store. The round trip is a stated precondition; nonce uniqueness and tamper detection are not modelled.
- The `ValueError("Fernet key is not set.")` branch of `encrypt_text` and `decrypt_text`. After `__init__` the cipher is always set, so the branch cannot fire.
- `save_notes` and the JSON encoding (notes_app.py:40-45). This is file I/O; it does not change the in-memory list, and its errors are only printed.
- `load_notes` reads JSON. The model takes the file's outcome as a parameter: the parsed records, missing, not valid JSON, or unreadable. It does not model a JSON value that is not a list of well-formed records.
- The console: `print`, `input`, the `menu` loop (notes_app.py:181-207) and `main`. This is user-interface plumbing. Typed values are parameters; printed messages are outcome values.
- The `int(...)` parse of typed ids and its "Invalid input" message (notes_app.py:118, 134-135, 145, 158-159). Ids are passed already parsed.
- The listing that `view_note` and `delete_note` print before asking for an id (notes_app.py:116, 143). That listing is `ListNotes`.
- Writing the export file, and I/O errors while writing it (notes_app.py:170, 178-179). The export is modelled as the text written and the file name.
- In the QR script: the `qrcode` matrix and image, `img.save`, the optional `pyqrcode` ASCII view, `webbrowser.open`, reading the input file, and the catch-all error message (qr_generator.py:9-11, 27-52). These are library and OS calls. A missing file is a parameter (`fileText == None`).
- Text.Lower: changes only ASCII `A`-`Z`, where Python's `str.lower()` also maps other scripts' letters, and for a few characters changes the length (`'İ'.lower()` is two code points). No other code point lowers to `.`, `p`, `n` or `g`, so the `.png` test in `OutputFilename` is not affected.
