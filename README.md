# Personal notes: the App state machine

A model of the root `App` component of the single-page notes application in
`notes_frontend/src/App.js`. The component holds four state cells: the note
collection `notes`, the selected note `activeId`, the edit-mode flag
`isEditing` and the draft `editNote`. Event handlers create, select, edit,
save, delete and cancel. Two effects follow the handlers: one persists the
collection and one repairs a selection that names no note.

Layout:

- `wrappers.dfy` (`Wrappers`): the `Option` type, standing for `null`.
- `js_string.dfy` (`JsString`): `String.prototype.trim` and the blank-title test.
- `notes.dfy` (`Notes`): the `Note` record and the pure `find`/`map`/`filter`/spread
  computations over the collection. It also holds the selection the
  stale-selection effect and the delete handler compute, with lemmas about both.
- `storage.dfy` (`Storage`): `loadNotes`/`saveNotes` over a key-value store, with the
  JSON codec passed in as two functions.
- `app.dfy` (`NotesApp`): the class `App`. It has the four cells as fields, plus the
  collection last written to storage. Each method models one user event.

The event semantics follow React. A handler's `setX` calls all compute from the
state before the event. After the handler, an effect runs only if one of its
dependencies changed. `setNotes` always receives a new array, so both effects
run after every committed save and every confirmed delete. `activeId` is a
string compared by value. Selecting the already-selected note therefore runs
no effect, and neither do new-note, edit, change and cancel. This is why
edit mode survives `handleNewNote` on an empty collection.

`App.Valid()` is the invariant that holds between events:

- edit mode always has a draft;
- the stored collection equals `notes`;
- the stale-selection effect has nothing left to repair.

The constructor establishes it and every event method preserves it.

The collection has two further invariants: ids are unique, and every title is
non-blank after trimming. Stored data may break either of them, because
loading does not check them, so they are not part of `Valid()`. Instead,
`SaveNote` and `DeleteNote` each promise to preserve them. No other event
changes the collection.

Consequences of React's effect semantics that the model keeps:

- The stale-selection repair is not applied after every transition. It runs only when `notes` or `activeId` changed.
- The delete handler does not pick the first remaining note itself. It picks the first note of the old collection, which may be the deleted note. The effect then repairs it. `Notes.DeleteThenFallback` proves that the final selection is the first remaining note, or none.
- `selectNote(id)` with an id that names no note does not stay on that id. The effect moves it to the first note.
- "Removing a present id shortens the collection by one" depends on unique ids. Without them, every entry with the id is removed (`Notes.CountIdOfUnique`, `Notes.RemoveById`).

## Model

| member | source | states |
|---|---|---|
| `JsString.IsWhitespace` | notes_frontend/src/App.js:216 | the characters `trim()` removes: ECMAScript's WhiteSpace and LineTerminator code points |
| `JsString.TrimStart` | notes_frontend/src/App.js:216 | the result is the suffix of the title after its leading whitespace; every dropped character is whitespace, and the result does not start with whitespace |
| `JsString.TrimEnd` | notes_frontend/src/App.js:216 | the result is the prefix before the trailing whitespace; every dropped character is whitespace, and the result does not end with whitespace |
| `JsString.Trim` | notes_frontend/src/App.js:216 | `trim()` drops the leading whitespace, then keeps the longest prefix of the rest that is followed only by whitespace; the result neither starts nor ends with whitespace |
| `JsString.IsBlank` | notes_frontend/src/App.js:216 | `!title.trim()` holds exactly when every character of the title is whitespace |
| `Notes.Find` | notes_frontend/src/App.js:221 | `find` by id returns a note exactly when some entry carries the id, and then it returns an entry of the collection with that id |
| `Notes.FindIsFirst` | notes_frontend/src/App.js:221 | the note `find` returns is the first entry that carries the id |
| `Notes.UniqueIdsAt` | notes_frontend/src/App.js:34-35 | unique ids, defined as "the first id does not recur in the rest, and the rest is unique", means exactly that no two positions hold the same id |
| `Notes.TitledAt` | notes_frontend/src/App.js:216 | in a collection with every title non-blank, the title at any position is non-blank |
| `Notes.TitledFromEach` | notes_frontend/src/App.js:216 | conversely, a collection whose every position holds a non-blank title has every title non-blank |
| `Notes.Lookup` | notes_frontend/src/App.js:200 | `find` by the active id, which may be `null`: a note exactly when the id is present and names an entry, and then an entry of the collection with that id |
| `Notes.FirstId` | notes_frontend/src/App.js:158 | `notes.length > 0 ? notes[0].id : null` is none exactly when the collection is empty, and otherwise the id of an entry |
| `Notes.ReplaceById` | notes_frontend/src/App.js:222-226 | `map` keeps the length; every entry with the draft's id becomes the draft at its own position, and every other entry is kept |
| `Notes.RemoveById` | notes_frontend/src/App.js:239 | `filter` keeps exactly the entries without the id; the length drops by the number of entries carrying it |
| `Notes.RemoveByIdKeepsOrder` | notes_frontend/src/App.js:239 | `filter` distributes over concatenation, so survivors keep their relative order |
| `Notes.RemoveAbsentId` | notes_frontend/src/App.js:239 | removing an id that no entry carries leaves the collection unchanged |
| `Notes.CountIdOfUnique` | notes_frontend/src/App.js:239 | with unique ids, an id occurs once if present and never otherwise, so a delete removes exactly one entry |
| `Notes.RemoveByIdKeepsUnique` | notes_frontend/src/App.js:239 | deleting never introduces a duplicate id |
| `Notes.RemoveByIdKeepsTitled` | notes_frontend/src/App.js:239 | deleting keeps only old entries, so if every title was non-blank it still is |
| `Notes.Stamp` | notes_frontend/src/App.js:224-228 | `{ ...editNote, updated: Date.now() }` keeps the draft's id, title and content and sets `updated` to the save time |
| `Notes.SavedNotes` | notes_frontend/src/App.js:220-228 | the committed collection contains the stamped draft, keeps every old entry with another id, and contains nothing else |
| `Notes.SaveActive` | notes_frontend/src/App.js:229 | the selection after a save changes only when the draft's id is new, and then it becomes that id |
| `Notes.SaveInsertsNew` | notes_frontend/src/App.js:227-228 | a draft whose id is new is prepended with the save time; the length grows by one and the old notes follow in order |
| `Notes.SaveUpdatesExisting` | notes_frontend/src/App.js:221-226 | a draft whose id is present replaces exactly the entries with that id, at their positions, stamped with the save time; all else is unchanged |
| `Notes.SaveKeepsIds` | notes_frontend/src/App.js:221-230 | every id present before a committed save is present after it |
| `Notes.SaveSettles` | notes_frontend/src/App.js:221-230 | from a settled selection, a committed save leaves a selection that the stale-selection effect does not change: the old one after an update, the new id after an insert |
| `Notes.SaveKeepsUnique` | notes_frontend/src/App.js:221-230 | a committed save keeps unique ids unique, because it inserts only absent ids |
| `Notes.ReplaceByIdKeepsTitled` | notes_frontend/src/App.js:222-226 | replacing entries by a note with a non-blank title keeps every title non-blank |
| `Notes.SaveKeepsTitled` | notes_frontend/src/App.js:216-228 | a committed save keeps every title non-blank, because the draft's title passed the blank check and every other entry is an old one |
| `Notes.NextActive` | notes_frontend/src/App.js:169-170 | after the effect, `activeId` is none exactly when there are no notes; otherwise it names a note of the collection, which the effect's `find` then resolves |
| `Notes.FallbackIdempotent` | notes_frontend/src/App.js:168-173 | running the effect's repair twice gives the same selection as running it once |
| `Notes.FallbackFixedPoints` | notes_frontend/src/App.js:168-173 | the repair leaves `activeId` alone exactly when it already finds a note, or when it is none and the collection is empty |
| `Notes.DeleteActive` | notes_frontend/src/App.js:240-241 | the delete handler's own selection changes only when the deleted id was active; it is then present exactly when more than one note existed, and in that case it is the old first note's id, which may be the deleted note itself |
| `Notes.DeleteThenFallback` | notes_frontend/src/App.js:240-241 | after delete plus repair, a deleted active note gives way to the first remaining note or none, and any other settled selection is kept |
| `Notes.DeleteFirstOfTwoIsRepaired` | notes_frontend/src/App.js:240-241 | deleting the active first of two notes leaves the handler pointing at the deleted id, and the effect moves the selection to the other note |
| `Storage.LoadNotes` | notes_frontend/src/App.js:15-26 | a missing, empty or unparsable blob loads as no notes; otherwise the result is the parsed collection |
| `Storage.SaveNotes` | notes_frontend/src/App.js:29-32 | the serialized collection overwrites the one storage key and leaves every other key as it was |
| `Storage.LoadAfterSave` | notes_frontend/src/App.js:15-32 | if the codec round-trips, loading after saving returns the saved collection |
| `NotesApp.App.Valid` | notes_frontend/src/App.js:157-173 | between events, edit mode has a draft, the stored collection equals `notes`, and the stale-selection effect has nothing to repair |
| `NotesApp.App.constructor` | notes_frontend/src/App.js:157-160 | the initial state is the loaded notes, the first note's id (or none), view mode and no draft; the invariant holds |
| `NotesApp.App.Fallback` | notes_frontend/src/App.js:168-173 | a selection that finds no note becomes the first id or none, and edit mode is forced off; otherwise nothing changes |
| `NotesApp.App.Persist` | notes_frontend/src/App.js:163-165 | the stored collection becomes the current `notes`; nothing else changes |
| `NotesApp.App.NewNote` | notes_frontend/src/App.js:177-187 | the draft becomes a note with the given id and time and empty title and content; edit mode is on; `notes` and `activeId` are untouched |
| `NotesApp.App.SelectNote` | notes_frontend/src/App.js:190-194 | the draft is dropped and view mode is set; a present id becomes the selection, and an absent one is repaired to the first id |
| `NotesApp.App.EditNote` | notes_frontend/src/App.js:197-206 | the mode defaults to `"__EDIT__"`; in mode `"__EDIT__"` with a resolving selection, the draft becomes a copy of the active note and edit mode is on; otherwise nothing changes |
| `NotesApp.App.NoteChange` | notes_frontend/src/App.js:209-211 | the draft becomes the updated note; nothing else changes |
| `NotesApp.App.SaveNote` | notes_frontend/src/App.js:214-234 | a blank title is rejected with nothing changed; otherwise the collection becomes `Notes.SavedNotes` of the draft (insert or update), a new id is selected, and edit mode ends; unique ids stay unique and non-blank titles stay non-blank |
| `NotesApp.App.DeleteNote` | notes_frontend/src/App.js:237-245 | a declined delete changes nothing; a confirmed one removes the draft's id, clears the draft and edit mode, and repairs a deleted selection to the first remaining note while keeping any other; unique ids and non-blank titles are preserved |
| `NotesApp.App.CancelEdit` | notes_frontend/src/App.js:248-251 | the draft and edit mode are cleared; `notes` and `activeId` are unchanged |
| `NotesApp.CancelTwice` | notes_frontend/src/App.js:248-251 | a second cancel changes nothing |
| `NotesApp.CreateFromEmpty` | notes_frontend/src/App.test.js:10-19 | add, type "Sample Note" and save on an empty collection: one note with that title, selected, in view mode |
| `NotesApp.DeleteSecondOfTwo` | notes_frontend/src/App.js:237-245 | with notes [A, B]: select B, edit and confirm the delete; the result is [A] with A selected |
| `NotesApp.SaveBlankTitleKeepsDraft` | notes_frontend/src/App.js:216-219 | an edit whose title was cleared is rejected on save; the collection is unchanged and the draft stays open |

## Left out

- JSON serialization: `JSON.stringify`/`JSON.parse` are foreign library code. `Storage` takes them as parameters, and `App` records the collection it hands to `saveNotes` rather than a string. A blob that parses to something other than an array of notes is not modelled.
- `localStorage` failures (quota, unavailability) are not caught by the source and are not modelled.
- `generateId` (`Date.now()` and `Math.random()`) and the clock: the fresh id and the current time are parameters of `NewNote` and `SaveNote`.
- `NotesApp.App.SaveNote`: one time value stamps every replaced entry. The source calls `Date.now()` once per matching entry, so with duplicate ids the stamps may differ by a few milliseconds.
- `NotesApp.App.SaveNote`, `NotesApp.App.DeleteNote`: both require a draft (`editNote` not null). The source reads `editNote.title` and `editNote.id` and would throw a `TypeError` on `null`. No caller reaches that path, because the editor's Save and Delete buttons render only for a draft in edit mode (App.js:74, 85, 261-262). So the throwing path is excluded rather than modelled.
- `window.confirm` is the `confirmed` parameter of `DeleteNote`. `alert` is the `BlankTitle` outcome of `SaveNote`.
- `JsString.IsWhitespace` works on Unicode scalar values. JavaScript trims UTF-16 code units, so lone surrogates are outside the model.
- Rendering (`Sidebar`, `NoteEditor`, the JSX of `App`, lines 40-152 and 260-289) is presentation. That includes `onEditClick`, which forwards to `NoteChange` and `EditNote`; the `maxLength`/`required` input attributes; the Delete button hidden for an empty id; the "Untitled" labels; and date formatting.
- The theme effect (lines 254-258) only sets CSS variables.
- React scheduling and batching are reduced to the rule above: the handler, then each effect whose dependencies changed. When the stale-selection effect repairs the selection it re-triggers itself; `Notes.FallbackIdempotent` shows that second run changes nothing, so it is not modelled.
- Notes whose fields are missing or mistyped in stored JSON are outside the typed `Note` record.
