/**
 * The root `App` component: four state cells, the event handlers that update
 * them, and the two effects that React re-runs when their dependencies change
 * (persisting `notes`; repairing a stale `activeId`).
 *
 * Each method is one user event: the handler's `setX` updates, all computed
 * from the state as it was before the event, followed by the effects whose
 * dependencies the handler changed. `setNotes` always receives a fresh array,
 * so both effects run after every committed save or delete; `activeId` is
 * compared by value.
 */
module NotesApp {
  import opened Wrappers
  import opened JsString
  import opened Notes

  /** The mode `handleEditNote` acts on. */
  const EditMode := "__EDIT__"

  datatype SaveOutcome = Saved | BlankTitle

  class App {
    var notes: seq<Note>
    var activeId: Option<string>
    var isEditing: bool
    var editNote: Option<Note>
    /** The collection last handed to `saveNotes` by the persisting effect. */
    var persisted: seq<Note>

    /** What holds between events: edit mode always has a draft, the store
        mirrors the collection, and the stale-selection effect has nothing to do. */
    predicate Valid()
      reads this
    {
      && (isEditing ==> editNote.Some?)
      && persisted == notes
      && NextActive(notes, activeId) == activeId
    }

    /** Mount: the loaded collection, its first note selected, view mode. The
        effects run once on mount; the stale-selection one finds nothing to repair. */
    constructor (loaded: seq<Note>)
      ensures Valid()
      ensures notes == loaded && persisted == loaded
      ensures activeId == FirstId(loaded) && !isEditing && editNote.None?
    {
      notes := loaded;
      activeId := FirstId(loaded);
      isEditing := false;
      editNote := None;
      persisted := loaded;
      new;
      if |loaded| > 0 {
        assert HasId(loaded, loaded[0].id);
      }
      Fallback();
    }

    /** The stale-selection effect: when `activeId` finds no note, fall back to
        the first note (or none) and leave edit mode. */
    method Fallback()
      modifies this
      ensures activeId == NextActive(old(notes), old(activeId))
      ensures isEditing == (old(isEditing) && Resolves(old(notes), old(activeId)))
      ensures notes == old(notes) && editNote == old(editNote) && persisted == old(persisted)
    {
      if Lookup(notes, activeId).None? {
        activeId := FirstId(notes);
        isEditing := false;
      }
    }

    /** The persisting effect. */
    method Persist()
      modifies this
      ensures persisted == old(notes)
      ensures notes == old(notes) && activeId == old(activeId)
      ensures isEditing == old(isEditing) && editNote == old(editNote)
    {
      persisted := notes;
    }

    /** `handleNewNote`: a blank draft with the given fresh id and time, in edit
        mode; the collection and the selection are untouched, so no effect runs. */
    method NewNote(freshId: string, now: int)
      requires Valid()
      modifies this
      ensures Valid()
      ensures editNote == Some(Note(freshId, "", "", now)) && isEditing
      ensures notes == old(notes) && activeId == old(activeId) && persisted == old(persisted)
    {
      editNote := Some(Note(freshId, "", "", now));
      isEditing := true;
    }

    /** `handleSelectNote`: select `id` in view mode and drop any draft. A
        different id re-runs the stale-selection effect, so an id that names no
        note ends up as the first note's id. */
    method SelectNote(id: string)
      requires Valid()
      modifies this
      ensures Valid()
      ensures activeId == NextActive(old(notes), Some(id))
      ensures HasId(old(notes), id) ==> activeId == Some(id)
      ensures !isEditing && editNote.None?
      ensures notes == old(notes) && persisted == old(persisted)
    {
      var changed := activeId != Some(id);
      activeId := Some(id);
      isEditing := false;
      editNote := None;
      if changed {
        Fallback();
      }
    }

    /** `handleEditNote`: in mode `"__EDIT__"`, the default, when the active id
        finds a note, edit a copy of that note; otherwise nothing happens. */
    method EditNote(mode: string := EditMode)
      requires Valid()
      modifies this
      ensures Valid()
      ensures mode == EditMode && Resolves(old(notes), old(activeId)) ==>
        editNote == Lookup(old(notes), old(activeId)) && isEditing
      ensures !(mode == EditMode && Resolves(old(notes), old(activeId))) ==>
        editNote == old(editNote) && isEditing == old(isEditing)
      ensures notes == old(notes) && activeId == old(activeId) && persisted == old(persisted)
    {
      if mode == EditMode {
        var note := Lookup(notes, activeId);
        if note.Some? {
          editNote := note;
          isEditing := true;
        }
      }
    }

    /** `handleNoteChange`: the editor hands back the whole updated draft. */
    method NoteChange(updated: Note)
      requires Valid()
      modifies this
      ensures Valid()
      ensures editNote == Some(updated)
      ensures notes == old(notes) && activeId == old(activeId)
      ensures isEditing == old(isEditing) && persisted == old(persisted)
    {
      editNote := Some(updated);
    }

    /** `handleSaveNote`: a blank title is rejected and nothing changes;
        otherwise the stamped draft is committed (replacing the entries with its
        id, or prepended and selected when its id is new) and edit mode ends. */
    method SaveNote(now: int) returns (outcome: SaveOutcome)
      requires Valid() && editNote.Some?
      modifies this
      ensures Valid()
      ensures outcome == BlankTitle <==> IsBlank(old(editNote).value.title)
      ensures outcome == BlankTitle ==>
        notes == old(notes) && activeId == old(activeId) && isEditing == old(isEditing)
        && editNote == old(editNote) && persisted == old(persisted)
      ensures outcome == Saved ==>
        && notes == SavedNotes(old(notes), old(editNote).value, now)
        && activeId == (if HasId(old(notes), old(editNote).value.id) then old(activeId)
                        else Some(old(editNote).value.id))
        && persisted == notes
        && !isEditing && editNote.None?
      ensures old(UniqueIds(notes)) ==> UniqueIds(notes)
      ensures old(AllTitled(notes)) ==> AllTitled(notes)
    {
      var draft := editNote.value;
      if IsBlank(draft.title) {
        outcome := BlankTitle;
        return;
      }
      SaveSettles(notes, activeId, draft, now);
      if UniqueIds(notes) {
        SaveKeepsUnique(notes, draft, now);
      }
      SaveKeepsTitled(notes, draft, now);
      activeId := SaveActive(notes, activeId, draft);
      notes := SavedNotes(notes, draft, now);
      isEditing := false;
      editNote := None;
      Persist();
      Fallback();
      outcome := Saved;
    }

    /** `handleDeleteNote`: a declined confirmation changes nothing; a confirmed
        one drops every entry with the draft's id, ends edit mode and, through
        the stale-selection effect, moves a deleted selection to the first
        remaining note (or none) while keeping any other selection. */
    method DeleteNote(confirmed: bool)
      requires Valid() && editNote.Some?
      modifies this
      ensures Valid()
      ensures !confirmed ==>
        notes == old(notes) && activeId == old(activeId) && isEditing == old(isEditing)
        && editNote == old(editNote) && persisted == old(persisted)
      ensures confirmed ==>
        && notes == RemoveById(old(notes), old(editNote).value.id)
        && (old(activeId) == Some(old(editNote).value.id) ==> activeId == FirstId(notes))
        && (old(activeId) != Some(old(editNote).value.id) ==> activeId == old(activeId))
        && !isEditing && editNote.None?
      ensures old(UniqueIds(notes)) ==> UniqueIds(notes)
      ensures old(AllTitled(notes)) ==> AllTitled(notes)
    {
      if !confirmed {
        return;
      }
      var id := editNote.value.id;
      DeleteThenFallback(notes, activeId, id);
      FallbackIdempotent(RemoveById(notes, id), DeleteActive(notes, activeId, id));
      if UniqueIds(notes) {
        RemoveByIdKeepsUnique(notes, id);
      }
      RemoveByIdKeepsTitled(notes, id);
      activeId := DeleteActive(notes, activeId, id);
      notes := RemoveById(notes, id);
      isEditing := false;
      editNote := None;
      Persist();
      Fallback();
    }

    /** `handleCancelEdit`: drop the draft and leave edit mode; the collection
        and the selection are untouched, so no effect runs. */
    method CancelEdit()
      requires Valid()
      modifies this
      ensures Valid()
      ensures !isEditing && editNote.None?
      ensures notes == old(notes) && activeId == old(activeId) && persisted == old(persisted)
    {
      isEditing := false;
      editNote := None;
    }
  }

  /** Cancelling twice: the second cancel finds nothing to change. */
  method CancelTwice(app: App)
    requires app.Valid()
    modifies app
    ensures app.Valid() && app.notes == old(app.notes) && app.activeId == old(app.activeId)
    ensures !app.isEditing && app.editNote.None?
  {
    app.CancelEdit();
    var notes, activeId, isEditing, editNote := app.notes, app.activeId, app.isEditing, app.editNote;
    app.CancelEdit();
    assert app.notes == notes && app.activeId == activeId;
    assert app.isEditing == isEditing && app.editNote == editNote;
  }

  /** Creating a note from an empty collection: add, type a title, save. The
      draft stays open after the add, because no effect runs for it, and the
      save selects the new note. */
  method CreateFromEmpty(freshId: string, t0: int, t1: int) returns (app: App)
    ensures app.Valid()
    ensures app.notes == [Note(freshId, "Sample Note", "", t1)]
    ensures app.activeId == Some(freshId) && !app.isEditing && app.editNote.None?
  {
    app := new App([]);
    assert app.activeId.None? && !app.isEditing;
    app.NewNote(freshId, t0);
    assert app.isEditing;
    var title := "Sample Note";
    app.NoteChange(Note(freshId, title, "", t0));
    assert title[0] == 'S' && !IsWhitespace(title[0]);
    var outcome := app.SaveNote(t1);
    assert SavedNotes([], Note(freshId, title, "", t0), t1) == [Note(freshId, title, "", t1)];
  }

  /** Two notes, the second selected, edited and deleted with confirmation:
      the first note remains and is selected. */
  method DeleteSecondOfTwo(a: Note, b: Note) returns (app: App)
    requires a.id != b.id
    ensures app.Valid()
    ensures app.notes == [a] && app.activeId == Some(a.id) && !app.isEditing
  {
    app := new App([a, b]);
    assert HasId([a, b], b.id) by { assert [a, b][1].id == b.id; }
    app.SelectNote(b.id);
    app.EditNote();
    assert app.editNote == Some(b);
    app.DeleteNote(true);
    assert RemoveById([a, b], b.id) == [a] by {
      RemoveByIdKeepsOrder([a], [b], b.id);
      assert [a] + [b] == [a, b];
      assert [a][1..] == [] && [b][1..] == [];
    }
  }

  /** Editing an existing note and clearing its title: the save is rejected,
      the collection is unchanged and the draft stays open with the empty title. */
  method SaveBlankTitleKeepsDraft(a: Note) returns (app: App)
    ensures app.Valid()
    ensures app.notes == [a] && app.isEditing && app.editNote == Some(a.(title := ""))
  {
    app := new App([a]);
    app.EditNote(EditMode);
    app.NoteChange(a.(title := ""));
    var outcome := app.SaveNote(0);
    assert IsBlank("");
    assert outcome == BlankTitle;
  }
}
