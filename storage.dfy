/**
 * `loadNotes`/`saveNotes`: the whole collection kept under one key of the
 * browser's key-value store. The JSON codec is passed in as `stringify` and
 * `parse`; `parse` answers None where `JSON.parse` throws.
 */
module Storage {
  import opened Wrappers
  import opened Notes

  const StorageKey := "personal_notes_v1"

  type Store = map<string, string>

  /** A missing or empty blob, or one that does not parse, yields no notes;
      otherwise the parsed collection is returned. */
  function LoadNotes(store: Store, parse: string -> Option<seq<Note>>): (r: seq<Note>)
    ensures (StorageKey !in store || store[StorageKey] == "") ==> r == []
    ensures StorageKey in store && store[StorageKey] != "" && parse(store[StorageKey]).Some? ==>
      r == parse(store[StorageKey]).value
    ensures StorageKey in store && store[StorageKey] != "" && parse(store[StorageKey]).None? ==> r == []
  {
    if StorageKey in store && store[StorageKey] != "" then
      match parse(store[StorageKey])
      case Some(ns) => ns
      case None => []
    else []
  }

  /** The serialized collection overwrites the one key; other keys are untouched. */
  function SaveNotes(store: Store, notes: seq<Note>, stringify: seq<Note> -> string): (r: Store)
    ensures r.Keys == store.Keys + {StorageKey}
    ensures r[StorageKey] == stringify(notes)
    ensures forall k :: k in store && k != StorageKey ==> r[k] == store[k]
  {
    store[StorageKey := stringify(notes)]
  }

  /** Given a codec whose parse inverts its (never empty) serialization,
      loading after saving gives back the collection, order and fields included. */
  lemma LoadAfterSave(store: Store, notes: seq<Note>,
                      stringify: seq<Note> -> string, parse: string -> Option<seq<Note>>)
    requires stringify(notes) != "" && parse(stringify(notes)) == Some(notes)
    ensures LoadNotes(SaveNotes(store, notes, stringify), parse) == notes
  {
  }
}
