/**
 * The note collection of the root `App` component: the record shape of a
 * note and the pure `find`/`map`/`filter`/spread expressions the handlers and
 * the stale-selection effect compute over the array of notes.
 */
module Notes {
  import opened Wrappers
  import opened JsString

  /** A stored note; `updated` is the epoch-millisecond time of its last save. */
  datatype Note = Note(id: string, title: string, content: string, updated: int)

  ghost predicate HasId(notes: seq<Note>, id: string) {
    exists i :: 0 <= i < |notes| && notes[i].id == id
  }

  /** No id occurs twice: the first entry's id does not recur in the rest,
      and the rest is itself unique. */
  ghost predicate UniqueIds(notes: seq<Note>) {
    |notes| == 0 || (!HasId(notes[1..], notes[0].id) && UniqueIds(notes[1..]))
  }

  /** `UniqueIds` holds exactly when no two positions hold the same id. */
  lemma {:induction false} UniqueIdsAt(notes: seq<Note>)
    ensures UniqueIds(notes) <==>
      forall i, j :: 0 <= i < |notes| && 0 <= j < |notes| && notes[i].id == notes[j].id ==> i == j
  {
    if |notes| > 0 {
      var tail := notes[1..];
      UniqueIdsAt(tail);
      assert forall i :: 0 < i < |notes| ==> notes[i] == tail[i - 1];
    }
  }

  /** Every title in the collection has a visible character, as a committed
      save requires. */
  ghost predicate AllTitled(notes: seq<Note>) {
    |notes| == 0 || (!IsBlank(notes[0].title) && AllTitled(notes[1..]))
  }

  /** In a titled collection, the title at every position is non-blank. */
  lemma {:induction false} TitledAt(notes: seq<Note>, i: int)
    requires AllTitled(notes) && 0 <= i < |notes|
    ensures !IsBlank(notes[i].title)
  {
    if i > 0 {
      TitledAt(notes[1..], i - 1);
    }
  }

  /** A collection whose every position holds a non-blank title is titled. */
  lemma {:induction false} TitledFromEach(notes: seq<Note>)
    requires forall i :: 0 <= i < |notes| ==> !IsBlank(notes[i].title)
    ensures AllTitled(notes)
  {
    if |notes| > 0 {
      var tail := notes[1..];
      forall i | 0 <= i < |tail| ensures !IsBlank(tail[i].title) {
        assert tail[i] == notes[i + 1];
      }
      TitledFromEach(tail);
    }
  }

  /** `notes.find(n => n.id === id)`: a note carrying `id`, if any; it is the
      first such note, as `FindIsFirst` shows. */
  function Find(notes: seq<Note>, id: string): (r: Option<Note>)
    ensures r.Some? <==> HasId(notes, id)
    ensures r.Some? ==> r.value in notes && r.value.id == id
  {
    if |notes| == 0 then None
    else if notes[0].id == id then Some(notes[0])
    else
      var r := Find(notes[1..], id);
      assert forall i :: 0 < i < |notes| ==> notes[i] == notes[1..][i - 1];
      r
  }

  /** The note `find` returns is the first one carrying `id`: it sits at a
      position no earlier entry with that id precedes. */
  lemma {:induction false} FindIsFirst(notes: seq<Note>, id: string)
    ensures Find(notes, id).Some? ==>
      exists i :: 0 <= i < |notes| && notes[i] == Find(notes, id).value
                  && forall j :: 0 <= j < i ==> notes[j].id != id
  {
    if |notes| > 0 && notes[0].id != id {
      var tail := notes[1..];
      FindIsFirst(tail, id);
      if Find(tail, id).Some? {
        var k :| 0 <= k < |tail| && tail[k] == Find(tail, id).value
                 && forall j :: 0 <= j < k ==> tail[j].id != id;
        assert notes[k + 1] == tail[k];
        assert forall j :: 0 < j <= k ==> notes[j] == tail[j - 1];
      }
    } else if |notes| > 0 {
      assert notes[0] == Find(notes, id).value;
    }
  }

  /** `notes.find(n => n.id === activeId)` where `activeId` may be `null`:
      a missing id matches no note. */
  function Lookup(notes: seq<Note>, activeId: Option<string>): (r: Option<Note>)
    ensures r.Some? <==> activeId.Some? && HasId(notes, activeId.value)
    ensures r.Some? ==> r.value in notes && r.value.id == activeId.value
  {
    if activeId.None? then None else Find(notes, activeId.value)
  }

  predicate Resolves(notes: seq<Note>, activeId: Option<string>) {
    Lookup(notes, activeId).Some?
  }

  /** `notes.length > 0 ? notes[0].id : null` */
  function FirstId(notes: seq<Note>): (r: Option<string>)
    ensures r.None? <==> |notes| == 0
    ensures r.Some? ==> HasId(notes, r.value)
  {
    if |notes| > 0 then Some(notes[0].id) else None
  }

  /** `notes.map(x => x.id === n.id ? n : x)`: every entry carrying `n`'s id
      is replaced by `n` at its own position; the others are kept. */
  function ReplaceById(notes: seq<Note>, n: Note): (r: seq<Note>)
    ensures |r| == |notes|
    ensures forall i :: 0 <= i < |notes| ==> r[i] == if notes[i].id == n.id then n else notes[i]
  {
    if |notes| == 0 then []
    else [if notes[0].id == n.id then n else notes[0]] + ReplaceById(notes[1..], n)
  }

  /** How many entries carry `id`. */
  function CountId(notes: seq<Note>, id: string): nat {
    if |notes| == 0 then 0
    else (if notes[0].id == id then 1 else 0) + CountId(notes[1..], id)
  }

  /** `notes.filter(x => x.id !== id)`: exactly the entries not carrying `id`. */
  function RemoveById(notes: seq<Note>, id: string): (r: seq<Note>)
    ensures |r| + CountId(notes, id) == |notes|
    ensures forall x :: x in r <==> x in notes && x.id != id
  {
    if |notes| == 0 then []
    else
      var rest := RemoveById(notes[1..], id);
      assert forall x :: x in notes <==> x == notes[0] || x in notes[1..];
      (if notes[0].id == id then [] else [notes[0]]) + rest
  }

  /** The filter keeps the survivors in their original order: it distributes
      over concatenation and acts on single entries as the predicate says. */
  lemma {:induction false} RemoveByIdKeepsOrder(a: seq<Note>, b: seq<Note>, id: string)
    ensures RemoveById(a + b, id) == RemoveById(a, id) + RemoveById(b, id)
  {
    if |a| == 0 {
      assert a + b == b;
    } else {
      assert (a + b)[1..] == a[1..] + b;
      RemoveByIdKeepsOrder(a[1..], b, id);
    }
  }

  /** Removing an id that no entry carries leaves the collection as it was. */
  lemma {:induction false} RemoveAbsentId(notes: seq<Note>, id: string)
    requires !HasId(notes, id)
    ensures RemoveById(notes, id) == notes
  {
    if |notes| > 0 {
      assert !HasId(notes[1..], id) by {
        forall i | 0 <= i < |notes[1..]| ensures notes[1..][i].id != id {
          assert notes[1..][i] == notes[i + 1];
        }
      }
      RemoveAbsentId(notes[1..], id);
      assert notes == [notes[0]] + notes[1..];
    }
  }

  /** Removing an id that exactly one entry carries shortens the collection by one. */
  lemma {:induction false} CountIdOfUnique(notes: seq<Note>, id: string)
    requires UniqueIds(notes)
    ensures CountId(notes, id) == if HasId(notes, id) then 1 else 0
  {
    if |notes| > 0 {
      var tail := notes[1..];
      CountIdOfUnique(tail, id);
      assert HasId(notes, id) <==> notes[0].id == id || HasId(tail, id) by {
        forall i | 0 < i < |notes| ensures notes[i] == tail[i - 1] { }
      }
    }
  }

  /** The filter never introduces a duplicate id. */
  lemma {:induction false} RemoveByIdKeepsUnique(notes: seq<Note>, id: string)
    requires UniqueIds(notes)
    ensures UniqueIds(RemoveById(notes, id))
  {
    if |notes| > 0 {
      var tail := notes[1..];
      RemoveByIdKeepsUnique(tail, id);
      var rest := RemoveById(tail, id);
      if notes[0].id != id {
        var r := [notes[0]] + rest;
        assert !HasId(rest, notes[0].id) by {
          forall k | 0 <= k < |rest| ensures rest[k].id != notes[0].id {
            assert rest[k] in tail;
          }
        }
        assert r[1..] == rest;
        assert RemoveById(notes, id) == r;
      } else {
        assert RemoveById(notes, id) == rest;
      }
    }
  }

  /** `{ ...draft, updated: now }` */
  function Stamp(draft: Note, now: int): (r: Note)
    ensures r.id == draft.id && r.title == draft.title && r.content == draft.content
    ensures r.updated == now
  {
    draft.(updated := now)
  }

  /** The collection the save handler commits: the stamped draft replaces the
      entries carrying its id when there are some, else it is prepended. */
  function SavedNotes(notes: seq<Note>, draft: Note, now: int): (r: seq<Note>)
    ensures draft.(updated := now) in r
    ensures forall x :: x in notes && x.id != draft.id ==> x in r
    ensures forall x :: x in r ==> x == draft.(updated := now) || x in notes
  {
    if Find(notes, draft.id).Some? then ReplaceById(notes, Stamp(draft, now))
    else [Stamp(draft, now)] + notes
  }

  /** A draft with a new id is prepended: one entry longer, the stamped draft
      first, the old notes after it in their original order. */
  lemma SaveInsertsNew(notes: seq<Note>, draft: Note, now: int)
    requires !HasId(notes, draft.id)
    ensures var r := SavedNotes(notes, draft, now);
      |r| == |notes| + 1 && r[0] == draft.(updated := now) && r[1..] == notes
  {
  }

  /** A draft with a known id replaces exactly the entries carrying that id,
      each at its own position; length, order and every other note are kept. */
  lemma SaveUpdatesExisting(notes: seq<Note>, draft: Note, now: int)
    requires HasId(notes, draft.id)
    ensures var r := SavedNotes(notes, draft, now);
      |r| == |notes| &&
      forall i :: 0 <= i < |notes| ==>
        r[i] == if notes[i].id == draft.id then draft.(updated := now) else notes[i]
  {
  }

  /** Saving never changes which position holds which id among the old
      entries, so an active id that resolved before still resolves. */
  lemma SaveKeepsIds(notes: seq<Note>, draft: Note, now: int, id: string)
    requires HasId(notes, id)
    ensures HasId(SavedNotes(notes, draft, now), id)
  {
  }

  /** The selection a committed save leaves: the draft's id when it was new,
      else the old one. */
  function SaveActive(notes: seq<Note>, activeId: Option<string>, draft: Note): (r: Option<string>)
    ensures !HasId(notes, draft.id) ==> r == Some(draft.id)
    ensures r != activeId ==> r == Some(draft.id) && !HasId(notes, draft.id)
  {
    if Find(notes, draft.id).Some? then activeId else Some(draft.id)
  }

  /** A committed save never leaves a stale selection behind: from a settled
      selection, the one it leaves is settled in the new collection. */
  lemma SaveSettles(notes: seq<Note>, activeId: Option<string>, draft: Note, now: int)
    requires NextActive(notes, activeId) == activeId
    ensures var a := SaveActive(notes, activeId, draft);
      NextActive(SavedNotes(notes, draft, now), a) == a
  {
  }

  /** Insertion happens only for an absent id, so unique ids stay unique. */
  lemma SaveKeepsUnique(notes: seq<Note>, draft: Note, now: int)
    requires UniqueIds(notes)
    ensures UniqueIds(SavedNotes(notes, draft, now))
  {
    var r := SavedNotes(notes, draft, now);
    if Find(notes, draft.id).Some? {
      UniqueIdsAt(notes);
      UniqueIdsAt(r);
    } else {
      assert r[1..] == notes;
    }
  }

  /** Replacing entries by a titled note keeps every title visible. */
  lemma {:induction false} ReplaceByIdKeepsTitled(notes: seq<Note>, n: Note)
    ensures AllTitled(notes) && !IsBlank(n.title) ==> AllTitled(ReplaceById(notes, n))
  {
    if |notes| > 0 {
      var r := ReplaceById(notes, n);
      ReplaceByIdKeepsTitled(notes[1..], n);
      assert r[1..] == ReplaceById(notes[1..], n);
    }
  }

  /** A committed save keeps every title visible: the draft's title passed
      the blank check, and every other entry is an old one. */
  lemma SaveKeepsTitled(notes: seq<Note>, draft: Note, now: int)
    ensures AllTitled(notes) && !IsBlank(draft.title) ==> AllTitled(SavedNotes(notes, draft, now))
  {
    var r := SavedNotes(notes, draft, now);
    if Find(notes, draft.id).Some? {
      ReplaceByIdKeepsTitled(notes, Stamp(draft, now));
    } else {
      assert r[1..] == notes;
    }
  }

  /** A delete keeps only old entries, so every title stays visible. */
  lemma {:induction false} RemoveByIdKeepsTitled(notes: seq<Note>, id: string)
    ensures AllTitled(notes) ==> AllTitled(RemoveById(notes, id))
  {
    if |notes| > 0 {
      var rest := RemoveById(notes[1..], id);
      RemoveByIdKeepsTitled(notes[1..], id);
      if notes[0].id != id {
        var r := [notes[0]] + rest;
        assert r[1..] == rest;
        assert RemoveById(notes, id) == r;
      } else {
        assert RemoveById(notes, id) == rest;
      }
    }
  }

  /** What the stale-selection effect leaves in `activeId`: the active id when
      it finds a note, else the first note's id or none. */
  function NextActive(notes: seq<Note>, activeId: Option<string>): (r: Option<string>)
    ensures r.None? <==> |notes| == 0
    ensures r.Some? ==> HasId(notes, r.value)
    ensures Resolves(notes, r) == (|notes| > 0)
  {
    if Resolves(notes, activeId) then activeId else FirstId(notes)
  }

  /** Running the effect a second time changes nothing. */
  lemma FallbackIdempotent(notes: seq<Note>, activeId: Option<string>)
    ensures NextActive(notes, NextActive(notes, activeId)) == NextActive(notes, activeId)
  {
  }

  /** The effect leaves `activeId` alone exactly when it already finds a note,
      or when it is none and there is no note to fall back to. */
  lemma FallbackFixedPoints(notes: seq<Note>, activeId: Option<string>)
    ensures NextActive(notes, activeId) == activeId <==>
      Resolves(notes, activeId) || (activeId.None? && |notes| == 0)
  {
  }

  /** The delete handler's own `setActiveId`, computed from the notes as they
      were before the delete: the deleted note's successor is guessed as the
      old first note, which may be the deleted note itself. */
  function DeleteActive(notes: seq<Note>, activeId: Option<string>, deletedId: string): (r: Option<string>)
    ensures r != activeId ==> activeId == Some(deletedId)
    ensures activeId == Some(deletedId) && r.Some? ==> |notes| > 1 && HasId(notes, r.value)
    ensures activeId == Some(deletedId) ==> (r.Some? <==> |notes| > 1)
    ensures activeId == Some(deletedId) && |notes| > 1 ==> r == FirstId(notes)
  {
    if activeId == Some(deletedId) then (if |notes| > 1 then Some(notes[0].id) else None)
    else activeId
  }

  /** Delete followed by the effect: a deleted active note hands the selection
      to the first remaining note (or none); any other settled selection stays. */
  lemma DeleteThenFallback(notes: seq<Note>, activeId: Option<string>, deletedId: string)
    ensures var rest := RemoveById(notes, deletedId);
      activeId == Some(deletedId) ==>
        NextActive(rest, DeleteActive(notes, activeId, deletedId)) == FirstId(rest)
    ensures var rest := RemoveById(notes, deletedId);
      activeId != Some(deletedId) && NextActive(notes, activeId) == activeId ==>
        NextActive(rest, DeleteActive(notes, activeId, deletedId)) == activeId
  {
  }

  /** The transient stale selection: deleting the active first of two notes
      makes the handler itself point at the deleted note, and the effect then
      moves the selection to the other note. */
  lemma DeleteFirstOfTwoIsRepaired(a: Note, b: Note)
    requires a.id != b.id
    ensures var notes := [a, b];
      var rest := RemoveById(notes, a.id);
      && DeleteActive(notes, Some(a.id), a.id) == Some(a.id)
      && rest == [b]
      && !Resolves(rest, Some(a.id))
      && NextActive(rest, DeleteActive(notes, Some(a.id), a.id)) == Some(b.id)
  {
  }
}
