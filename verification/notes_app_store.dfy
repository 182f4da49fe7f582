/**
 * The note store of the list-and-editor variant (`NotesAPI` of E1-1.js): notes with a
 * title and a body, kept as one list under the storage key "notesapp-notes".
 */
module NotesAppStore {
  import opened Wrappers
  import opened Ordering
  import opened Records

  /** New ids are drawn from [0, IdRange): `Math.floor(Math.random() * 1000000)`. */
  const IdRange: int := 1000000

  /** A stored note; `updated` is the time of its last save. */
  datatype Note = Note(id: int, title: string, body: string, updated: int)

  /** The object handed to `saveNote`; the add handler leaves `id` unset. */
  datatype NoteInput = NoteInput(id: Option<int>, title: string, body: string)

  /** The value under "notesapp-notes": `None` while the key is missing. */
  type Stored = Option<seq<Note>>

  function IdOf(n: Note): int { n.id }

  function UpdatedOf(n: Note): int { n.updated }

  /** The notes held in storage, in stored order; a missing key holds none. */
  function Held(stored: Stored): seq<Note> {
    stored.GetOr([])
  }

  /** `getAllNotes`: every stored note, most recently updated first. */
  function GetAll(stored: Stored): (r: seq<Note>)
    ensures SortedDesc(r, UpdatedOf)
    ensures multiset(r) == multiset(Held(stored))
    ensures stored.None? ==> r == []
  {
    SortDesc(Held(stored), UpdatedOf)
  }

  /** The index of the note `find` picks for an input id; an unset id matches nothing. */
  function Match(notes: seq<Note>, id: Option<int>): (r: Option<nat>)
    ensures r.Some? ==> r.value < |notes| && id == Some(notes[r.value].id)
    ensures r.Some? ==> forall j :: 0 <= j < r.value ==> notes[j].id != notes[r.value].id
    ensures r.None? <==> (id.None? || !HasId(notes, IdOf, id.value))
  {
    match id
    case None => None
    case Some(k) => FindFirst(notes, IdOf, k)
  }

  /**
   * `saveNote`: the list written back to storage. An input whose id matches a note edits the
   * first such note of the sorted list; any other input becomes a new note with id `freshId`,
   * appended at the end. The time of the save is `now`.
   */
  function Save(stored: Stored, input: NoteInput, now: int, freshId: int): (r: seq<Note>)
    requires 0 <= freshId < IdRange
    ensures |r| == |Held(stored)| + (if input.id.Some? && HasId(Held(stored), IdOf, input.id.value) then 0 else 1)
    ensures forall j :: 0 <= j < |r| ==>
              r[j] in Held(stored) || (r[j].title == input.title && r[j].body == input.body && r[j].updated == now)
  {
    var notes := GetAll(stored);
    PermutationMembers(notes, Held(stored));
    SortKeepsIds(Held(stored), UpdatedOf, IdOf, input.id.GetOr(0));
    match Match(notes, input.id)
    case Some(i) => notes[i := notes[i].(title := input.title, body := input.body, updated := now)]
    case None => notes + [Note(freshId, input.title, input.body, now)]
  }

  /** `deleteNote`: the list written back, without any note carrying `id`. */
  function Delete(stored: Stored, id: int): (r: seq<Note>)
    ensures forall n :: n in r <==> n in Held(stored) && n.id != id
    ensures SortedDesc(r, UpdatedOf)
  {
    var notes := GetAll(stored);
    PermutationMembers(notes, Held(stored));
    RemoveIdKeepsSorted(notes, IdOf, id, UpdatedOf);
    RemoveId(notes, IdOf, id)
  }

  /**
   * Saving under the id of the note at sorted position `i`, the first with that id, keeps the
   * list's size, gives that note the input's title and body and the time `now` while keeping
   * its id, and leaves every other position as it was, even when the text is unchanged.
   */
  lemma SaveEditsFirstMatch(stored: Stored, input: NoteInput, now: int, freshId: int, i: nat)
    requires 0 <= freshId < IdRange
    requires i < |GetAll(stored)| && input.id == Some(GetAll(stored)[i].id)
    requires forall j :: 0 <= j < i ==> GetAll(stored)[j].id != GetAll(stored)[i].id
    ensures var notes, r := GetAll(stored), Save(stored, input, now, freshId);
            && |r| == |notes|
            && r[i] == Note(notes[i].id, input.title, input.body, now)
            && forall j :: 0 <= j < |r| && j != i ==> r[j] == notes[j]
  {
  }

  /**
   * Saving an input whose id matches no stored note appends exactly one note, with id
   * `freshId`, the input's text and the time `now`, after the sorted list.
   */
  lemma SaveAppendsNew(stored: Stored, input: NoteInput, now: int, freshId: int)
    requires 0 <= freshId < IdRange
    requires input.id.None? || !HasId(Held(stored), IdOf, input.id.value)
    ensures Save(stored, input, now, freshId) == GetAll(stored) + [Note(freshId, input.title, input.body, now)]
  {
    if input.id.Some? {
      SortKeepsIds(Held(stored), UpdatedOf, IdOf, input.id.value);
    }
  }

  /**
   * Starting from unique ids, a save keeps them unique exactly when it edits a note or the
   * drawn id is not in use: nothing checks the random id against the stored ones.
   */
  lemma SaveUniqueIds(stored: Stored, input: NoteInput, now: int, freshId: int)
    requires 0 <= freshId < IdRange
    requires UniqueIds(Held(stored), IdOf)
    ensures UniqueIds(Save(stored, input, now, freshId), IdOf)
            <==> (Match(GetAll(stored), input.id).Some? || !HasId(Held(stored), IdOf, freshId))
  {
    var notes := GetAll(stored);
    var r := Save(stored, input, now, freshId);
    SortKeepsUniqueIds(Held(stored), UpdatedOf, IdOf);
    SortKeepsIds(Held(stored), UpdatedOf, IdOf, freshId);
    match Match(notes, input.id)
    case Some(i) =>
      assert forall j :: 0 <= j < |r| ==> r[j].id == notes[j].id;
    case None =>
      assert r == notes + [Note(freshId, input.title, input.body, now)];
      if HasId(notes, IdOf, freshId) {
        var j :| 0 <= j < |notes| && notes[j].id == freshId;
        assert r[j].id == r[|notes|].id;
      }
  }

  /** A save that creates a note whose random draw repeats a stored id writes two notes with that id. */
  lemma SaveCanDuplicateId(stored: Stored, input: NoteInput, now: int, freshId: int)
    requires 0 <= freshId < IdRange
    requires Match(GetAll(stored), input.id).None?
    requires HasId(Held(stored), IdOf, freshId)
    ensures !UniqueIds(Save(stored, input, now, freshId), IdOf)
  {
    var notes := GetAll(stored);
    var r := Save(stored, input, now, freshId);
    SortKeepsIds(Held(stored), UpdatedOf, IdOf, freshId);
    assert r == notes + [Note(freshId, input.title, input.body, now)];
    var j :| 0 <= j < |notes| && notes[j].id == freshId;
    assert r[j].id == r[|notes|].id;
  }

  /** Deleting an id no note carries writes back the same notes, merely sorted. */
  lemma DeleteAbsentId(stored: Stored, id: int)
    requires !HasId(Held(stored), IdOf, id)
    ensures Delete(stored, id) == GetAll(stored)
    ensures multiset(Delete(stored, id)) == multiset(Held(stored))
  {
    SortKeepsIds(Held(stored), UpdatedOf, IdOf, id);
    RemoveAbsentId(GetAll(stored), IdOf, id);
  }

  /** A delete never creates a duplicate id. */
  lemma DeleteKeepsUniqueIds(stored: Stored, id: int)
    requires UniqueIds(Held(stored), IdOf)
    ensures UniqueIds(Delete(stored, id), IdOf)
  {
    SortKeepsUniqueIds(Held(stored), UpdatedOf, IdOf);
    RemoveIdKeepsUniqueIds(GetAll(stored), IdOf, id);
  }

  /**
   * Reading back after a delete lists exactly what was written, none of it with the deleted id:
   * the written list is already in order.
   */
  lemma GetAllAfterDelete(stored: Stored, id: int)
    ensures GetAll(Some(Delete(stored, id))) == Delete(stored, id)
    ensures !HasId(GetAll(Some(Delete(stored, id))), IdOf, id)
  {
    SortDescSorted(Delete(stored, id), UpdatedOf);
  }
}
