/**
 * The note store of the sticky-note variant (`NotesAPI` of E1.js): notes with a single
 * `content` text, kept as one list under the storage key "stickynotes-notes". Unlike the
 * list-and-editor store, a save that does not change the text changes nothing.
 */
module StickyStore {
  import opened Wrappers
  import opened Ordering
  import opened Records

  /** New ids are drawn from [0, IdRange): `Math.floor(Math.random() * 1000000)`. */
  const IdRange: int := 1000000

  /**
   * A stored note. `create` is the creation label the add handler formats; a note created
   * through the edit handler has none.
   */
  datatype Note = Note(id: int, content: string, create: Option<string>, updated: int)

  /** The object handed to `saveNote`: always carries an id, and a label only from the add handler. */
  datatype NoteInput = NoteInput(id: int, content: string, create: Option<string>)

  /** The value under "stickynotes-notes": `None` while the key is missing. */
  type Stored = Option<seq<Note>>

  function IdOf(n: Note): int { n.id }

  function UpdatedOf(n: Note): int { n.updated }

  /** The notes held in storage, in stored order; a missing key holds none. */
  function Held(stored: Stored): seq<Note> {
    stored.GetOr([])
  }

  /** `getAllNotes`: every stored note, most recently updated first. */
  function GetAll(stored: Stored): (r: seq<Note>)
    ensures SortedDesc(r, UpdatedOf)
    ensures multiset(r) == multiset(Held(stored))
    ensures stored.None? ==> r == []
  {
    SortDesc(Held(stored), UpdatedOf)
  }

  /**
   * `saveNote`: the list written back to storage. An input whose id matches a note updates the
   * first such note of the sorted list, and only if its content differs; any other input becomes
   * a new note with id `freshId`, appended at the end. The time of the save is `now`.
   */
  function Save(stored: Stored, input: NoteInput, now: int, freshId: int): (r: seq<Note>)
    requires 0 <= freshId < IdRange
    ensures |r| == |Held(stored)| + (if HasId(Held(stored), IdOf, input.id) then 0 else 1)
    ensures forall j :: 0 <= j < |r| ==> r[j] in Held(stored) || (r[j].content == input.content && r[j].updated == now)
  {
    var notes := GetAll(stored);
    PermutationMembers(notes, Held(stored));
    SortKeepsIds(Held(stored), UpdatedOf, IdOf, input.id);
    match FindFirst(notes, IdOf, input.id)
    case Some(i) =>
      if notes[i].content != input.content then notes[i := notes[i].(content := input.content, updated := now)]
      else notes
    case None => notes + [Note(freshId, input.content, input.create, now)]
  }

  /** `deleteNote`: the list written back, without any note carrying `id`. */
  function Delete(stored: Stored, id: int): (r: seq<Note>)
    ensures forall n :: n in r <==> n in Held(stored) && n.id != id
    ensures SortedDesc(r, UpdatedOf)
  {
    var notes := GetAll(stored);
    PermutationMembers(notes, Held(stored));
    RemoveIdKeepsSorted(notes, IdOf, id, UpdatedOf);
    RemoveId(notes, IdOf, id)
  }

  /**
   * Saving the content the first matching note already has writes back the sorted list as it
   * was: neither the content nor the update time of any note changes.
   */
  lemma SaveSameContentChangesNothing(stored: Stored, input: NoteInput, now: int, freshId: int, i: nat)
    requires 0 <= freshId < IdRange
    requires i < |GetAll(stored)| && GetAll(stored)[i].id == input.id
    requires forall j :: 0 <= j < i ==> GetAll(stored)[j].id != input.id
    requires GetAll(stored)[i].content == input.content
    ensures Save(stored, input, now, freshId) == GetAll(stored)
    ensures multiset(Save(stored, input, now, freshId)) == multiset(Held(stored))
  {
  }

  /**
   * Saving new content under the id of the first matching note, at sorted position `i`,
   * changes that note's content and update time only, keeping its id and creation label,
   * and leaves every other position as it was.
   */
  lemma SaveNewContentUpdatesMatch(stored: Stored, input: NoteInput, now: int, freshId: int, i: nat)
    requires 0 <= freshId < IdRange
    requires i < |GetAll(stored)| && GetAll(stored)[i].id == input.id
    requires forall j :: 0 <= j < i ==> GetAll(stored)[j].id != input.id
    requires GetAll(stored)[i].content != input.content
    ensures var notes, r := GetAll(stored), Save(stored, input, now, freshId);
            && |r| == |notes|
            && r[i] == Note(notes[i].id, input.content, notes[i].create, now)
            && forall j :: 0 <= j < |r| && j != i ==> r[j] == notes[j]
  {
  }

  /**
   * Saving under an id no note carries appends exactly one note after the sorted list: id
   * `freshId` in place of the input's, the input's content and label, and the time `now`.
   */
  lemma SaveAppendsNew(stored: Stored, input: NoteInput, now: int, freshId: int)
    requires 0 <= freshId < IdRange
    requires !HasId(Held(stored), IdOf, input.id)
    ensures Save(stored, input, now, freshId) == GetAll(stored) + [Note(freshId, input.content, input.create, now)]
    ensures 0 <= Save(stored, input, now, freshId)[|Held(stored)|].id < IdRange
  {
    SortKeepsIds(Held(stored), UpdatedOf, IdOf, input.id);
  }

  /**
   * Starting from unique ids, a save keeps them unique exactly when it updates a note or the
   * drawn id is not in use: nothing checks the random id against the stored ones.
   */
  lemma SaveUniqueIds(stored: Stored, input: NoteInput, now: int, freshId: int)
    requires 0 <= freshId < IdRange
    requires UniqueIds(Held(stored), IdOf)
    ensures UniqueIds(Save(stored, input, now, freshId), IdOf)
            <==> (HasId(Held(stored), IdOf, input.id) || !HasId(Held(stored), IdOf, freshId))
  {
    var notes := GetAll(stored);
    var r := Save(stored, input, now, freshId);
    SortKeepsUniqueIds(Held(stored), UpdatedOf, IdOf);
    SortKeepsIds(Held(stored), UpdatedOf, IdOf, freshId);
    SortKeepsIds(Held(stored), UpdatedOf, IdOf, input.id);
    match FindFirst(notes, IdOf, input.id)
    case Some(i) =>
      assert forall j :: 0 <= j < |r| ==> r[j].id == notes[j].id;
    case None =>
      assert r == notes + [Note(freshId, input.content, input.create, now)];
      if HasId(notes, IdOf, freshId) {
        var j :| 0 <= j < |notes| && notes[j].id == freshId;
        assert r[j].id == r[|notes|].id;
      }
  }

  /** Deleting an id no note carries writes back the same notes, merely sorted. */
  lemma DeleteAbsentId(stored: Stored, id: int)
    requires !HasId(Held(stored), IdOf, id)
    ensures Delete(stored, id) == GetAll(stored)
    ensures multiset(Delete(stored, id)) == multiset(Held(stored))
  {
    SortKeepsIds(Held(stored), UpdatedOf, IdOf, id);
    RemoveAbsentId(GetAll(stored), IdOf, id);
  }

  /** A delete never creates a duplicate id. */
  lemma DeleteKeepsUniqueIds(stored: Stored, id: int)
    requires UniqueIds(Held(stored), IdOf)
    ensures UniqueIds(Delete(stored, id), IdOf)
  {
    SortKeepsUniqueIds(Held(stored), UpdatedOf, IdOf);
    RemoveIdKeepsUniqueIds(GetAll(stored), IdOf, id);
  }

  /** Reading back after a delete lists exactly what was written: the written list is already in order. */
  lemma GetAllAfterDelete(stored: Stored, id: int)
    ensures GetAll(Some(Delete(stored, id))) == Delete(stored, id)
    ensures !HasId(GetAll(Some(Delete(stored, id))), IdOf, id)
  {
    SortDescSorted(Delete(stored, id), UpdatedOf);
  }
}
