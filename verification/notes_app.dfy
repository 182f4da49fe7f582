/**
 * The controller of the list-and-editor variant (`App` of E1-1.js): the list last read from
 * the store and the note open in the editor, updated by the four handlers.
 */
module NotesApp {
  import opened Wrappers
  import opened Ordering
  import opened Records
  import opened NotesAppStore

  /** Text of the note the add handler creates. */
  const NewTitle: string := "New note"
  const NewBody: string := "Take note..."

  /** The controller's state: storage, the cached list (`notes`) and the open note (`activeNote`). */
  datatype App = App(stored: Stored, notes: seq<Note>, active: Option<Note>)

  /** Why a handler threw: the edit handler reads the id of an `activeNote` that is null or undefined. */
  datatype HandlerError = NoActiveNote

  /**
   * `refreshNotes`: re-reads the store; a non-empty list opens its first, most recently updated,
   * note, and an empty list leaves the open note as it was.
   */
  function Refresh(app: App): (r: App)
    ensures r.stored == app.stored
    ensures multiset(r.notes) == multiset(Held(app.stored))
    ensures SortedDesc(r.notes, UpdatedOf)
    ensures |r.notes| > 0 ==> r.active == Some(r.notes[0])
    ensures |r.notes| > 0 ==> forall n :: n in Held(app.stored) ==> n.updated <= r.active.value.updated
    ensures |r.notes| == 0 ==> r.active == app.active
  {
    var notes := GetAll(app.stored);
    PermutationMembers(notes, Held(app.stored));
    if |notes| > 0 then App(app.stored, notes, Some(notes[0])) else App(app.stored, notes, app.active)
  }

  /** The constructor: nothing cached, nothing open, then a refresh. */
  function Start(stored: Stored): (r: App)
    ensures r.stored == stored
    ensures r.notes == GetAll(stored)
    ensures |r.notes| > 0 ==> r.active == Some(r.notes[0])
    ensures r.active.Some? <==> |Held(stored)| > 0
  {
    Refresh(App(stored, [], None))
  }

  /**
   * `onNoteSelect`: opens the first cached note with the given id; no such note leaves nothing
   * open. The store and the cached list are untouched.
   */
  function Select(app: App, noteId: int): (r: App)
    ensures r.stored == app.stored && r.notes == app.notes
    ensures r.active.Some? <==> HasId(app.notes, IdOf, noteId)
    ensures r.active.Some? ==> exists i :: 0 <= i < |app.notes| && app.notes[i] == r.active.value
                                         && r.active.value.id == noteId
                                         && forall j :: 0 <= j < i ==> app.notes[j].id != noteId
  {
    match FindFirst(app.notes, IdOf, noteId)
    case Some(i) => App(app.stored, app.notes, Some(app.notes[i]))
    case None => App(app.stored, app.notes, None)
  }

  /**
   * `onNoteEdit`: saves the editor's title and body under the open note's id, then refreshes.
   * With no open note the handler throws before touching the store.
   */
  function Edit(app: App, title: string, body: string, now: int, freshId: int): (r: Result<App, HandlerError>)
    requires 0 <= freshId < IdRange
    ensures r.Failure? <==> app.active.None?
    ensures r.Success? ==> r.value.stored == Some(Save(app.stored, NoteInput(Some(app.active.value.id), title, body), now, freshId))
    ensures r.Success? ==> r.value.notes == GetAll(r.value.stored)
    ensures r.Success? ==> |r.value.notes| > 0 && r.value.active == Some(r.value.notes[0])
  {
    match app.active
    case None => Failure(NoActiveNote)
    case Some(a) =>
      var saved := Save(app.stored, NoteInput(Some(a.id), title, body), now, freshId);
      Success(Refresh(App(Some(saved), app.notes, app.active)))
  }

  /** `onNoteAdd`: saves a note with the default text and no id, then refreshes. */
  function Add(app: App, now: int, freshId: int): (r: App)
    requires 0 <= freshId < IdRange
    ensures |Held(r.stored)| == |Held(app.stored)| + 1
    ensures r.stored == Some(GetAll(app.stored) + [Note(freshId, NewTitle, NewBody, now)])
    ensures r.notes == GetAll(r.stored)
    ensures |r.notes| > 0 && r.active == Some(r.notes[0])
  {
    var input := NoteInput(None, NewTitle, NewBody);
    SaveAppendsNew(app.stored, input, now, freshId);
    Refresh(App(Some(Save(app.stored, input, now, freshId)), app.notes, app.active))
  }

  /**
   * `onNoteDelete`: deletes every note with the id, then refreshes: the list holds exactly the
   * stored notes with another id, and its first note is opened unless it is empty.
   */
  function Remove(app: App, noteId: int): (r: App)
    ensures r.stored == Some(Delete(app.stored, noteId))
    ensures r.notes == GetAll(r.stored)
    ensures !HasId(Held(r.stored), IdOf, noteId)
    ensures !HasId(r.notes, IdOf, noteId)
    ensures forall n :: n in r.notes <==> n in Held(app.stored) && n.id != noteId
    ensures SortedDesc(r.notes, UpdatedOf)
    ensures |r.notes| > 0 ==> r.active == Some(r.notes[0])
    ensures |r.notes| == 0 ==> r.active == app.active
  {
    var written := Delete(app.stored, noteId);
    var r := Refresh(App(Some(written), app.notes, app.active));
    assert Held(r.stored) == written;
    PermutationMembers(r.notes, written);
    assert !HasId(r.notes, IdOf, noteId) by {
      forall j | 0 <= j < |r.notes| ensures IdOf(r.notes[j]) != noteId {
        var x := r.notes[j];
        assert x in r.notes;
        assert x in written;
        assert x.id != noteId;
      }
    }
    r
  }

  /**
   * When the edit is the latest change (`now` is later than every stored update) and the open
   * note is still stored, the refreshed editor shows the edited note: same id, new text, time `now`.
   */
  lemma EditKeepsEditedNoteOpen(app: App, title: string, body: string, now: int, freshId: int)
    requires 0 <= freshId < IdRange
    requires app.active.Some? && HasId(Held(app.stored), IdOf, app.active.value.id)
    requires forall n :: n in Held(app.stored) ==> n.updated < now
    ensures var r := Edit(app, title, body, now, freshId);
            r.Success? && r.value.active == Some(Note(app.active.value.id, title, body, now))
  {
    var k := app.active.value.id;
    var notes := GetAll(app.stored);
    PermutationMembers(notes, Held(app.stored));
    SortKeepsIds(Held(app.stored), UpdatedOf, IdOf, k);
    var input := NoteInput(Some(k), title, body);
    var i := Match(notes, input.id).value;
    SaveEditsFirstMatch(app.stored, input, now, freshId, i);
    var saved := Save(app.stored, input, now, freshId);
    var edited := Note(k, title, body, now);
    assert saved[i] == edited;
    forall y | y in saved && y != edited ensures y.updated < now {
      var j :| 0 <= j < |saved| && saved[j] == y;
      assert j != i;
      assert notes[j] in Held(app.stored);
    }
    SortedHeadIsStrictMax(saved, GetAll(Some(saved)), UpdatedOf, edited);
  }

  /**
   * When the add is the latest change, the refreshed editor shows the new note, whatever id
   * the random draw produced.
   */
  lemma AddOpensNewNote(app: App, now: int, freshId: int)
    requires 0 <= freshId < IdRange
    requires forall n :: n in Held(app.stored) ==> n.updated < now
    ensures Add(app, now, freshId).active == Some(Note(freshId, NewTitle, NewBody, now))
  {
    var notes := GetAll(app.stored);
    PermutationMembers(notes, Held(app.stored));
    var created := Note(freshId, NewTitle, NewBody, now);
    var saved := notes + [created];
    forall y | y in saved && y != created ensures y.updated < now {
      assert y in notes;
    }
    SortedHeadIsStrictMax(saved, GetAll(Some(saved)), UpdatedOf, created);
  }

  /**
   * Deleting the only stored note empties the list but leaves the deleted note open: the
   * refresh changes the open note only when the list is non-empty.
   */
  lemma RemoveLastNoteKeepsItOpen(app: App, n: Note)
    requires Held(app.stored) == [n] && app.active == Some(n)
    ensures Remove(app, n.id).notes == []
    ensures Remove(app, n.id).active == Some(n)
    ensures !HasId(Held(Remove(app, n.id).stored), IdOf, n.id)
  {
  }
}
