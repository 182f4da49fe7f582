/**
 * The controller of the sticky-note variant (`App` of E1.js): the list last read from the store,
 * updated by the add, edit and delete handlers. Its `activeNote` is never assigned after
 * construction, so it is not part of the state here.
 */
module StickyApp {
  import opened Wrappers
  import opened Ordering
  import opened Records
  import opened StickyStore

  /** The add handler's provisional id is drawn from [0, ProvisionalIdRange): `Math.random() * 100000`. */
  const ProvisionalIdRange: int := 100000

  /** The controller's state: storage and the cached list (`notes`). */
  datatype App = App(stored: Stored, notes: seq<Note>)

  /** `refreshNotes`: re-reads the store into the cached list, most recently updated first. */
  function Refresh(app: App): (r: App)
    ensures r.stored == app.stored
    ensures multiset(r.notes) == multiset(Held(app.stored))
    ensures SortedDesc(r.notes, UpdatedOf)
  {
    App(app.stored, GetAll(app.stored))
  }

  /** The constructor: nothing cached, then a refresh. */
  function Start(stored: Stored): (r: App)
    ensures r.stored == stored
    ensures r.notes == GetAll(stored)
    ensures SortedDesc(r.notes, UpdatedOf)
    ensures multiset(r.notes) == multiset(Held(stored))
    ensures stored.None? ==> r.notes == []
  {
    Refresh(App(stored, []))
  }

  /**
   * `onNoteEdit`: saves `content` under the id of the edited sticky note, then refreshes. The
   * store grows only when no note has that id any more.
   */
  function Edit(app: App, content: string, id: int, now: int, freshId: int): (r: App)
    requires 0 <= freshId < IdRange
    ensures r.stored == Some(Save(app.stored, NoteInput(id, content, None), now, freshId))
    ensures r.notes == GetAll(r.stored)
    ensures |Held(r.stored)| == |Held(app.stored)| + (if HasId(Held(app.stored), IdOf, id) then 0 else 1)
    ensures multiset(r.notes) == multiset(Held(r.stored))
  {
    Refresh(App(Some(Save(app.stored, NoteInput(id, content, None), now, freshId)), app.notes))
  }

  /**
   * `onNoteAdd`: builds a note object with the provisional id, empty content and a creation
   * stamp, and hands it to the store, then refreshes. The handler also pushes the object onto a
   * list it read from the store, but that list is dropped, so only the save reaches storage:
   * the store grows by one exactly when the provisional id is not in use.
   */
  function Add(app: App, provisionalId: int, stamp: string, now: int, freshId: int): (r: App)
    requires 0 <= provisionalId < ProvisionalIdRange
    requires 0 <= freshId < IdRange
    ensures |Held(r.stored)| <= |Held(app.stored)| + 1
    ensures |Held(r.stored)| == |Held(app.stored)| + 1 <==> !HasId(Held(app.stored), IdOf, provisionalId)
    ensures r.notes == GetAll(r.stored)
  {
    var noteObject := NoteInput(provisionalId, "", Some(stamp));
    Refresh(App(Some(Save(app.stored, noteObject, now, freshId)), app.notes))
  }

  /** `onNoteDelete`: deletes every note with the id, then refreshes. */
  function Remove(app: App, noteId: int): (r: App)
    ensures r.stored == Some(Delete(app.stored, noteId))
    ensures r.notes == GetAll(r.stored)
    ensures forall n :: n in r.notes <==> n in Held(app.stored) && n.id != noteId
    ensures !HasId(Held(r.stored), IdOf, noteId)
  {
    var written := Delete(app.stored, noteId);
    var r := Refresh(App(Some(written), app.notes));
    assert Held(r.stored) == written;
    PermutationMembers(r.notes, written);
    r
  }

  /**
   * After an edit, storage holds a note with the new content: the edited note itself when some
   * note had the id, or else the note the save created; and that is the only note whose text
   * may differ from before.
   */
  lemma EditStoresContent(app: App, content: string, id: int, now: int, freshId: int)
    requires 0 <= freshId < IdRange
    ensures var written := Held(Edit(app, content, id, now, freshId).stored);
            && (exists j :: 0 <= j < |written| && written[j].content == content
                  && (HasId(Held(app.stored), IdOf, id) ==> written[j].id == id))
            && forall n :: n in written ==> n in Held(app.stored) || n.content == content
  {
    var input := NoteInput(id, content, None);
    var notes := GetAll(app.stored);
    var written := Save(app.stored, input, now, freshId);
    SortKeepsIds(Held(app.stored), UpdatedOf, IdOf, id);
    match FindFirst(notes, IdOf, id)
    case Some(i) =>
      if notes[i].content == content {
        SaveSameContentChangesNothing(app.stored, input, now, freshId, i);
        assert written[i].content == content && written[i].id == id;
      } else {
        SaveNewContentUpdatesMatch(app.stored, input, now, freshId, i);
        assert written[i].content == content && written[i].id == id;
      }
    case None =>
      SaveAppendsNew(app.stored, input, now, freshId);
      assert written[|notes|].content == content;
  }

  /**
   * When no stored note has the provisional id, the add appends one note whose id is the
   * store's own draw `freshId`: the provisional id is discarded.
   */
  lemma AddFreshProvisionalId(app: App, provisionalId: int, stamp: string, now: int, freshId: int)
    requires 0 <= provisionalId < ProvisionalIdRange
    requires 0 <= freshId < IdRange
    requires !HasId(Held(app.stored), IdOf, provisionalId)
    ensures Add(app, provisionalId, stamp, now, freshId).stored
            == Some(GetAll(app.stored) + [Note(freshId, "", Some(stamp), now)])
  {
  }

  /**
   * When a stored note already has the provisional id, the add is an edit of that note that
   * empties its content: nothing is created and the creation stamp is lost.
   */
  lemma AddCollidingIsEdit(app: App, provisionalId: int, stamp: string, now: int, freshId: int)
    requires 0 <= provisionalId < ProvisionalIdRange
    requires 0 <= freshId < IdRange
    requires HasId(Held(app.stored), IdOf, provisionalId)
    ensures Add(app, provisionalId, stamp, now, freshId) == Edit(app, "", provisionalId, now, freshId)
    ensures |Held(Add(app, provisionalId, stamp, now, freshId).stored)| == |Held(app.stored)|
  {
    SortKeepsIds(Held(app.stored), UpdatedOf, IdOf, provisionalId);
  }

  /**
   * From an empty store: an add creates one empty note with the drawn id; editing it to
   * non-empty content stamps it with the edit's time; deleting it leaves storage empty.
   */
  lemma AddEditDeleteScenario(stamp: string, content: string, pid: int, id1: int, id2: int, t1: int, t2: int)
    requires 0 <= pid < ProvisionalIdRange
    requires 0 <= id1 < IdRange && 0 <= id2 < IdRange
    requires content != ""
    ensures var a0 := Start(None);
            var a1 := Add(a0, pid, stamp, t1, id1);
            var a2 := Edit(a1, content, id1, t2, id2);
            var a3 := Remove(a2, id1);
            && a0.notes == []
            && a1.stored == Some([Note(id1, "", Some(stamp), t1)])
            && a2.stored == Some([Note(id1, content, Some(stamp), t2)])
            && a3.stored == Some([]) && a3.notes == []
  {
    var a0 := Start(None);
    assert a0.stored == None;
    assert GetAll(a0.stored) == [];
    AddFreshProvisionalId(a0, pid, stamp, t1, id1);
    var a1 := Add(a0, pid, stamp, t1, id1);
    var n1 := Note(id1, "", Some(stamp), t1);
    assert [] + [n1] == [n1];
    assert a1.stored == Some([n1]);
    assert SortDesc([n1], UpdatedOf) == [n1] by {
      SortDescSorted([n1], UpdatedOf);
    }
    assert GetAll(a1.stored) == [n1];
    SaveNewContentUpdatesMatch(a1.stored, NoteInput(id1, content, None), t2, id2, 0);
    var a2 := Edit(a1, content, id1, t2, id2);
    var n2 := Note(id1, content, Some(stamp), t2);
    var saved := Save(a1.stored, NoteInput(id1, content, None), t2, id2);
    assert |saved| == 1 && saved[0] == n2;
    assert saved == [n2];
    assert a2.stored == Some([n2]);
    var a3 := Remove(a2, id1);
    var written := Delete(a2.stored, id1);
    assert |written| == 0 by {
      assert forall j :: 0 <= j < |written| ==> written[j] in [n2];
    }
  }
}
