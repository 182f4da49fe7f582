# Note store and controller, modelled in Dafny

A browser note-taking app in two variants keeps all notes as one list under one
`localStorage` key. A static `NotesAPI` class reads that list sorted by last update
(`getAllNotes`), upserts a note by id (`saveNote`) and removes notes by id (`deleteNote`).
`getAllNotes` only reads. `saveNote` and `deleteNote` read the whole sorted list, change it
and write the whole list back. An `App` controller calls the store from the view's add, edit
and delete callbacks and then re-reads the list. Its select callback, in `E1-1.js`, only
picks a note from the list it last read and touches neither the store nor that list.

- `E1-1.js` (storage key `notesapp-notes`) is the list-and-editor variant. Its notes have a
  `title` and a `body`. A save under a known id always replaces the text and the update time.
  The controller keeps an open note (`activeNote`). The list view shows at most 65
  characters of each body.
- `E1.js` (storage key `stickynotes-notes`) is the sticky-note variant. Its notes have a
  `content` and a creation stamp `create`. A save under a known id changes the note only when
  the content differs. The add handler makes up a provisional id that the store then treats
  as a lookup key.

The model is functional. The stored value is an `Option<seq<Note>>`, where `None` means the
key is missing. `Save` and `Delete` return the list they write back. Each controller is a
datatype that holds the stored value and the cached list, plus the open note in `E1-1.js`.
Each handler is a function from one controller state to the next.

Modules:
- `Wrappers`: `Option` and `Result`.
- `Ordering`: the descending sort by update time that `getAllNotes` performs, as an insertion
  sort over any element type with an integer key.
- `Records`: first-match lookup (`find`), removal by id (`filter`), and id uniqueness,
  generic over the record type.
- `NotesAppStore`, `NotesAppView`, `NotesApp`: `E1-1.js`.
- `StickyStore`, `StickyApp`: `E1.js`.

Three behaviours of the code worth knowing:
- In `E1-1.js` a save under a known id bumps `updated` even when the text is unchanged. Only
  `E1.js` detects that nothing changed.
- Neither store checks that a newly drawn id is unused. `NotesAppStore.SaveUniqueIds` and
  `StickyStore.SaveUniqueIds` show that ids stay unique exactly when the draw is fresh.
- `E1-1.js` stores no creation time. `E1.js` stores `create` only for notes made by the add
  handler, and an add whose provisional id collides drops it.

## Model

| member | source | states |
|---|---|---|
| Ordering.SortDesc | E1-1.js:5-7 | the result is ordered non-increasing by the key and is a permutation of the input |
| Ordering.SortDescSorted | E1-1.js:5-7 | under the model's tie rule (equal update times keep their stored order), sorting a list that is already ordered returns it unchanged |
| Ordering.SortDescIdempotent | E1.js:4-6 | under the model's tie rule, sorting the sorted list again changes nothing |
| Ordering.SortedHeadIsStrictMax | E1-1.js:147-148 | a note whose update time is strictly later than every other note's heads every sorted permutation |
| Records.FindFirst | E1-1.js:12 | the returned index holds the id and no earlier record does; no index is returned exactly when no record holds the id |
| Records.RemoveId | E1-1.js:29 | no kept record has the id; every kept record came from the input; every input record with another id is kept |
| Records.RemoveIdMultiset | E1.js:29 | records with the id occur zero times in the result; every other record occurs as often as in the input |
| Records.RemoveAbsentId | E1.js:29 | removing an id that no record carries returns the list unchanged |
| Records.RemoveIdConcat | E1-1.js:29 | removal distributes over concatenation, so the kept records keep their relative order |
| Records.RemoveIdKeepsSorted | E1-1.js:28-29 | filtering a list sorted by update time leaves it sorted |
| Records.RemoveIdKeepsUniqueIds | E1-1.js:29 | filtering never creates a duplicate id |
| Records.SortKeepsUniqueIds | E1-1.js:5-7 | sorting keeps ids unique |
| Records.SortKeepsIds | E1.js:4-6 | an id is present after sorting exactly when it was present before |
| NotesAppStore.GetAll | E1-1.js:2-8 | the notes are returned most recently updated first, as a permutation of what is stored; a missing key gives the empty list |
| NotesAppStore.Match | E1-1.js:11-12 | `find` picks the first note whose id equals the input id; an input without an id matches nothing |
| NotesAppStore.Save | E1-1.js:10-25 | the written list keeps its size when the id matches and grows by exactly one otherwise; every note in it is either a stored note or carries the input's title and body and the time `now` |
| NotesAppStore.SaveEditsFirstMatch | E1-1.js:11-17 | editing the first match keeps the size and the id, replaces title and body, sets `updated` to now even for identical text, and leaves every other position unchanged |
| NotesAppStore.SaveAppendsNew | E1-1.js:18-22 | with no match, exactly one note is appended after the sorted list, with the drawn id, the input's text and the time `now` |
| NotesAppStore.SaveUniqueIds | E1-1.js:18-21 | starting from unique ids, the ids stay unique exactly when the save edits a note or the drawn id is not in use |
| NotesAppStore.SaveCanDuplicateId | E1-1.js:19-21 | every save that matches no note and whose random draw repeats a stored id writes two notes with that id |
| NotesAppStore.Delete | E1-1.js:27-32 | a note is in the written list exactly when it was stored and has a different id; the list is sorted by update time |
| NotesAppStore.DeleteAbsentId | E1-1.js:27-31 | deleting an absent id writes back the same notes, sorted |
| NotesAppStore.DeleteKeepsUniqueIds | E1-1.js:27-31 | a delete never creates a duplicate id |
| NotesAppStore.GetAllAfterDelete | E1-1.js:27-31 | no note with the deleted id is read back after a delete; under the model's tie rule the read returns exactly the written list |
| NotesAppView.Preview | E1-1.js:74-82 | the preview is the first min(65, length) characters of the body; "..." follows exactly when the body is longer than 65, which is exactly when text was cut |
| NotesApp.Refresh | E1-1.js:143-151 | the cached list is the stored notes sorted by update time; a non-empty list opens its first note, which was updated no earlier than any stored note; an empty list keeps the open note |
| NotesApp.Start | E1-1.js:135-141 | after construction the cached list is the sorted store, its first (most recently updated) note is open when there is one, and a note is open exactly when storage holds at least one |
| NotesApp.Select | E1-1.js:166-169 | the first cached note with the id is opened; no match leaves nothing open; storage and the cached list are untouched |
| NotesApp.Edit | E1-1.js:170-178 | with an open note, the store saves the editor's text under that note's id, the list is re-read and its first note is opened; with none, the handler fails without touching the store |
| NotesApp.Add | E1-1.js:179-186 | storage grows by exactly one note, "New note" / "Take note..." with the drawn id and the time `now`, appended after the sorted list; the list is re-read and its first note is opened |
| NotesApp.Remove | E1-1.js:187-190 | storage becomes the store's delete write and the list re-reads it; after the delete, a note is listed exactly when it was stored and has another id, the list is sorted by update time, its first note is opened when it is non-empty, and an empty list keeps the open note |
| NotesApp.EditKeepsEditedNoteOpen | E1-1.js:170-178 | when the edit is the latest change and the open note is still stored, the refreshed editor shows that note with the new text and time |
| NotesApp.AddOpensNewNote | E1-1.js:179-186 | when the add is the latest change, the refreshed editor shows the new note |
| NotesApp.RemoveLastNoteKeepsItOpen | E1-1.js:187-190 | deleting the only note empties the list but leaves the deleted note open |
| StickyStore.GetAll | E1.js:2-7 | the notes are returned most recently updated first, as a permutation of what is stored; a missing key gives the empty list |
| StickyStore.Save | E1.js:9-25 | the written list keeps its size when a stored note has the id and grows by one otherwise; every note in it is stored or carries the input content and the time `now` |
| StickyStore.SaveSameContentChangesNothing | E1.js:11-14 | saving the content the first match already has writes back the sorted list unchanged, with neither content nor `updated` touched |
| StickyStore.SaveNewContentUpdatesMatch | E1.js:11-17 | new content changes only the first match's content and sets its `updated` to now; its id and `create` are kept and every other position is unchanged |
| StickyStore.SaveAppendsNew | E1.js:18-22 | with no match, exactly one note is appended after the sorted list, with the drawn id in [0, 1000000), the input's content and stamp, and the time `now` |
| StickyStore.SaveUniqueIds | E1.js:18-21 | starting from unique ids, the ids stay unique exactly when a stored note has the input id or the drawn id is not in use |
| StickyStore.Delete | E1.js:27-31 | a note is in the written list exactly when it was stored and has a different id; the list is sorted by update time |
| StickyStore.DeleteAbsentId | E1.js:27-31 | deleting an absent id writes back the same notes, sorted |
| StickyStore.DeleteKeepsUniqueIds | E1.js:27-31 | a delete never creates a duplicate id |
| StickyStore.GetAllAfterDelete | E1.js:27-31 | no note with the deleted id is read back after a delete; under the model's tie rule the read returns exactly the written list |
| StickyApp.Refresh | E1.js:96-99 | the cached list is the stored notes sorted by update time, and storage is untouched |
| StickyApp.Start | E1.js:87-94 | after construction the cached list is the stored notes sorted by update time; an empty store gives an empty list |
| StickyApp.Edit | E1.js:108-116 | storage becomes what the store's save of the edited content under the note's id writes; it keeps its size when a note has the id and grows by one otherwise; the cached list re-reads it |
| StickyApp.EditStoresContent | E1.js:108-116 | after an edit storage holds a note with the new content, the edited note itself when the id was stored, and every other note is one that was stored before |
| StickyApp.Add | E1.js:117-128 | storage grows by at most one note, and by exactly one exactly when the provisional id is not in use; the cached list re-reads storage |
| StickyApp.Remove | E1.js:129-132 | storage becomes the store's delete write and the list re-reads it; a note is listed after the delete exactly when it was stored and has another id; storage no longer holds the id |
| StickyApp.AddFreshProvisionalId | E1.js:117-128 | with an unused provisional id, the add appends an empty note that carries the store's drawn id, not the provisional one |
| StickyApp.AddCollidingIsEdit | E1.js:117-128 | with a provisional id already in use, the add equals an edit of that note to empty content, and storage keeps its size |
| StickyApp.AddEditDeleteScenario | E1.js:108-132 | from an empty store, an add makes one empty note, an edit stamps it with new content and time, and a delete empties storage again |

## Left out

- Rendering: the DOM, `innerHTML` templates, event-listener wiring, preview visibility and
  the `confirm` dialog before a delete are presentation. The one rule kept from the view is
  the body preview.
- `NotesAppView.Preview`: the JavaScript length and `substring` count UTF-16 code units. The
  model counts `char`s. The whitespace around the preview in the template is not modelled.
- `localStorage` and `JSON.parse`/`JSON.stringify`: the stored string is modelled as the list
  it encodes, and encoding is assumed to round-trip. A malformed stored value, which makes
  `JSON.parse` throw, is not modelled.
- `Date`, ISO strings and `toLocaleString`: times are integers passed in as `now`, compared as
  the dates they stand for. The sticky note's `create` stamp is an opaque string parameter.
- `Math.random`: the drawn ids are parameters with their ranges as preconditions,
  [0, 1000000) for the store and [0, 100000) for the sticky add handler's provisional id.
- Loose equality between string ids from `data-note-id` and numeric stored ids: every id is
  an `int`, compared exactly.
- Ordering.SortDesc: the source's comparator never returns 0, so the order of notes with
  equal update times is unspecified. The model keeps their stored order. The contracts of
  `SortDesc` and both `GetAll`s state only "sorted non-increasing" and "permutation". The
  equalities of `Ordering.SortDescSorted`, `Ordering.SortDescIdempotent`,
  `NotesAppStore.GetAllAfterDelete` and `StickyStore.GetAllAfterDelete` hold only under
  this tie rule. A JavaScript engine may reorder notes with equal update times on every read.
- NotesApp.Select: with an unknown id the source sets `activeNote` to `undefined` and then
  the view throws. The model leaves no note open and does not model the exception.
- `setNotes`/`updateNoteList`/`updateActiveNote` side effects on the view, and `trim()` of
  the edited text, which happens in the view before the handlers are called.
- The sticky controller's `activeNote` field: it is only ever null, so it is not in the state.
- The discarded `notes.push(noteObject)` in the sticky add handler: it changes a local list
  that nothing reads, so the model omits it.
