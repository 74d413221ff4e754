/**
 * The note list kept under the extension's `notes` storage key, and the list
 * operations the popup and the background script perform on it.
 */
module Notes {
  import opened Results

  /** A captured note: its creation time in milliseconds, which doubles as its
      identity, the stored text and the ISO-8601 creation date. */
  datatype Note = Note(id: int, text: string, date: string)

  /** The `notes` key of the extension's storage; absent until the first save. */
  type Store = Option<seq<Note>>

  /** `result.notes || []`: the stored list, an absent key read as empty. */
  function Stored(store: Store): seq<Note> {
    store.GetOr([])
  }

  predicate HasId(notes: seq<Note>, id: int) {
    exists i :: 0 <= i < |notes| && notes[i].id == id
  }

  /** Every note has its own id. */
  ghost predicate UniqueIds(notes: seq<Note>) {
    forall i, j :: 0 <= i < j < |notes| ==> notes[i].id != notes[j].id
  }

  /** The list is newest first: ids, being creation times, strictly decrease. */
  ghost predicate NewestFirst(notes: seq<Note>) {
    forall i, j :: 0 <= i < j < |notes| ==> notes[i].id > notes[j].id
  }

  lemma NewestFirstHasUniqueIds(notes: seq<Note>)
    requires NewestFirst(notes)
    ensures UniqueIds(notes)
  {
  }

  // ---------------------------------------------------------------------
  // Insertion
  // ---------------------------------------------------------------------

  /** `notes.unshift(note)` on the list read from storage: the new note goes
      in front and the stored notes follow, in their order. */
  function Prepend(store: Store, note: Note): (notes: seq<Note>)
    ensures |notes| == |Stored(store)| + 1
    ensures notes[0] == note && notes[1..] == Stored(store)
    ensures store.None? ==> notes == [note]
  {
    [note] + Stored(store)
  }

  /** A note stamped later than every stored note keeps the list newest first. */
  lemma PrependKeepsNewestFirst(store: Store, note: Note)
    requires NewestFirst(Stored(store))
    requires forall i :: 0 <= i < |Stored(store)| ==> Stored(store)[i].id < note.id
    ensures NewestFirst(Prepend(store, note))
  {
    var notes := Prepend(store, note);
    forall i, j | 0 <= i < j < |notes| ensures notes[i].id > notes[j].id {
      assert notes[j] == Stored(store)[j - 1];
      if i > 0 {
        assert notes[i] == Stored(store)[i - 1];
      }
    }
  }

  // ---------------------------------------------------------------------
  // Deletion
  // ---------------------------------------------------------------------

  /** `notes.filter(note => note.id !== id)`: every note with that id goes,
      every other note stays. */
  function DeleteById(notes: seq<Note>, id: int): (r: seq<Note>)
    ensures |r| <= |notes|
    ensures !HasId(r, id)
    ensures forall n :: n in r <==> n in notes && n.id != id
    ensures !HasId(notes, id) ==> r == notes
    ensures HasId(notes, id) ==> |r| < |notes|
  {
    if notes == [] then []
    else if notes[0].id == id then DeleteById(notes[1..], id)
    else [notes[0]] + DeleteById(notes[1..], id)
  }

  /** Deletion works piecewise, so the kept notes stay in their relative order. */
  lemma {:induction false} DeleteDistributes(a: seq<Note>, b: seq<Note>, id: int)
    ensures DeleteById(a + b, id) == DeleteById(a, id) + DeleteById(b, id)
  {
    if a != [] {
      assert (a + b)[1..] == a[1..] + b;
      DeleteDistributes(a[1..], b, id);
    } else {
      assert a + b == b;
    }
  }

  /** Deleting twice is deleting once. */
  lemma DeleteIdempotent(notes: seq<Note>, id: int)
    ensures DeleteById(DeleteById(notes, id), id) == DeleteById(notes, id)
  {
  }

  /** Deleting a just-added note whose id was fresh restores the stored list. */
  lemma DeleteUndoesPrepend(store: Store, note: Note)
    requires !HasId(Stored(store), note.id)
    ensures DeleteById(Prepend(store, note), note.id) == Stored(store)
  {
    assert Prepend(store, note)[1..] == Stored(store);
  }

  /** Deletion keeps a newest-first list newest first. */
  lemma {:induction false} DeleteKeepsNewestFirst(notes: seq<Note>, id: int)
    requires NewestFirst(notes)
    ensures NewestFirst(DeleteById(notes, id))
  {
    if notes != [] {
      var tail := notes[1..];
      assert NewestFirst(tail);
      DeleteKeepsNewestFirst(tail, id);
      if notes[0].id != id {
        var r := DeleteById(notes, id);
        assert r == [notes[0]] + DeleteById(tail, id);
        forall i, j | 0 <= i < j < |r| ensures r[i].id > r[j].id {
          assert r[j] in tail;
        }
      }
    }
  }

  // ---------------------------------------------------------------------
  // Lookup
  // ---------------------------------------------------------------------

  /** The position of the first note with the given id. */
  function IndexOfId(notes: seq<Note>, id: int): (r: Option<nat>)
    ensures r.None? <==> !HasId(notes, id)
    ensures r.Some? ==> r.value < |notes| && notes[r.value].id == id
    ensures r.Some? ==> forall j :: 0 <= j < r.value ==> notes[j].id != id
  {
    if notes == [] then None
    else if notes[0].id == id then Some(0)
    else match IndexOfId(notes[1..], id)
      case None => None
      case Some(k) => Some(k + 1)
  }

  /** `notes.find(n => n.id === id)`: the first note with that id. */
  function FindById(notes: seq<Note>, id: int): (r: Option<Note>)
    ensures r.None? <==> !HasId(notes, id)
    ensures r.Some? ==> r.value.id == id
    ensures r.Some? ==>
      exists k :: 0 <= k < |notes| && notes[k] == r.value && forall j :: 0 <= j < k ==> notes[j].id != id
  {
    match IndexOfId(notes, id)
    case None => None
    case Some(k) => Some(notes[k])
  }

  /** With unique ids, the note found for an id is the one stored at its position. */
  lemma FindByIdUnique(notes: seq<Note>, k: nat)
    requires UniqueIds(notes) && k < |notes|
    ensures FindById(notes, notes[k].id) == Some(notes[k])
  {
    assert HasId(notes, notes[k].id);
  }
}
