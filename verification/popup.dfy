/**
 * The popup script: manual capture, the rendered note list, deletion, the
 * live search filter and the export of ticked notes. Storage and the page are
 * values here: each operation takes the stored list and the rendered items
 * and returns the new ones, and the tab URL and clock readings are parameters.
 */
module Popup {
  import opened Results
  import opened Text
  import opened NoteText
  import opened Notes

  // ---------------------------------------------------------------------
  // Manual capture
  // ---------------------------------------------------------------------

  /** Why a manual capture made no note. */
  datatype CaptureError = EmptyInput

  /** Appended to the body when a multi-line input is cut to its first line. */
  const Ellipsis: string := "..."

  /** `text.split('\n')[0]`: the text up to its first line feed. */
  function FirstLine(t: string): (line: string)
    ensures |line| <= |t| && line == t[..|line|]
    ensures '\n' !in line
    ensures |line| < |t| ==> t[|line|] == '\n'
  {
    var line := Split(t, "\n")[0];
    FirstPieceHasNoSeparator(t, "\n", line);
    CharOccurs(line, '\n');
    assert |line| < |t| ==> t[|line|..|line| + 1] == "\n";
    line
  }

  /** The first line of a line, a line feed and anything else is that line. */
  lemma FirstLineOfLines(line: string, rest: string)
    requires '\n' !in line
    ensures FirstLine(line + "\n" + rest) == line
  {
    var t := line + "\n" + rest;
    assert t[..|line|] == line && t[|line|] == '\n';
  }

  /** The body `addNote` keeps: the first line of the text, followed by "..."
      exactly when the text has more than one line. */
  function ManualBody(t: string): (body: string)
    ensures '\n' !in body
    ensures '\n' !in t ==> body == t
    ensures '\n' in t ==> body == FirstLine(t) + Ellipsis
  {
    var lines := Split(t, "\n");
    assert lines[0] == FirstLine(t);
    assert |lines| > 1 <==> '\n' in t by {
      if |lines| > 1 {
        assert t[|lines[0]|..|lines[0]| + 1] == "\n";
        assert t[|lines[0]|] == '\n';
      }
    }
    lines[0] + (if |lines| > 1 then Ellipsis else "")
  }

  /** The body kept for a trimmed, non-empty input is non-empty and holds no
      blank line, so it survives the round trip through the stored text. */
  lemma ManualBodyIsOneLine(text: string)
    requires text != "" && !IsTrimmable(text[0])
    ensures ManualBody(text) != ""
    ensures !Occurs(ManualBody(text), Separator)
  {
    var body := ManualBody(text);
    assert text[0] != '\n';
    forall j ensures !OccursAt(body, Separator, j) {
      if 0 <= j < |body| {
        assert body[j] != '\n';
        if j + 2 <= |body| { assert body[j..j + 2][0] == body[j]; }
      }
    }
  }

  /** The text `addNote` stores for an input box value: the trimmed value cut
      to its first line, after the tab's URL and a blank line. A value that is
      only whitespace is refused. */
  function ManualText(input: string, url: string): (r: Result<string, CaptureError>)
    ensures r.Failure? <==> AllTrimmable(input)
    ensures r.Success? ==> r.value == url + "\n\n" + ManualBody(Trim(input))
    ensures r.Success? && SafeUrl(url) ==>
      Decode(r.value) == Display(url, ManualBody(Trim(input)))
    ensures r.Success? && SafeUrl(url) ==> Decode(r.value).body != ""
  {
    var text := Trim(input);
    if text == "" then Failure(EmptyInput)
    else
      var body := ManualBody(text);
      ManualBodyIsOneLine(text);
      assert SafeUrl(url) ==> Decode(Compose(url, body)) == Display(url, body) by {
        if SafeUrl(url) { DecodeComposeRoundTrip(url, body); }
      }
      Success(Compose(url, body))
  }

  // ---------------------------------------------------------------------
  // The rendered list
  // ---------------------------------------------------------------------

  /** One rendered `li.note-item`: the note id it and its checkbox carry, the
      stored text it was drawn from, whether the search filter shows it, and
      whether its checkbox is ticked. */
  datatype Item = Item(id: int, text: string, visible: bool, checked: bool)
  {
    /** The link and the text line the item shows. */
    function Shows(): Display {
      Decode(text)
    }
  }

  /** The item `renderNote` builds for a note: shown and not ticked. */
  function ItemOf(note: Note): Item {
    Item(note.id, note.text, true, false)
  }

  /** `notes.forEach(renderNote)` on a list that already shows `view`: each
      item is inserted before the first child, so the notes come out in
      reverse, above what was there. */
  function RenderInto(view: seq<Item>, notes: seq<Note>): (r: seq<Item>)
    decreases |notes|
    ensures |r| == |notes| + |view|
    ensures forall i :: 0 <= i < |notes| ==> r[i] == ItemOf(notes[|notes| - 1 - i])
    ensures r[|notes|..] == view
  {
    if notes == [] then view
    else
      var r := RenderInto([ItemOf(notes[0])] + view, notes[1..]);
      assert r[|notes| - 1] == ([ItemOf(notes[0])] + view)[0];
      assert r[|notes|..] == ([ItemOf(notes[0])] + view)[1..];
      r
  }

  /** How many notes the popup shows when it opens. */
  const Shown: nat := 2

  /** `loadNotes`: the first two stored notes, the older one on top. */
  function LoadNotes(store: Store): (view: seq<Item>)
    ensures |view| == if |Stored(store)| < Shown then |Stored(store)| else Shown
    ensures forall i :: 0 <= i < |view| ==> view[i] == ItemOf(Stored(store)[|view| - 1 - i])
  {
    var notes := Stored(store);
    RenderInto([], notes[..if |notes| < Shown then |notes| else Shown])
  }

  /** The extension's storage and the popup's list of items. */
  datatype PopupState = PopupState(store: Store, view: seq<Item>)

  /** The popup as it opens on a store. */
  function Open(store: Store): PopupState {
    PopupState(store, LoadNotes(store))
  }

  /** `addNote`: a refused input changes nothing; otherwise the new note is
      stored in front of the others and the list is redrawn with every stored
      note, so the new note appears at the bottom. */
  function AddNote(s: PopupState, input: string, url: string, now: int, iso: string): (r: PopupState)
    ensures AllTrimmable(input) ==> r == s
    ensures !AllTrimmable(input) ==>
      && r.store.Some?
      && |r.store.value| == |Stored(s.store)| + 1
      && r.store.value[0].id == now && r.store.value[0].date == iso
      && r.store.value[1..] == Stored(s.store)
      && r.store.value[0].text == url + "\n\n" + ManualBody(Trim(input))
      && (SafeUrl(url) ==>
            Decode(r.store.value[0].text) == Display(url, ManualBody(Trim(input))))
      && |r.view| == |r.store.value|
      && r.view[|r.view| - 1] == ItemOf(r.store.value[0])
      && forall i :: 0 <= i < |r.view| ==> r.view[i] == ItemOf(r.store.value[|r.view| - 1 - i])
  {
    match ManualText(input, url)
    case Failure(_) => s
    case Success(text) =>
      var notes := Prepend(s.store, Note(now, text, iso));
      PopupState(Some(notes), RenderInto([], notes))
  }

  // ---------------------------------------------------------------------
  // Deletion
  // ---------------------------------------------------------------------

  predicate ShowsId(view: seq<Item>, id: int) {
    exists i :: 0 <= i < |view| && view[i].id == id
  }

  /** `document.querySelector('li[data-id="…"]')`: the position of the first
      item carrying the id, if any. */
  function ItemIndex(view: seq<Item>, id: int): (r: Option<nat>)
    ensures r.None? <==> !ShowsId(view, id)
    ensures r.Some? ==> r.value < |view| && view[r.value].id == id
    ensures r.Some? ==> forall j :: 0 <= j < r.value ==> view[j].id != id
  {
    if view == [] then None
    else if view[0].id == id then Some(0)
    else match ItemIndex(view[1..], id)
      case None =>
        assert forall i :: 1 <= i < |view| ==> view[i] == view[1..][i - 1];
        None
      case Some(k) => Some(k + 1)
  }

  /** `….remove()` on that item: the first item carrying the id leaves the
      page; the others stay in place. */
  function RemoveFirstItem(view: seq<Item>, id: int): (r: seq<Item>)
    ensures !ShowsId(view, id) ==> r == view
    ensures ShowsId(view, id) ==>
      exists k :: 0 <= k < |view| && view[k].id == id
        && (forall j :: 0 <= j < k ==> view[j].id != id)
        && r == view[..k] + view[k + 1..]
  {
    match ItemIndex(view, id)
    case None => view
    case Some(k) => view[..k] + view[k + 1..]
  }

  /** `deleteNote`: every note with the id leaves storage (an absent id
      leaves the list as it was) and its item leaves the page. */
  function DeleteNote(s: PopupState, id: int): (r: PopupState)
    ensures r.store.Some? && !HasId(r.store.value, id)
    ensures forall n :: n in r.store.value <==> n in Stored(s.store) && n.id != id
    ensures !HasId(Stored(s.store), id) ==> r.store.value == Stored(s.store)
    ensures !ShowsId(s.view, id) ==> r.view == s.view
    ensures ShowsId(s.view, id) ==> |r.view| == |s.view| - 1
    ensures r.store.value == DeleteById(Stored(s.store), id)
    ensures r.view == RemoveFirstItem(s.view, id)
  {
    PopupState(Some(DeleteById(Stored(s.store), id)), RemoveFirstItem(s.view, id))
  }

  /** After a deletion, reopening the popup never shows the deleted id. */
  lemma DeleteThenOpenHidesId(s: PopupState, id: int)
    ensures !ShowsId(Open(DeleteNote(s, id).store).view, id)
  {
    var notes := DeleteById(Stored(s.store), id);
    assert DeleteNote(s, id).store == Some(notes);
    var view := LoadNotes(Some(notes));
    forall i | 0 <= i < |view| ensures view[i].id != id {
      var n := notes[|view| - 1 - i];
      assert n in notes;
      assert view[i] == ItemOf(n);
    }
  }

  // ---------------------------------------------------------------------
  // Search
  // ---------------------------------------------------------------------

  /** Whether the search shows an item with this text: the lower-cased text
      contains the lower-cased query. */
  predicate Matches(body: string, query: string) {
    Includes(ToLower(body), ToLower(query))
  }

  /** A text matches when its lower-cased form contains the lower-cased query. */
  lemma MatchesContains(body: string, query: string)
    ensures Matches(body, query) <==> Occurs(ToLower(body), ToLower(query))
  {
    IncludesOccurs(ToLower(body), ToLower(query));
  }

  /** `filterNotes`: each item is shown exactly when its text (never its
      link) matches the query; nothing else on the page or in storage changes. */
  function FilterNotes(s: PopupState, query: string): (r: PopupState)
    ensures r.store == s.store
    ensures |r.view| == |s.view|
    ensures forall i :: 0 <= i < |r.view| ==>
      && r.view[i].visible == Matches(s.view[i].Shows().body, query)
      && r.view[i] == s.view[i].(visible := r.view[i].visible)
  {
    PopupState(s.store, seq(|s.view|, i requires 0 <= i < |s.view| =>
      s.view[i].(visible := Matches(s.view[i].Shows().body, query))))
  }

  /** After a search, an item is shown exactly when its lower-cased text
      contains the lower-cased query. */
  lemma FilterShowsContaining(s: PopupState, query: string, i: nat)
    requires i < |s.view|
    ensures FilterNotes(s, query).view[i].visible <==> Occurs(ToLower(s.view[i].Shows().body), ToLower(query))
  {
    MatchesContains(s.view[i].Shows().body, query);
  }

  /** Filtering again with the same query changes nothing. */
  lemma FilterIdempotent(s: PopupState, query: string)
    ensures FilterNotes(FilterNotes(s, query), query) == FilterNotes(s, query)
  {
  }

  /** The empty query shows every item. */
  lemma EmptyQueryShowsAll(s: PopupState)
    ensures forall i :: 0 <= i < |s.view| ==> FilterNotes(s, "").view[i].visible
  {
  }

  /** The search ignores the case of the query's letters. */
  lemma FilterIgnoresCase(s: PopupState, query: string)
    ensures FilterNotes(s, ToUpper(query)) == FilterNotes(s, query)
    ensures FilterNotes(s, ToLower(query)) == FilterNotes(s, query)
  {
    LowerForgetsCase(query);
  }

  // ---------------------------------------------------------------------
  // Export
  // ---------------------------------------------------------------------

  /** Why the export button produced no file. */
  datatype ExportError = NothingSelected

  /** The ids on the ticked checkboxes, in page order. */
  function CheckedIds(view: seq<Item>): (ids: seq<int>)
    ensures |ids| <= |view|
    ensures |view| == 1 ==> ids == if view[0].checked then [view[0].id] else []
    ensures forall x :: x in ids <==> exists i :: 0 <= i < |view| && view[i].checked && view[i].id == x
  {
    if view == [] then []
    else
      var rest := CheckedIds(view[1..]);
      assert forall i :: 1 <= i < |view| ==> view[i] == view[1..][i - 1];
      (if view[0].checked then [view[0].id] else []) + rest
  }

  /** The ids are taken checkbox by checkbox, so they follow page order. */
  lemma {:induction false} CheckedIdsConcat(a: seq<Item>, b: seq<Item>)
    ensures CheckedIds(a + b) == CheckedIds(a) + CheckedIds(b)
  {
    if a != [] {
      assert (a + b)[0] == a[0];
      assert (a + b)[1..] == a[1..] + b;
      CheckedIdsConcat(a[1..], b);
    } else {
      assert a + b == b;
    }
  }

  /** For each id in order, the first stored note with that id; ids that no
      stored note carries are skipped. */
  function SelectById(notes: seq<Note>, ids: seq<int>): (r: seq<Note>)
    ensures |r| <= |ids|
    ensures forall n :: n in r ==> n in notes && n.id in ids
  {
    if ids == [] then []
    else
      var rest := SelectById(notes, ids[1..]);
      match FindById(notes, ids[0])
      case None => rest
      case Some(n) => [n] + rest
  }

  /** Nothing is selected exactly when no stored note carries any of the ids. */
  lemma {:induction false} SelectNothing(notes: seq<Note>, ids: seq<int>)
    ensures SelectById(notes, ids) == [] <==> forall i :: 0 <= i < |ids| ==> !HasId(notes, ids[i])
  {
    if ids != [] {
      SelectNothing(notes, ids[1..]);
      assert forall i :: 1 <= i < |ids| ==> ids[i] == ids[1..][i - 1];
    }
  }

  /** Selection works id by id: the export keeps the order of the ids. */
  lemma {:induction false} SelectConcat(notes: seq<Note>, a: seq<int>, b: seq<int>)
    ensures SelectById(notes, a + b) == SelectById(notes, a) + SelectById(notes, b)
  {
    if a != [] {
      assert (a + b)[0] == a[0];
      assert (a + b)[1..] == a[1..] + b;
      SelectConcat(notes, a[1..], b);
    } else {
      assert a + b == b;
    }
  }

  /** The ids of `notes`, in order. */
  function IdsOf(notes: seq<Note>): seq<int> {
    seq(|notes|, i requires 0 <= i < |notes| => notes[i].id)
  }

  /** An id that finds a note contributes that note in front of the rest. */
  lemma SelectFound(notes: seq<Note>, ids: seq<int>, n: Note)
    requires ids != [] && FindById(notes, ids[0]) == Some(n)
    ensures SelectById(notes, ids) == [n] + SelectById(notes, ids[1..])
  {
  }

  /** With unique ids, selecting the ids of some stored notes yields exactly
      those notes, in the order asked for. */
  lemma {:induction false} SelectStored(notes: seq<Note>, chosen: seq<Note>)
    requires UniqueIds(notes)
    requires forall n :: n in chosen ==> n in notes
    ensures SelectById(notes, IdsOf(chosen)) == chosen
  {
    if chosen == [] {
      assert IdsOf(chosen) == [];
    } else {
      assert chosen[0] in chosen;
      var k :| 0 <= k < |notes| && notes[k] == chosen[0];
      var ids := IdsOf(chosen);
      FindByIdUnique(notes, k);
      assert ids[0] == chosen[0].id && ids[1..] == IdsOf(chosen[1..]);
      SelectStored(notes, chosen[1..]);
      SelectFound(notes, ids, chosen[0]);
      assert chosen == [chosen[0]] + chosen[1..];
    }
  }

  /** Ticking every stored note exports the whole list unchanged. */
  lemma SelectEveryId(notes: seq<Note>)
    requires UniqueIds(notes)
    ensures SelectById(notes, IdsOf(notes)) == notes
  {
    SelectStored(notes, notes);
  }

  /** The export button: the stored notes for the ticked checkboxes, in page
      order; when none of them matches a stored note there is nothing to
      export. */
  function ExportNotes(store: Store, view: seq<Item>): (r: Result<seq<Note>, ExportError>)
    ensures r.Failure? <==>
      forall i :: 0 <= i < |view| && view[i].checked ==> !HasId(Stored(store), view[i].id)
    ensures r.Success? ==> r.value != [] && forall n :: n in r.value ==> n in Stored(store)
    ensures r.Success? ==> r.value == SelectById(Stored(store), CheckedIds(view))
  {
    var ids := CheckedIds(view);
    var selected := SelectById(Stored(store), ids);
    SelectNothing(Stored(store), ids);
    assert selected == [] <==>
      forall i :: 0 <= i < |view| && view[i].checked ==> !HasId(Stored(store), view[i].id) by {
      if selected == [] {
        forall i | 0 <= i < |view| && view[i].checked ensures !HasId(Stored(store), view[i].id) {
          assert view[i].id in ids;
          var k :| 0 <= k < |ids| && ids[k] == view[i].id;
        }
      } else {
        var k :| 0 <= k < |ids| && HasId(Stored(store), ids[k]);
        assert ids[k] in ids;
        var i :| 0 <= i < |view| && view[i].checked && view[i].id == ids[k];
      }
    }
    if selected == [] then Failure(NothingSelected) else Success(selected)
  }

  /** The export follows the page, not storage: with two notes stored newest
      first and both ticked on the opened popup, the older one is exported first. */
  lemma ExportFollowsPageOrder(newer: Note, older: Note)
    requires newer.id != older.id
    ensures var store := Some([newer, older]);
      var view := LoadNotes(store);
      ExportNotes(store, [view[0].(checked := true), view[1].(checked := true)])
        == Success([older, newer])
  {
    var store := Some([newer, older]);
    var notes := [newer, older];
    var view := LoadNotes(store);
    var ticked := [view[0].(checked := true), view[1].(checked := true)];
    assert view[0] == ItemOf(older) && view[1] == ItemOf(newer);
    assert CheckedIds(ticked) == [older.id, newer.id] == IdsOf([older, newer]);
    SelectStored(notes, [older, newer]);
    assert ticked[0].checked && HasId(notes, ticked[0].id);
  }
}
