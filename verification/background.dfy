/**
 * The background script's context-menu handler: a click on the extension's
 * menu item while text is selected stores the selection, verbatim, as a new
 * note in front of the stored list.
 */
module Background {
  import opened Results
  import opened Text
  import opened NoteText
  import opened Notes

  /** The id the menu item is registered under. */
  const MenuItemId: string := "addToNotes"

  /** The click handler. Only the extension's own item with a non-empty
      selection creates a note (an absent selection reads as empty); the note
      is stamped with the given clock readings and stores the tab's URL, a
      blank line and the selection, neither trimmed nor cut. */
  function OnMenuClick(store: Store, menuItemId: string, selection: string,
                       url: string, now: int, iso: string): (r: Store)
    ensures menuItemId != MenuItemId || selection == "" ==> r == store
    ensures menuItemId == MenuItemId && selection != "" ==>
      && r.Some?
      && |r.value| == |Stored(store)| + 1
      && r.value[0] == Note(now, url + "\n\n" + selection, iso)
      && r.value[1..] == Stored(store)
  {
    if menuItemId == MenuItemId && selection != "" then
      Some(Prepend(store, Note(now, Compose(url, selection), iso)))
    else
      store
  }

  /** A click that creates a note keeps a newest-first list newest first when
      the clock has moved past every stored note. */
  lemma OnMenuClickKeepsNewestFirst(store: Store, selection: string, url: string, now: int, iso: string)
    requires selection != ""
    requires NewestFirst(Stored(store))
    requires forall i :: 0 <= i < |Stored(store)| ==> Stored(store)[i].id < now
    ensures NewestFirst(Stored(OnMenuClick(store, MenuItemId, selection, url, now, iso)))
  {
    PrependKeepsNewestFirst(store, Note(now, Compose(url, selection), iso));
  }

  /** What the popup shows for a note made from the menu: the URL, and the
      selection only up to its first blank line; a selection without a blank
      line is shown whole. */
  lemma MenuNoteDisplay(store: Store, selection: string, url: string, now: int, iso: string)
    requires selection != "" && SafeUrl(url)
    ensures var d := Decode(Stored(OnMenuClick(store, MenuItemId, selection, url, now, iso))[0].text);
      && d.url == url
      && IsFirstPiece(selection, Separator, d.body)
      && (!Occurs(selection, Separator) ==> d.body == selection)
  {
    DecodeCompose(url, selection);
  }
}
