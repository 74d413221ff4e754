/**
 * The two capture paths side by side: the same text captured from the
 * context menu is kept whole, typed into the popup it is cut to its first
 * line.
 */
module Scenarios {
  import opened Results
  import opened Text
  import opened NoteText
  import opened Notes
  import opened Popup
  import opened Background

  /** A selection of two lines is stored whole by the menu; typing the same
      two lines into the popup afterwards stores only the first line followed
      by an ellipsis, in front of the untouched menu note. */
  lemma CapturePathsDiffer(store: Store, view: seq<Item>, url: string, first: string, second: string,
                           t1: int, d1: string, t2: int, d2: string)
    requires first != "" && !IsTrimmable(first[0]) && '\n' !in first
    requires second != "" && !IsTrimmable(second[|second| - 1])
    ensures var selection := first + "\n" + second;
      var menu := OnMenuClick(store, MenuItemId, selection, url, t1, d1);
      var typed := AddNote(PopupState(menu, view), selection, url, t2, d2).store;
      && menu == Some([Note(t1, Compose(url, selection), d1)] + Stored(store))
      && typed == Some([Note(t2, Compose(url, first + Ellipsis), d2)] + Stored(menu))
  {
    var selection := first + "\n" + second;
    TrimFixedPoints(selection);
    assert '\n' in selection by { assert selection[|first|] == '\n'; }
    FirstLineOfLines(first, second);
  }
}
