# chrome-notes-extension in Dafny

A model of the note-keeping logic of a small Chrome extension. The extension
captures text as notes in two ways:

- The background script adds a context-menu item. Clicking it stores the
  selected text verbatim.
- The popup has an input box. Its text is trimmed and cut to its first line,
  followed by `...` when it had more than one line.

Either way the stored text is the page URL, a blank line (`"\n\n"`) and the
body. Each note is stamped with `Date.now()`, which is also its id, and with
an ISO date. It goes in front of the list kept under the `notes` storage key.

The popup:

- On opening, shows the first two stored notes, each inserted before the
  list's first child.
- Splits each note's text at its first blank lines to show a link and a text
  line.
- Deletes a note from storage and removes its item from the page.
- Hides items whose lower-cased text does not contain the lower-cased search
  query.
- Exports the stored notes whose checkboxes are ticked.

The model keeps the extension's storage and the popup's list of items as
values. Each event handler is a pure function from the old values to the new
ones. The tab URL and the clock readings are parameters.

Modules, one file each:

- `Results` (`results.dfy`): `Option` and `Result`.
- `Text` (`text.dfy`): the ECMAScript string operations the scripts use:
  - `trim`, over the full WhiteSpace and LineTerminator set;
  - `toLowerCase`, on ASCII letters;
  - `includes`, built on `IndexOf`, the search for the first occurrence;
  - `split` with a non-empty separator, with its inverse `Join`.
- `NoteText` (`note_text.dfy`): the `url + "\n\n" + body` format and how the
  popup reads it back.
- `Notes` (`notes.dfy`): notes, the store, and insertion, deletion and
  lookup by id.
- `Popup` (`popup.dfy`): manual capture, rendering, deletion, search and
  export.
- `Background` (`background.dfy`): the context-menu handler.
- `Scenarios` (`scenarios.dfy`): the two capture paths compared on the same
  text.

Three behaviours of the code that a reader might not expect, which the model
follows:

- An input box holding only whitespace is silently ignored (popup.js:57-60).
  No alert is shown.
- After a manual add the popup redraws every stored note (popup.js:86-88),
  not only the first two. The new note ends up at the bottom.
- The export follows the order of the checkboxes on the page (popup.js:12-20).
  That is the reverse of the stored order for the notes shown on opening.

## Model

| member | source | states |
|---|---|---|
| Text.Trim | popup.js:56 | The result is empty exactly when every character is ECMAScript whitespace or a line terminator. Otherwise it starts and ends with a visible character, and it occurs in the input. |
| Text.TrimRemovesOnlyEnds | popup.js:56 | Trimming removes only whitespace: everything before and after the result in the input is trimmable. |
| Text.TrimUnique | popup.js:56 | Any stripping of trimmable characters from both ends that leaves visible ends, or nothing, is the trim. |
| Text.TrimStartSkips | popup.js:56 | Stripping from the front removes exactly the run of whitespace before the first visible character. |
| Text.TrimEndSkips | popup.js:56 | Stripping from the back removes exactly the run of whitespace after the last visible character. |
| Text.TrimIdempotent | popup.js:56 | Trimming a trimmed text changes nothing. |
| Text.TrimFixedPoints | popup.js:56 | A text is its own trim exactly when it is empty or starts and ends with a visible character. |
| Text.IndexOf | popup.js:224 | The first position where the pattern occurs; none exactly when it does not occur. |
| Text.Includes | popup.js:224 | Every text includes the empty pattern. |
| Text.IncludesOccurs | popup.js:224 | `includes` holds exactly when the pattern occurs somewhere in the text. |
| Text.Piece | popup.js:119-120 | The first piece of a split is the prefix before the first separator, or the whole text when there is none. |
| Text.FirstPieceUnique | popup.js:119-120 | The first piece is determined by that description. |
| Text.FirstPieceHasNoSeparator | popup.js:119-120 | The first piece holds no separator. |
| Text.Split | popup.js:119-121 | The first part is the first piece, and there is one part exactly when that piece is the whole text. |
| Text.SplitsExactlyAtSeparators | popup.js:65 | A split yields a single part exactly when the separator does not occur. |
| Text.SplitStep | popup.js:119-121 | After the first piece and its separator, the parts are those of the rest of the text. |
| Text.JoinSplit | popup.js:119-121 | Splitting loses nothing: joining the parts with the separator rebuilds the text. |
| Text.SplitAfterHead | popup.js:119-121 | If the first separator comes right after a head, the split is that head followed by the split of the rest. |
| Text.LowerForgetsCase | popup.js:219-223 | Lower-casing gives the same result whatever case a text was in, and lower-casing twice changes nothing. |
| NoteText.Decode | popup.js:119-121 | The link is the text before the first blank line. The text line is the piece after it, or empty when there is no blank line. |
| NoteText.NewlineFreeUrlIsSafe | popup.js:63-66 | A URL without line feeds reads back as itself from the stored text. |
| NoteText.DecodeCompose | popup.js:119-121 | Reading a stored `url + "\n\n" + body` gives back the URL and the body up to its own first blank line. |
| NoteText.DecodeComposeRoundTrip | popup.js:119-121 | The round trip: a body without a blank line is read back exactly, with its URL. |
| NoteText.UrlEndingInNewlineIsMisread | popup.js:119-121 | A URL ending in a line feed is read back without it, and the line feed moves to the text line. |
| Notes.NewestFirstHasUniqueIds | popup.js:68-72 | Notes stamped with strictly decreasing times have distinct ids. |
| Notes.Prepend | popup.js:77-78 | The new note comes first and the stored notes follow in their order. An absent key gives a one-note list. |
| Notes.PrependKeepsNewestFirst | popup.js:68-78 | A note stamped after every stored note keeps the list newest first. |
| Notes.DeleteById | popup.js:205-206 | No note with the id remains, and every other note stays. An absent id leaves the list unchanged; a present one shortens it. |
| Notes.DeleteDistributes | popup.js:206 | Deletion works piecewise, so the remaining notes keep their relative order. |
| Notes.DeleteIdempotent | popup.js:206 | Deleting twice is deleting once. |
| Notes.DeleteUndoesPrepend | popup.js:206 | Deleting a just-added note with a fresh id restores the stored list. |
| Notes.DeleteKeepsNewestFirst | popup.js:206 | Deletion keeps a newest-first list newest first. |
| Notes.IndexOfId | popup.js:17 | The position of the first note with the id; none exactly when no note has it. |
| Notes.FindById | popup.js:17 | The first note carrying the id; none exactly when no note has it. |
| Notes.FindByIdUnique | popup.js:17 | With unique ids, looking up a stored note's id finds that note. |
| Popup.FirstLine | popup.js:65 | The first line is the prefix before the first line feed, holds no line feed, and is followed by a line feed when shorter than the text. |
| Popup.FirstLineOfLines | popup.js:65 | The first line of `line + "\n" + rest` is `line`. |
| Popup.ManualBody | popup.js:65 | The body is the text when it has one line. Otherwise it is the first line followed by `...`. It never holds a line feed. |
| Popup.ManualBodyIsOneLine | popup.js:56-65 | The body kept for a trimmed non-empty input is non-empty and holds no blank line. |
| Popup.ManualText | popup.js:56-66 | Only an all-whitespace input is refused. Otherwise the stored text is exactly the tab URL, a blank line and the trimmed input's first line (with `...` when it had more lines). That text reads back as the URL and a non-empty body. |
| Popup.RenderInto | popup.js:196 | Rendering a list inserts each note above the items already shown, so the notes appear in reverse order on top of them. |
| Popup.LoadNotes | popup.js:101-105 | The opened popup shows the first two stored notes, the older one on top. |
| Popup.AddNote | popup.js:54-93 | A refused input changes nothing. Otherwise one note is stored in front with the given id and date and exactly the text `url + "\n\n" + body`. The list is redrawn with every stored note in reverse, the new one last. |
| Popup.ItemIndex | popup.js:212 | The position of the first item on the page with the id; none exactly when no item has it. |
| Popup.RemoveFirstItem | popup.js:212-213 | Only the first item with the id leaves the page. The others keep their order, and a missing id changes nothing. |
| Popup.DeleteNote | popup.js:199-216 | Storage keeps exactly the notes without the id, in their order. The page loses only the first item with the id, and is unchanged when no item has it. |
| Popup.DeleteThenOpenHidesId | popup.js:205-213 | After a deletion, reopening the popup never shows the deleted id. |
| Popup.MatchesContains | popup.js:219-224 | An item matches exactly when its lower-cased text contains the lower-cased query. |
| Popup.FilterNotes | popup.js:218-226 | Each item is shown exactly when its text matches. Its link is ignored, and nothing else on the page or in storage changes. |
| Popup.FilterShowsContaining | popup.js:222-224 | After a search an item is visible exactly when its lower-cased text contains the lower-cased query. |
| Popup.FilterIdempotent | popup.js:218-226 | Searching twice for the same query is searching once. |
| Popup.EmptyQueryShowsAll | popup.js:224 | The empty query shows every item. |
| Popup.FilterIgnoresCase | popup.js:219 | Upper- or lower-casing the query does not change what is shown. |
| Popup.CheckedIds | popup.js:12-16 | The ids taken are exactly those of the ticked checkboxes. A single checkbox gives its id when ticked and nothing otherwise. |
| Popup.CheckedIdsConcat | popup.js:14-16 | The ids are taken checkbox by checkbox, so they follow page order. |
| Popup.SelectById | popup.js:14-20 | Every selected note is stored and carries one of the ids. |
| Popup.SelectNothing | popup.js:14-22 | Nothing is selected exactly when no stored note carries any of the ids. |
| Popup.SelectFound | popup.js:17-18 | An id that finds a note contributes that note in front of what the later ids select. |
| Popup.SelectConcat | popup.js:14-20 | Selection goes id by id, so the selected notes follow the order of the ids. |
| Popup.SelectStored | popup.js:14-20 | With unique ids, selecting the ids of some stored notes yields exactly those notes, in that order. |
| Popup.SelectEveryId | popup.js:14-20 | Ticking every stored note selects the whole list unchanged. |
| Popup.ExportNotes | popup.js:9-25 | There is nothing to export exactly when no ticked checkbox names a stored note. Otherwise the export is the non-empty list of those stored notes, in page order. |
| Popup.ExportFollowsPageOrder | popup.js:12-18 | With two notes stored newest first and both ticked on the opened popup, the older one is exported first. |
| Background.OnMenuClick | background.js:11-28 | Only the extension's item with a non-empty selection adds a note. The note holds the URL, a blank line and the selection, untouched, and goes in front of the stored notes. |
| Background.OnMenuClickKeepsNewestFirst | background.js:21-28 | A menu note stamped after every stored note keeps the list newest first. |
| Background.MenuNoteDisplay | background.js:13-14 | The popup shows a menu note's URL and its selection up to the first blank line, and the whole selection when it has none. |
| Scenarios.CapturePathsDiffer | background.js:12-14 | A two-line selection is stored whole by the menu. Typed into the popup afterwards, only its first line and `...` are stored, in front of the menu note. |

## Left out

- Storage calls (`chrome.storage.sync` get and set) are not modelled as calls. The store is a value passed in and returned.
- Storage errors (`chrome.runtime.lastError`, popup.js:79-83, 97-100, 201-211 and background.js:32-35) are not modelled. A failed save would leave storage and the page as they were.
- The lost update between the read and the write of storage is not modelled. Each handler is atomic here.
- `chrome.tabs.query` (popup.js:63-64), the `tab` argument of the menu handler and `Date.now()` / `toISOString()` are parameters.
- The registration of the menu item (background.js:2-8) is not modelled beyond its id.
- content.js only logs and is not modelled.
- Logging is not modelled.
- Styling, hover handlers and the link's target (popup.js:117-189) are not modelled.
- The Command+N shortcut (popup.js:43-49) only calls `addNote`. It is not modelled separately.
- Clearing the input box after a save (popup.js:89) is not modelled. The input is a parameter of each call.
- The export alert (popup.js:23) becomes the `NothingSelected` error.
- The export file (popup.js:27-35) is not modelled. It holds the JSON of the selected notes, under a file name that carries the date. The model returns the selected notes.
- The checkbox ids come back through `parseInt(checkbox.dataset.id)`. That is modelled as the note's id, since ids are integers written into the same attribute.
- The checkboxes the export reads are taken to be the list items' checkboxes. popup.html is not part of this model.
- Text.ToLower: folds the ASCII letters only. Full Unicode case mapping is not modelled.
- Text.ToUpper: folds the ASCII letters only, for the same reason.
- Popup.FilterIgnoresCase: holds under ASCII folding only. With full Unicode case mapping it fails for queries such as "ß", which upper-cases to "SS".
- Text: a Dafny `string` is a sequence of Unicode scalar values, while a JavaScript string is a sequence of UTF-16 code units. Lone surrogates cannot be represented, and lengths and indices count code points rather than code units.
- Text.Split: only non-empty separators, the only ones the scripts use.
- NoteText.SafeUrl: the round trip of the text format is stated only for URLs that hold no blank line and do not end in a line feed. A URL ending in a line feed is misread (see `NoteText.UrlEndingInNewlineIsMisread`), and `NoteText.NewlineFreeUrlIsSafe` covers every URL without line feeds.
- Popup.ManualText: what the stored text reads back as is stated only for URLs satisfying `SafeUrl`, for the reason above.
- Popup.AddNote: how the stored text reads back is stated only for URLs satisfying `SafeUrl`, for the reason above.
- Popup.DeleteNote: the page is modelled as the list of items, and the item removed is the first one carrying the id.
- Checkbox states survive only as long as the page does. A redraw after a manual add creates fresh, unticked items, as in the code.
