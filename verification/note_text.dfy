/**
 * The text format both capture paths store and the popup reads back: the
 * page URL and the note body joined by a blank line, with no escaping.
 */
module NoteText {
  import opened Text

  /** The blank line between a note's source URL and its body. */
  const Separator: string := "\n\n"

  /** The stored text of a note, `${url}\n\n${body}`. */
  function Compose(url: string, body: string): string {
    url + Separator + body
  }

  /** What the popup shows for a note: the link and the text line. */
  datatype Display = Display(url: string, body: string)

  /** How the popup reads a note's text: the first blank-line-separated piece
      is the URL and the second is the body; a missing second piece reads as
      the empty string. Everything after a second blank line is not shown. */
  function Decode(text: string): (d: Display)
    ensures IsFirstPiece(text, Separator, d.url)
    ensures |d.url| == |text| ==> d.body == ""
    ensures |d.url| < |text| ==>
      IsFirstPiece(text[|d.url| + |Separator|..], Separator, d.body)
  {
    var parts := Split(text, Separator);
    if |parts| > 1 then
      SplitStep(text, Separator);
      Display(parts[0], parts[1])
    else
      Display(parts[0], "")
  }

  /** A URL that decodes back to itself: the first blank line of
      `url + "\n\n" + body` is the one `Compose` put there. This asks that the
      URL hold no blank line and not end in a line feed. */
  ghost predicate SafeUrl(url: string) {
    !Occurs(url + "\n", Separator)
  }

  /** A URL without line feeds, which is every URL a browser tab reports, is safe. */
  lemma NewlineFreeUrlIsSafe(url: string)
    requires '\n' !in url
    ensures SafeUrl(url)
  {
    var u := url + "\n";
    forall j | 0 <= j && j + 2 <= |u| ensures !OccursAt(u, Separator, j) {
      assert u[j..j + 2][0] == u[j] == url[j];
    }
  }

  /** In `url + "\n\n" + body` with a safe URL, no blank line starts inside the URL. */
  lemma SafeUrlHead(url: string, body: string)
    requires SafeUrl(url)
    ensures forall j :: 0 <= j < |url| ==> !OccursAt(url + Separator + body, Separator, j)
  {
    var text := Compose(url, body);
    forall j | 0 <= j < |url| ensures !OccursAt(text, Separator, j) {
      assert !OccursAt(url + "\n", Separator, j);
      assert text[j..j + 2] == (url + "\n")[j..j + 2];
    }
  }

  /** Decoding a composed text gives back the URL and the part of the body
      before its own first blank line. */
  lemma DecodeCompose(url: string, body: string)
    requires SafeUrl(url)
    ensures Decode(Compose(url, body)) == Display(url, Split(body, Separator)[0])
  {
    SafeUrlHead(url, body);
    SplitAfterHead(url, Separator, body);
  }

  /** The round trip of the text format: a body without a blank line comes
      back exactly. */
  lemma DecodeComposeRoundTrip(url: string, body: string)
    requires SafeUrl(url) && !Occurs(body, Separator)
    ensures Decode(Compose(url, body)) == Display(url, body)
  {
    DecodeCompose(url, body);
  }

  /** Why `SafeUrl` asks for more than "no blank line in the URL": a URL
      ending in a line feed loses that line feed to the body. */
  lemma UrlEndingInNewlineIsMisread(url: string, body: string)
    requires SafeUrl(url) && !Occurs("\n" + body, Separator)
    ensures Decode(Compose(url + "\n", body)) == Display(url, "\n" + body)
  {
    assert Compose(url + "\n", body) == Compose(url, "\n" + body);
    DecodeComposeRoundTrip(url, "\n" + body);
  }
}
