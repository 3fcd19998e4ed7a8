/**
 * What the chat page does when a citation under an answer is clicked
 * (`handleSourceClick` in src/pages/ChatApp.jsx). The page's effects
 * (`window.open`, the text modal, the audio player, the image modal) are
 * returned as an `Effect` value instead of being performed.
 */
module ChatCitations {
  import opened Common
  import opened Text

  /** A citation as the server sends it inside the sources envelope. */
  datatype Source = Source(
    kind: string,                   // the `type` field
    sourceFilename: string,
    pageNum: int,
    sourceContent: Option<string>,  // None when missing or not a string
    startTime: real,
    imagePath: string)

  /** The presentation effect of one click. */
  datatype Effect =
    | OpenTab(url: string)                            // window.open(url, "_blank")
    | ShowText(title: string, html: string)           // text modal with this title and HTML body
    | PlayAudio(newSrc: Option<string>, seekTo: real) // player shown; source replaced when newSrc is Some;
                                                      // 100 ms later the player seeks to seekTo and plays
    | ShowPlayerOnly                                  // player shown, then decoding its current URL threw
    | ShowImage(url: string)                          // image modal on this URL
    | Ignore

  /** Where the server's uploaded files are served relative to the page. */
  const TempDir := "../model/temp/"

  const NoTextPlaceholder :=
    "<p class=\"text-gray-500\"><em>No text content could be retrieved for this source.</em></p>"

  /** The kinds the dispatch reacts to. */
  const KnownKinds := {"pdf", "docx", "text", "audio", "image", "standalone_image"}

  /** JavaScript `url.split("/").pop()`: the text after the last '/'. */
  function LastPathSegment(url: string): (r: string)
    ensures EndsWith(url, r) && '/' !in r
    ensures |r| < |url| ==> url[|url| - |r| - 1] == '/'
    decreases |url|
  {
    if url == [] || url[|url| - 1] == '/' then []
    else
      var r := LastPathSegment(url[..|url| - 1]) + [url[|url| - 1]];
      assert url[..|url| - 1][|url| - |r|..] + [url[|url| - 1]] == url[|url| - |r|..];
      r
  }

  /**
   * The file name the audio player is currently playing, as the click handler
   * computes it before decoding: the last path segment of the player's
   * `currentSrc`, or "" when no player is mounted.
   */
  function PlayerFileName(playerSrc: Option<string>): string {
    match playerSrc
    case None => ""
    case Some(url) => LastPathSegment(url)
  }

  /**
   * `handleSourceClick(src)`. `playerSrc` is the mounted audio player's
   * `currentSrc` (None when the player is not mounted); `decode` stands for
   * `decodeURIComponent`, None meaning it throws.
   */
  function SourceClick(src: Source, playerSrc: Option<string>, decode: string -> Option<string>): (e: Effect)
    ensures e.Ignore? <==> src.kind !in KnownKinds
    ensures e.OpenTab? <==> src.kind == "pdf"
    ensures e.OpenTab? ==> e.url == TempDir + src.sourceFilename + "#page=" + IntToDecimal(src.pageNum)
    ensures e.ShowText? <==> src.kind == "docx" || src.kind == "text"
    ensures e.PlayAudio? || e.ShowPlayerOnly? <==> src.kind == "audio"
    ensures e.ShowImage? <==> src.kind == "image" || src.kind == "standalone_image"
    ensures e.ShowImage? ==> e.url == TempDir + src.imagePath
    ensures e.PlayAudio? ==> e.seekTo == src.startTime
    ensures e.ShowText? ==> e.title == "Source from: " + src.sourceFilename
    ensures e.ShowText? && e.html != NoTextPlaceholder ==> '\n' !in e.html
  {
    if src.kind == "pdf" then
      OpenTab(TempDir + src.sourceFilename + "#page=" + IntToDecimal(src.pageNum))
    else if src.kind == "docx" || src.kind == "text" then
      var title := "Source from: " + src.sourceFilename;
      if src.sourceContent.Some? && src.sourceContent.value != "" then
        NewlinesToBreaksHasNoNewline(src.sourceContent.value);
        ShowText(title, NewlinesToBreaks(src.sourceContent.value))
      else
        ShowText(title, NoTextPlaceholder)
    else if src.kind == "audio" then
      match decode(PlayerFileName(playerSrc))
      case None => ShowPlayerOnly
      case Some(current) =>
        PlayAudio(if current != src.sourceFilename then Some(TempDir + src.sourceFilename) else None, src.startTime)
    else if src.kind == "standalone_image" || src.kind == "image" then
      ShowImage(TempDir + src.imagePath)
    else
      Ignore
  }

  /**
   * An audio citation for the file the player already has only seeks: the
   * source is replaced exactly when the decoded current file name differs.
   */
  lemma AudioReusesLoadedSource(src: Source, playerSrc: Option<string>, decode: string -> Option<string>)
    requires src.kind == "audio"
    requires decode(PlayerFileName(playerSrc)).Some?
    ensures var e := SourceClick(src, playerSrc, decode);
      e.PlayAudio? && e.seekTo == src.startTime
      && (e.newSrc.None? <==> decode(PlayerFileName(playerSrc)) == Some(src.sourceFilename))
      && (e.newSrc.Some? ==> e.newSrc.value == TempDir + src.sourceFilename)
  {
  }

  /**
   * A text citation shows its content with every newline as "<br>"; content
   * without '<' can be read back exactly. Missing, non-string or empty content
   * shows the fixed placeholder.
   */
  lemma TextCitationShowsContent(src: Source, playerSrc: Option<string>, decode: string -> Option<string>)
    requires src.kind == "docx" || src.kind == "text"
    ensures var e := SourceClick(src, playerSrc, decode);
      e.ShowText?
      && (src.sourceContent.None? || src.sourceContent == Some("") ==> e.html == NoTextPlaceholder)
      && (src.sourceContent.Some? && src.sourceContent.value != "" && '<' !in src.sourceContent.value
          ==> BreaksToNewlines(e.html) == src.sourceContent.value)
  {
    if src.sourceContent.Some? && src.sourceContent.value != "" && '<' !in src.sourceContent.value {
      BreaksRoundTrip(src.sourceContent.value);
    }
  }
}
