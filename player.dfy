/**
 * The page side of script.js: the `#player` container, whose children
 * `loadFromUrl` replaces, and the `#message` line, whose text and error
 * colour `showMessage` sets. An element is the record of the attributes the
 * script assigns; `onErrorMessage` is the text its `onerror` handler would
 * show, not the handler itself.
 */
module Player {
  import opened Wrappers
  import opened JsStrings
  import opened Url
  import opened UriComponent
  import opened Classifiers
  import opened Resolver

  datatype Kind = IFrame | Video

  datatype Element = Element(
    kind: Kind,
    src: string,
    allow: Option<string>,
    sandbox: Option<string>,
    allowFullscreen: bool,
    crossOrigin: Option<string>,
    controls: bool,
    onErrorMessage: Option<string>)

  /** `document.createElement(kind)`: no attributes set yet. */
  function CreateElement(kind: Kind): Element {
    Element(kind, "", None, None, false, None, false, None)
  }

  const YouTubeAllow := "accelerometer; autoplay; clipboard-write; encrypted-media; gyroscope; picture-in-picture"
  const VimeoAllow := "autoplay; fullscreen; picture-in-picture"
  const GenericSandbox := "allow-scripts allow-same-origin allow-forms allow-popups"
  const UnsafeUrlMessage := "That doesn't look like a safe http(s) URL."
  const IframeNotice := "Loaded via iframe (may be blocked by some sites)."
  const VideoErrorMessage :=
    "Could not load the video file. It may block cross-origin requests or be an unsupported format."
  const EmbedErrorMessage :=
    "Embedding failed \U{2014} the site may disallow embedding (X-Frame-Options) or block cross-origin requests."

  const YouTubeEmbedPrefix := "https://www.youtube.com/embed/"
  const VimeoPlayerPrefix := "https://player.vimeo.com/video/"

  function YouTubeEmbedSrc(id: string): string {
    YouTubeEmbedPrefix + EncodeURIComponent(id) + "?rel=0"
  }

  function VimeoEmbedSrc(id: string): string {
    VimeoPlayerPrefix + EncodeURIComponent(id)
  }

  /** The children `loadFromUrl` leaves in the player for each outcome. */
  function Rendered(o: Outcome): seq<Element> {
    match o
    case Rejected => []
    case YouTubeVideo(id) =>
      [Element(IFrame, YouTubeEmbedSrc(id), Some(YouTubeAllow), None, true, None, false, None)]
    case VimeoVideo(id) =>
      [Element(IFrame, VimeoEmbedSrc(id), Some(VimeoAllow), None, true, None, false, None)]
    case DirectVideoFile(url) =>
      [Element(Video, url, None, None, false, Some("anonymous"), true, Some(VideoErrorMessage))]
    case GenericEmbed(url) =>
      [Element(IFrame, url, None, Some(GenericSandbox), true, None, false, Some(EmbedErrorMessage))]
  }

  /** The message text `loadFromUrl` leaves for each outcome. */
  function NoticeText(o: Outcome): string {
    match o
    case Rejected => UnsafeUrlMessage
    case GenericEmbed(_) => IframeNotice
    case _ => ""
  }

  class Page {
    var player: seq<Element>
    var messageText: string
    var messageIsError: bool

    constructor ()
      ensures player == [] && messageText == "" && !messageIsError
    {
      player := [];
      messageText := "";
      messageIsError := false;
    }

    /** `showMessage(txt, isError)`; the colour it picks is kept as the flag. */
    method ShowMessage(txt: string, isError: bool)
      modifies this
      ensures messageText == txt && messageIsError == isError
      ensures player == old(player)
    {
      messageText := txt;
      messageIsError := isError;
    }

    /** `clearPlayer()`: `player.innerHTML = ''`. */
    method ClearPlayer()
      modifies this
      ensures player == []
      ensures messageText == old(messageText) && messageIsError == old(messageIsError)
    {
      player := [];
    }

    /** `player.appendChild(e)` */
    method AppendChild(e: Element)
      modifies this
      ensures player == old(player) + [e]
      ensures messageText == old(messageText) && messageIsError == old(messageIsError)
    {
      player := player + [e];
    }

    /** `loadFromUrl(raw)`: whatever was shown before, the page ends up showing `Resolve(parse, raw)`. */
    method LoadFromUrl(parse: Parser, raw: string)
      modifies this
      ensures player == Rendered(Resolve(parse, raw))
      ensures messageText == NoticeText(Resolve(parse, raw))
      ensures messageIsError <==> Resolve(parse, raw) == Rejected
      ensures |player| <= 1 && (|player| == 1 <==> Truthy(SafeUrl(parse, raw)))
    {
      ClearPlayer();
      messageText := "";
      var url := SafeUrl(parse, raw);
      if !Truthy(url) {
        ShowMessage(UnsafeUrlMessage, true);
        return;
      }

      var yt := YouTubeId(parse, url.value);
      if Truthy(yt) {
        var iframe := CreateElement(IFrame);
        iframe := iframe.(allowFullscreen := true);
        iframe := iframe.(allow := Some(YouTubeAllow));
        iframe := iframe.(src := YouTubeEmbedPrefix + EncodeURIComponent(yt.value) + "?rel=0");
        AppendChild(iframe);
        ShowMessage("", false);
        return;
      }

      var vm := VimeoId(parse, url.value);
      if Truthy(vm) {
        var iframe := CreateElement(IFrame);
        iframe := iframe.(allowFullscreen := true);
        iframe := iframe.(allow := Some(VimeoAllow));
        iframe := iframe.(src := VimeoPlayerPrefix + EncodeURIComponent(vm.value));
        AppendChild(iframe);
        ShowMessage("", false);
        return;
      }

      if IsLikelyDirectVideo(url.value) {
        var vid := CreateElement(Video);
        vid := vid.(controls := true);
        vid := vid.(src := url.value);
        vid := vid.(crossOrigin := Some("anonymous"));
        vid := vid.(onErrorMessage := Some(VideoErrorMessage));
        AppendChild(vid);
        ShowMessage("", false);
        return;
      }

      var iframe := CreateElement(IFrame);
      iframe := iframe.(allowFullscreen := true);
      iframe := iframe.(sandbox := Some(GenericSandbox));
      iframe := iframe.(src := url.value);
      iframe := iframe.(onErrorMessage := Some(EmbedErrorMessage));
      AppendChild(iframe);
      ShowMessage(IframeNotice, false);
    }
  }

  // ---------------------------------------------------------------------------
  // Properties of what loadFromUrl renders

  /** A rejected input leaves the player empty and shows the error line. */
  lemma RejectionRendersNothing(parse: Parser, raw: string)
    requires !Truthy(SafeUrl(parse, raw))
    ensures Rendered(Resolve(parse, raw)) == []
    ensures NoticeText(Resolve(parse, raw)) == UnsafeUrlMessage
  {
  }

  /** The player holds exactly one element after an admitted URL and none otherwise. */
  lemma AtMostOneChild(parse: Parser, raw: string)
    ensures |Rendered(Resolve(parse, raw))| == if Truthy(SafeUrl(parse, raw)) then 1 else 0
  {
  }

  /**
   * Every source the page loads is either under one of the two fixed https
   * player prefixes or the validated URL itself, whose scheme is http or https.
   */
  lemma SourcesAreSafe(parse: Parser, raw: string)
    ensures forall e | e in Rendered(Resolve(parse, raw)) ::
      YouTubeEmbedPrefix <= e.src || VimeoPlayerPrefix <= e.src
      || (parse(raw).Some? && IsHttpProtocol(parse(raw).value.protocol)
          && e.src == parse(raw).value.serialized)
  {
  }

  /** The `<video>` plays exactly the validated URL, with controls and anonymous CORS. */
  lemma DirectVideoElement(parse: Parser, raw: string)
    requires Resolve(parse, raw).DirectVideoFile?
    ensures var e := Rendered(Resolve(parse, raw))[0];
      e.kind == Video && e.src == SafeUrl(parse, raw).value && e.controls
      && e.crossOrigin == Some("anonymous") && e.onErrorMessage == Some(VideoErrorMessage)
    ensures NoticeText(Resolve(parse, raw)) == ""
  {
  }

  /** The fallback frame loads the validated URL under the fixed sandbox and says so. */
  lemma GenericFrameElement(parse: Parser, raw: string)
    requires Resolve(parse, raw).GenericEmbed?
    ensures var e := Rendered(Resolve(parse, raw))[0];
      e.kind == IFrame && e.src == SafeUrl(parse, raw).value
      && e.sandbox == Some(GenericSandbox) && e.allow == None
    ensures NoticeText(Resolve(parse, raw)) == IframeNotice
  {
  }

  /** A player URL of the form `https://host/segment/e`, cut at its slashes. */
  lemma {:induction false} PlayerPathSegments(host: string, segment: string, e: string)
    requires '/' !in host && '/' !in segment && '/' !in e
    ensures Split("https://" + host + "/" + segment + "/" + e, '/') == ["https:", "", host, segment, e]
  {
    var parts := ["https:", "", host, segment, e];
    assert parts[1..][1..][1..][1..] == [e];
    assert Join(parts[3..], '/') == segment + "/" + e;
    assert Join(parts[2..], '/') == host + "/" + segment + "/" + e;
    assert Join(parts[1..], '/') == "/" + host + "/" + segment + "/" + e;
    assert Join(parts, '/') == "https://" + host + "/" + segment + "/" + e;
    SplitOfJoin(parts, '/');
  }

  // The facts about the two fixed prefixes are kept in lemmas of their own:
  // proved inside the lemmas below, with the encoder's terms in scope, they
  // cost the solver several times as much.

  lemma YouTubePrefixParts()
    ensures YouTubeEmbedPrefix == "https://" + "www.youtube.com" + "/" + "embed" + "/"
  {
  }

  lemma YouTubePrefixHasNoQuery()
    ensures '?' !in YouTubeEmbedPrefix && '#' !in YouTubeEmbedPrefix
  {
  }

  lemma VimeoPrefixParts()
    ensures VimeoPlayerPrefix == "https://" + "player.vimeo.com" + "/" + "video" + "/"
  {
  }

  lemma VimeoPrefixHasNoQuery()
    ensures '?' !in VimeoPlayerPrefix && '#' !in VimeoPlayerPrefix
  {
  }

  /**
   * The YouTube source is the embed path with the encoded ID as its last
   * segment, then `?rel=0`: the encoded ID holds no `/`, `?` or `#`, so the
   * path ends, and the query starts, where the script put them, and decoding
   * that segment gives the ID back. The exception is the ID `.` or `..`: its
   * encoding is a dot segment, which the URL parser removes from the path when
   * it loads the source; no other ID encodes to one.
   */
  lemma YouTubeSrcKeepsIdInOneSegment(id: string)
    ensures var e := EncodeURIComponent(id);
      var path := YouTubeEmbedPrefix + e;
      YouTubeEmbedSrc(id) == path + "?rel=0"
      && '?' !in path && '#' !in path
      && Split(path, '/') == ["https:", "", "www.youtube.com", "embed", e]
      && DecodeURIComponent(e) == Some(id)
      && (IsDotSegment(e) <==> (id == "." || id == ".."))
  {
    var e := EncodeURIComponent(id);
    EncodedHasNoDelimiters(id);
    DecodeEncode(id);
    EncodedDotSegment(id);
    YouTubePrefixParts();
    YouTubePrefixHasNoQuery();
    PlayerPathSegments("www.youtube.com", "embed", e);
    assert YouTubeEmbedPrefix + e == "https://" + "www.youtube.com" + "/" + "embed" + "/" + e;
  }

  /** The Vimeo source likewise ends in one segment holding the encoded ID, with the same exception. */
  lemma VimeoSrcKeepsIdInOneSegment(id: string)
    ensures var e := EncodeURIComponent(id);
      '?' !in VimeoEmbedSrc(id) && '#' !in VimeoEmbedSrc(id)
      && Split(VimeoEmbedSrc(id), '/') == ["https:", "", "player.vimeo.com", "video", e]
      && DecodeURIComponent(e) == Some(id)
      && (IsDotSegment(e) <==> (id == "." || id == ".."))
  {
    var e := EncodeURIComponent(id);
    EncodedHasNoDelimiters(id);
    DecodeEncode(id);
    EncodedDotSegment(id);
    VimeoPrefixParts();
    VimeoPrefixHasNoQuery();
    PlayerPathSegments("player.vimeo.com", "video", e);
    assert VimeoPlayerPrefix + e == "https://" + "player.vimeo.com" + "/" + "video" + "/" + e;
  }

  /**
   * A `v` value of `..` reaches the embed template unchanged: the page loads
   * `https://www.youtube.com/embed/..?rel=0`, whose `..` segment the URL
   * parser resolves away, leaving `https://www.youtube.com/?rel=0`.
   */
  lemma DotDotWatchEmbedsDotSegment(parse: Parser)
    requires ParsesTo(parse, "https://www.youtube.com/watch?v=..",
      UrlRec("https:", "www.youtube.com", "/watch", [("v", "..")], "https://www.youtube.com/watch?v=.."))
    ensures Resolve(parse, "https://www.youtube.com/watch?v=..") == YouTubeVideo("..")
    ensures Rendered(Resolve(parse, "https://www.youtube.com/watch?v=.."))[0].src
      == "https://www.youtube.com/embed/..?rel=0"
  {
    AdmitsHttps(parse, "https://www.youtube.com/watch?v=..");
    OnWwwYouTubeWatch(parse, "https://www.youtube.com/watch?v=..", "..");
    DotDotEmbedSrc();
  }

  lemma DotDotEmbedSrc()
    ensures YouTubeEmbedSrc("..") == "https://www.youtube.com/embed/..?rel=0"
  {
    DotSegmentsEncodeUnchanged();
  }

  /**
   * With the guard, every embedded ID keeps its own last path segment: its
   * encoding is not a dot segment, the source splits with it as the last
   * piece, and decoding that piece gives the ID back.
   */
  lemma GuardedEmbedsKeepId(parse: Parser, raw: string)
    ensures var o := ResolveGuarded(parse, raw);
      o.YouTubeVideo? ==>
        var e := EncodeURIComponent(o.videoId);
        !IsDotSegment(e) && DecodeURIComponent(e) == Some(o.videoId)
        && Rendered(o)[0].src == YouTubeEmbedPrefix + e + "?rel=0"
        && Split(YouTubeEmbedPrefix + e, '/') == ["https:", "", "www.youtube.com", "embed", e]
    ensures var o := ResolveGuarded(parse, raw);
      o.VimeoVideo? ==>
        var e := EncodeURIComponent(o.videoId);
        !IsDotSegment(e) && DecodeURIComponent(e) == Some(o.videoId)
        && Rendered(o)[0].src == VimeoEmbedSrc(o.videoId)
        && Split(VimeoEmbedSrc(o.videoId), '/') == ["https:", "", "player.vimeo.com", "video", e]
  {
    var o := ResolveGuarded(parse, raw);
    if o.YouTubeVideo? {
      YouTubeSrcKeepsIdInOneSegment(o.videoId);
    } else if o.VimeoVideo? {
      VimeoSrcKeepsIdInOneSegment(o.videoId);
    }
  }
}
