/**
 * The decision `loadFromUrl` makes (script.js, lines 60-113): the gate, then
 * YouTube, Vimeo, direct file and the generic frame, in that order, the first
 * one that matches winning. `Resolve` is that decision as a value; the class
 * `Player.Page` carries it out on the page.
 */
module Resolver {
  import opened Wrappers
  import opened JsStrings
  import opened Url
  import opened Classifiers
  import opened UriComponent

  datatype Outcome =
    | Rejected
    | YouTubeVideo(videoId: string)
    | VimeoVideo(videoId: string)
    | DirectVideoFile(url: string)
    | GenericEmbed(url: string)

  /** The branch `loadFromUrl(raw)` takes and the value it hands that branch. */
  function Resolve(parse: Parser, raw: string): Outcome {
    var safe := SafeUrl(parse, raw);
    if !Truthy(safe) then Rejected
    else
      var url := safe.value;
      var yt := YouTubeId(parse, url);
      if Truthy(yt) then YouTubeVideo(yt.value)
      else
        var vm := VimeoId(parse, url);
        if Truthy(vm) then VimeoVideo(vm.value)
        else if IsLikelyDirectVideo(url) then DirectVideoFile(url)
        else GenericEmbed(url)
  }

  /**
   * Only the http(s) gate admits a URL: anything but `Rejected` comes from an
   * input that parsed with protocol `http:` or `https:`, and the URLs that
   * reach the page are that parse's serialization.
   */
  lemma OnlyHttpAdmitted(parse: Parser, raw: string)
    ensures Resolve(parse, raw) == Rejected <==> !Truthy(SafeUrl(parse, raw))
    ensures Resolve(parse, raw) != Rejected ==>
      parse(raw).Some? && IsHttpProtocol(parse(raw).value.protocol) && parse(raw).value.serialized != ""
    ensures Resolve(parse, raw).DirectVideoFile? || Resolve(parse, raw).GenericEmbed? ==>
      Resolve(parse, raw).url == parse(raw).value.serialized
  {
  }

  /**
   * The first classifier that yields a truthy answer wins, and an empty ID
   * falls through to the next one. `url` is the validated URL.
   */
  lemma FirstMatchWins(parse: Parser, raw: string)
    requires Truthy(SafeUrl(parse, raw))
    ensures var url := SafeUrl(parse, raw).value;
      var o := Resolve(parse, raw);
      (o.YouTubeVideo? <==> Truthy(YouTubeId(parse, url)))
      && (o.VimeoVideo? <==> !Truthy(YouTubeId(parse, url)) && Truthy(VimeoId(parse, url)))
      && (o.DirectVideoFile? <==>
            !Truthy(YouTubeId(parse, url)) && !Truthy(VimeoId(parse, url)) && IsLikelyDirectVideo(url))
      && (o.GenericEmbed? <==>
            !Truthy(YouTubeId(parse, url)) && !Truthy(VimeoId(parse, url)) && !IsLikelyDirectVideo(url))
    ensures var o := Resolve(parse, raw);
      (o.YouTubeVideo? || o.VimeoVideo?) ==> o.videoId != ""
  {
  }

  // ---------------------------------------------------------------------------
  // The guard the player templates need. An ID is embedded as the last path
  // segment of a player URL; one whose encoding is a dot segment would be
  // removed by the URL parser when the page loads that source.

  /** A truthy ID whose encoding is not a dot segment. */
  predicate IsEmbeddableId(v: Option<string>) {
    Truthy(v) && !IsDotSegment(EncodeURIComponent(v.value))
  }

  /** `Resolve` with the guard: an ID that would be a dot segment falls through, as an empty one does. */
  function ResolveGuarded(parse: Parser, raw: string): (o: Outcome)
    ensures o.YouTubeVideo? || o.VimeoVideo? ==>
      o.videoId != "" && !IsDotSegment(EncodeURIComponent(o.videoId))
  {
    var safe := SafeUrl(parse, raw);
    if !Truthy(safe) then Rejected
    else
      var url := safe.value;
      var yt := YouTubeId(parse, url);
      if IsEmbeddableId(yt) then YouTubeVideo(yt.value)
      else
        var vm := VimeoId(parse, url);
        if IsEmbeddableId(vm) then VimeoVideo(vm.value)
        else if IsLikelyDirectVideo(url) then DirectVideoFile(url)
        else GenericEmbed(url)
  }

  /** The guard changes the outcome only where `Resolve` picks the ID `.` or `..`. */
  lemma GuardOnlyStopsDotIds(parse: Parser, raw: string)
    ensures ResolveGuarded(parse, raw) != Resolve(parse, raw) ==>
      var o := Resolve(parse, raw);
      (o.YouTubeVideo? || o.VimeoVideo?) && (o.videoId == "." || o.videoId == "..")
  {
    if Truthy(SafeUrl(parse, raw)) {
      var url := SafeUrl(parse, raw).value;
      var yt, vm := YouTubeId(parse, url), VimeoId(parse, url);
      if yt.Some? {
        EncodedDotSegment(yt.value);
      }
      if vm.Some? {
        EncodedDotSegment(vm.value);
      }
    }
  }

  // ---------------------------------------------------------------------------
  // Worked examples. The parser's results are given as requirements: `raw`
  // parses to `u`, and the serialization parses to `u` again.

  predicate ParsesTo(parse: Parser, raw: string, u: UrlRec) {
    parse(raw) == Some(u) && parse(u.serialized) == Some(u)
  }

  // Facts about the example hosts and paths, each stated for a string `h`
  // or `p` equal to the literal.

  lemma WwwYouTubeHost(h: string)
    requires h == "www.youtube.com"
    ensures !Includes(h, "youtu.be") && IsYouTubeHost(h)
  {
    forall i | 0 <= i < |h| && h[i] == 'y' ensures !OccursAt(h, "youtu.be", i) {
      assert i == 4;
      assert h[9] == 'b';
    }
    NotIncludedWhenMisaligned(h, "youtu.be");
    assert h[4..4 + |"youtube.com"|] == "youtube.com";
    IncludesWhenOccurs(h, "youtube.com", 4);
  }

  lemma VimeoHost(h: string)
    requires h == "vimeo.com"
    ensures !Includes(h, "youtu.be") && !Includes(h, "youtube.com") && !Includes(h, "youtube-nocookie.com")
    ensures Includes(h, "vimeo.com")
  {
    NotIncludedWhenMisaligned(h, "youtu.be");
    NotIncludedWhenMisaligned(h, "youtube.com");
    NotIncludedWhenMisaligned(h, "youtube-nocookie.com");
  }

  lemma ExampleHost(h: string)
    requires h == "example.com"
    ensures !Includes(h, "youtu.be") && !Includes(h, "youtube.com") && !Includes(h, "youtube-nocookie.com")
    ensures !Includes(h, "vimeo.com")
  {
    NotIncludedWhenMisaligned(h, "youtu.be");
    NotIncludedWhenMisaligned(h, "youtube.com");
    NotIncludedWhenMisaligned(h, "youtube-nocookie.com");
    NotIncludedWhenMisaligned(h, "vimeo.com");
  }

  lemma YouTuBeHost(h: string)
    requires h == "youtu.be"
    ensures Includes(h, "youtu.be") && !Includes(h, "vimeo.com")
  {
    NotIncludedWhenMisaligned(h, "vimeo.com");
  }

  /** The segments of the path `/embed/id`. */
  lemma EmbedPath(p: string, id: string)
    requires p == "/embed/" + id && id != "" && '/' !in id
    ensures SegmentAfterEmbed(Split(p, '/')) == Some(id)
  {
    var parts := ["", "embed", id];
    assert parts[1..][1..] == [id];
    assert Join(parts[1..], '/') == "embed/" + id;
    assert Join(parts, '/') == p;
    SplitOfJoin(parts, '/');
  }

  /** The segments of a one-segment path `/seg`. */
  lemma SingleSegmentPath(p: string, seg: string)
    requires p == "/" + seg && seg != "" && '/' !in seg
    ensures Split(p, '/') == ["", seg]
    ensures NonEmpty(Split(p, '/')) == [seg]
  {
    assert Join(["", seg], '/') == p;
    SplitOfJoin(["", seg], '/');
    assert NonEmpty([seg]) == [seg];
    assert ["", seg][1..] == [seg];
  }

  // What the classifiers answer for a URL whose record has the given fields.

  lemma AdmitsHttps(parse: Parser, raw: string)
    requires parse(raw).Some? && parse(raw).value.protocol == "https:"
    ensures SafeUrl(parse, raw) == Some(parse(raw).value.serialized)
  {
  }

  lemma OnExampleCom(parse: Parser, url: string)
    requires parse(url).Some? && parse(url).value.hostname == "example.com"
    ensures YouTubeId(parse, url) == None && VimeoId(parse, url) == None
  {
    ExampleHost(parse(url).value.hostname);
    YouTubeOtherHost(parse, url);
    VimeoOtherHost(parse, url);
  }

  lemma OnVimeoCom(parse: Parser, url: string, id: string)
    requires parse(url).Some? && parse(url).value.hostname == "vimeo.com"
    requires parse(url).value.pathname == "/" + id && id != "" && '/' !in id
    ensures YouTubeId(parse, url) == None && VimeoId(parse, url) == Some(id)
  {
    VimeoHost(parse(url).value.hostname);
    YouTubeOtherHost(parse, url);
    SingleSegmentPath(parse(url).value.pathname, id);
  }

  lemma OnYouTuBe(parse: Parser, url: string)
    requires parse(url).Some? && parse(url).value.hostname == "youtu.be"
    ensures YouTubeId(parse, url) == Some(SliceFromOne(parse(url).value.pathname))
    ensures VimeoId(parse, url) == None
  {
    YouTuBeHost(parse(url).value.hostname);
    VimeoOtherHost(parse, url);
  }

  lemma OnWwwYouTubeWatch(parse: Parser, url: string, v: string)
    requires parse(url).Some? && parse(url).value.hostname == "www.youtube.com"
    requires SearchParamsGet(parse(url).value.query, "v") == Some(v) && v != ""
    ensures YouTubeId(parse, url) == Some(v)
  {
    WwwYouTubeHost(parse(url).value.hostname);
  }

  lemma OnWwwYouTubeEmbed(parse: Parser, url: string, id: string)
    requires parse(url).Some? && parse(url).value.hostname == "www.youtube.com"
    requires parse(url).value.query == []
    requires parse(url).value.pathname == "/embed/" + id && id != "" && '/' !in id
    ensures YouTubeId(parse, url) == Some(id)
  {
    WwwYouTubeHost(parse(url).value.hostname);
    EmbedPath(parse(url).value.pathname, id);
  }

  /** A scheme that is not http(s), even one spelling `http:` later on, is rejected. */
  lemma JavascriptSchemeRejected(parse: Parser)
    requires parse("javascript:http://evil").Some?
    requires parse("javascript:http://evil").value.protocol == "javascript:"
    ensures Resolve(parse, "javascript:http://evil") == Rejected
  {
  }

  lemma YouTuBeExample(parse: Parser)
    requires ParsesTo(parse, "https://youtu.be/abc123",
      UrlRec("https:", "youtu.be", "/abc123", [], "https://youtu.be/abc123"))
    ensures Resolve(parse, "https://youtu.be/abc123") == YouTubeVideo("abc123")
  {
  }

  lemma YouTubeWatchExample(parse: Parser)
    requires ParsesTo(parse, "https://www.youtube.com/watch?v=abc123&t=10",
      UrlRec("https:", "www.youtube.com", "/watch", [("v", "abc123"), ("t", "10")],
             "https://www.youtube.com/watch?v=abc123&t=10"))
    ensures Resolve(parse, "https://www.youtube.com/watch?v=abc123&t=10") == YouTubeVideo("abc123")
  {
    AdmitsHttps(parse, "https://www.youtube.com/watch?v=abc123&t=10");
    OnWwwYouTubeWatch(parse, "https://www.youtube.com/watch?v=abc123&t=10", "abc123");
  }

  lemma YouTubeEmbedExample(parse: Parser)
    requires ParsesTo(parse, "https://www.youtube.com/embed/abc123",
      UrlRec("https:", "www.youtube.com", "/embed/abc123", [], "https://www.youtube.com/embed/abc123"))
    ensures Resolve(parse, "https://www.youtube.com/embed/abc123") == YouTubeVideo("abc123")
  {
    AdmitsHttps(parse, "https://www.youtube.com/embed/abc123");
    OnWwwYouTubeEmbed(parse, "https://www.youtube.com/embed/abc123", "abc123");
  }

  lemma VimeoExample(parse: Parser)
    requires ParsesTo(parse, "https://vimeo.com/76979871",
      UrlRec("https:", "vimeo.com", "/76979871", [], "https://vimeo.com/76979871"))
    ensures Resolve(parse, "https://vimeo.com/76979871") == VimeoVideo("76979871")
  {
    AdmitsHttps(parse, "https://vimeo.com/76979871");
    OnVimeoCom(parse, "https://vimeo.com/76979871", "76979871");
  }

  /** A Vimeo URL that also ends in `.mp4` goes to the Vimeo player. */
  lemma VimeoBeforeDirectFile(parse: Parser)
    requires ParsesTo(parse, "https://vimeo.com/clip.mp4",
      UrlRec("https:", "vimeo.com", "/clip.mp4", [], "https://vimeo.com/clip.mp4"))
    ensures IsLikelyDirectVideo("https://vimeo.com/clip.mp4")
    ensures Resolve(parse, "https://vimeo.com/clip.mp4") == VimeoVideo("clip.mp4")
  {
    AdmitsHttps(parse, "https://vimeo.com/clip.mp4");
    OnVimeoCom(parse, "https://vimeo.com/clip.mp4", "clip.mp4");
    VimeoClipIsDirectVideo();
  }

  /** An instance of `DirectVideoSuffix`, kept apart so the literal is unfolded here only. */
  lemma VimeoClipIsDirectVideo()
    ensures IsLikelyDirectVideo("https://vimeo.com/clip.mp4")
  {
    assert OpensMp4(".mp4");
    assert "https://vimeo.com/clip" + ".mp4" == "https://vimeo.com/clip.mp4";
    DirectVideoSuffix("https://vimeo.com/clip", ".mp4");
  }

  lemma DirectFileExample(parse: Parser)
    requires ParsesTo(parse, "https://example.com/movie.mp4?token=x",
      UrlRec("https:", "example.com", "/movie.mp4", [("token", "x")], "https://example.com/movie.mp4?token=x"))
    ensures Resolve(parse, "https://example.com/movie.mp4?token=x") ==
      DirectVideoFile("https://example.com/movie.mp4?token=x")
  {
    AdmitsHttps(parse, "https://example.com/movie.mp4?token=x");
    OnExampleCom(parse, "https://example.com/movie.mp4?token=x");
    MovieWithTokenIsDirectVideo();
  }

  lemma MovieWithTokenIsDirectVideo()
    ensures IsLikelyDirectVideo("https://example.com/movie.mp4?token=x")
  {
    TokenTailMatches();
    assert "https://example.com/movie" + ".mp4?token=x" == "https://example.com/movie.mp4?token=x";
    MatchAt("https://example.com/movie", ".mp4?token=x");
  }

  lemma TokenTailMatches()
    ensures MatchesHere(".mp4?token=x")
  {
    var t := ".mp4?token=x";
    assert OpensMp4(t);
    assert t[4..] == "?token=x";
    assert IsQueryTail("?token=x");
  }

  lemma GenericExample(parse: Parser)
    requires ParsesTo(parse, "https://example.com/some/page",
      UrlRec("https:", "example.com", "/some/page", [], "https://example.com/some/page"))
    ensures Resolve(parse, "https://example.com/some/page") == GenericEmbed("https://example.com/some/page")
  {
    AdmitsHttps(parse, "https://example.com/some/page");
    OnExampleCom(parse, "https://example.com/some/page");
    SomePageIsNotDirectVideo();
  }

  lemma SomePageIsNotDirectVideo()
    ensures !IsLikelyDirectVideo("https://example.com/some/page")
  {
    SomePageFromDot();
    SkipDotFree("https://example", ".com/some/page");
    assert "https://example" + ".com/some/page" == "https://example.com/some/page";
  }

  lemma SomePageFromDot()
    ensures !IsLikelyDirectVideo(".com/some/page")
  {
    DotBeforeOtherLetter("com/some/page");
    UnmatchedThenDotFree('.', "com/some/page");
    assert ['.'] + "com/some/page" == ".com/some/page";
  }

  /** The extension test reads the whole URL, so an extension inside the query counts too. */
  lemma ExtensionInQueryExample(parse: Parser)
    requires ParsesTo(parse, "https://example.com/page?file=a.MP4",
      UrlRec("https:", "example.com", "/page", [("file", "a.MP4")], "https://example.com/page?file=a.MP4"))
    ensures Resolve(parse, "https://example.com/page?file=a.MP4") ==
      DirectVideoFile("https://example.com/page?file=a.MP4")
  {
    AdmitsHttps(parse, "https://example.com/page?file=a.MP4");
    OnExampleCom(parse, "https://example.com/page?file=a.MP4");
    QueryExtensionIsDirectVideo();
  }

  /** Another instance of `DirectVideoSuffix`: the extension is matched in any case. */
  lemma QueryExtensionIsDirectVideo()
    ensures IsLikelyDirectVideo("https://example.com/page?file=a.MP4")
  {
    assert OpensMp4(".MP4");
    assert "https://example.com/page?file=a" + ".MP4" == "https://example.com/page?file=a.MP4";
    DirectVideoSuffix("https://example.com/page?file=a", ".MP4");
  }

  /** A fragment after the extension defeats the `$` anchor: the page is framed instead. */
  lemma FragmentAfterExtensionExample(parse: Parser)
    requires ParsesTo(parse, "https://example.com/movie.mp4#t=5",
      UrlRec("https:", "example.com", "/movie.mp4", [], "https://example.com/movie.mp4#t=5"))
    ensures Resolve(parse, "https://example.com/movie.mp4#t=5") ==
      GenericEmbed("https://example.com/movie.mp4#t=5")
  {
    AdmitsHttps(parse, "https://example.com/movie.mp4#t=5");
    OnExampleCom(parse, "https://example.com/movie.mp4#t=5");
    FragmentIsNotDirectVideo();
  }

  lemma FragmentIsNotDirectVideo()
    ensures !IsLikelyDirectVideo("https://example.com/movie.mp4#t=5")
  {
    FragmentFromHost();
    SkipDotFree("https://example", ".com/movie.mp4#t=5");
    assert "https://example" + ".com/movie.mp4#t=5" == "https://example.com/movie.mp4#t=5";
  }

  lemma FragmentFromHost()
    ensures !IsLikelyDirectVideo(".com/movie.mp4#t=5")
  {
    FragmentFromPath();
    DotBeforeOtherLetter("com/movie.mp4#t=5");
    SkipUnmatched('.', "com/movie.mp4#t=5");
    assert ['.'] + "com/movie.mp4#t=5" == ".com/movie.mp4#t=5";
  }

  lemma FragmentFromPath()
    ensures !IsLikelyDirectVideo("com/movie.mp4#t=5")
  {
    FragmentTail();
    SkipDotFree("com/movie", ".mp4#t=5");
    assert "com/movie" + ".mp4#t=5" == "com/movie.mp4#t=5";
  }

  /** `.mp4` is a video extension, but `#` does not open a query tail. */
  lemma FragmentTail()
    ensures !IsLikelyDirectVideo(".mp4#t=5")
  {
    var t := ".mp4#t=5";
    assert !MatchesHere(t) by {
      assert ExtensionLength(t) == 4;
      assert t[4..][0] == '#';
    }
    assert ['.'] + "mp4#t=5" == t;
    UnmatchedThenDotFree('.', "mp4#t=5");
  }

  /** `https://youtu.be/` gives the empty ID, which is falsy: the URL falls through. */
  lemma EmptyYouTuBeIdFallsThrough(parse: Parser)
    requires ParsesTo(parse, "https://youtu.be/",
      UrlRec("https:", "youtu.be", "/", [], "https://youtu.be/"))
    ensures YouTubeId(parse, "https://youtu.be/") == Some("")
    ensures Resolve(parse, "https://youtu.be/") == GenericEmbed("https://youtu.be/")
  {
    AdmitsHttps(parse, "https://youtu.be/");
    OnYouTuBe(parse, "https://youtu.be/");
    BareYouTuBeIsNotDirectVideo();
  }

  lemma BareYouTuBeIsNotDirectVideo()
    ensures !IsLikelyDirectVideo("https://youtu.be/")
  {
    DotBeforeOtherLetter("be/");
    UnmatchedThenDotFree('.', "be/");
    assert ['.'] + "be/" == ".be/";
    SkipDotFree("https://youtu", ".be/");
    assert "https://youtu" + ".be/" == "https://youtu.be/";
  }
}
