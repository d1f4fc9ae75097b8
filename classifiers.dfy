/**
 * The gate and the three classifiers of script.js: `safeUrl`,
 * `getYouTubeId`, `getVimeoId` and `isLikelyDirectVideo`. Each of the first
 * three parses its argument with `new URL(...)` and turns a parse failure into
 * `null`; here that is `parse(s) == None` giving `None`.
 */
module Classifiers {
  import opened Wrappers
  import opened JsStrings
  import opened Url

  /** JavaScript truthiness of a string-or-null value: `null` and `""` are falsy. */
  predicate Truthy(v: Option<string>) {
    v.Some? && v.value != ""
  }

  // ---------------------------------------------------------------------------
  // safeUrl

  predicate IsHttpProtocol(p: string) {
    p == "http:" || p == "https:"
  }

  /** `safeUrl(s)`: the serialized URL when `s` parses with protocol exactly `http:` or `https:`. */
  function SafeUrl(parse: Parser, s: string): (r: Option<string>)
    ensures r.Some? <==> parse(s).Some? && IsHttpProtocol(parse(s).value.protocol)
    ensures r.Some? ==> r.value == parse(s).value.serialized
  {
    match parse(s)
    case None => None
    case Some(u) => if u.protocol in ["http:", "https:"] then Some(u.serialized) else None
  }

  /** The gate compares protocols exactly: look-alikes of `http:` are refused. */
  lemma SafeUrlRefusesLookalikes(parse: Parser, s: string)
    requires parse(s).Some?
    requires parse(s).value.protocol in ["javascript:", "data:", "ftp:", "HTTP:", "https", "http:/"]
    ensures SafeUrl(parse, s) == None
  {
  }

  // ---------------------------------------------------------------------------
  // getYouTubeId

  /** `s.slice(1)`: everything after the first character; `""` stays `""`. */
  function SliceFromOne(s: string): (r: string)
    ensures |s| > 0 ==> [s[0]] + r == s
    ensures |s| == 0 ==> r == ""
  {
    if |s| == 0 then "" else s[1..]
  }

  predicate IsYouTubeHost(hostname: string) {
    Includes(hostname, "youtube.com") || Includes(hostname, "youtube-nocookie.com")
  }

  /** The segment after the first `embed` segment, when there is one and it is non-empty. */
  function SegmentAfterEmbed(path: seq<string>): Option<string> {
    var idx := IndexOf(path, "embed");
    if idx >= 0 && idx + 1 < |path| && path[idx + 1] != "" then Some(path[idx + 1]) else None
  }

  /** `getYouTubeId(url)` */
  function YouTubeId(parse: Parser, url: string): Option<string> {
    match parse(url)
    case None => None
    case Some(u) =>
      if Includes(u.hostname, "youtu.be") then Some(SliceFromOne(u.pathname))
      else if IsYouTubeHost(u.hostname) then
        var v := SearchParamsGet(u.query, "v");
        if Truthy(v) then v
        else SegmentAfterEmbed(Split(u.pathname, '/'))
      else None
  }

  /** `id` follows the first `embed` segment of `path`. */
  ghost predicate FollowsFirstEmbed(path: seq<string>, id: string) {
    exists k :: 0 <= k < |path| - 1 && path[k] == "embed" && "embed" !in path[..k] && path[k + 1] == id
  }

  /** On a `youtu.be` host the ID is the path without its leading character, whatever else holds. */
  lemma YouTuBeComesFirst(parse: Parser, url: string)
    requires parse(url).Some? && Includes(parse(url).value.hostname, "youtu.be")
    ensures YouTubeId(parse, url) == Some(SliceFromOne(parse(url).value.pathname))
  {
  }

  /** On a youtube.com or youtube-nocookie.com host a non-empty first `v` value is the ID. */
  lemma YouTubeWatchParameter(parse: Parser, url: string)
    requires parse(url).Some?
    requires var u := parse(url).value;
      !Includes(u.hostname, "youtu.be") && IsYouTubeHost(u.hostname)
    requires Truthy(SearchParamsGet(parse(url).value.query, "v"))
    ensures var u := parse(url).value;
      exists k :: 0 <= k < |u.query| && u.query[k] == ("v", YouTubeId(parse, url).value)
                  && YouTubeId(parse, url).value != ""
                  && forall j :: 0 <= j < k ==> u.query[j].0 != "v"
  {
  }

  /**
   * Without a usable `v` value the ID is the non-empty segment after the first
   * `embed` segment; such an ID never holds a `/`.
   */
  lemma {:induction false} YouTubeEmbedPath(parse: Parser, url: string, id: string)
    requires parse(url).Some?
    requires var u := parse(url).value;
      !Includes(u.hostname, "youtu.be") && IsYouTubeHost(u.hostname)
      && !Truthy(SearchParamsGet(u.query, "v"))
    ensures YouTubeId(parse, url) == Some(id) <==>
      id != "" && FollowsFirstEmbed(Split(parse(url).value.pathname, '/'), id)
    ensures YouTubeId(parse, url) == Some(id) ==> '/' !in id
  {
    var path := Split(parse(url).value.pathname, '/');
    var idx := IndexOf(path, "embed");
    SplitJoin(parse(url).value.pathname, '/');
    if id != "" && FollowsFirstEmbed(path, id) {
      var k :| 0 <= k < |path| - 1 && path[k] == "embed" && "embed" !in path[..k] && path[k + 1] == id;
      assert idx == k;
    }
    if YouTubeId(parse, url) == Some(id) {
      assert 0 <= idx < |path| - 1 && path[idx + 1] == id;
    }
  }

  /** A host that is neither youtu.be, youtube.com nor youtube-nocookie.com never yields an ID. */
  lemma YouTubeOtherHost(parse: Parser, url: string)
    requires parse(url).Some?
    requires var h := parse(url).value.hostname;
      !Includes(h, "youtu.be") && !Includes(h, "youtube.com") && !Includes(h, "youtube-nocookie.com")
    ensures YouTubeId(parse, url) == None
  {
  }

  // ---------------------------------------------------------------------------
  // getVimeoId

  /** `getVimeoId(url)`: on a vimeo.com host, the last non-empty path segment. */
  function VimeoId(parse: Parser, url: string): Option<string> {
    match parse(url)
    case None => None
    case Some(u) =>
      if Includes(u.hostname, "vimeo.com") then
        var parts := NonEmpty(Split(u.pathname, '/'));
        if |parts| == 0 then None else Some(parts[|parts| - 1])
      else None
  }

  /**
   * On a vimeo.com host there is an ID exactly when some path segment is
   * non-empty, and the ID is the last such segment: non-empty, free of `/`,
   * and followed only by empty segments.
   */
  lemma {:induction false} VimeoIdIsLastSegment(parse: Parser, url: string)
    requires parse(url).Some? && Includes(parse(url).value.hostname, "vimeo.com")
    ensures var segs := Split(parse(url).value.pathname, '/');
      VimeoId(parse, url).Some? <==> exists k :: 0 <= k < |segs| && segs[k] != ""
    ensures var segs := Split(parse(url).value.pathname, '/');
      VimeoId(parse, url).Some? ==>
        var id := VimeoId(parse, url).value;
        id != "" && '/' !in id
        && exists j :: 0 <= j < |segs| && segs[j] == id && forall k :: j < k < |segs| ==> segs[k] == ""
  {
    var segs := Split(parse(url).value.pathname, '/');
    SplitJoin(parse(url).value.pathname, '/');
    NonEmptyKeepsAny(segs);
    if |NonEmpty(segs)| > 0 {
      NonEmptyLast(segs);
    }
  }

  /** A host without `vimeo.com` never yields a Vimeo ID. */
  lemma VimeoOtherHost(parse: Parser, url: string)
    requires parse(url).Some? && !Includes(parse(url).value.hostname, "vimeo.com")
    ensures VimeoId(parse, url) == None
  {
  }

  // ---------------------------------------------------------------------------
  // isLikelyDirectVideo: /\.(mp4|webm|ogg)(\?.*)?$/i.test(url)

  /** What `.` in a JavaScript regular expression does not match without the `s` flag. */
  predicate IsLineTerminator(c: char) {
    c == '\n' || c == '\r' || c == '\U{2028}' || c == '\U{2029}'
  }

  function LowerAscii(c: char): char {
    if 'A' <= c <= 'Z' then (c as int + 32) as char else c
  }

  /** `\.mp4` matches at the start of `t` (the `i` flag folds the letters' case). */
  predicate OpensMp4(t: string) {
    |t| >= 4 && t[0] == '.' && LowerAscii(t[1]) == 'm' && LowerAscii(t[2]) == 'p' && t[3] == '4'
  }

  /** `\.ogg` matches at the start of `t`. */
  predicate OpensOgg(t: string) {
    |t| >= 4 && t[0] == '.' && LowerAscii(t[1]) == 'o' && LowerAscii(t[2]) == 'g' && LowerAscii(t[3]) == 'g'
  }

  /** `\.webm` matches at the start of `t`. */
  predicate OpensWebm(t: string) {
    |t| >= 5 && t[0] == '.' && LowerAscii(t[1]) == 'w' && LowerAscii(t[2]) == 'e'
    && LowerAscii(t[3]) == 'b' && LowerAscii(t[4]) == 'm'
  }

  /** `(\?.*)?$` matches all of `t`. */
  predicate IsQueryTail(t: string) {
    t == "" || (t[0] == '?' && forall k :: 1 <= k < |t| ==> !IsLineTerminator(t[k]))
  }

  /** The length of the extension `\.(mp4|webm|ogg)` matches at the start of `t`, or 0. */
  function ExtensionLength(t: string): nat {
    if OpensMp4(t) || OpensOgg(t) then 4 else if OpensWebm(t) then 5 else 0
  }

  /** `\.(mp4|webm|ogg)` matches all of `ext`. */
  predicate IsVideoExtension(ext: string) {
    0 < |ext| == ExtensionLength(ext)
  }

  /** The whole pattern matches `t` from its first character to its end. */
  predicate MatchesHere(t: string) {
    var n := ExtensionLength(t);
    n > 0 && IsQueryTail(t[n..])
  }

  /**
   * `isLikelyDirectVideo(url)`: the search succeeds when the pattern matches
   * from some offset of `url` to its end (`test` with no `g` or `y` flag
   * starts looking at offset 0 and tries every later one).
   */
  predicate IsLikelyDirectVideo(url: string) {
    exists i | 0 <= i <= |url| :: MatchesHere(url[i..])
  }

  /** A video extension of length `n` starts at offset `p` of `s` and a query tail follows it. */
  predicate ExtensionAt(s: string, p: int, n: int) {
    0 <= p && 0 < n && p + n <= |s| && IsVideoExtension(s[p..p + n]) && IsQueryTail(s[p + n..])
  }

  /**
   * `isLikelyDirectVideo(s)` holds exactly when `s` is some prefix, then a
   * video extension in any letter case, then either nothing or `?` and a
   * line-break-free rest.
   */
  lemma DirectVideoIff(s: string)
    ensures IsLikelyDirectVideo(s) <==> exists p, n :: ExtensionAt(s, p, n)
  {
    if IsLikelyDirectVideo(s) {
      var i :| 0 <= i <= |s| && MatchesHere(s[i..]);
      var n := ExtensionLength(s[i..]);
      ExtensionOfPrefix(s[i..], n);
      assert s[i..][..n] == s[i..i + n];
      assert s[i..][n..] == s[i + n..];
      assert ExtensionAt(s, i, n);
    }
    if exists p, n :: ExtensionAt(s, p, n) {
      var p, n :| ExtensionAt(s, p, n);
      AtExtension(s, p, n);
    }
  }

  lemma AtExtension(s: string, p: int, n: int)
    requires ExtensionAt(s, p, n)
    ensures IsLikelyDirectVideo(s)
  {
    assert s[p..][..n] == s[p..p + n];
    assert s[p..][n..] == s[p + n..];
    VideoExtensionHere(s[p..], n);
  }

  /** The extension test reads only the first four or five characters. */
  lemma ExtensionOfPrefix(t: string, n: nat)
    requires 0 < n <= |t|
    ensures ExtensionLength(t[..n]) == n <==> ExtensionLength(t) == n
  {
    var h := t[..n];
    assert forall k :: 0 <= k < n ==> h[k] == t[k];
  }

  /** An extension followed by a query tail is a match at that point. */
  lemma VideoExtensionHere(t: string, n: nat)
    requires 0 < n <= |t| && IsVideoExtension(t[..n]) && IsQueryTail(t[n..])
    ensures MatchesHere(t)
  {
    ExtensionOfPrefix(t, n);
  }

  /** The middle and the end of `a + b + c`, cut at the lengths of its parts. */
  lemma ConcatSlices(a: string, b: string, c: string)
    ensures (a + b + c)[|a|..|a| + |b|] == b && (a + b + c)[|a| + |b|..] == c
  {
  }

  /** `?` followed by a line-break-free rest is a query tail. */
  lemma QueryTailOf(rest: string)
    requires forall k :: 0 <= k < |rest| ==> !IsLineTerminator(rest[k])
    ensures IsQueryTail("?" + rest)
  {
    var t := "?" + rest;
    forall k | 1 <= k < |t| ensures !IsLineTerminator(t[k]) {
      assert t[k] == rest[k - 1];
    }
  }

  /** A URL ending in a video extension, in any case, is a direct video. */
  lemma DirectVideoSuffix(prefix: string, ext: string)
    requires IsVideoExtension(ext)
    ensures IsLikelyDirectVideo(prefix + ext)
  {
    ConcatSlices(prefix, ext, "");
    assert prefix + ext + "" == prefix + ext;
    AtExtension(prefix + ext, |prefix|, |ext|);
  }

  /** So is one where a `?` and a line-break-free rest follow the extension. */
  lemma DirectVideoWithQuery(prefix: string, ext: string, rest: string)
    requires IsVideoExtension(ext)
    requires forall k :: 0 <= k < |rest| ==> !IsLineTerminator(rest[k])
    ensures IsLikelyDirectVideo(prefix + ext + "?" + rest)
  {
    var t := "?" + rest;
    QueryTailOf(rest);
    ConcatSlices(prefix, ext, t);
    assert prefix + ext + t == prefix + ext + "?" + rest;
    AtExtension(prefix + ext + t, |prefix|, |ext|);
  }

  /** A match begins with `.` and a letter that opens one of the three extensions. */
  lemma MatchOpensWithExtension(t: string)
    requires MatchesHere(t)
    ensures |t| >= 4 && t[0] == '.' && LowerAscii(t[1]) in "mwo"
  {
    var n := ExtensionLength(t);
    assert t[..n][0] == t[0] && t[..n][1..][0] == t[1];
  }

  /** No match can start where no `.` stands before `m`, `w` or `o` (in any case). */
  lemma NotDirectVideo(s: string)
    requires forall p :: 0 <= p < |s| - 1 && s[p] == '.' && LowerAscii(s[p + 1]) in "mwo" ==> !MatchesHere(s[p..])
    ensures !IsLikelyDirectVideo(s)
  {
    if IsLikelyDirectVideo(s) {
      var i :| 0 <= i <= |s| && MatchesHere(s[i..]);
      MatchOpensWithExtension(s[i..]);
    }
  }

  /** A prefix without `.` cannot hold the start of a match, so the search skips it. */
  lemma SkipDotFree(a: string, b: string)
    requires '.' !in a
    ensures IsLikelyDirectVideo(a + b) == IsLikelyDirectVideo(b)
  {
    var s := a + b;
    if IsLikelyDirectVideo(b) {
      var i :| 0 <= i <= |b| && MatchesHere(b[i..]);
      assert s[|a| + i..] == b[i..];
    }
    if IsLikelyDirectVideo(s) {
      var i :| 0 <= i <= |s| && MatchesHere(s[i..]);
      MatchOpensWithExtension(s[i..]);
      assert s[i..][0] == s[i];
      assert forall k :: 0 <= k < |a| ==> s[k] == a[k];
      assert i >= |a|;
      assert b[i - |a|..] == s[i..];
    }
  }

  /** A first character where no match starts is skipped by the search. */
  lemma SkipUnmatched(c: char, b: string)
    requires !MatchesHere([c] + b)
    ensures IsLikelyDirectVideo([c] + b) == IsLikelyDirectVideo(b)
  {
    var s := [c] + b;
    if IsLikelyDirectVideo(b) {
      var i :| 0 <= i <= |b| && MatchesHere(b[i..]);
      assert s[1 + i..] == b[i..];
    }
    if IsLikelyDirectVideo(s) {
      var i :| 0 <= i <= |s| && MatchesHere(s[i..]);
      assert s[0..] == s;
      assert i != 0;
      assert b[i - 1..] == s[i..];
    }
  }

  /** No match starts at a `.` that is not followed by `m`, `w` or `o`. */
  lemma DotBeforeOtherLetter(b: string)
    requires |b| > 0 && LowerAscii(b[0]) !in "mwo"
    ensures !MatchesHere("." + b)
  {
    assert ("." + b)[1] == b[0];
    if MatchesHere("." + b) {
      MatchOpensWithExtension("." + b);
    }
  }

  /** A first character where no match starts, then a rest without `.`: no match at all. */
  lemma UnmatchedThenDotFree(c: char, b: string)
    requires !MatchesHere([c] + b) && '.' !in b
    ensures !IsLikelyDirectVideo([c] + b)
  {
    SkipUnmatched(c, b);
    SkipDotFree(b, "");
    assert b + "" == b;
    EmptyIsNotDirectVideo();
  }

  /** A match at the end of a URL is found, whatever precedes it. */
  lemma MatchAt(prefix: string, t: string)
    requires MatchesHere(t)
    ensures IsLikelyDirectVideo(prefix + t)
  {
    assert (prefix + t)[|prefix|..] == t;
  }

  lemma EmptyIsNotDirectVideo()
    ensures !IsLikelyDirectVideo("")
  {
  }
}
