# video-viewer: the paste-and-play resolver, in Dafny

video-viewer is a one-page player. The user pastes a link and `script.js`
decides what to show:

- a YouTube iframe,
- a Vimeo iframe,
- a `<video>` element for a direct video file,
- or a sandboxed iframe that tries to embed the page itself.

Before any of that, a gate admits only `http:` and `https:` URLs. A rejected
link leaves the player empty and shows an error line.

This project models that core:

- the gate `safeUrl`;
- the three classifiers `getYouTubeId`, `getVimeoId` and `isLikelyDirectVideo`;
- the dispatcher `loadFromUrl`, with `clearPlayer` and `showMessage`.

It proves what each of them promises.

Layout, one module per file:

| file | module | contents |
|---|---|---|
| `wrappers.dfy` | `Wrappers` | `Option` |
| `js_strings.dfy` | `JsStrings` | the JavaScript string and array operations the script calls: `includes`, `split`, `indexOf` and `filter(Boolean)` |
| `url.dfy` | `Url` | the fields of a WHATWG URL record that the script reads, and `searchParams.get` |
| `uri_component.dfy` | `UriComponent` | `encodeURIComponent` (ECMA-262, section 19.2.6.4) over UTF-8, and a `decodeURIComponent` (section 19.2.6.2) as its inverse |
| `classifiers.dfy` | `Classifiers` | `safeUrl`, `getYouTubeId`, `getVimeoId` and `isLikelyDirectVideo` as functions |
| `resolver.dfy` | `Resolver` | the five outcomes of `loadFromUrl` and the order in which they are tried, plus worked examples |
| `player.dfy` | `Player` | the page: class `Page` with the `player` children and the `message` line, and the methods `LoadFromUrl`, `ClearPlayer`, `ShowMessage` and `AppendChild` |

How the model is built:

- **The URL parser is a parameter.** `new URL(s)` is the WHATWG URL parser (URL Standard, section 4.4). Every operation takes it as a parameter `parse: string -> Option<UrlRec>`, where `None` stands for the parser throwing. All properties hold for every such parser.
- **`getYouTubeId` and `getVimeoId` re-parse the serialized URL.** In the script, both parse the URL string they are handed, so the model does the same. `isLikelyDirectVideo` parses nothing: it runs its regular expression on the string.
- **JavaScript truthiness.** The script tests a string-or-null with `if (x)`. That is `Classifiers.Truthy`: `null` and `""` are both false.
- **`loadFromUrl` is a method proved against a function.** `Page.LoadFromUrl` runs the script's statements in order. Its contract ties the new page state to the pure decision `Resolver.Resolve` and to `Player.Rendered`. The lemmas about those two functions then say what the page shows.

## Model

| member | source | states |
|---|---|---|
| Classifiers.SafeUrl | script.js:50-58 | the gate yields a URL exactly when the input parses and its protocol is exactly `http:` or `https:`; the URL it yields is the parser's serialization |
| Classifiers.SafeUrlRefusesLookalikes | script.js:53 | the protocol test is exact: a parsed record whose protocol field is `javascript:`, `data:`, `ftp:`, `HTTP:`, `https` or `http:/` gives null (a WHATWG parser lower-cases the scheme, so the input `HTTP://x` has protocol `http:` and is admitted) |
| Classifiers.Truthy | script.js:29-83 | the `if (x)` tests of a string-or-null (script.js:29, 32, 64, 71, 83): `null` and `""` are false; no contract of its own, used by `OnlyHttpAdmitted` and `FirstMatchWins` |
| Classifiers.SliceFromOne | script.js:26 | `slice(1)` drops the first character and leaves `""` as `""` |
| Classifiers.YouTubeId | script.js:21-36 | `getYouTubeId`; no contract of its own: `YouTuBeComesFirst`, `YouTubeWatchParameter`, `YouTubeEmbedPath` and `YouTubeOtherHost` state what it returns on each kind of host |
| Classifiers.YouTuBeComesFirst | script.js:25-27 | a hostname containing `youtu.be` gives the pathname without its first character, whatever the query or path holds |
| Classifiers.YouTubeWatchParameter | script.js:28-29 | on a youtube.com or youtube-nocookie.com host that is not youtu.be, a non-empty first `v` value is the ID returned |
| Classifiers.SegmentAfterEmbed | script.js:30-32 | the `split('/')`, `indexOf('embed')` and `path[idx+1]` step; no contract of its own: `YouTubeEmbedPath` states it |
| Classifiers.YouTubeEmbedPath | script.js:28-33 | with no usable `v`, the result is `id` exactly when `id` is non-empty and follows the first `embed` segment of the path; such an ID has no `/` |
| Classifiers.YouTubeOtherHost | script.js:25-35 | a hostname containing none of `youtu.be`, `youtube.com` or `youtube-nocookie.com` gives null |
| Classifiers.VimeoId | script.js:38-48 | `getVimeoId`; no contract of its own: `VimeoIdIsLastSegment` and `VimeoOtherHost` state what it returns |
| Classifiers.VimeoIdIsLastSegment | script.js:42-45 | on a vimeo.com host there is an ID exactly when some path segment is non-empty; the ID is that last non-empty segment, and it contains no `/` |
| Classifiers.VimeoOtherHost | script.js:42-47 | a hostname without `vimeo.com` gives null |
| Classifiers.IsLikelyDirectVideo | script.js:17-19 | `isLikelyDirectVideo`, the regular-expression search as "a match starts at some position"; no contract of its own: `DirectVideoIff` and the lemmas below characterise it |
| Classifiers.DirectVideoIff | script.js:17-19 | the regex matches exactly when the whole URL has a video extension (`.mp4`, `.webm` or `.ogg`, any letter case) followed by nothing, or by `?` and a rest with no line break |
| Classifiers.DirectVideoSuffix | script.js:18 | any URL ending in a video extension, in any case, is a direct video |
| Classifiers.DirectVideoWithQuery | script.js:18 | so is one where the extension is followed by `?` and a rest with no line break |
| Classifiers.MatchOpensWithExtension | script.js:18 | every match opens with `.` and one of `m`, `w` or `o` in either case |
| Classifiers.NotDirectVideo | script.js:18 | if no `.` before `m`, `w` or `o` starts a match, the URL is not a direct video |
| Classifiers.ExtensionOfPrefix | script.js:18 | the choice among `mp4`, `webm` and `ogg` is decided by the first characters alone: a prefix of length `n` is an extension of length `n` exactly when the whole text opens with one |
| Classifiers.SkipDotFree | script.js:18 | a stretch with no `.` in front of a URL changes nothing: every match starts at a `.` |
| Classifiers.SkipUnmatched | script.js:18 | a first character where no match starts can be dropped without changing the answer |
| Classifiers.MatchAt | script.js:18 | a match at any position makes the whole URL a direct video, whatever precedes it |
| Resolver.Resolve | script.js:60-113 | the branch `loadFromUrl` takes, as a value; no contract of its own: `OnlyHttpAdmitted` and `FirstMatchWins` state which outcome arises when |
| Resolver.OnlyHttpAdmitted | script.js:63-67 | `loadFromUrl` rejects exactly when `safeUrl` gives a falsy value; anything admitted parsed with an http(s) protocol and has a non-empty serialization; the direct and generic branches receive exactly that serialization |
| Resolver.FirstMatchWins | script.js:69-112 | exactly one branch runs, the first whose test is truthy, in the order YouTube, Vimeo, direct file, generic; an empty ID falls through; a chosen ID is non-empty |
| Resolver.ResolveGuarded | script.js:69-112 | the dispatch with the corrected ID test: a chosen YouTube or Vimeo ID is non-empty and its encoding is not a dot segment |
| Resolver.GuardOnlyStopsDotIds | script.js:69-92 | the corrected dispatch differs from the script's only where the script embeds the ID `.` or `..` |
| Resolver.AdmitsHttps | script.js:50-58 | an input that parses with protocol `https:` is admitted as its serialization |
| Resolver.OnExampleCom | script.js:21-47 | on the host `example.com` neither the YouTube nor the Vimeo test yields an ID |
| Resolver.OnVimeoCom | script.js:21-47 | on `vimeo.com` with the path `/id`, the YouTube test yields null and the Vimeo ID is `id` |
| Resolver.OnYouTuBe | script.js:21-47 | on `youtu.be` the ID is the path without its first character, and the Vimeo test yields null |
| Resolver.OnWwwYouTubeWatch | script.js:28-29 | on `www.youtube.com` a non-empty first `v` value is the ID |
| Resolver.OnWwwYouTubeEmbed | script.js:28-33 | on `www.youtube.com` with no query and the path `/embed/id`, the ID is `id` |
| Resolver.JavascriptSchemeRejected | script.js:50-58 | a `javascript:` URL with `http://` inside it is still rejected |
| Resolver.YouTuBeExample | script.js:25-27 | `https://youtu.be/abc123` plays YouTube video `abc123` |
| Resolver.YouTubeWatchExample | script.js:28-29 | `https://www.youtube.com/watch?v=abc123&t=10` plays YouTube video `abc123` |
| Resolver.YouTubeEmbedExample | script.js:30-32 | `https://www.youtube.com/embed/abc123` plays YouTube video `abc123` |
| Resolver.VimeoExample | script.js:42-45 | `https://vimeo.com/76979871` plays Vimeo video `76979871` |
| Resolver.VimeoBeforeDirectFile | script.js:81-94 | `https://vimeo.com/clip.mp4` would also pass the file test, but the Vimeo branch runs first and wins |
| Resolver.DirectFileExample | script.js:93-103 | `https://example.com/movie.mp4?token=x` becomes a `<video>` of that URL |
| Resolver.GenericExample | script.js:105-112 | `https://example.com/some/page` falls through to the generic iframe |
| Resolver.ExtensionInQueryExample | script.js:17-19 | the file test reads the whole URL, so `https://example.com/page?file=a.MP4` becomes a `<video>` |
| Resolver.FragmentAfterExtensionExample | script.js:17-19 | a fragment after the extension defeats the `$` anchor: `https://example.com/movie.mp4#t=5` becomes the generic iframe |
| Resolver.EmptyYouTuBeIdFallsThrough | script.js:25-27 | `https://youtu.be/` gives the empty ID, which is falsy, so the link falls through to the generic iframe |
| Player.CreateElement | script.js:72-106 | `document.createElement` (script.js:72, 84, 95, 106): an element of the given kind with no attribute set; no contract of its own |
| Player.Page.ShowMessage | script.js:8-11 | sets the message text and the error flag that picks its colour; the player is unchanged |
| Player.Page.ClearPlayer | script.js:13-15 | empties the player; the message is unchanged |
| Player.Page.AppendChild | script.js:76-111 | `player.appendChild(e)` adds `e` after the existing children and leaves the message unchanged |
| Player.Page.LoadFromUrl | script.js:60-113 | whatever the page showed before, afterwards it holds exactly the elements and the message of the branch `Resolve` picks; the error flag is set exactly on rejection; there is at most one child, and exactly one when `safeUrl` succeeded |
| Player.Rendered | script.js:69-112 | the element each branch appends; no contract of its own: `AtMostOneChild`, `SourcesAreSafe`, `DirectVideoElement`, `GenericFrameElement` and the two `*SrcKeepsIdInOneSegment` lemmas state its properties |
| Player.NoticeText | script.js:62-112 | the message each branch leaves; no contract of its own: `RejectionRendersNothing`, `DirectVideoElement` and `GenericFrameElement` state it |
| Player.GuardedEmbedsKeepId | script.js:69-92 | under `ResolveGuarded`, every embedded ID's encoding is not a dot segment, is the last of the src's `/`-separated segments, and decodes back to the ID |
| Player.DotDotWatchEmbedsDotSegment | script.js:70-76 | `https://www.youtube.com/watch?v=..` plays YouTube video `..` from the src `https://www.youtube.com/embed/..?rel=0` |
| Player.RejectionRendersNothing | script.js:64-67 | a rejected input renders no element and shows "That doesn't look like a safe http(s) URL." |
| Player.AtMostOneChild | script.js:61-112 | one element after an admitted URL, none otherwise |
| Player.SourcesAreSafe | script.js:69-112 | every loaded `src` either starts with one of the two fixed https player prefixes or is the validated http(s) URL itself |
| Player.DirectVideoElement | script.js:95-101 | the `<video>` src is exactly the validated URL, with `controls` on, `crossOrigin` set to `anonymous`, the stored load-failure text, and an empty message |
| Player.GenericFrameElement | script.js:106-112 | the generic iframe loads the validated URL under sandbox `allow-scripts allow-same-origin allow-forms allow-popups`, with no `allow` list, and shows "Loaded via iframe (may be blocked by some sites)." |
| Player.YouTubeEmbedSrc | script.js:75 | the template literal of the YouTube src; no contract of its own: `YouTubeSrcKeepsIdInOneSegment` states it |
| Player.VimeoEmbedSrc | script.js:87 | the template literal of the Vimeo src; no contract of its own: `VimeoSrcKeepsIdInOneSegment` states it |
| Player.YouTubeSrcKeepsIdInOneSegment | script.js:75 | the YouTube src is the embed path followed by `?rel=0`; the path contains no `?` or `#`; it splits at `/` into `https:`, an empty segment, `www.youtube.com`, `embed` and the encoded ID; decoding that last segment gives back the ID; the encoded ID is a dot segment in the URL Standard's sense exactly when the ID is `.` or `..` (see Findings) |
| Player.VimeoSrcKeepsIdInOneSegment | script.js:87 | the Vimeo src contains no `?` or `#`; it splits into `https:`, an empty segment, `player.vimeo.com`, `video` and the encoded ID, which decodes back to the ID; the encoded ID is a dot segment exactly when the ID is `.` or `..` (see Findings) |
| UriComponent.EncodeURIComponent | script.js:75 | every character of the encoding is unreserved, `%`, or an upper-case hexadecimal digit |
| UriComponent.DecodeURIComponent | script.js:75-87 | not called by the script: the strict decoder that `DecodeEncode` proves `EncodeURIComponent` against; no contract of its own |
| UriComponent.EncodedHasNoDelimiters | script.js:75-87 | an encoded ID contains no `/`, `?`, `#`, `&` or `=` |
| UriComponent.DotSegmentsEncodeUnchanged | script.js:75-87 | `.` is unreserved, so `encodeURIComponent` returns `.` and `..` unchanged |
| UriComponent.EncodedDotSegment | script.js:75-87 | the encoding is a dot segment (`.`, `..`, or one of them with a dot written `%2e` or `%2E`) exactly when the input is `.` or `..` |
| UriComponent.EncodedPlainDots | script.js:75-87 | the encoding is `.` or `..` exactly when the input is |
| UriComponent.NoEscapedDotOpening | script.js:75-87 | no encoding opens with `%2e` or `%2E`: the only `%` triples it writes are those of characters outside the unreserved set, and `.` is inside it |
| UriComponent.DecodeEncode | script.js:75-87 | `decodeURIComponent(encodeURIComponent(s)) == s`, so two IDs never encode alike |
| UriComponent.Utf8WellFormed | script.js:75 | the UTF-8 bytes of a character open with a lead byte announcing their own count, and decode back to that character |
| UriComponent.ReadPercentBytes | script.js:75 | reading back the `%XX` triples of a byte sequence returns exactly those bytes and the rest of the string |
| UriComponent.DecodeEscapedBytes | script.js:75 | the `%XX` triples of a well-formed UTF-8 sequence decode to the character it stands for, followed by the decoding of the rest |
| UriComponent.DecodeEncodeChar | script.js:75 | one encoded character, followed by anything, decodes to that character followed by the decoding of the rest |
| UriComponent.PercentBytes | script.js:75 | each byte becomes three characters, all of them `%` or upper-case hexadecimal digits |
| Url.IsDotSegment | script.js:75-87 | the single-dot and double-dot path segments of the URL Standard (section 4.4, path state), which the parser removes from a path; no contract of its own: `EncodedDotSegment` states it against the encoding |
| Url.SearchParamsGet | script.js:29 | `searchParams.get(name)` is null exactly when no pair has that name; otherwise it is the value of the first such pair |
| JsStrings.Includes | script.js:25-42 | `String.prototype.includes`; no contract of its own: `IncludesIff` states it |
| JsStrings.IncludesIff | script.js:25-42 | `includes` is true exactly when the substring occurs at some position |
| JsStrings.Join | script.js:30-43 | not called by the script: `join`, the inverse `SplitJoin` and `SplitOfJoin` state `split` against; no contract of its own |
| JsStrings.SplitJoin | script.js:30-43 | `split` pieces contain no separator, and joining them with it gives back the input |
| JsStrings.SplitOfJoin | script.js:30-43 | splitting a join of separator-free pieces gives back those pieces |
| JsStrings.SplitAtSeparator | script.js:30-43 | a separator-free prefix followed by the separator becomes the first piece |
| JsStrings.SplitWithoutSeparator | script.js:30-43 | a string without the separator splits into itself alone |
| JsStrings.Split | script.js:30-43 | `split` always yields at least one piece |
| JsStrings.IndexOf | script.js:31 | `indexOf` is -1 exactly when the element is absent; otherwise it is the position of the first occurrence |
| JsStrings.NonEmpty | script.js:43 | every kept string is non-empty, and a string is kept exactly when it occurs in the input and is non-empty |
| JsStrings.NonEmptySingle | script.js:43 | `filter(Boolean)` on one string keeps it exactly when it is non-empty |
| JsStrings.NonEmptyAppend | script.js:43 | filtering a concatenation is concatenating the filtered parts: with `NonEmptySingle` this fixes the result, in order and with repetitions |
| JsStrings.NonEmptyKeepsAny | script.js:43 | `filter(Boolean)` keeps something exactly when some piece is non-empty |
| JsStrings.NonEmptyLast | script.js:43-44 | the last kept piece is the last non-empty piece of the input |

## Findings

| source | as written | input that shows it | evidently intended | confidence | as-written member | corrected member |
|---|---|---|---|---|---|---|
| script.js:75 | the ID is placed in the embed path through `encodeURIComponent`, which leaves `.` unescaped, so the IDs `.` and `..` become the path segments `.` and `..`; script.js:87 has the same form for Vimeo | `https://www.youtube.com/watch?v=..` (or `v=%2E%2E`, which `searchParams` decodes to `..`) gives the src `https://www.youtube.com/embed/..?rel=0`, which the URL parser resolves to `https://www.youtube.com/?rel=0`. Only the `v` query value can be `.` or `..`: the youtu.be, `/embed/` and Vimeo routes read the pathname, from which the parser has already removed those segments, so the Vimeo form of the defect cannot be reached | an ID whose encoding is a dot segment in the URL Standard's sense (`.`, `..`, or either with `%2e` for a dot) is not embedded, so every embedded ID stays the last path segment | not executed; the dot-segment removal is the URL Standard's path parsing, which the model does not contain | Player.DotDotWatchEmbedsDotSegment | Resolver.ResolveGuarded |

`Page.LoadFromUrl` keeps the dispatch as written, because it models the script. `EncodedDotSegment` and the dot-segment clause of both `*SrcKeepsIdInOneSegment` lemmas show that `.` and `..` are the only IDs affected: no other ID encodes to a dot segment, escaped dots included, since `encodeURIComponent` never writes `%2E`. Escaping the dot would not help, because `%2E` and `%2E%2E` are dot segments too. The correction is therefore a guard: `ResolveGuarded` lets such an ID fall through as it does an empty one. `GuardOnlyStopsDotIds` proves that this changes the outcome for `.` and `..` only, and `GuardedEmbedsKeepId` that every ID it embeds is the last segment of its src and decodes back to itself.

## Left out

- The WHATWG URL parser and `URLSearchParams` are not modelled. They are supplied as the parameter `parse`, and every property is stated relative to the record it returns. A point that depends on that record is a requirement of the lemma that needs it, for example that the serialization parses back to the same record.
- Element lookup and event wiring are not modelled. This covers `getElementById`, the click, Enter and paste listeners, and the 50 ms `setTimeout` on paste (script.js:3-6, script.js:115-127). They are plumbing and timing. Callers pass the input already passed through `trim()`; `LoadFromUrl` takes the string it receives.
- The `onerror` handlers (script.js:99, script.js:110) fire asynchronously in the browser. Only the text each handler would show is kept, as `onErrorMessage` on the element record. When or whether the handler fires is not modelled.
- `showMessage` picks one of two colours (script.js:10). The model keeps only the `isError` flag that chooses between them.
- UriComponent.EncodeURIComponent works on Unicode scalar values, not UTF-16 code units. A lone surrogate, which makes the JavaScript function throw a URIError, cannot occur in a Dafny string.
- Classifiers.IsLikelyDirectVideo models the regular expression for this one pattern only. ASCII case folding is enough, because the letters in `mp4`, `webm` and `ogg` are ASCII and the `u` flag is absent.
- The model does not cover whether remote sites allow framing or cross-origin video. That is network behaviour outside the code.
- The direct-file test is applied to the whole serialized URL, including its query and fragment, because that is what the code does. A test on the path alone would give a different answer for `ExtensionInQueryExample` and `FragmentAfterExtensionExample`.
- Running `loadFromUrl` twice on the same input gives the same page. This needs no lemma: `Page.LoadFromUrl` fixes the final state as a function of `parse` and `raw`, independent of the state before the call.
