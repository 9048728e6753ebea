# Soku-p image converter, modelled in Dafny

Soku-p converts images in the browser. A user drops or picks a file. They
choose PNG, JPEG or WebP, and the page converts the image with the Photon
codec, which is compiled to WebAssembly. HEIC photos first go through
`heic2any`. The result is offered as an object URL to download. A small
Hono server renders one page per valid conversion pair (`/convert/png-to-webp`)
and a sitemap listing them.

This project models that core.

- `wrappers.dfy`: `Option` and `Result`.
- `text.dfy`: the JavaScript string operations the core uses. These are
  `toLowerCase` (ASCII letters), `startsWith`, `endsWith`, `indexOf`,
  `split`, `join` and `lastIndexOf`. It also holds the round trip between
  `split` and `join`.
- `constants.dfy` (`src/lib/constants.ts`): the format tables and
  `isValidFormat`.
- `converter.dfy` (`src/lib/converter.ts`): `ensureWasmLoaded` and
  `convertImage`.
  - `ConverterRuntime` is a class. It holds the module's cached `wasmInit`
    promise, the codec's live images (`heap`) and a trace of every call
    made into the host.
  - Its methods are proved against the pure specification `Conversion`.
    `Conversion` is built from `Normalize` (the HEIC detour),
    `DecodeAndEncode` and `EncodeAndFree` (the `switch`, the `catch` and
    the `finally`).
  - Lemmas about `Conversion` state what the pipeline promises:
    - calls are made in pipeline order;
    - `init()` runs only when nothing is cached;
    - the decoded image is freed exactly once;
    - the error messages are the ones thrown;
    - a success carries `image/<format>`.
- `routes.dfy` (`src/index.tsx`):
  - `SitemapUrls`, the sitemap handler's nested loops, proved equal to the
    function `Sitemap`;
  - the `/convert/:slug` handler;
  - the catch-all page's title.
- `ui.dfy` (`src/components/Converter.tsx`): the component's `useState`
  hooks, as the fields of class `ConverterView`, and each event handler, as
  a method.

The host is a value of type `Host`. It says what `init()`, `heic2any`,
`new_from_byteslice` and the three encoders return. For `heic2any`,
`new_from_byteslice` and the encoders, a `None` result means the call
throws. The promise `init()` returns settles as `InitOk` or as
`InitRejected(message)`, the value it is rejected with.

Two behaviours of the code are worth knowing:

- `ensureWasmLoaded` caches the promise `init()` returns, whether it
  resolves or rejects (src/lib/converter.ts:9-15). A rejected init is
  therefore never retried: every later conversion fails with the same
  message and makes no host call. `InitCalledOnlyWhenUncached` states this.
- Once an image is decoded, every encoder failure is reported as "Failed to
  convert image.". The same holds for the `default:` branch of the `switch`,
  so no distinct error names the rejected format.

## Model

| member | source | states |
|---|---|---|
| Text.Lower | src/lib/constants.ts:16-17 | `toLowerCase` on ASCII letters, defined char by char; `LowerLowers` states what it does to each char, `LowerOfLowerCase` and `LowerIdempotent` give its fixed points |
| Text.StartsWith | src/components/Converter.tsx:35 | `startsWith`; used by the drop zone's check, characterised through `HeicFilesAccepted` and `UntypedHeifRejected` for all files |
| Text.EndsWith | src/lib/converter.ts:30 | `endsWith`; used by the HEIC test, characterised through `HeicDetection` and `UntypedHeifNotRouted` for all files |
| Text.Join | src/index.tsx:133 | `join`, the partner of `Split` in `JoinSplit` |
| Text.IndexOf | src/index.tsx:133 | finds the first occurrence of the separator at or after `from`, and reports `None` only when the separator occurs nowhere past `from` |
| Text.Split | src/index.tsx:133 | splitting always gives at least one piece |
| Text.SplitCutsAtFirst | src/index.tsx:133 | a string splits into itself alone exactly when the separator does not occur; otherwise the first cut is at the leftmost occurrence and the remaining pieces are the split of what follows it, which fixes every cut |
| Text.SplitPiecesHoldNoSeparator | src/index.tsx:133 | no piece of a split contains the separator |
| Text.JoinSplit | src/index.tsx:133 | joining the pieces of a split with the same separator rebuilds the string |
| Text.SplitWithoutSeparator | src/index.tsx:133-135 | a string without the separator's first character splits into itself alone |
| Text.SplitAfterFirst | src/index.tsx:133 | the first piece of `a + sep + b` is `a` when `a` cannot hold the separator |
| Text.SplitJoined | src/index.tsx:133-141 | `a-to-b` with dash-free `a` and `b` splits into exactly `[a, b]` |
| Text.LastIndexOf | src/components/Converter.tsx:80 | the result is -1 exactly when the character is absent; otherwise it is an occurrence of the character, and none comes after it |
| Text.LowerOfLowerCase | src/lib/constants.ts:16-17 | lower-casing leaves a string without upper-case letters unchanged |
| Text.LowerIdempotent | src/lib/constants.ts:16-17 | lower-casing twice is the same as once |
| Text.LowerLowers | src/lib/constants.ts:16-17 | lower-casing keeps the length, leaves no upper-case ASCII letter, moves each upper-case letter to its lower-case one and keeps every other char |
| Text.LowerAppend | src/lib/converter.ts:30 | lower-casing a name is lower-casing its stem and its extension separately |
| Constants.IsValidFormat | src/lib/constants.ts:13-35 | the validator's early-return chain; characterised by `IsValidFormatCharacterised` and `IsValidFormatCaseInsensitive` |
| Constants.IsValidFormatCharacterised | src/lib/constants.ts:13-35 | a pair is valid exactly when both are non-empty, the lower-cased source is an input, the lower-cased target is an output, and the two differ |
| Constants.LowerEmpty | src/lib/constants.ts:14-17 | lower-casing yields the empty string exactly for the empty string |
| Constants.IsValidFormatCaseInsensitive | src/lib/constants.ts:16-17 | the verdict is unchanged when either argument is lower-cased first |
| Constants.EmptyArgumentRejected | src/lib/constants.ts:14 | an empty source or target is rejected |
| Constants.IdentityRejected | src/lib/constants.ts:30-32 | a pair equal up to letter case is rejected |
| Constants.InputOnlyFormatsNeverTargets | src/lib/constants.ts:1-2 | "heic" and "avif", in any case, are never valid targets |
| Constants.JpgToJpegAccepted | src/lib/constants.ts:1-35 | for all arguments that lower-case to "jpg" and "jpeg", in either order, the pair is valid |
| Constants.MimeTypesCoverInputs | src/lib/constants.ts:1-11 | every input format has a media type, and "jpg" and "jpeg" share "image/jpeg" |
| Constants.OutputsAreInputs | src/lib/constants.ts:1-2 | every output format is also an input format |
| Constants.TablesHoldNoDash | src/lib/constants.ts:1-2 | no table entry contains '-', so "-to-" can separate a pair |
| Constants.ValidPairHasNoDash | src/lib/constants.ts:13-35 | both arguments of any accepted pair are free of '-' |
| Converter.Message | src/lib/converter.ts:44-85 | the text of each thrown error: "Failed to process HEIC image." (line 44), the engine's TypeError for reading `arrayBuffer` of `undefined` (line 49), "Failed to decode image data. The format might not be supported." (line 58), "Failed to convert image." (line 85), and a rejected init's own message; the error lemmas below state which one each failure gets |
| Converter.RunEncoder | src/lib/converter.ts:69-77 | the three `get_bytes*` calls, with the quality passed to the JPEG encoder only; `EncoderFollowsFormat` and `QualityIgnoredUnlessJpeg` say which runs |
| Converter.Loaded | src/lib/converter.ts:9-15 | the settled value of `await wasmInit`: the cached outcome, or that of a fresh `init()`; characterised by `InitCalledOnlyWhenUncached` |
| Converter.IsHeic | src/lib/converter.ts:29-33 | the HEIC test; characterised by `HeicDetection`, `UntypedHeifNotRouted`, `DecoderInput` and `AfterInitFacts` |
| Converter.EncodeCallFor | src/lib/converter.ts:66-82 | an encoder is called exactly for png, jpeg and webp; `EncoderFollowsFormat` says which one |
| Converter.MimeTypeFor | src/lib/converter.ts:66-82 | a media type exists exactly for png, jpeg and webp, and it is `image/<format>` |
| Converter.Normalize | src/lib/converter.ts:26-46 | step 2 as a value; its partners are `DecoderInput` and `HeicFailureSkipsDecode` |
| Converter.EncodeAndFree | src/lib/converter.ts:61-92 | steps 5 and 6 as a value; characterised by `EncodeAndFreeShape` |
| Converter.DecodeAndEncode | src/lib/converter.ts:48-97 | steps 3 to 7 as a value; characterised by `DecodeAndEncodeFacts` and `DecodeAndEncodeCalls` |
| Converter.AfterInit | src/lib/converter.ts:26-97 | steps 2 to 7 as a value; characterised by `AfterInitFacts` and `AfterInitOrdered` |
| Converter.Conversion | src/lib/converter.ts:18-97 | one `convertImage` call as a value; characterised by `ConversionInPipelineOrder`, `HandleFreedExactlyOnce`, `InitCalledOnlyWhenUncached` and the lemmas after them |
| Converter.HeicDetection | src/lib/converter.ts:29-33 | every file whose name is a stem followed by an extension that lower-cases to ".heic" (".HEIC", ".Heic", ...) takes the HEIC detour, whatever its media type |
| Converter.UntypedHeifNotRouted | src/lib/converter.ts:29-33 | every file with no media type whose lower-cased name ends in ".heif" does not take the HEIC detour |
| Converter.ConverterRuntime.constructor | src/lib/converter.ts:6 | no promise is cached, no image is live and no call has been made |
| Converter.ConverterRuntime.EnsureWasmLoaded | src/lib/converter.ts:8-16 | `init()` is called and its outcome cached only when nothing is cached; otherwise the cached outcome is returned and no call is made |
| Converter.ConverterRuntime.NewFromByteslice | src/lib/converter.ts:53-59 | a successful decode adds one fresh live image; a throw adds none; the call is recorded either way |
| Converter.ConverterRuntime.EncodeImage | src/lib/converter.ts:66-79 | calls the chosen encoder on the live image and records the call |
| Converter.ConverterRuntime.FreeImage | src/lib/converter.ts:86-91 | the image leaves the codec's memory, and the free is recorded |
| Converter.ConverterRuntime.NormalizeInput | src/lib/converter.ts:26-46 | the input blob and the recorded calls are those of `Normalize`: the file itself, or `heic2any`'s first blob, or "Failed to process HEIC image." |
| Converter.ConverterRuntime.EncodeAndFreeImage | src/lib/converter.ts:61-92 | result and calls are those of `EncodeAndFree`; the image is freed on every path, including the `default:` branch and a throwing encoder |
| Converter.ConverterRuntime.DecodeAndEncodeImage | src/lib/converter.ts:48-97 | result and calls are those of `DecodeAndEncode`, and afterwards no image is left live |
| Converter.ConverterRuntime.ConvertLoaded | src/lib/converter.ts:26-97 | once init has succeeded, result and calls are those of steps 2 to 7, and no image is left live |
| Converter.ConverterRuntime.ConvertImage | src/lib/converter.ts:18-97 | result and calls are those of `Conversion`; the outcome of `init()` stays cached; no image is left live; init stays the first and only init call in the whole trace |
| Converter.InitStaysFirst | src/lib/converter.ts:5-16 | across any number of conversions, `init()` is the first host call ever made and is never made again |
| Converter.ConversionInitFacts | src/lib/converter.ts:8-24 | a conversion starts with `init()` exactly when nothing is cached, and otherwise never calls it |
| Converter.ConversionInPipelineOrder | src/lib/converter.ts:18-97 | init, HEIC decode, decode, encode, free and blob creation happen in that order, each at most once |
| Converter.HandleFreedExactlyOnce | src/lib/converter.ts:53-92 | on every path `free()` runs once if an image was decoded and never otherwise, and only on that image |
| Converter.InitCalledOnlyWhenUncached | src/lib/converter.ts:8-16 | `init()` is called exactly when nothing is cached; a cached rejection fails again with its own message and makes no call |
| Converter.DecoderInput | src/lib/converter.ts:26-55 | HEIC files alone go through `heic2any`; other files reach the decoder byte for byte; HEIC files reach it as the first blob `heic2any` returns |
| Converter.HeicFailureSkipsDecode | src/lib/converter.ts:35-45 | a failing `heic2any` fails with "Failed to process HEIC image." before any decode |
| Converter.DecodeFailureFreesNothing | src/lib/converter.ts:53-59 | a decoder throw fails with the decode message and frees nothing |
| Converter.EncodeFailuresRewritten | src/lib/converter.ts:83-85 | once an image is decoded, every failure reads "Failed to convert image." |
| Converter.UnsupportedFormatFails | src/lib/converter.ts:80-81 | a format outside png, jpeg and webp never reaches an encoder and never succeeds |
| Converter.EncoderFollowsFormat | src/lib/converter.ts:66-79 | png calls `get_bytes`, jpeg calls `get_bytes_jpeg(quality)` and webp calls `get_bytes_webp`, each on the decoded image |
| Converter.QualityIgnoredUnlessJpeg | src/lib/converter.ts:66-79 | outside jpeg, the quality changes neither the result nor the calls |
| Converter.SuccessfulOutput | src/lib/converter.ts:65-96 | a success has a supported format and media type `image/<format>`; its calls end with the free of the decoded image and then the blob URL |
| Converter.SuccessfulMediaType | src/lib/converter.ts:65-82 | a success has a supported format and media type `image/<format>` |
| Converter.SuccessfulCalls | src/lib/converter.ts:86-96 | a success decoded the image, freed it once, and created its URL last |
| Converter.AfterInitFacts | src/lib/converter.ts:26-97 | after init, `heic2any` is called exactly for HEIC files, and the handle discipline holds |
| Converter.DecodeAndEncodeFacts | src/lib/converter.ts:53-97 | the decode stage decodes the given bytes once, in order, and frees exactly what it decoded |
| Converter.DecodeAndEncodeCalls | src/lib/converter.ts:61-96 | the decode stage only calls the encoder its format names, and on success its calls are decode, encode, free and blob creation |
| Converter.EncodeAndFreeShape | src/lib/converter.ts:61-92 | the encode stage makes the format's encoder call, if any, and then the free |
| Routes.Slug | src/index.tsx:27 | `<source>-to-<target>`; `SlugInjective` and `ConvertRouteOfSlug` show it determines and parses back to its pair |
| Routes.ConvertEntry | src/index.tsx:26-30 | the converter page entry at `/convert/<slug>`, priority 0.8, monthly; `ConvertLocInjective` shows its location determines the pair |
| Routes.RowPairs | src/index.tsx:24-31 | the inner loop's pairs as a value; characterised by `RowPairsMembers`, `RowPairsOrdered` and `RowPairsLength` |
| Routes.ValidPairs | src/index.tsx:23-33 | both loops' pairs as a value; characterised by `ValidPairsMembers` and `ValidPairsInputMajor` |
| Routes.Sitemap | src/index.tsx:13-33 | the URL list as a value; characterised by `SitemapRoundTrip`, `SitemapSize` and `SitemapLocsDistinct` |
| Routes.SitemapUrls | src/index.tsx:13-33 | the URLs the nested loops build are `Sitemap()` |
| Routes.SitemapRoundTrip | src/index.tsx:13-33 | the sitemap is home, then privacy, then one page per valid pair; each such slug is accepted by `/convert/:slug` and renders that same pair |
| Routes.SitemapSize | src/index.tsx:13-33 | the sitemap lists home, privacy and twenty converter pages |
| Routes.SitemapLocsDistinct | src/index.tsx:17-30 | no location appears twice in the sitemap |
| Routes.ValidPairsMembers | src/index.tsx:23-33 | the loops visit exactly the pairs of an input and an output that `isValidFormat` accepts |
| Routes.ValidPairsInputMajor | src/index.tsx:23-33 | the pages come input by input, each input's pages in output-table order |
| Routes.RowPairsMembers | src/index.tsx:24-31 | one input's row holds exactly its valid targets |
| Routes.RowPairsOrdered | src/index.tsx:24-31 | one input's row follows the order of the output table |
| Routes.RowPairsLength | src/index.tsx:24-31 | a row holds every output except the input itself |
| Routes.RowSize | src/index.tsx:24-31 | a row has three pages for an input that is also an output, and four otherwise |
| Routes.SharedRowsSize | src/index.tsx:23-33 | the four inputs that are also outputs give twelve pages |
| Routes.TablePairValid | src/index.tsx:25 | on table entries, the validator rules out exactly the identity pair |
| Routes.SlugInjective | src/index.tsx:27 | two valid pairs with the same slug are the same pair |
| Routes.ConvertLocInjective | src/index.tsx:27 | two valid pairs with the same page location are the same pair |
| Routes.PairLocsDistinct | src/index.tsx:23-33 | distinct format tables give converter pages with distinct locations |
| Routes.EntriesLocsDistinct | src/index.tsx:13-33 | a sitemap over distinct format tables holds no location twice |
| Routes.ConvertRoute | src/index.tsx:131-150 | the slug handler; characterised by `ConvertRouteAccepts`, `ConvertRouteOfSlug` and `ChainedSlugRedirects` |
| Routes.ConvertRouteAccepts | src/index.tsx:131-150 | the route redirects to "/" unless the slug is exactly `<source>-to-<target>` of a valid pair, and then renders that pair |
| Routes.ConvertRouteOfSlug | src/index.tsx:131-150 | every valid pair's slug renders that same pair |
| Routes.ChainedSlugRedirects | src/index.tsx:133-145 | any slug holding "-to-" at two different places redirects to "/" |
| Routes.SeparatorOnlyBetween | src/index.tsx:27 | in the slug of two dash-free formats, "-to-" occurs only between them |
| Routes.CatchAllSeo | src/index.tsx:153-168 | "/privacy" gets the privacy title and every other path the default title; description and JSON-LD are the defaults |
| ConverterUi.AcceptsDrop | src/components/Converter.tsx:35 | the drop zone's check; characterised for all files by `HeicFilesAccepted` and `UntypedHeifRejected` |
| ConverterUi.HeicFilesAccepted | src/components/Converter.tsx:35 | every file the converter would send to `heic2any` passes the drop zone's check |
| ConverterUi.UntypedHeifRejected | src/components/Converter.tsx:35 | every file with no media type whose lower-cased name ends in ".heif" is refused by the drop zone |
| ConverterUi.ErrorText | src/components/Converter.tsx:68 | the shown error is the failure's message, or the fallback text when that message is empty; it is never empty |
| ConverterUi.OriginalName | src/components/Converter.tsx:79 | the file's name, or "image" when there is no file or the name is empty |
| ConverterUi.DownloadName | src/components/Converter.tsx:79-81 | the saved file name; characterised by the `DownloadName…` lemmas below |
| ConverterUi.DownloadNameReplacesExtension | src/components/Converter.tsx:79-81 | `stem.ext` with a non-empty stem is saved as `stem.<format>` |
| ConverterUi.DownloadNameAppendsExtension | src/components/Converter.tsx:79-81 | a name with no dot after its first character keeps all of it and gains `.<format>` |
| ConverterUi.DownloadNameOfDottedName | src/components/Converter.tsx:80 | only the last extension is replaced: "a.b.png" becomes "a.b.jpeg" |
| ConverterUi.DownloadNameWithoutExtension | src/components/Converter.tsx:80 | "noext" is saved as "noext.png" |
| ConverterUi.DownloadNameOfDotFile | src/components/Converter.tsx:80 | a dot file keeps its whole name: ".hidden" becomes ".hidden.webp" |
| ConverterUi.DownloadNameFallback | src/components/Converter.tsx:79 | without a file, or with a nameless one, the result is saved as "image.<format>" |
| ConverterUi.ConverterView.constructor | src/components/Converter.tsx:10-15 | no file, format "png", no result, no error, not converting, not dragging |
| ConverterUi.ConverterView.OnDragOver | src/components/Converter.tsx:18-21 | the drop zone shows as dragged over |
| ConverterUi.ConverterView.OnDragLeave | src/components/Converter.tsx:23-26 | the drop zone no longer shows as dragged over |
| ConverterUi.ConverterView.OnDrop | src/components/Converter.tsx:28-43 | an empty drop changes nothing; a refused first file sets the invalid-image error and keeps the file; an accepted one replaces the file and clears the error and the result |
| ConverterUi.ConverterView.OnFileSelect | src/components/Converter.tsx:45-51 | the first picked file, unchecked, replaces the file and clears the error and the result; picking nothing changes nothing |
| ConverterUi.ConverterView.SelectFormat | src/components/Converter.tsx:152-155 | the format becomes the chosen output format |
| ConverterUi.ConverterView.HandleConvert | src/components/Converter.tsx:53-72 | without a file nothing happens; otherwise one `convertImage` at quality 90 runs, the runtime caches the init outcome, and a success shows its URL and clears the error; a failure shows `ErrorText` and keeps the old result; converting is off afterwards |
| ConverterUi.ConverterView.HandleDownload | src/components/Converter.tsx:74-85 | with no result nothing is saved; otherwise the result is saved under `DownloadName` |
| ConverterUi.ConverterView.Reset | src/components/Converter.tsx:87-91 | file, result and error are cleared; the format is kept |

## Left out

- The codec itself (Photon's decoding and encoding), `heic2any`'s decoding
  and the WebAssembly loading are not modelled. They are opaque functions
  of `Host`, and their bytes are not interpreted.
- A failing `import('heic2any')` is not told apart from a failing
  `heic2any` call. Both are caught by the same `catch` and give the same
  error.
- `Blob.arrayBuffer()` and `new Blob(...)` are modelled as reading and
  keeping the bytes unchanged. `URL.createObjectURL` is modelled as the
  blob it names; the URL string is not modelled.
- An empty array from `heic2any` makes `arrayBuffer` be read from
  `undefined`. That TypeError is modelled with the wording of V8-based
  browsers; other engines word it differently.
- `toLowerCase` is modelled on ASCII letters only. The format tables and
  the HEIC suffix are ASCII, so no other character can change a verdict
  about them.
- Promises, `await` and interleaving are not modelled. Each conversion and
  each handler runs to completion before the next starts. Two conversions
  racing for the first `init()` are therefore not modelled.
- The 100 ms `setTimeout` before converting, `console` logging and the
  `isConverting` flag set while the conversion runs are left out. The flag
  is modelled only as cleared afterwards.
- DOM effects are left out: creating, clicking and removing the download
  link, `preventDefault`, and rendering. `HandleDownload` returns the file
  name the link would carry.
- The sitemap's XML text, the absolute `BASE_URL` prefix and the response
  headers are left out; the model keeps the list of URL entries. The
  `robots.txt` and `ads.txt` routes serve constant text and are left out.
- `generateMetadata`, `renderHtml` and the JSX pages are not part of this
  model. `/convert/:slug` is modelled up to the pair it renders, and the
  catch-all page up to its SEO data.
- Hono's decoding of the `:slug` parameter is not modelled. The slug is
  taken as already decoded.
- Converter.ConverterRuntime.DecodeAndEncodeImage: states only that the
  next handle moves by at most one, not which. `Conversion` fixes the
  handle the image gets.
- Converter.ConverterRuntime.ConvertLoaded: the same loose statement about
  the next handle.
- Converter.ConverterRuntime.ConvertImage: the same loose statement about
  the next handle.
- Converter.ConverterRuntime.FreeImage: `image.free()` is modelled as
  never throwing. A throw inside the `finally` would surface its own error
  instead of the result or "Failed to convert image.", so
  `EncodeFailuresRewritten`, `SuccessfulOutput` and `SuccessfulCalls` hold
  only for a host whose `free()` does not throw.
- Converter.RunEncoder: `quality` is modelled as an integer. JavaScript
  allows any number there, including a fraction. The only caller passes the
  default, 90.
- The format select stays enabled after a conversion. A format changed
  after converting therefore names the download with an extension that
  differs from the blob's media type. The model allows this, as the source
  does, and proves nothing against it.
