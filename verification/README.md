# es84 scene finder: core model

A Dafny model of the logic inside the es84 web client. The client shows a world map cut
into grid cells. Clicking a cell searches the Sentinel-2 catalog for scenes over it, the
results are shown page by page, and each result card produces a `gdal_merge.py` command
that merges the scene's red, green and blue bands. The model covers:

- **The GDAL command generator.** `getVsiPath` rewrites a band href into a GDAL virtual
  path. `generateCommand` fills the fixed command template with the normalized output name
  and the B04, B03, B02 paths. There are two conventions:
  - `GdalCommand` follows lib/generateCommand.ts, whose text components/SearchResultItem.tsx
    repeats verbatim; the card uses the same definitions. It maps http(s) hrefs onto
    `/vsis3/<bucket><key>`.
  - `CurlCommand` follows pages/index.tsx. It passes http(s) hrefs through `/vsicurl/`.
- **The result card** (`SearchResultItem.ResultItem`). It holds the typed file name. On
  submit it yields the command for `fileName || "output"`.
- **The viewport ↔ URL-hash codec** (`HashCodec`). `extractHash` writes
  `zoom/latitude/longitude`. `mergeHash` reads the three numbers back over a fallback
  viewport. Numbers are decimal numerals: the template literal prints them and `+s` reads
  them.
- **The session controller `Home`** (`Home.Session`). It runs the start-up effect, follows
  the viewport into the hash, picks and clears grid cells, changes pages and toggles saved
  scenes. The search effect becomes a generation counter. Each change of selection or page
  starts a new generation and clears the results. A request carries the generation that
  issued it. A `Complete(token, data)` event publishes only when its token is the current
  generation. This is the source's `isLatest` flag, which the effect's cleanup clears.
- **Small helpers.** These are the saved-list toggle and the page count
  `ceil(matched / limit)`.

JavaScript's string built-ins are modelled in `JsText` with JavaScript's semantics:
`indexOf` returns -1 when nothing is found, `replace` changes only the first occurrence,
and `slice` reads negative indices from the end. As a result, a host with no "." or "/"
still gets a path and raises no error.

The search itself, the WKT parser and the clipboard are calls outside the model. A fetch
appears only as the `Request` the search effect returns and the later `Complete` event.

## Model

| member | source | states |
|---|---|---|
| `JsText.IndexOf` | lib/generateCommand.ts:6-7 | the result is the first index where the pattern occurs, and -1 exactly when it occurs nowhere |
| `JsText.StartsWith` | lib/generateCommand.ts:2 | `startsWith` holds exactly when `indexOf` finds the prefix at index 0 |
| `JsText.IndexOfCharFound` | lib/generateCommand.ts:6-7 | a character that occurs is found: `indexOf` gives an index holding it, with none before |
| `JsText.IndexOfFirst` | lib/generateCommand.ts:6-7 | an occurrence with none before it is the index `indexOf` returns |
| `JsText.IndexOfChar` | lib/generateCommand.ts:6-7 | for a one-character pattern, `indexOf` is the position of that character's first appearance |
| `JsText.Replace` | lib/generateCommand.ts:3-5 | a string without the pattern is unchanged; the result contains only characters of the input or of the replacement |
| `JsText.ReplaceAt` | lib/generateCommand.ts:3-5 | only the first occurrence is replaced; text before and after it is kept |
| `JsText.RelativeIndex` | lib/generateCommand.ts:6-7 | a `slice` index in range is taken as is; a negative one counts back from the end |
| `JsText.Slice` | lib/generateCommand.ts:6 | a slice is no longer than the string and holds only its characters |
| `JsText.SliceFrom` | lib/generateCommand.ts:7 | a slice to the end is no longer than the string and holds only its characters |
| `JsText.SliceMinusOne` | lib/generateCommand.ts:6-7 | with the -1 of a failed `indexOf`, `slice(0, -1)` drops the last character and `slice(-1)` keeps only it |
| `JsText.ToLowerCase` | lib/generateCommand.ts:14 | same length; each character is lower-cased, ASCII capitals only |
| `JsText.LowerChar` | lib/generateCommand.ts:14 | a capital A-Z maps to the small letter 32 code points above it; every other character is unchanged |
| `JsText.ReplaceAllChar` | lib/generateCommand.ts:15 | same length; every occurrence of the character is replaced, not only the first |
| `JsText.Split` | pages/index.tsx:70-72 | always at least one piece, and no piece contains the separator |
| `JsText.JoinSplit` | pages/index.tsx:70-72 | joining the pieces with the separator gives back the split string |
| `JsText.SplitCount` | pages/index.tsx:70-72 | there is one more piece than there are separators |
| `JsText.SplitAround` | pages/index.tsx:70-72 | a separator between two strings splits them independently |
| `GdalCommand.StripProtocol` | lib/generateCommand.ts:5 | removes characters only; an href with neither "http://" nor "https://" is unchanged |
| `GdalCommand.HostBucket` | lib/generateCommand.ts:6 | when the host has a ".", the bucket holds no "." and is followed in the host by the first "." |
| `GdalCommand.HostKey` | lib/generateCommand.ts:7 | when the host has a "/", the key is the host's suffix that starts at its first "/" |
| `GdalCommand.VsiS3Path` | lib/generateCommand.ts:1-10 | a non-"s3" href always becomes a path that starts with "/vsis3/"; the path contains only characters of the href or of "/vsis3/" |
| `GdalCommand.VsiS3Scheme` | lib/generateCommand.ts:2-3 | `s3://<path>` becomes `/vsis3/<path>` |
| `GdalCommand.StripHttps` | lib/generateCommand.ts:5 | removing "http://" and then "https://" turns `https://<rest>` into `<rest>` |
| `GdalCommand.StripHttp` | lib/generateCommand.ts:5 | removing "http://" and then "https://" turns `http://<rest>` into `<rest>` |
| `GdalCommand.BucketHostParts` | lib/generateCommand.ts:6-7 | for `<bucket>.<domain><key>`, the text before the first "." is the bucket and the text from the first "/" is the key |
| `GdalCommand.VsiS3Https` | lib/generateCommand.ts:4-8 | `https://<bucket>.<domain><key>` becomes `/vsis3/<bucket><key>`, e.g. `https://b.s3.x.com/p/B04.tif` gives `/vsis3/b/p/B04.tif` |
| `GdalCommand.VsiS3Http` | lib/generateCommand.ts:4-8 | `http://<bucket>.<domain><key>` becomes `/vsis3/<bucket><key>` |
| `GdalCommand.HostWithoutDotOrSlash` | lib/generateCommand.ts:6-7 | with no ".", the bucket is the host minus its last character; with no "/", the key is the last character; with neither, the two join back into the whole host |
| `GdalCommand.NotContainedAcross` | lib/generateCommand.ts:5 | a pattern that does not start inside the first part and is absent from the second is absent from the whole |
| `GdalCommand.NormalizeName` | lib/generateCommand.ts:13-15 | same length; every space becomes "_", every ASCII capital is lower-cased, and every other character is kept |
| `GdalCommand.NormalizeNameIdempotent` | lib/generateCommand.ts:13-15 | a normalized name has no spaces and no capitals, and normalizing it again changes nothing |
| `GdalCommand.NormalizeNameQuoteFree` | lib/generateCommand.ts:13-15 | normalizing adds no quote character |
| `GdalCommand.NormalizeNameExamples` | components/SearchResultItem.tsx:36-38 | "My Output" becomes "my_output", "   " becomes "___", and "output" stays "output" |
| `GdalCommand.BandHrefs` | lib/generateCommand.ts:15-18 | yields the B04, B03 and B02 hrefs in that order when all three exist; otherwise fails on the first missing band in that order |
| `GdalCommand.QuotedArgs` | lib/generateCommand.ts:15-19 | for quote-free parts, splitting the quoted argument list on quotes gives back the head, the three paths and the single spaces between them |
| `GdalCommand.CommandLine` | lib/generateCommand.ts:13-19 | the command starts with the fixed prefix; built from quote-free parts, it reads back as its output stem and its three paths in order |
| `GdalCommand.GenerateCommand` | lib/generateCommand.ts:12-20 | the command exists exactly when B04, B03 and B02 all exist; otherwise the error names the first missing band; the command starts with the fixed prefix |
| `GdalCommand.GenerateCommandLayout` | lib/generateCommand.ts:13-19 | the command names `<normalized name>.tif`, followed by the virtual paths of B04, B03 and B02 in that order |
| `GdalCommand.GenerateCommandDependsOnBandsOnly` | lib/generateCommand.ts:12-20 | asset maps that agree on B04, B03 and B02 give the same command, whatever their other assets |
| `GdalCommand.GenerateCommandS3Example` | lib/generateCommand.ts:13-19 | "My Output" over `s3://<dir>B0x.tif` hrefs gives `my_output.tif`, then `/vsis3/<dir>B04.tif`, `.../B03.tif`, `.../B02.tif` |
| `SearchResultItem.OutputName` | components/SearchResultItem.tsx:53 | the name is never empty, and it is the typed name exactly when that name is not empty |
| `SearchResultItem.ResultItem.constructor` | components/SearchResultItem.tsx:48 | a card starts with an empty file name |
| `SearchResultItem.ResultItem.ChangeFileName` | components/SearchResultItem.tsx:96-98 | the input's value becomes the file name |
| `SearchResultItem.ResultItem.SubmitCommand` | components/SearchResultItem.tsx:50-60 | the payload is the command for `fileName` or "output"; it fails exactly when a band is missing; submitting changes no state |
| `SearchResultItem.EmptyNameWritesOutput` | components/SearchResultItem.tsx:53-54 | an empty file name writes `output.tif` |
| `SearchResultItem.BlankNameWritesUnderscores` | components/SearchResultItem.tsx:35-43 | a name of three spaces is kept and writes `___.tif` |
| `SearchResultItem.MixedCaseNameWritesSnakeCase` | components/SearchResultItem.tsx:36-38 | "My Output" writes `my_output.tif` |
| `CurlCommand.VsiCurlPath` | pages/index.tsx:88-91 | the result contains only characters of the href, of "/vsis3/" or of "/vsicurl/" |
| `CurlCommand.CurlAgreesOnS3` | pages/index.tsx:89-90 | on "s3" hrefs both conventions give the same path |
| `CurlCommand.VsiCurlHttps` | pages/index.tsx:91 | `https://<rest>` becomes `/vsicurl/<rest>` |
| `CurlCommand.NoHttpsAfterVsiCurl` | pages/index.tsx:91 | after the first replacement, "https://" cannot be found in the inserted "/vsicurl/" |
| `CurlCommand.VsiCurlHttp` | pages/index.tsx:91 | `http://<rest>` becomes `/vsicurl/<rest>` |
| `CurlCommand.GenerateCurlCommand` | pages/index.tsx:93-101 | the command exists exactly when the three bands exist, fails on the first missing one, and starts with the fixed prefix |
| `CurlCommand.GenerateCurlCommandLayout` | pages/index.tsx:93-101 | `<normalized name>.tif` followed by the `/vsicurl/` paths of B04, B03 and B02, in that order |
| `CurlCommand.CurlCommandAgreesOnS3` | pages/index.tsx:88-101 | when every href is an s3 href, the two generators give the same command |
| `HashCodec.DigitsText` | pages/index.tsx:85-86 | one digit character per digit, and each reads back as that digit |
| `HashCodec.TextDigits` | pages/index.tsx:73 | each digit character is read as the digit it writes |
| `HashCodec.UnsignedText` | pages/index.tsx:85-86 | the digits of a number start with a digit and hold only digits and "." |
| `HashCodec.Print` | pages/index.tsx:85-86 | a printed number (sign, then digits) is never empty and contains no "/" |
| `HashCodec.Parse` | pages/index.tsx:73 | `+""` is 0; otherwise the text, after one optional "+" or "-", is a number exactly when it is decimal text: digits, at most one ".", at least one digit |
| `HashCodec.ParseUnsigned` | pages/index.tsx:73 | the unsigned part reads as a number exactly when it is decimal text |
| `HashCodec.DecimalTextParts` | pages/index.tsx:73 | decimal text is exactly text whose parts before and after the first "." are all digits and not both empty |
| `HashCodec.ParseUnsignedText` | pages/index.tsx:73 | the digits of a printed number, after its sign, read back as that number |
| `HashCodec.ParsePrint` | pages/index.tsx:73 | reading a printed number gives the number back |
| `HashCodec.NormalizeCanonical` | pages/index.tsx:73 | normalizing the parts of an already canonical number changes nothing |
| `HashCodec.MergeHash` | pages/index.tsx:69-83 | width and height always come from the fallback |
| `HashCodec.HashFields` | pages/index.tsx:70-72 | the fields after the first character are one more than its "/", hold no "/", and joined with "/" give that text back |
| `HashCodec.ExtractHash` | pages/index.tsx:85-86 | a written hash splits on "/" into exactly the three printed numbers: zoom, latitude, longitude |
| `HashCodec.MergeExtractRoundTrip` | pages/index.tsx:69-86 | reading `"#" + extractHash(v)` over any fallback gives v's zoom, latitude and longitude and the fallback's width and height |
| `HashCodec.ViewportSurvivesHash` | pages/index.tsx:69-86 | a viewport read back from its own hash is unchanged |
| `HashCodec.MergeHashTooFewFields` | pages/index.tsx:70-74 | with fewer than two "/" after the first character, the fallback is returned unchanged |
| `HashCodec.MergeHashBadField` | pages/index.tsx:74-82 | if any of the first three fields is not a number, the fallback is returned unchanged; there is no partial merge |
| `HashCodec.MergeHashIgnoresExtraFields` | pages/index.tsx:70-73 | fields after the third do not change the result |
| `HashCodec.MergeHashEmptyFields` | pages/index.tsx:73 | `+""` is 0, so "#//" gives zoom 0 at latitude 0, longitude 0 |
| `HashCodec.DefaultHash` | pages/index.tsx:48-54 | the default viewport is written "2/0/0" |
| `Home.PickNext` | pages/index.tsx:165-176 | the selection becomes none exactly when a cell was clicked with the selected cell's id; otherwise it becomes the click, including a click on nothing |
| `Home.PickSameCellTwice` | pages/index.tsx:167-174 | selecting a cell and clicking a cell with the same id again gives no selection |
| `Home.PickOtherCell` | pages/index.tsx:171-175 | clicking a cell with another id replaces the selection |
| `Home.RequestFor` | pages/index.tsx:142-153 | a request is issued exactly when a cell is selected and a page is set; it carries the given generation, that cell and that page |
| `Home.PageCount` | pages/index.tsx:308-311 | with a positive limit, the count is the least number of pages of that size that hold all matches; with limit 0 there is none |
| `Home.PageCountExample` | pages/index.tsx:308-311 | 101 matches at 50 per page give 3 pages, 100 give 2, 0 give 0 |
| `Home.WithoutId` | pages/index.tsx:183 | the result keeps exactly the scenes whose id differs |
| `Home.WithoutIdShorter` | pages/index.tsx:182-183 | when the id is present, removal shortens the list and leaves no scene with that id |
| `Home.WithoutIdAppend` | pages/index.tsx:183 | removal distributes over concatenation, so the remaining scenes keep their relative order |
| `Home.WithoutAbsentId` | pages/index.tsx:182-183 | removing an id that is absent changes nothing |
| `Home.ToggleSaved` | pages/index.tsx:180-186 | a present id: the result is the filter `WithoutId`, so every other scene stays in order, the id is gone and the list shrinks; an absent item is appended at the end |
| `Home.ToggleTwiceRestores` | pages/index.tsx:180-186 | toggling an unsaved scene twice restores the list |
| `Home.WithoutIdKeepsUnique` | pages/index.tsx:183 | removal keeps the ids of a list unique |
| `Home.ToggleKeepsUnique` | pages/index.tsx:180-186 | a list with unique ids keeps unique ids under toggling |
| `Home.Session.constructor` | pages/index.tsx:107-118 | nothing is selected, there is no viewport, page or result, the saved list is empty, and the hash is the browser's |
| `Home.Session.InitEffect` | pages/index.tsx:128-136 | while there is no viewport, a hash seeds it through `mergeHash` over the default viewport; without a hash, the default hash is written and the viewport stays unset |
| `Home.Session.ChangeViewState` | pages/index.tsx:204-207 | the viewport follows the map and the hash follows the viewport; reading the hash back gives the viewport |
| `Home.Session.SearchEffect` | pages/index.tsx:138-163 | a new generation starts, the results are cleared, and a request for the current cell and page is issued only when a cell is selected |
| `Home.Session.Pick` | pages/index.tsx:165-176 | the page becomes 1, the selection follows `PickNext`, and the search effect runs |
| `Home.Session.ClearSelection` | pages/index.tsx:178 | the selection becomes none and the page is kept; the search effect runs only if something was selected |
| `Home.Session.SetPage` | pages/index.tsx:315-318 | the page is set; the search effect runs only if the page changed |
| `Home.Session.Complete` | pages/index.tsx:155 | a response is published only when it belongs to the current generation; otherwise it is dropped |
| `Home.Session.ToggleSave` | pages/index.tsx:180-186 | the saved list becomes `ToggleSaved` of the old list |
| `Home.StartWithoutHash` | pages/index.tsx:128-136 | with no hash, start-up writes "#2/0/0", and the effect's second run sets the viewport to the default viewport |
| `Home.LatestRequestWins` | pages/index.tsx:138-163 | after two overlapping searches for x and then y, only y's response is published, in either order of arrival (`xFirst`) |
| `Home.ClearWhileInFlight` | pages/index.tsx:160-178 | a search whose selection is cleared before its response arrives never publishes |

`Home.Session.Valid` is the invariant every session method keeps:
- a selection implies a page;
- the current generation has a request exactly when a cell is selected, and that request is
  for the current cell and page;
- results are published only while the current generation has a request.

`Home.Session.Complete` publishes a response only when its token is the current
generation, so any published results are the response to that generation's request.

## Left out

- Rendering is not modelled: JSX, DeckGL, MVT and GeoJSON layers, the static map, styling,
  components/Card.tsx, theme.ts and pages/_app.js. None of them holds logic.
- `highlightedFeatureId` is not modelled. It only feeds the map highlight.
- The HTTP request is not modelled: URL building, `encodeURIComponent`, `JSON.stringify`
  and the `wellknown` WKT parser are foreign calls. lib/wellknown is not part of this model.
  A fetch is the `Request` returned by the search effect, and its response is a later
  `Complete` event.
- A failed fetch is not modelled. In the source it publishes nothing and leaves the results
  unset, which is the same state as "loading".
- React scheduling, async/await and `useRafState` frame batching are not modelled. Events
  are applied one at a time. One click handler's state updates count as one change.
- The search effect's first run at mount is not modelled. The constructor stands for the
  state before any effect has run.
- Numbers are finite decimal numerals, not IEEE doubles. Print and `+s` are modelled for
  plain decimal notation. JS reads some `+s` forms as numbers that the model reads as
  NaN, so the model keeps the fallback viewport for them. These forms are: exponents,
  hexadecimal ("0x"), binary ("0b"), octal ("0o"), surrounding whitespace, "Infinity".
  JS reads "-0" as negative zero; the model reads it as 0.
- `toLowerCase` covers ASCII letters only. Other Unicode case mappings are not modelled.
- `JsText` indexes strings by Unicode scalar value, where JS indexes by UTF-16 code unit.
  For text outside the Basic Multilingual Plane, `indexOf` and `slice` positions differ.
  A `slice` can then split a surrogate pair in JS but not in the model. Example: for the
  host `a.b😀`, `HostKey` keeps the whole emoji, while the source keeps a lone low
  surrogate.
- Viewport width and height are kept as opaque strings. They are never encoded.
- The clipboard (`useCopyToClipboard`, `useClipboard`), the toast, date formatting,
  cloud cover and collection display, and `console.log` are not modelled. They are side
  channels.
- `onSubmitCommand` in pages/index.tsx is not modelled, since it only logs.
- Clicking the map where no cell is hit is not fully modelled. The model stores
  `Some(None)` as the source does, and issues no request for it. In the source, the next
  render reads `cell.properties.id` of that absent cell and throws, and so would the next
  click's id comparison. The model treats that comparison as "not the same cell" and does
  not model the crash.
- A missing band asset, or a band without `href`, is not modelled as an exception. In the
  source it throws a TypeError when dereferenced; the model returns it as an error value
  naming the first missing band, in the order B04, B03, B02.
- `GdalCommand.GenerateCommandLayout`, `CurlCommand.GenerateCurlCommandLayout` and the three
  file-name lemmas state the band order by reading the command back. Reading it back needs
  quote-free names and hrefs. For names or hrefs that contain a quote, only the template
  definition itself states the layout.
