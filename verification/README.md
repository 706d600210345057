# Switcharr game server — core decision logic in Dafny

Switcharr is a small HTTP server. It scans `/games` for Nintendo Switch game
containers and lists them as JSON, with a download link and a size for
each. It then serves the files, and it answers small byte-range "probe"
requests with an empty 206. This project models the pure logic under the
HTTP glue. It has three parts:

- **The game-file catalogue** (`catalogue.dfy`, module `Catalogue`).
  `scanGames` keeps the entries whose names end in `.nsp`, `.nsz`, `.xci`
  or `.xcz`. For each one, `getGameMetadata` builds
  `{url: EXTERNAL_URL + "/download/" + basename, size}`. The `/` handler
  then derives `directories` from those URLs. A directory is a
  `seq<DirEntry>` of (name, size) pairs in listing order. The scan is the
  filter-map `Scan`, and the method `ScanGames` is the source's
  `forEach`/`push` loop, proved equal to it.
- **The one-time success message** (`listing.dfy`, module `Listing`).
  The process-wide `messageShown` flag becomes an explicit `ServerState`.
  `HandleListing` maps a state and a listing to a new state and a reply.
  `RunListings` folds it over a sequence of requests, which are handled one
  after another.
- **The range-probe classifier** (`range_header.dfy` and `download.dfy`,
  modules `RangeHeader` and `Download`).
  - `FindRange` is a scanner for the leftmost match of the unanchored
    pattern `bytes=(\d+)-(\d*)`. It is proved equal to a declarative
    description of what the pattern matches (`MatchesAt`, `LeftmostMatch`).
  - `Classify` maps three inputs to `NotFound`, `Probe206` or
    `FullDownload`: the file's existence, its size, and the optional
    `Range` header.

`strings.dfy` (module `Strings`) holds three more pieces:
- `endsWith`;
- the ASCII digit class `\d`;
- `parseInt(s, 10)` on digit strings, with its inverse `ShowDecimal`.

`option.dfy` holds the `Option` type.

Points where the model follows a detail of the code:
- The code puts the bare base name into the download URL without
  URL-escaping it (app.js:49), and the model does the same.
- The code tests `if (range)`, so an empty `Range` header counts as absent
  (app.js:103). `Classify` does the same. The outcome is a full download
  either way, because the empty string contains no match.
- If `readdirSync` throws, the exception leaves the `/` handler before the
  flag is set. The success message is therefore kept for the next
  successful listing. `HandleListing` takes `None` for such a listing and
  returns the state unchanged.

A request gets exactly one `Outcome` tag, and only `FullDownload` streams
the file. So "a probe never streams" follows from the datatype itself; it is
not a separate property of the handler.

Inputs that stand for I/O:
- The directory listing, with the sizes that `statSync` reports, is a
  parameter.
- Whether a download target exists, and its size, come from looking the
  name up in that same listing (`Lookup`).
- `EXTERNAL_URL` and `SUCCESS_MESSAGE` are fields of `Listing.Config`.

## Model

| member | source | states |
|---|---|---|
| Strings.EndsWithIffSplit | app.js:61 | `EndsWith(s, x)` holds exactly when `s` is some text followed by `x` |
| Strings.ParseShowRoundTrip | app.js:108-109 | parsing the decimal rendering of any natural number gives that number back |
| Strings.ParseDecimal | app.js:108-109 | `parseInt(…, 10)` on a string of n digits gives a natural number below 10^n |
| Strings.ParseZeroIffAllZeros | app.js:108-109 | a digit string parses to 0 if and only if every digit is `0` |
| Strings.ParseIgnoresLeadingZero | app.js:108-109 | a leading `0` does not change the value `parseInt(…, 10)` gives a digit string |
| Catalogue.IsGameFileBySuffix | app.js:61 | a name passes the four `endsWith` tests exactly when its last four characters are `.nsp`, `.nsz`, `.xci` or `.xcz` |
| Catalogue.GameMetadata | app.js:46-52 | the record's size is the stat size, and its url is `EXTERNAL_URL + "/download/"` followed by the last component of the file path: the whole text after its last `/` |
| Catalogue.BaseName | app.js:49 | the base name contains no separator, ends the path, and is either the whole path or is preceded by `/` |
| Catalogue.BaseNameOfJoin | app.js:49-62 | the base name of `directory/name` is `name` for any name without a separator |
| Catalogue.EntryForLinksToName | app.js:48-51 | for a well-formed name, the entry's `url` is `EXTERNAL_URL + "/download/" + name` and its `size` is the file's size |
| Catalogue.DownloadUrlInjective | app.js:49 | distinct file names get distinct download URLs |
| Catalogue.Scan | app.js:56-70 | the scan has no more entries than the listing, and every entry is built from a listed file with a game extension: nothing else is listed |
| Catalogue.ScanAppend | app.js:59-67 | scanning a concatenation of listings is the concatenation of the scans, so the result keeps listing order |
| Catalogue.ScanFollowsMatchingIndices | app.js:56-70 | the k-th entry of the result is built from the k-th matching listing entry, in ascending position, and there is one entry per matching file |
| Catalogue.ScanListsExactlyGameFiles | app.js:61-65 | in a well-formed listing, an entry's record appears in the scan if and only if its name has a game extension |
| Catalogue.ScanGames | app.js:54-71 | the `forEach`/`push` loop returns exactly the filter-map `Scan` |
| Catalogue.Directories | app.js:82 | `directories` has as many elements as `files`, and `directories[i] == files[i].url` |
| Catalogue.DirectoriesOfScan | app.js:77-83 | for a well-formed listing, `directories` is the download URL of every game file, in listing order |
| Listing.HandleListing | app.js:77-90 | a failed scan leaves the state alone. A successful one answers the scan and its URLs, sets the flag, and carries the configured message if and only if the flag was clear. A set flag stays set |
| Listing.RunListings | app.js:73-94 | successive `/` requests get one reply each. A reply is JSON if and only if its scan succeeded, and its `files` and `directories` are the fresh scan of that request's own listing, with nothing cached. A set flag stays set |
| Listing.SuccessOnlyOnFirstListing | app.js:30-90 | in any run of requests, reply i carries `success` if and only if the flag started clear, request i scanned, and no earlier request did |
| Listing.AtMostOneSuccess | app.js:85-90 | no two replies of a run both carry `success` |
| Listing.FlagNeverResets | app.js:30-88 | after a run the flag is set if and only if it was set before or some request scanned successfully |
| RangeHeader.DigitRunEnd | app.js:104 | the digit run starting at i consists of digits only and is followed by a non-digit or the end |
| RangeHeader.DigitRunEndUnique | app.js:104 | a digit run that cannot be extended is the one `DigitRunEnd` finds, which is why greedy `\d+` and `\d*` never backtrack |
| RangeHeader.MatchAt | app.js:104-105 | whatever `MatchAt` returns is a match of the pattern at that position |
| RangeHeader.MatchAtComplete | app.js:104-105 | every match of the pattern at a position is the one `MatchAt` returns there |
| RangeHeader.MatchesAtUnique | app.js:104 | the pattern matches at most one way at a position |
| RangeHeader.MatchAtNoneIff | app.js:104-105 | `MatchAt` finds nothing at a position if and only if the pattern matches nowhere there |
| RangeHeader.SearchFrom | app.js:105 | a match found from position p is reported with its position, which lies at or after p, and the pattern matches there |
| RangeHeader.SearchFromIsLeftmost | app.js:105 | the pattern matches nowhere between p and the position a search from p reports, and nowhere at or after p when the search finds nothing |
| RangeHeader.LeftmostMatchUnique | app.js:105 | two leftmost matches coincide in position and groups |
| RangeHeader.FindRange | app.js:104-108 | a found match has a non-empty digit start and a digit-only end, so both groups can be parsed |
| RangeHeader.FindRangeSpec | app.js:104-105 | `FindRange(s)` returns `m` if and only if `m` is the leftmost match of `bytes=(\d+)-(\d*)` in `s` |
| RangeHeader.FindRangeNoneSpec | app.js:105-107 | `FindRange(s)` is empty if and only if the pattern matches nowhere in `s` |
| Download.Lookup | app.js:98-109 | the lookup succeeds if and only if the directory holds the name, and then yields the size of an entry with that name |
| Download.Classify | app.js:100-134 | the outcome is `NotFound` if and only if the file is missing, and an existing file with no or empty `Range` header is sent whole |
| Download.HandleDownload | app.js:96-135 | a download answers 404 if and only if no entry has the requested name, whatever the `Range` header. Otherwise it is the decision for the size of an entry with that name |
| Download.NoMatchMeansFullDownload | app.js:102-125 | an existing file whose `Range` header matches the pattern nowhere is sent whole |
| Download.MatchDecidesByChunkSize | app.js:108-125 | on a leftmost match, the outcome is `Probe206` if and only if `end - start + 1 <= 1048576`, with `end` defaulting to `size - 1`. Otherwise it is `FullDownload` |
| Download.BackwardsRangeIsProbe | app.js:108-116 | a range whose end precedes its start is always answered as a probe, whether the end is explicit or defaults to `size - 1` |
| Download.OpenEndedRange | app.js:109-114 | `bytes=N-` is a probe if and only if `size - N <= 1048576` |
| Download.SmallRangeIsProbe | app.js:104-116 | `Range: bytes=0-99` on any existing file is a probe |
| Download.LargeRangeIsFullDownload | app.js:104-125 | `Range: bytes=0-2000000` on any existing file is sent whole |
| Download.LookupInDistinctListing | app.js:98-109 | in a listing as `readdirSync` returns it (no name twice), looking up an entry's name yields that entry's size |
| Download.ListedGamesAreDownloadable | app.js:49-100 | every file the catalogue lists is a game file whose link ends in its name, downloading that name never answers 404, and the handler sees the listed size |

## Left out

- Express routing, `res.json`, `res.status(…).end()`, `res.download` and the 500 transfer-error callback (app.js:93, 116, 125-130): framework I/O. The model stops at the outcome tag.
- The winston logger and every `logger.*` call (app.js:10-19 and throughout): side effects only.
- `downloadTitleDb` and axios (app.js:32-44): a network fetch and a file write at startup.
- `app.listen` and environment parsing, including the defaults for `PORT`, `HOST`, `EXTERNAL_URL` and `SUCCESS_MESSAGE` (app.js:22-26, 137-142): configuration arrives as a `Config` value.
- Real `readdirSync`, `statSync` and `existsSync`: the directory is a modelled listing. A `statSync` failure during the scan is not modelled; only a `readdirSync` failure is.
- Catalogue.BaseName: does not model `path.basename` stripping trailing separators, because a joined entry name never ends in `/`.
- Catalogue.Join: does not model `path.join` normalisation (`.`, `..`, repeated separators). Directory traversal through the download parameter is not modelled either, because names are looked up directly in the listing.
- Download.ListedGamesAreDownloadable: does not model how the router decodes the `:filename` parameter. The step from a listed link to the requested file name is taken as the identity. That step fails for names containing `#`, `?` or `%`: Express cuts the URL at `?` and `#` and percent-decodes the rest.
- Download.HandleDownload: answers `NotFound` for any name that is not a listed entry, including `.`, `..` and names that decode to contain `/` (such as `%2F`). In the code, `path.join('/games', filename)` can resolve these to an existing directory or to a file outside `/games`. `existsSync` then succeeds, so the request gets a 206 for a small range, or a full download attempt that can end in a 500.
- Strings.ParseDecimal: parses into an unbounded natural, so it does not model JavaScript number semantics. Above 2^53, rounding can flip the threshold decision. A digit run longer than about 308 digits parses to `Infinity`; with both groups that long, `end - start + 1` is `NaN`, the `<=` test fails and the code sends the whole file. The model answers `Probe206` whenever the exact end is below start + 1048576, for example when both groups are equal.
- The unsynchronised read-then-write of `messageShown` under concurrent requests: requests are modelled one after another.
