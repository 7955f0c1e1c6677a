# confluence-to-markdown, modelled in Dafny

The exporter is a command-line program. It takes a list of Confluence page IDs and, for each
page in order:

- fetches the page (its title and its body in storage format, which is HTML);
- creates a directory named `<sanitised title>(<page ID>)` under the backup directory;
- converts the body to Markdown and writes it to `<sanitised title>.md` in that directory;
- scans the body for `<img src="…"` references and downloads each one into the same
  directory, under the last path segment of its URL.

A failure while fetching the page, creating its directory or saving its Markdown is reported
and skips the rest of that page only; the program then goes on with the next page ID. A
failed image request or image file creation skips only that image, and a failed copy of an
image skips nothing.

Strings in the model are Go's strings, which are byte strings: a `string` holds one
character per byte, so text is given by its UTF-8 encoding and every character is below
256. Lengths, offsets and slices therefore count bytes, as Go does.

The model has six modules, one per concern of `main.go`:

- `GoStrings` (`go_strings.dfy`): the parts of Go's `strings` package the program calls.
  - `strings.Index` is a first-occurrence search with both directions of its meaning proved.
  - `strings.Index` on a suffix is `SuffixIndex`.
  - `strings.ReplaceAll` is modelled for the one-character patterns the sanitiser uses.
- `Sanitizer` (`sanitizer.dfy`): `sanitizeFilename`.
  - `SanitizeFilename` is the program's loop of nine `ReplaceAll` calls.
  - It is proved to compute the character-by-character map `Sanitize`.
  - `Sanitize` is proved to keep lengths, leave no forbidden character, and be idempotent.
- `ImageRefs` and `ImageScanner` (`image_refs.dfy`, `image_scanner.dfy`): `findImageURLs`.
  - `ScanAsWritten` is the loop exactly as written, where the offset `strings.Index`
    returns relative to `content[startIdx:]` is stored as an absolute offset.
  - `URLsFrom` is the same scan with absolute offsets.
  - `FindImageURLs` and `FindImageURLsFixed` are the two loops, each proved to compute its
    specification.
  - The loop as written can run forever, so `ScanAsWritten` and `FindImageURLs` take a
    `fuel` bound and report whether the loop ended on its own.
- `ScanTermination` (`scan_termination.dfy`): when the loop as written ends. A pass depends
  only on where it starts, and a start lies between 0 and the body's length. So a fuel
  larger than the body's length decides the question: a scan still running after that
  many passes has revisited a start and never ends.
- `Naming` (`naming.dfy`): the names the program gives to what it writes.
  - the page directory (`main.go:190`);
  - the Markdown file (`main.go:72`);
  - the image file, `filepath.Base` of the URL (`main.go:125`).
- `Export` (`export.dfy`): the control flow of `saveMarkdown`, `downloadImages` and the page
  loop of `main`.
  - Every effect on the outside world is answered by an oracle, the `Effects` datatype of
    functions. These effects are the page fetch, directory creation, the HTML-to-Markdown
    converter, file creation and writing, and the image GET and copy.
  - A run is reported as the trace of `Event`s it attempted, each with its outcome.
  - `SaveMarkdown`, `DownloadImages` and `ExportPages` are proved to produce the traces
    of the specification functions `SaveRun`, `DownloadRun` and `RunUpTo`.
  - The lemmas state what those traces promise: the order of stages, a successful stage
    being followed by the next, failure skipping the rest of a page, each page ID and
    image URL attempted once and in order, and each image file following the request of
    its URL.

The export pipeline uses the scan as written, since that is what `downloadImages` calls. A
page whose scan does not end within the fuel given stops the whole run
(`completed == false`). When the fuel is larger than the page body's length, this means the
program's scan of that body never ends (`StuckPageLoopsForever`): the process grows until
it is stopped, and no later page is processed. With less fuel it only
means the scan needed more passes.

The scan as written differs from what it is evidently meant to do, which is one URL per
tag, on these bodies:

- **Tags written back to back.** The body `<img src="a"><img src="b">` makes the code return
  `a` and then `><img src=`. It does not return `b`. The second pass searches
  `content[11:]`, finds the marker at relative offset 2, and starts the URL at absolute
  offset 12.
- **A tag without its closing `>`.** The body `<img src="a"<img src="b">` sends the code
  round the loop forever, appending an empty string on every pass. Since every pass
  appends to the result, the process grows until the runtime or the system stops it; in
  either case no later page is processed, which is what `completed == false` records.
- **Multi-byte text.** The offsets count bytes, so the misplaced offset can land inside a
  multi-byte character. The UTF-8 bytes of `<img src="éééé"xxxxxx<img src="b"` send the
  code round the loop forever, with the same outcome. The second pass starts its URL at
  offset 17, inside the last `é`, and appends the single byte `A9` on every pass.

The model follows the code. These behaviours are listed under Findings.

## Model

| member | source | states |
|---|---|---|
| GoStrings.Index | main.go:103 | `strings.Index(s, pat)`: -1, or an offset at which `pat` fits inside `s` (its meaning is `IndexIsFirstOccurrence`) |
| GoStrings.SuffixIndex | main.go:103-108 | `strings.Index(s[from:], pat)`: -1, or an offset relative to `from` at which `pat` fits before the end of `s` |
| GoStrings.FirstMatchFromIsFirst | main.go:103 | what the search returns is an occurrence of the pattern, and there is no earlier occurrence at or after the start |
| GoStrings.IndexIsFirstOccurrence | main.go:103 | `strings.Index` returns k exactly when k is the first occurrence, and -1 exactly when there is none (both directions) |
| GoStrings.SuffixIndexIsIndex | main.go:103 | searching from an offset is `strings.Index` applied to the suffix `s[from:]`, giving an offset relative to that suffix |
| GoStrings.ReplaceAll | main.go:34 | every occurrence of the character is replaced, every other character is kept in place, and the length is unchanged |
| Sanitizer.ReplacementAllowed | main.go:32-34 | `_` is not one of the nine forbidden characters |
| Sanitizer.Sanitize | main.go:31-37 | sanitising keeps the length of the name |
| Sanitizer.SanitizeMeaning | main.go:31-37 | each forbidden character becomes `_` in place, every other character is kept, and no forbidden character is left |
| Sanitizer.SanitizeFilename | main.go:31-37 | the loop of nine `ReplaceAll` calls computes the character-by-character map |
| Sanitizer.SanitizeEmpty | main.go:31-37 | the empty title sanitises to the empty name |
| Sanitizer.SanitizeIdempotent | main.go:31-37 | sanitising twice is sanitising once |
| ImageRefs.ScanAsWritten | main.go:102-115 | the loop as written, from `startIdx` with the URLs collected so far, for at most `fuel` passes: the URLs it returns and whether it left by `break` |
| ImageRefs.URLsFrom | main.go:96-118 | the scan with absolute offsets: the text between each marker at or after `at` and the first `"` after it, in document order |
| ImageRefs.StepAsWritten | main.go:103-114 | a pass that finds a URL leaves `startIdx` within the body |
| ImageRefs.ScanStops | main.go:103-111 | a pass that finds no marker, or no `"` after it, breaks the loop with the URLs collected so far |
| ImageRefs.ScanFinds | main.go:112-114 | a pass that finds a URL appends it and continues from where it stopped |
| ImageRefs.ScanExtends | main.go:113 | the loop only appends, so the URLs collected so far are a prefix of its result |
| ImageRefs.StepQuoteFree | main.go:108-112 | the URL a pass takes holds no `"` |
| ImageRefs.ScanQuoteFree | main.go:96-118 | no URL the loop as written returns holds a `"` |
| ImageRefs.NoMarkerNoURLs | main.go:103-105 | a body with no `<img src="` marker gives no URL, and the loop ends |
| ImageRefs.UnclosedMarkerNoURLs | main.go:108-111 | when the first marker has no later `"`, the loop breaks with no URL |
| ImageRefs.OneMarkerOneURL | main.go:96-118 | with exactly one marker and a `"` after it, the result is exactly the text between them, and the loop ends |
| ImageRefs.TwoTagsFirstPass | main.go:103-114 | on `<img src="a"><img src="b">` the first pass takes `a` and stops at offset 11 |
| ImageRefs.TwoTagsSecondPass | main.go:103-114 | the second pass takes the relative offset 2 as absolute and returns `><img src=` |
| ImageRefs.TwoTagsAsWritten | main.go:96-118 | the code returns `["a", "><img src="]` for that body, not `["a", "b"]` |
| ImageRefs.LoopingReentersState | main.go:103-114 | on `<img src="a"<img src="b">` the pass starting at 11 appends "" and starts the next pass at 11 again |
| ImageRefs.ScanRepeatsForever | main.go:102-115 | a pass that returns to its own start is repeated forever: every later pass appends the same URL and the loop never ends |
| ImageRefs.LoopingNeverFinishes | main.go:102-115 | on that body the loop is still running after any number of passes |
| ImageRefs.MultiByteReentersState | main.go:103-114 | on the UTF-8 bytes of `<img src="éééé"xxxxxx<img src="b"` the second pass starts at byte 18, takes the byte `A9` at 17 and starts the next pass at 18 again |
| ImageRefs.MultiByteNeverFinishes | main.go:102-115 | on those bytes the loop is still running after any number of passes |
| ImageRefs.NextRef | main.go:103-114 | a reference found with absolute offsets moves the scan strictly forward and stays within the body |
| ImageRefs.URLsFromStep | main.go:103-114 | with absolute offsets, the next reference is the text between the next marker and the first `"` after it |
| ImageRefs.URLsFromNone | main.go:103-111 | with absolute offsets, no marker, or no `"` after it, leaves no reference |
| ImageRefs.URLsQuoteFree | main.go:108-112 | no reference of the absolute-offset scan holds a `"` |
| ImageRefs.TagsGiveTheirURLs | main.go:96-118 | a body of N well-formed tags gives exactly their N sources, in order, duplicates included |
| ImageRefs.TwoTagsFixed | main.go:96-118 | the absolute-offset scan returns `["a", "b"]` for `<img src="a"><img src="b">` |
| ImageRefs.AsWrittenAgreesOnOneMarker | main.go:96-118 | on a body with at most one marker, the loop as written and the absolute-offset scan agree |
| ImageScanner.ScanTakes | main.go:107-114 | a pass of the loop body as written appends `content[startIdx:startIdx+endIdx]` and continues from `startIdx+endIdx` |
| ImageScanner.ScanNoMarker | main.go:103-106 | a pass that finds no marker ends the loop with what was collected |
| ImageScanner.ScanNoQuote | main.go:108-111 | a pass that finds no `"` ends the loop with what was collected |
| ImageScanner.FindImageURLs | main.go:96-118 | the loop as written returns what `ScanAsWritten` specifies, and says whether it ended within the fuel |
| ImageScanner.FixedTakes | main.go:103-114 | a pass of the corrected loop appends the next reference and continues from its `"` |
| ImageScanner.FixedStops | main.go:103-111 | a failing search ends the corrected loop with what was collected |
| ImageScanner.FindImageURLsFixed | main.go:96-118 | the corrected loop always terminates and returns every reference in document order |
| Naming.DirName | main.go:190 | the page directory name: the sanitised title followed by the page ID in parentheses |
| Naming.MarkdownName | main.go:72 | the Markdown file name: the sanitised title followed by `.md` |
| Naming.Base | main.go:125 | Unix `filepath.Base`: `.` for the empty path, `/` for a path of slashes only, and otherwise the last segment once trailing slashes are dropped |
| Naming.DirNameParts | main.go:190 | a page directory is the sanitised title, then `(`, the page ID and `)` |
| Naming.MarkdownNameParts | main.go:72 | a Markdown file name is the sanitised title, then `.md` |
| Naming.DirNameSegment | main.go:190 | the title part of a directory name holds no forbidden character, and the name holds no `/` when the page ID holds none |
| Naming.MarkdownNameSegment | main.go:72 | the Markdown file name holds no forbidden character, so it stays inside the page directory |
| Naming.IDInDirName | main.go:190 | the page ID can be read back from its place in the directory name |
| Naming.SameTitleDistinctDirs | main.go:190 | pages with the same title and different IDs get different directory names |
| Naming.DirNameDeterminesID | main.go:190 | when no page ID holds `(`, equal directory names mean equal page IDs and equal sanitised titles |
| Naming.DirNamesCollide | main.go:190 | without that restriction, titles `x(1)` and `x` with IDs `2` and `1)(2` share the directory `x(1)(2)` |
| Naming.TrimmedPrefix | main.go:125 | trimming trailing slashes keeps a prefix that does not end in `/`, dropping only slashes |
| Naming.AfterLastSlashIsSuffix | main.go:125 | the last segment is a `/`-free suffix of the path, preceded by `/` unless it is the whole path |
| Naming.BaseIsSegment | main.go:125 | `filepath.Base` is never empty, and is one segment without `/` unless it is `/` itself |
| Naming.BaseOfJoin | main.go:125 | `Base(dir + "/" + name + "//…")` is `name`, whatever trailing slashes follow |
| Naming.BaseKeepsQuery | main.go:125 | on an example URL, the query string stays in the file name |
| Naming.BaseDegenerate | main.go:125 | an empty URL names the file `.`, and a URL of slashes only names it `/` |
| Export.SaveRun | main.go:65-80 | the effects `saveMarkdown` attempts (conversion, file creation, write), stopping at the first failure, and whether it returns nil |
| Export.ImageAttempt | main.go:124-151 | one pass of the image loop: the GET, then unless it failed the creation of `Base(url)` in the page directory, then unless that failed the copy |
| Export.ImagesUpTo | main.go:123-152 | the first `n` passes of the image loop in order: one `ImageAttempt` per URL, whatever failed on an earlier pass |
| Export.DownloadRun | main.go:120-155 | one pass per URL that the scan as written finds, in order; nothing, and stuck, when the scan does not end within the fuel |
| Export.PageRun | main.go:184-209 | one pass of the page loop: the fetch, the mkdir of `DirName`, `saveMarkdown`, then `downloadImages`, the page ending at its first failure |
| Export.RunUpTo | main.go:181-210 | the first `n` passes of the page loop in order, with nothing after a pass that got stuck |
| Export.SaveMarkdown | main.go:65-80 | `saveMarkdown` attempts exactly the effects `SaveRun` specifies and returns no error exactly when `SaveRun` says so |
| Export.SaveMarkdownMeaning | main.go:65-80 | conversion comes first; no file is created unless it succeeded; only the page's `.md` file is written, with exactly the converter's output; the result is ok iff that write succeeded |
| Export.DownloadImages | main.go:120-155 | `downloadImages` attempts exactly the effects `DownloadRun` specifies: one GET per URL found, then a file create and a copy unless a step fails |
| Export.AttemptRequestsOnce | main.go:123-151 | each pass of the image loop requests its URL exactly once |
| Export.ImagesInOrder | main.go:123-152 | every URL found is requested exactly once, in order, whatever happened to the ones before |
| Export.ImagesOnly | main.go:123-152 | every event of `downloadImages` is an image event |
| Export.StatusIgnored | main.go:129-145 | the status code of the image response is never looked at: an error status saves the body like `200 OK` |
| Export.ExportPages | main.go:181-210 | the page loop attempts exactly the effects `RunUpTo` specifies, and completes unless an image scan runs out of fuel |
| Export.RunStaysStuck | main.go:205 | once the run is stuck in an image scan, later pages attempt nothing |
| Export.PageFetchesOnce | main.go:184-188 | each pass of the page loop fetches its page ID exactly once |
| Export.PagesInOrder | main.go:181-210 | page IDs are fetched once each, in the order given, whatever failed before; all of them unless the run gets stuck, and a prefix of them if it does |
| Export.PageOrdered | main.go:184-209 | a page's events follow the stages in order, each non-image stage at most once; a failed stage is the page's last event; the fetch comes first |
| Export.PageDirectory | main.go:190-194 | a directory is created only after a successful fetch, and is named after the fetched title and the page ID |
| Export.PageImagesLast | main.go:197-209 | image events come only after the fetch, directory, conversion, file creation and write all succeeded |
| Export.PageProgress | main.go:184-201 | a successful fetch, mkdir, conversion or file creation is followed by the next stage; a successful fetch is followed by the mkdir of `DirName(title, pageID)` |
| Export.PageDownloads | main.go:197-209 | once the Markdown is written, the run is stuck on the page exactly when its scan does not end; when it ends, the requested URLs are exactly the scan's URLs in order, and the image events are linked |
| Export.AttemptLinked | main.go:125-151 | a pass of the image loop starts with the GET of its URL; its file is created after a successful GET, in the page directory, under `filepath.Base` of the URL; the copy goes into the file just created |
| Export.ImagesAllLinked | main.go:123-152 | every image file is created and written only after a successful request of the URL it is named after, and a successful request or create is followed by the next step |
| Export.StuckPageLoopsForever | main.go:121 | with more scan passes than the body is long, a run stuck on a page means the program's scan of that body never ends |
| ScanTermination.RunningIffPos | main.go:102-115 | the loop is still running after `fuel` passes exactly when a `fuel`-th pass has a start |
| ScanTermination.PosAdd | main.go:102-115 | `a + b` passes are `a` passes, then `b` passes from where those stopped |
| ScanTermination.RepeatedStartRunsForever | main.go:102-115 | a start visited twice is visited again periodically, so the loop never stops |
| ScanTermination.FuelDecides | main.go:102-115 | a scan still running after more passes than the body is long never ends, whatever the fuel |

## Left out

- HTTP (resty) and JSON decoding in `fetchConfluencePage` (`main.go:39-63`) are left out. They are folded into the `fetch` oracle: a request error, a non-200 status and a decoding error all become `None`.
- The HTML-to-Markdown converter (`htmlToMarkdown`, `main.go:83-94`) is the `convert` oracle. The converter library is not part of this model.
- Filesystem effects (`os.MkdirAll`, `os.Create`, `WriteString`, `io.Copy`) are recorded only as events with an outcome. File contents other than the Markdown text are not modelled.
- The `Close` calls are left out, and so is the fact that the response body is not closed when the file create fails (`main.go:139-151`). Closing is invisible in a trace of attempted effects.
- Command-line flags, their validation, `os.Exit`, and all `Printf` output (`main.go:157-179`, `main.go:182`, `main.go:202`, `main.go:212`) are left out.
- Paths are recorded as a directory and a name in it. `filepath.Join`'s cleaning (`..`, duplicate separators) and the backup directory prefix are not modelled, so a name such as `..` is not resolved. Distinct directory names can therefore still be one directory: with one title, the page IDs `1//2` and `1/2` both lead to `t(1/2)` once joined.
- Oracles are indexed by page position and image position, not by time. Two identical requests at different positions may be answered differently, which covers a changing server. Concurrency is not modelled because the program has none.
- Text is given to the model already UTF-8 encoded, one character per byte. The encoding itself is not modelled, and nothing in the types stops a caller from passing a character above 255.
- FindImageURLs: the loop as written has no bound. The model gives it `fuel` passes and reports a run that has not ended within them as unfinished. `ExportPages` reports such a page as `completed == false`. That means the program's loop never ends only when the fuel exceeds the body's length (`FuelDecides`); the process then grows until it is stopped, and no later page is processed.
- ExportPages: the branch at `main.go:205-208` is dead, because `downloadImages` returns nil on every path. The model gives `DownloadImages` no error result.
- DirNameSegment: the page ID is not sanitised (`main.go:190`), so a page ID holding `/` can leave the backup directory. The lemma states the `/`-freedom only under that condition.
- Base: only `/` is treated as a separator (the Unix `filepath.Base`). Windows volume names and `\` are not modelled.

## Findings

| source | as written | input that shows it | evidently intended | confidence | as-written member | corrected member |
|---|---|---|---|---|---|---|
| main.go:103 | `startIdx = strings.Index(content[startIdx:], startTag)` stores an offset relative to the suffix as an absolute one | `<img src="a"><img src="b">` gives `["a", "><img src="]` | add the search start: N well-formed tags give their N sources in order (`["a", "b"]`) | high, not executed | ImageRefs.TwoTagsAsWritten | ImageScanner.FindImageURLsFixed, ImageRefs.TagsGiveTheirURLs, ImageRefs.TwoTagsFixed |
| main.go:102-115 | the same relative offset can move the scan backwards or leave it in place, so the loop revisits a state | `<img src="a"<img src="b">` loops forever, appending `""` on every pass; so do the UTF-8 bytes of `<img src="éééé"xxxxxx<img src="b"`, appending the byte `A9` | the scan moves strictly forward and ends on every body | high, not executed | ImageRefs.LoopingNeverFinishes, ImageRefs.MultiByteNeverFinishes | ImageScanner.FindImageURLsFixed, ImageRefs.NextRef |
