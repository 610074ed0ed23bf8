# syf: a verified model of the soundboard scraper's decision logic

`syf` downloads Grateful Dead soundboard recordings from archive.org. It lists every show,
resolves a show name to a recording, extracts the tracks of that recording and writes
one numbered `.ogg` file per track into a directory named after the show. It can also do
this for every listed show, or for an inclusive slice of the listing.

This project models the pure logic of that pipeline in Dafny and proves what it does:

- `Util` holds `sanitize_song_name`. It deletes thirteen punctuation characters wherever
  they occur and then trims Unicode whitespace.
- `Operations` holds the logic of `src/operations.rs`:
  - per-page consecutive deduplication and page-order concatenation of the listing;
  - the href filter and first-link choice of the search results;
  - last-one-wins extraction of track names and urls, with the `"nothing"` sentinel;
  - the `.ogg` and sentinel filter;
  - track numbering and the `show/NN - name.ogg` path;
  - the download loop's control flow;
  - the flag-driven slice selection.
- `Text` holds the string helpers: Rust's `trim`, decimal formatting, leading digits and
  `ends_with`. `Seqs` defines the subsequence relation. `Wrappers` holds `Option` and `Result`.
- `UtilTests` and `OperationsExamples` prove the unit tests and the documented examples as lemmas.

HTTP and HTML parsing are abstracted into the `Site` datatype. Each page kind is a total
function from a URL to either a parse result or a `NetworkError`. The three URL prefixes
are fields of `Site`, so every URL is formed exactly as the code forms it:
`SHOWS_URL + i`, `LIST_URL + name` and `ARCHIVE_BASE + href`. `GetShow` returns a plan:
the directory plus one `(path, url)` pair per track. `RunPlan` gives what the disk side
does with that plan, with directory creation and each track request as inputs. `FetchShow`
is the whole of `get_show`: it plans with `GetShow` and then runs the plan. It returns a
`ShowRun`: the value `get_show` returns, the files whose bytes arrived and were passed
to `fs::write`, and whether it created its directory. The `Host` datatype describes the machine before the run starts: whether each
show's directory can be created, and what each track request comes to. The batch
operations carry the set of directories they have created so far. A show tried again
after its directory was created finds it there, so `create_dir` fails.

These points of the code are easy to misread, and the model follows them as written:

- The sentinel is the string `"nothing"`, as in the code. A real name or href equal to it
  is dropped too.
- If a track's request fails, the `?` at `src/operations.rs:105` aborts the rest of the
  show and makes it fail. Body-read and write failures are only reported.
- If the directory cannot be created, the code prints a message and downloads nothing,
  and `get_show` still returns success. This includes a show listed twice whose first try
  created the directory.
- A show that fails on a track request keeps its directory and the files written before
  that request.
- An empty sanitised name is not rejected.
- The slice flag comes back on whenever `start` appears again, even after `end`.

## Model

| member | source | states |
|---|---|---|
| Util.SanitizeSongName | src/util.rs:15-25 | The result has no special character and no surrounding whitespace, even whitespace that only the deletion exposed. It is never longer than the input, so the empty name stays empty. |
| Util.RemoveSpecial | src/util.rs:17-22 | The result has none of the thirteen special characters and is never longer than the input. With the order and count lemmas below, it is exactly the input with those characters deleted. |
| Util.RemoveSpecialKeepsOrder | src/util.rs:17-22 | Deletion keeps the remaining characters in their original order. |
| Util.RemoveSpecialKeepsOthers | src/util.rs:17-22 | Every non-special character survives deletion exactly as many times as it occurred. |
| Util.RemoveSpecialAppend | src/util.rs:17-22 | Deletion works on each piece of a string independently, wherever the special characters stand. |
| Util.RemoveSpecialFixpoint | src/util.rs:17-22 | A string without special characters passes through deletion unchanged. |
| Util.RemoveSpecialAllSpecial | src/util.rs:17-22 | A string made only of special characters is deleted entirely. |
| Util.SanitizeKeepsOrder | src/util.rs:16-24 | The sanitised name is a subsequence of the input, so inner spaces and other characters keep their order. |
| Util.SanitizeOf | src/util.rs:16-24 | If deleting the special characters leaves `pre + mid + post`, with whitespace-only ends and a `mid` that neither starts nor ends with whitespace, then the result is exactly `mid`. |
| Util.SanitizeIdempotent | src/util.rs:15-25 | Sanitising twice gives the same result as sanitising once. |
| Text.Trim | src/util.rs:23 | The result has no whitespace at either end and is never longer than the input. |
| Text.TrimIsSlice | src/util.rs:23 | The trimmed string is a contiguous piece of the input, starting after the leading whitespace run, and only whitespace is cut off on either side. |
| Text.TrimOf | src/util.rs:23 | Trimming whitespace-only ends off a string whose middle does not start or end with whitespace gives exactly that middle. |
| Text.TrimIdempotent | src/operations.rs:98 | Trimming an already trimmed string changes nothing. |
| Text.Decimal | src/operations.rs:100-102 | The decimal rendering of `n` is a non-empty digit string whose value is `n`. It starts with `0` only when it is exactly `"0"`, and it has one digit exactly when `n < 10`. |
| Text.DecimalUnique | src/operations.rs:100-102 | Any digit string with value `n` that starts with `0` only when it is `"0"` is the decimal rendering of `n`, so `format!("{}", n)` has exactly one possible result. |
| UtilTests.DarkStarExample | src/util.rs:32-35 | `"(Dark/\\ //Star-/-->"` sanitises to `"Dark Star"`. |
| UtilTests.MusicNeverStoppedExample | src/util.rs:39-41 | `"  The .,:;Music ->Never <-Stopped-->  "` sanitises to `"The Music Never Stopped"`. |
| Operations.Dedup | src/operations.rs:31 | The deduplicated page has no two equal neighbours, is no longer than the page, and keeps the page's first and last titles. |
| Operations.RunHeadsSpec | src/operations.rs:31 | The run-head positions below `n` are listed in increasing order, each is below `n` and starts a run, and every run head below `n` is listed. |
| Operations.DedupKeepsRunHeads | src/operations.rs:31 | Deduplication keeps exactly the first title of each run of equal neighbours, in page order. |
| Operations.DedupFixpoint | src/operations.rs:31 | A page is unchanged by deduplication exactly when it has no equal neighbours. |
| Operations.DedupIdempotent | src/operations.rs:31 | Deduplicating twice gives the same result as once. |
| Operations.JoinPages | src/operations.rs:31-37 | Each page is deduplicated on its own and the results are appended in page order, as `JoinPagesSingle` and `JoinPagesAppend` state. |
| Operations.JoinPagesSingle | src/operations.rs:31-37 | A single page contributes exactly its deduplicated titles. |
| Operations.JoinPagesAppend | src/operations.rs:33-37 | Joining pages distributes over any split of the page list, so the listing is the per-page results in page order. |
| Operations.BoundaryDuplicateSurvives | src/operations.rs:18-37 | A title that ends one page and starts the next appears twice in a row in the listing. |
| Operations.ListShows | src/operations.rs:13-41 | The listing succeeds exactly when all 174 pages load. On success it is the concatenation of the deduplicated pages 0..173. |
| Operations.Hrefs | src/operations.rs:59-66 | There are never more hrefs than links. Every kept href is carried by some link and is not the sentinel. |
| Operations.HrefsMembership | src/operations.rs:59-66 | An href is kept exactly when some link carries it and it is not the sentinel. |
| Operations.HrefsHead | src/operations.rs:59-68 | The kept hrefs are empty exactly when no link is usable. Otherwise the first kept href is that of the first usable link. |
| Operations.FirstLink | src/operations.rs:68-72 | The followed link is absent exactly when no link is usable. Otherwise it is the first usable link, and every link before it lacks an href or holds the sentinel. |
| Operations.ScanAttr | src/operations.rs:77-90 | The value is either the starting value or the value of some child carrying the attribute. `ScanAttrLastWins` pins which one. |
| Operations.ResolveTrack | src/operations.rs:77-90 | The name is the sentinel or the `content` of some name child. The url is the sentinel or the `href` of some link child. |
| Operations.ScanAttrLastWins | src/operations.rs:77-90 | The value is that of the last child carrying the attribute. With no such child it is the starting value, which is the sentinel. |
| Operations.ExtractTracks | src/operations.rs:75-93 | Every extracted track has an `.ogg` url and a name other than the sentinel. There are never more tracks than track elements. |
| Operations.KeepResolved | src/operations.rs:75-93 | Every kept track passes the filter, and there are never more tracks than elements. |
| Operations.KeepResolvedAppend | src/operations.rs:75-93 | Whatever the filter, resolving and filtering treats each element on its own. |
| Operations.ExtractTracksAppend | src/operations.rs:75-93 | Extraction treats each element on its own, so extracted tracks keep document order. |
| Operations.ExtractTracksMembership | src/operations.rs:92 | A track is extracted exactly when some element resolves to it and it passes the filter. |
| Operations.ExtractedComesFromElement | src/operations.rs:92 | Every extracted track passes the filter and comes from some element. |
| Operations.ElementIsExtracted | src/operations.rs:92 | Every element whose resolved track passes the filter has that track extracted. |
| Operations.ExtractTracksSingle | src/operations.rs:77-92 | One element contributes its resolved track if that passes the filter, and nothing otherwise. |
| Operations.NonAudioElementDropped | src/operations.rs:92 | An element whose url does not end in `.ogg` contributes nothing, whatever its name. |
| Operations.TrackNumber | src/operations.rs:99-103 | The number has at least two digits, its value is `idx + 1`, and it starts with `0` exactly when `idx < 9`. For `idx < 9` it has exactly two digits. |
| Operations.TrackNumberUnique | src/operations.rs:99-103 | Those properties leave one possible number: `0` followed by the single digit `idx + 1` when `idx < 9`, and the plain decimal `idx + 1` otherwise. |
| Operations.TrackFileName | src/operations.rs:97-104 | The file name is `<number> - <sanitised name>.ogg`, as `TrackFileNameParts` states, with no `/`, numbered `idx + 1`. |
| Operations.TrackPath | src/operations.rs:94-104 | The path is the show name, `/`, and the file name, so it has the form `PlacedAt` states. |
| Operations.TrackFileNameParts | src/operations.rs:97-104 | The file name is the number, `" - "`, the sanitised name and `.ogg`, because the second trim never changes a sanitised name. |
| Operations.TrackFileNameNumber | src/operations.rs:99-104 | The leading digit run of a file name is the track number, and its value is `idx + 1`. |
| Operations.TrackFileNameNoSlash | src/operations.rs:97-104 | No file name contains `/`. |
| Operations.TrackFileNameSuffix | src/operations.rs:104 | A file name ends with the sanitised name followed by `.ogg`. |
| Operations.TrackPathPlaced | src/operations.rs:96-104 | A track path is `<show>/<number> - <sanitised name>.ogg`: the second trim never changes a sanitised name. |
| Operations.PlacedAtLayout | src/operations.rs:94-104 | A path of that form lies directly in the directory named after the show. Its file name contains no `/`, starts with the number `k + 1`, and ends with the sanitised name and `.ogg`. |
| Operations.TrackPathsDistinct | src/operations.rs:96-104 | Two different positions never share a path, whatever the track names. |
| Operations.PlanFiles | src/operations.rs:96-104 | There is one file per extracted track, in order, with the track's url. File `k` is at `<show>/<number of k> - <sanitised name>.ogg`. No two paths are equal. |
| Operations.GetShow | src/operations.rs:50-104 | Planning fails exactly when the search request fails, or when the detail page of the first usable link fails to load. "No show found" happens exactly when the search succeeds with no usable link. A plan means the directory is the show name unsanitised, with one file per extracted track carrying its url, at `<show>/<number> - <sanitised name>.ogg`. |
| Operations.RunDownloads | src/operations.rs:96-118 | The loop is cut short exactly when some track request fails. What it writes is an in-order subsequence of the plan, and only fetched files. Every fetched file before the first failed request is written, so if nothing aborts, every fetched file is written. |
| Operations.AbortStopsDownloads | src/operations.rs:105 | Nothing at or after a failed track request is written. |
| Operations.RunPlan | src/operations.rs:94-124 | If the directory cannot be created, nothing is written and the show succeeds. Otherwise the show fails exactly when some track request fails. What is written is an in-order subsequence of the plan and holds only fetched files. Every fetched file before the first failed request is written, even when the show then fails, and nothing at or after a failed request is written. A successful show writes every fetched file. |
| Operations.PlanRequestFails | src/operations.rs:96-105 | A plan whose files carry the tracks' urls in order hits a failed track request exactly when the tracks do. |
| Operations.FetchShow | src/operations.rs:50-130 | `get_show` fails exactly when the search request fails, or when the first usable link's detail page fails, or when its directory can be created and some extracted track's request fails. It creates the directory exactly when it finds the show, the host allows it, and this run has not created it already. "No show found" writes nothing, creates nothing and succeeds. Without a new directory nothing is written. Otherwise the written files are an in-order subsequence of the plan. Every fetched file before the first failed request is written, nothing at or after a failed request is written, and a successful show writes all its fetched files. |
| Operations.FetchShowFreshName | src/operations.rs:94-95 | For a show whose directory this run has not created, `get_show` does exactly what it would do on the untouched host. |
| Operations.DirectoriesMadeSpec | src/operations.rs:94-95 | A batch has created a show's directory exactly when it has tried that show, found it, and the host allowed the directory. |
| Operations.ReportsForAppend | src/operations.rs:138-143 | Trying one more show appends its report. Its directory joins the set exactly when that `get_show` created it. |
| Operations.FirstTryRunsAlone | src/operations.rs:138-143 | The first time a batch tries a show, its report is what `get_show` does for that show on its own. |
| Operations.RepeatedShowWritesNothing | src/operations.rs:94-129 | A found show whose directory the host allows, tried again later in the batch, writes nothing, creates nothing and succeeds, because its directory already exists. |
| Operations.TryShow | src/operations.rs:138-143 | One loop turn keeps the directory set and the reports in step with the shows tried so far. |
| Operations.AllReports | src/operations.rs:138-143 | The loop over the whole listing reports every show in order, each given the directories the earlier shows created. |
| Operations.GetAllShows | src/operations.rs:136-145 | The batch fails exactly when the listing fails. Otherwise there is one report per listed show, in order. Each report is what `get_show` did for that show, given the directories the earlier shows created. One show's failure does not stop the batch. |
| Operations.SelectSliceKeepsOrder | src/operations.rs:163-177 | The fetched shows form an in-order subsequence of the listing. |
| Operations.SliceScan | src/operations.rs:163-177 | The flag loop as a fold. `SliceScanStep` gives one step, and `SliceScanPrefix` matches it to the position-wise description on every prefix. |
| Operations.SelectSlice | src/operations.rs:163-177 | The fetched shows are an in-order subsequence of the listing. They are exactly the positions that the position-wise description admits. |
| Operations.SliceReports | src/operations.rs:163-177 | The flag loop reports exactly the selected shows, in order, each given the directories the earlier selected shows created. |
| Operations.SliceScanStep | src/operations.rs:164-176 | In one step, the flag turns on at `start`, the show is fetched while the flag is on, and the flag turns off after `end`. |
| Operations.InSliceIsOpenOrStart | src/operations.rs:165-168 | A show is fetched exactly when the flag was already on or the show is `start`. |
| Operations.OpenAfterStep | src/operations.rs:165-176 | The flag is on after a show exactly when it was on or the show is `start`, and the show is not `end`. |
| Operations.SliceScanPrefix | src/operations.rs:163-177 | On every prefix, the loop's flag and selection agree with the position-wise description. The flag is on iff some earlier `start` has no `end` after it. A show is selected iff some `start` at or before it has no `end` in between. |
| Operations.SliceMatchesPositions | src/operations.rs:163-177 | The shows fetched are exactly the listing positions admitted by the position-wise description, in order. |
| Operations.SliceBeforeStart | src/operations.rs:163-177 | Before the first `start`, nothing has been fetched and the flag is off. |
| Operations.SliceFromStart | src/operations.rs:163-177 | From the first `start` until just before an `end`, every show is fetched and the flag stays on. |
| Operations.SliceClosesAtEnd | src/operations.rs:163-177 | The first `end` at or after the first `start` is fetched, and the flag turns off after it. |
| Operations.SliceAfterEnd | src/operations.rs:163-177 | After the slice closes, nothing more is fetched until `start` appears again. |
| Operations.SliceStartAbsent | src/operations.rs:163-177 | If `start` is not listed, nothing is fetched. |
| Operations.SliceRunsToEnd | src/operations.rs:163-177 | With no `end` at or after the first `start`, fetching runs from that `start` to the end of the listing. |
| Operations.SliceBetween | src/operations.rs:163-177 | Take the first `start`, the first `end` after it, and no `start` after that `end`. Then exactly the shows from that `start` through that `end` are fetched, both included. |
| Operations.SliceFromFirstIsAll | src/operations.rs:136-177 | A slice from the first listed show to an unlisted name fetches the whole listing, the same set `get_all_shows` fetches. |
| Operations.GetSliceShows | src/operations.rs:156-180 | The batch fails exactly when the listing fails. Otherwise there is one report per selected show, in order. Each report is what `get_show` did for that show, given the directories the earlier selected shows created. |
| OperationsExamples.DedupExample | src/operations.rs:31 | `[x, x, y, x]` deduplicates to `[x, y, x]`. |
| OperationsExamples.FirstLinkExample | src/operations.rs:59-72 | A link with no href and a link whose href is the sentinel are both skipped, and the next link is followed. |
| OperationsExamples.LastNameWins | src/operations.rs:78-83 | Of two name children carrying `content`, the later one names the track. |
| OperationsExamples.UnnamedTrackDropped | src/operations.rs:78-92 | A track element with no name attribute keeps the sentinel and is filtered out. |
| OperationsExamples.TrackNumberExamples | src/operations.rs:99-103 | The third track is numbered `03` and the eleventh `11`. |
| OperationsExamples.SliceExampleBetween | src/operations.rs:163-177 | Over `[A, B, C, D, E]`, the slice `(B, D)` fetches `B, C, D`. |
| OperationsExamples.SliceExampleSingle | src/operations.rs:163-177 | Over `[A, B, C, D, E]`, the slice `(B, B)` fetches only `B`. |
| OperationsExamples.SliceExampleAbsentStart | src/operations.rs:163-177 | If `start` is absent, nothing is fetched. |
| OperationsExamples.SliceExampleNoEndAfterStart | src/operations.rs:163-177 | Over `[A, B, C, D, E]`, starting at `C` fetches `C, D, E` both when `end` is not listed and when it is listed only before `start`. |
| OperationsExamples.SliceExampleRestart | src/operations.rs:163-177 | Over `[A, B, C, A, D]`, the slice `(A, B)` fetches `A, B, A, D`, because a second `start` turns the flag back on. |

## Left out

- `src/main.rs`: its argument matching only prints messages. `crate::constants` is not
  part of this model, so `SHOWS_URL`, `LIST_URL` and `ARCHIVE_BASE` are opaque fields of `Site`.
- HTTP requests (`reqwest::get`) and HTML parsing (`scraper` selectors, joining text nodes,
  trimming titles) are foreign library calls. The parsed values of each page are inputs
  given by `Site`.
- `fs::create_dir` and `fs::write` are not performed. Whether a directory can be created
  before the run starts is given per show name by `Host`, and the batches track the
  directories they create by show name. Two different names for the same directory, or a
  directory created by someone else during the run, are not modelled. A write's success
  only changes what is printed.
- `RunDownloads`: the track bytes are not modelled. The loop sees only whether the request
  failed, the body read failed, or the bytes arrived.
- `Site` and `Host` answer each URL and each show name the same way throughout a run. A page
  or track request that succeeds once succeeds again when a repeated show asks for it, so
  the case of a server whose answers change between two tries of the same show is not
  modelled. `RepeatedShowWritesNothing` relies on this.
- `NetworkError` does not record the cause of a failure. It is only printed.
- Every `println!`/`eprintln!` and the async scheduling are left out, because neither
  affects what is fetched or written.
