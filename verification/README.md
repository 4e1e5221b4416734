# Veo generator core, modelled in Dafny

This project models the core of a desktop app that sends video and image
generation jobs to a remote API. The app keeps every job in a local SQLite
table. It polls pending video tasks until they settle, and it downloads
finished videos to disk. Its renderer shows the jobs, their badges and
their images.

The model covers these parts:

- **Records.** `database.ts` keeps the `generations` and `templates`
  tables. They are modelled as sequences of rows, with insert, partial
  update, delete, favourites, tags, filtered and paged listing, and
  statistics (modules `Store`, `Templates`, `Tables`).
- **Requests.** `api.ts` resolves the base URL and the endpoint, and
  falls back from one endpoint to the next on an "Invalid URL" error
  (`Endpoint`). It builds the multipart body (`Multipart`, `Utf8`) and
  submits video and image jobs (`Requests`). It maps provider statuses
  (`Status`), polls and downloads a video (`Poll`), and keeps a registry
  of background pollers (`Pollers`).
- **File names and dates.** The file names given to downloads
  (`Filenames`), the normalisation of stored dates before parsing
  (`DateNormalize`), and the `local-file://` URLs the renderer loads
  (`StaticUrl`, `UriEncoding`).
- **Renderer logic.** The pure logic of the task page (`Tasks`), the
  image lightbox (`Lightbox`) and the history card (`Card`).

Shared pieces:

- `Wrappers` holds `Option` and `Result`.
- `Text` holds JavaScript's string built-ins: `trim`, the `\s` class, ASCII
  case folding for `/i` patterns, `padStart`, `String(n)`, truthiness, and
  `length` and `slice` counted in UTF-16 code units.

JavaScript semantics that matter are written out:

- An empty string is falsy, so `a || b` becomes an explicit test.
- `%` truncates toward zero (`Lightbox.JsRem`).
- `/i` patterns made of ASCII letters match those letters in either case
  and nothing else.
- SQLite reads a negative `LIMIT` as "no limit" and a negative `OFFSET`
  as zero.

Outside effects are parameters:

- the HTTP transport is a function from URL to reply-or-error;
- the file download and file save are functions from (URL, name) to
  path-or-error;
- `fs.statSync` is a predicate;
- the clock readings and the random boundary digits are values.

Three behaviours of the code are worth stating plainly, because the model
follows them as written:

- A completed status reply writes the mapped status, progress and reply
  before the video is downloaded, so the record reads `completed` while
  the download is still running.
- A reply mapped to `completed` with no video URL is stored as completed
  and leaves `result_path` unchanged.
- The task page counts only `failed` and `error` as failed, while the
  poller also maps `canceled` and `cancelled` to `failed`.

## Model

| member | source | states |
|---|---|---|
| Tables.Where | src-main/services/database.ts:181-196 | a `WHERE` keeps exactly the rows satisfying the predicate, and never more rows than the table has |
| Tables.WhereAppend | src-main/services/database.ts:181-196 | filtering a table with one more row keeps the earlier result and then the new row exactly when it satisfies the predicate, so rows stay in table order |
| Tables.CountIsWhereLength | src-main/services/database.ts:200-201 | `COUNT(*)` under a predicate equals the number of rows the same `WHERE` returns |
| Tables.SortDesc | src-main/services/database.ts:209 | `ORDER BY ... DESC` returns a permutation of its input (same length, same multiset) |
| Tables.SortDescSorted | src-main/services/database.ts:209 | the sort's output is in descending key order |
| Tables.SortDescOfSorted | src-main/services/database.ts:209 | a table already in descending order is returned unchanged |
| Tables.Window | src-main/services/database.ts:203-205 | `LIMIT/OFFSET` yields the slice starting at the offset (negative read as 0), of at most `limit` rows, or everything after the offset when the limit is negative |
| Tables.WindowAt | src-main/services/database.ts:203-205 | item i of the page at offset o with n rows (i below n) is row o + i of the result |
| Tables.WindowOfSorted | src-main/services/database.ts:203-209 | a page of an ordered result is ordered and holds only rows of that result |
| Tables.PagesTile | src-main/services/database.ts:203-205 | two consecutive pages of n rows concatenate to the page of 2n rows at the same offset |
| Tables.PageOfRow | src-main/services/database.ts:203-205 | with n rows a page, row k of the result is row k mod n of the page at offset (k div n)·n |
| Store.Get | src-main/services/database.ts:160-167 | a lookup by id returns a row holding that id, and none exactly when no row holds it |
| Store.GetAt | src-main/services/database.ts:160-167 | under the primary key, looking up a row's id returns that row |
| Store.Create | src-main/services/database.ts:71-103 | an insert appends one row and keeps the others in place; inserting an existing id fails and changes nothing |
| Store.NewRowNulls | src-main/services/database.ts:90-101 | each omitted or falsy optional argument (`""`, or `0` for duration) is stored as NULL, and each truthy one is stored as given |
| Store.CreateThenGet | src-main/services/database.ts:71-103 | after inserting a fresh id the key stays unique and the id reads back as the new row |
| Store.ApplyPatch | src-main/services/database.ts:106-158 | an update never touches the id, request, tags, flag or creation time, and always stamps `updated_at` |
| Store.PatchTouchesSuppliedFields | src-main/services/database.ts:110-151 | every field the patch supplies takes the supplied value and every other job field keeps its value |
| Store.EmptyPatchOnlyStamps | src-main/services/database.ts:153-157 | an update with no fields still writes `updated_at` and nothing else |
| Store.PatchesCompose | src-main/services/database.ts:106-158 | two updates equal one update where the later values win, and repeating an update changes nothing |
| Store.Update | src-main/services/database.ts:106-158 | the row with the id takes the patch and every other row is unchanged |
| Store.UpdateUnknownId | src-main/services/database.ts:155-157 | an update of an unknown id leaves the table unchanged |
| Store.UpdateThenGet | src-main/services/database.ts:106-167 | an update keeps the key unique, and the id then reads back as the patched row |
| Store.SetTags | src-main/services/database.ts:237-240 | only the matching row's tags are replaced |
| Store.ToggleFavorite | src-main/services/database.ts:226-235 | the flag of the matching row is inverted and returned; an unknown id returns false and changes nothing |
| Store.SetFavoriteTwice | src-main/services/database.ts:226-235 | setting the flag twice equals setting it once to the later value |
| Store.ToggleTwice | src-main/services/database.ts:226-235 | toggling twice restores the table, and the two calls report opposite flags |
| Store.Delete | src-main/services/database.ts:221-224 | the rows left are exactly the rows whose id differs from the deleted one |
| Store.DeleteRemovesOne | src-main/services/database.ts:221-224 | deleting a present id removes exactly one row |
| Store.Matching | src-main/services/database.ts:181-198 | a row is listed exactly when it is in the table and passes every supplied filter |
| Store.Ordered | src-main/services/database.ts:181-209 | the matches are listed newest first, each exactly when it matches |
| Store.List | src-main/services/database.ts:169-219 | a page holds at most page-size rows, all matching, newest first, and reports the page and page size it used |
| Store.ListTotal | src-main/services/database.ts:200-201 | `total` counts every match, whatever page is asked for |
| Store.EveryMatchListed | src-main/services/database.ts:169-219 | every matching row appears on some page numbered from 1 |
| Store.ListItemAt | src-main/services/database.ts:203-209 | with n rows a page, item i of page q + 1 of the listing is the match at position q · n + i of the newest-first order, for every position that exists |
| Store.PagedAt | src-main/services/database.ts:203-205 | with n rows a page, item i of page q + 1 is the row at position q · n + i, so applied to the newest-first matches it says where each match is listed |
| Store.ListDefaults | src-main/services/database.ts:203-205 | an omitted or zero page and page size mean the first page of 20 |
| Store.GetStats | src-main/services/database.ts:242-251 | the four counters equal the number of videos, images, completed rows and favourites |
| Store.KindsDisjoint | src-main/services/database.ts:242-251 | the video and image counters together never exceed the row count |
| Templates.Get | src-main/services/database.ts:298-316 | a lookup by id returns a template holding that id, and none exactly when no template holds it |
| Templates.GetAt | src-main/services/database.ts:298-316 | under the autoincrement key, looking up a template's id returns that template |
| Templates.Create | src-main/services/database.ts:318-331 | an insert appends one template under the next id, and that id is returned |
| Templates.CreateKeepsValid | src-main/services/database.ts:318-331 | the new id is above every id present, so the key stays unique |
| Templates.List | src-main/services/database.ts:281-296 | the listing is a permutation of the table, ordered by use count and then creation time, both descending |
| Templates.ListHeadMostUsed | src-main/services/database.ts:283 | the first template listed is used at least as often as any other |
| Templates.Update | src-main/services/database.ts:333-370 | an update with no fields changes nothing; a template with another id is unchanged; the id, flag, use count and creation time of every template are kept |
| Templates.UpdateWrites | src-main/services/database.ts:341-369 | supplied fields are written and `updated_at` is stamped; the other fields keep their values |
| Templates.EmptyUpdatesDiffer | src-main/services/database.ts:365-369 | an empty template update leaves `updated_at` alone, while an empty generation update stamps it |
| Templates.Delete | src-main/services/database.ts:372-375 | the templates left are exactly those whose id differs, and the id counter is kept |
| Templates.DeleteThenCreate | src-main/services/database.ts:318-375 | after a delete the table stays valid and a later insert never reuses the deleted id |
| Templates.ToggleFavorite | src-main/services/database.ts:377-386 | the flag of the matching template is inverted and returned; an unknown id returns false and changes nothing |
| Templates.SetFlagTwice | src-main/services/database.ts:377-386 | setting the flag twice equals setting it once to the later value |
| Templates.ToggleTwice | src-main/services/database.ts:377-386 | toggling twice restores the table, and the two calls report opposite flags |
| Templates.IncrementUseCount | src-main/services/database.ts:388-391 | only the matching template's count changes |
| Templates.IncrementByOne | src-main/services/database.ts:388-391 | the count read back is exactly one higher, and the table stays valid |
| Endpoint.RawBaseTrims | src-main/services/api.ts:7-12 | the base is the trimmed variable when it is set and non-empty, else the trimmed default |
| Endpoint.SchemedBase | src-main/services/api.ts:13-21 | the base used always carries an `http(s)://` scheme |
| Endpoint.StripTrailingSlashes | src-main/services/api.ts:23 | trailing slashes are removed but the scheme is kept, and only slashes are removed |
| Endpoint.BaseUrl | src-main/services/api.ts:7-24 | the base URL is never empty and never ends in a slash |
| Endpoint.BaseUrlDefault | src-main/services/api.ts:7-24 | an unset, blank or path-only value falls back to the default base |
| Endpoint.BaseUrlAddsScheme | src-main/services/api.ts:14-23 | a host without a scheme gets `https://` |
| Endpoint.BaseUrlKeepsScheme | src-main/services/api.ts:13-23 | a value with a scheme is kept, less its trailing slashes |
| Endpoint.ResolveApiUrl | src-main/services/api.ts:97-114 | a blank input throws the fixed message; an absolute URL is kept as trimmed; any other input is joined to the base |
| Endpoint.NoDoubledVersion | src-main/services/api.ts:104-112 | a `/v1/...` path against a base ending in `/v1` keeps one `/v1` |
| Endpoint.RelativeJoin | src-main/services/api.ts:104-113 | a path without a leading slash that does not start with `v1/` is joined to the base with exactly one slash |
| Endpoint.PathJoin | src-main/services/api.ts:97-113 | any non-absolute path, with or without its leading slash, is appended in its slash-led form unless it is `/v1/...` against a base ending in `/v1` |
| Endpoint.LeadingSlashJoin | src-main/services/api.ts:107-113 | a slash-led path such as `/videos` is appended as it is, and so is `/v1/x` against a base not ending in `/v1` |
| Endpoint.Fallback | src-main/services/api.ts:121-135 | an error without a message comes only from an empty candidate list |
| Endpoint.FallbackFirstDecisive | src-main/services/api.ts:121-135 | after skipped invalid-URL candidates, the first success is returned and the first other error is thrown |
| Endpoint.FallbackAllInvalid | src-main/services/api.ts:121-135 | when every candidate fails with an invalid-URL error, the last error is thrown |
| Utf8.EncodeChar | src-main/services/api.ts:208 | a character encodes as 1 to 4 bytes: one byte with its own code exactly when it is ASCII, else bytes that are all non-ASCII |
| Utf8.EncodeAppend | src-main/services/api.ts:208 | encoding distributes over concatenation |
| Utf8.EncodeAscii | src-main/services/api.ts:208 | ASCII text encodes one byte per character, with the character's code |
| Multipart.BoundaryValidIff | src-main/services/api.ts:205 | the generated boundary is a valid boundary under section 5.1.1 of RFC 2046 exactly when the clock digits and the hex digits together are at most 54 characters |
| Multipart.FileType | src-main/services/api.ts:221 | a file part's type is its content type when one is given, else a non-empty default |
| Multipart.FormParts | src-main/services/api.ts:210-224 | the fields come first in insertion order, then the files |
| Multipart.BuildForm | src-main/services/api.ts:201-231 | the content type names the same boundary that delimits the body |
| Multipart.PartAt | src-main/services/api.ts:210-224 | the pushes of each part appear whole and in order in the pushes of the form |
| Multipart.FileDataAt | src-main/services/api.ts:216-224 | a file's bytes appear unchanged in the body, followed by a line break |
| Multipart.BodyCloses | src-main/services/api.ts:226-228 | the body ends with the closing delimiter |
| Multipart.BodyOpens | src-main/services/api.ts:210-217 | a body with parts starts with the opening delimiter |
| Multipart.EmptyForm | src-main/services/api.ts:226-228 | a form without parts is the closing delimiter alone |
| Requests.VideoModel | src-main/services/api.ts:370 | a non-empty model is used exactly as given; an absent or empty one becomes `veo3.1` |
| Requests.VideoSize | src-main/services/api.ts:384 | portrait size exactly for `9:16`, landscape otherwise |
| Requests.Section | src-main/services/api.ts:389-392 | a section appears exactly when its value is non-empty, and then as heading plus value |
| Requests.CombinedPromptEmptyIff | src-main/services/api.ts:388-395 | the combined prompt is empty exactly when every part is missing or empty |
| Requests.PromptOnly | src-main/services/api.ts:388-395 | with only a prompt, the combined prompt is that prompt under its label |
| Requests.AllSections | src-main/services/api.ts:388-395 | with every part given, the four labelled sections appear in fixed order, separated by blank lines |
| Requests.VideoFields | src-main/services/api.ts:407-416 | the form carries, in this order, the model, the prompt combined from system context, storyboard, negative prompt and prompt, seconds `8`, the size for the aspect ratio, and watermark `false` |
| Requests.VideoFiles | src-main/services/api.ts:397-405 | a reference image becomes exactly one file part, `input_reference` named `input_reference.png` of type `image/png` holding the image bytes; no image means no file |
| Requests.TaskIdOf | src-main/services/api.ts:428 | the task id is `id` when set, else `task_id`, and none when both are empty |
| Requests.SubmitStatus | src-main/services/api.ts:432 | the stored status is the reply's when non-empty, and exactly `processing` when the reply has none |
| Requests.SubmitPatch | src-main/services/api.ts:431-436 | the update writes the status, the progress (0 when absent), the task id and the reply, and nothing else |
| Requests.FailurePatch | src-main/services/api.ts:346-349 | a failure writes `failed` and the error message only |
| Requests.GenerateVideo | src-main/services/api.ts:370-453 | a row is inserted under the new id, stamped with the insert time and then the update time, and the rows before it are untouched; a clashing id fails without a change |
| Requests.VideoOutcome | src-main/services/api.ts:428-452 | the new row reads back with the submission's status, progress and task id, or as failed with the error message |
| Pollers.GenerateVideo | src-main/services/api.ts:428-440 | the submission's table and answer are those of `Requests.GenerateVideo`; an answer with a task id registers that task for background polling, and any other answer registers nothing |
| Pollers.SubmitStartsPolling | src-main/services/api.ts:428-440 | after an accepted submission with a task id, that task is polled, no other registration changes, and the new row carries the same task id |
| Requests.ImageModel | src-main/services/api.ts:247-255 | an allow-listed model is kept; anything else becomes the default |
| Requests.ImageSize | src-main/services/api.ts:258-265 | only `16:9` and `9:16` get the wide sizes; everything else is square |
| Requests.ImageCount | src-main/services/api.ts:281 | the count is capped at 10, a missing or zero count becomes 1, and anything else is passed on |
| Requests.ImageRequest | src-main/services/api.ts:278-284 | the payload carries an allowed model, at most 10 images, the mapped size and format `url` |
| Requests.SourceOf | src-main/services/api.ts:306-309 | an entry is fetched from `url`, else `image_url`, else `image` (the first non-empty); without any URL it is decoded from `b64_json`, else `base64`, else `image_base64`; with none of them it is skipped |
| Requests.SaveFrom | src-main/services/api.ts:301-331 | every path collected is the save result of some entry, and no more paths than entries |
| Requests.SaveFromKeepsLater | src-main/services/api.ts:301-331 | a failed or empty entry does not stop the loop: every later entry that saves has its path collected |
| Requests.SaveFromPositions | src-main/services/api.ts:301-331 | one path per saved entry and nothing else; each saved entry's path sits at the index equal to the number of saved entries before it, so the order is kept |
| Requests.SaveAll | src-main/services/api.ts:301-331 | when every entry saves, the paths are the saved ones in entry order |
| Requests.ImagesPatch | src-main/services/api.ts:334-338 | the update is completed, with the first path as result when there is one, and the paths and their count as the reply |
| Requests.GenerateImage | src-main/services/api.ts:247-352 | a row is inserted under the new id, stamped with the insert time and then the update time; on success the call returns that id as completed |
| Requests.ImageOutcome | src-main/services/api.ts:334-351 | the new row reads back completed with the saved paths, or failed with the error message |
| Status.MapStatus | src-main/services/api.ts:491-496 | `completed` exactly for the completed words, `failed` exactly for the failure words, `unknown` for an empty status, and anything else passed through |
| Status.MapStatusIdempotent | src-main/services/api.ts:491-496 | mapping a mapped status changes nothing |
| Status.MapStatusIgnoresCase | src-main/services/api.ts:491-496 | case variants of a status get the same completed/failed verdict |
| Status.VideoUrlOf | src-main/services/api.ts:489 | the URL is `video_url` when non-empty, else `url` when non-empty, else `output_url` |
| Status.Override | src-main/services/api.ts:497-503 | a status is only ever kept or turned into `completed`, and ends `completed` exactly when it already was, or when a URL exists, progress is at least 100 and the status is not `failed` |
| Status.FailedNeverOverridden | src-main/services/api.ts:491-503 | a failure word always ends as `failed` |
| Status.DecideCompletedIff | src-main/services/api.ts:491-503 | the decided status is `completed` exactly when the provider said so, or when a URL is present, progress is at least 100 and the status is not a failure |
| Status.NoUrlNoOverride | src-main/services/api.ts:499-503 | without a URL the mapped status stands |
| Poll.UpdateByTaskId | src-main/services/api.ts:505-509 | only the record of that task takes the patch; every other record is unchanged |
| Poll.FreshDownload | src-main/services/api.ts:513-527 | a file already on disk for the task is reused without a download |
| Poll.FailureMessage | src-main/services/api.ts:575-585 | the provider's error when given, else exactly the fixed text `视频生成失败` ("video generation failed") |
| Poll.Begin | src-main/services/api.ts:505-527 | the poll awaits a download exactly for a completed reply with a URL; it then registers the task's entry, which keeps the outcome of an entry already in flight; otherwise the registry is untouched and the poll ends failed or with the mapped status |
| Poll.Finish | src-main/services/api.ts:529-571 | the task's registry entry is dropped, and the poll ends completed exactly when the awaited download succeeded, else failed |
| Poll.Settle | src-main/services/api.ts:489-590 | no record appears or vanishes, the download registry loses at most this task, and the status is completed, failed or the mapped one |
| Poll.InterleavedPollsShareDownload | src-main/services/api.ts:511-536 | a second poll that starts while the first awaits its download joins the first's entry, so it gets the same outcome whatever its own downloader would do, and only the first registers a fresh download |
| Poll.InterleavedPollsAgree | src-main/services/api.ts:511-571 | two interleaved polls return the same local path, or the same download error, and the registry entry is gone after both |
| Poll.PollVideo | src-main/services/api.ts:456-597 | no record appears or vanishes; any non-terminal, non-error status comes from a reply and equals its mapped status |
| Poll.PersistedShortCircuits | src-main/services/api.ts:465-480 | a completed record with its file on disk is answered from the record, whatever the network or downloader would do |
| Poll.FetchErrorWritesNothing | src-main/services/api.ts:591-596 | a status request that throws ends with `error` and its message, and writes nothing |
| Poll.DownloadEntryRemoved | src-main/services/api.ts:529-536 | after a download the task's registry entry is gone |
| Poll.JoinsInFlightDownload | src-main/services/api.ts:511-512 | a poll that finds a download in flight joins it: its own downloader is not used and it returns that download's result |
| Poll.StatusWrittenBeforeDownload | src-main/services/api.ts:505-511 | the mapped status and progress are stored before the download starts |
| Poll.DownloadSucceeds | src-main/services/api.ts:538-553 | a successful download stores completed, progress 100, the path and the URL |
| Poll.DownloadFails | src-main/services/api.ts:554-571 | a failed download stores failed with the download error and reports it |
| Poll.ProviderFailure | src-main/services/api.ts:575-585 | a provider failure stores failed with the provider's message or the fixed one |
| Poll.CompletedWithoutUrl | src-main/services/api.ts:505-509 | a completed reply without a URL is stored as completed with `result_path` untouched |
| Poll.StillRunning | src-main/services/api.ts:587-590 | any other reply is stored with its status, progress and reply, and passed through |
| Pollers.Ensure | src-main/services/api.ts:69-87 | an empty task id changes nothing; any other is registered |
| Pollers.EnsureIdempotent | src-main/services/api.ts:70-71 | a second registration adds no second timer |
| Pollers.Tick | src-main/services/api.ts:76-80 | a terminal status stops the task's timer and any other keeps it; other timers are untouched |
| Pollers.ErrorKeepsPolling | src-main/services/api.ts:73-84 | a poll that hit a request error keeps the timer |
| Pollers.Registrable | src-main/services/api.ts:89-95 | a task id is registered exactly when it is non-empty and pending |
| Pollers.Resume | src-main/services/api.ts:89-95 | without an API key nothing is registered; with one, every non-empty pending id is |
| Filenames.ReplaceForbidden | src/lib/downloadName.ts:3 | the first replace leaves no forbidden or control character and introduces only `_` |
| Filenames.ReplaceForbiddenStep | src/lib/downloadName.ts:3 | read left to right, a forbidden character adds `_` unless the previous input character was forbidden too, and any other character is copied; this fixes the output of every input |
| Filenames.ForbiddenRunReplaced | src/lib/downloadName.ts:3 | a non-empty forbidden run between two clean pieces becomes exactly one `_` |
| Filenames.CollapseSpaces | src/lib/downloadName.ts:4 | after the second replace whitespace occurs only as single spaces |
| Filenames.CollapseSpacesStep | src/lib/downloadName.ts:4 | read left to right, whitespace adds one space unless the previous character was whitespace too, and any other character is copied; this fixes the output of every input |
| Filenames.Sanitize | src/lib/downloadName.ts:1-7 | the sanitised name is no longer than the input, has no forbidden character, no whitespace run, and does not start with a space or end with a dot or space |
| Filenames.SanitizeFixpointIff | src/lib/downloadName.ts:1-7 | a string is its own sanitisation exactly when it is already sanitised |
| Filenames.SanitizeIdempotent | src/lib/downloadName.ts:1-7 | sanitising twice is sanitising once |
| Filenames.SanitizeForbiddenRun | src/lib/downloadName.ts:1-7 | between two sanitised pieces a run of forbidden characters comes out as one `_`: `a<>:b` gives `a_b` |
| Filenames.SanitizeSpaceRun | src/lib/downloadName.ts:1-7 | between two non-empty sanitised pieces a run of non-control whitespace comes out as one space |
| Filenames.Pad2 | src/lib/downloadName.ts:10 | below 100 the field is its tens digit then its units digit |
| Filenames.Pad2Value | src/lib/downloadName.ts:10 | the padded field reads back as the number |
| Filenames.FormatTimestamp | src/lib/downloadName.ts:9-18 | the stamp is the year followed by 11 characters for valid fields |
| Filenames.ClockFields | src/lib/downloadName.ts:11-17 | each field sits at its fixed position, two digits, with `_` between date and time |
| Filenames.TimestampInjective | src/lib/downloadName.ts:9-18 | different valid times give different stamps |
| Filenames.VideoPrefix | src-main/services/api.ts:52-60 | the prefix is non-empty, at most 18 UTF-16 code units long, and has no forbidden character |
| Filenames.VideoPrefixPrefersText | src-main/services/api.ts:55-58 | text whose sanitised form is non-empty decides the prefix |
| Filenames.VideoPrefixFallback | src-main/services/api.ts:55-60 | blank text falls back to the sanitised task id, then to `video` |
| Filenames.VideoFilename | src-main/services/api.ts:52-67 | the name ends in `.mp4` and is at most 64 UTF-16 code units long; for a valid time it is exactly prefix, `_`, stamp and `.mp4`, since the 60-unit cut then keeps everything |
| Filenames.TimestampBmp | src/lib/downloadName.ts:9-18 | the stamp holds only characters of one UTF-16 code unit each |
| Filenames.ExtMatchUnique | src/lib/downloadName.ts:20-24 | the extension pattern can match only just before the trailing alphanumeric run |
| Filenames.ExtFromPath | src/lib/downloadName.ts:20-24 | the extension is a dot and the trailing alphanumerics when such a dot exists, else empty |
| Filenames.SuggestedPrefix | src/lib/downloadName.ts:26-37 | the prefix is the sanitised first twelve UTF-16 code units of the collapsed prompt, else the default base as given, else `file`; never empty |
| Filenames.SeqSuffix | src/lib/downloadName.ts:39-42 | a suffix appears exactly for an index in a set of more than one, as `_` and the 1-based position padded to two digits |
| Filenames.SeqSuffixValue | src/lib/downloadName.ts:39-42 | the suffix digits read back as the index plus one |
| Filenames.SuggestedFileName | src/lib/downloadName.ts:26-45 | the name starts with prefix, `_` and stamp, ends with the sequence suffix and the extension, and its length is the sum of the five parts, so nothing else is in it |
| DateNormalize.DateInput | src/lib/datetime.ts:1-18 | blank input is invalid; input with a zone is passed as trimmed; a zone-less `YYYY-MM-DD HH:MM:SS…` becomes `s[..10] + "T" + s[11..] + "Z"`, a zone-less `YYYY-MM-DDTHH:MM:SS…` gets `Z` appended, and anything else is passed as trimmed |
| DateNormalize.SpaceAndTFormsAgree | src/lib/datetime.ts:8-14 | the space-separated and `T`-separated forms of a zone-less time normalise alike |
| DateNormalize.ShapedInputGetsZone | src/lib/datetime.ts:8-14 | either date-time shape gets an explicit UTC marker |
| DateNormalize.DateInputIdempotent | src/lib/datetime.ts:1-18 | normalising the normalised text changes nothing |
| UriEncoding.EncodeLocalPathPerChar | src/lib/api.ts:340-343 | encoding then the three replaces act per character: both slashes become `/`, `:` stays, everything else is `encodeURIComponent`'s |
| UriEncoding.LocalPathSpecSlashes | src/lib/api.ts:386-396 | turning backslashes into slashes first changes nothing in the encoded path |
| UriEncoding.EncodeLocalPathSafe | src/lib/api.ts:340-343 | an encoded local path never contains `#` or `?` |
| UriEncoding.ReplaceAllOnTokens | src/lib/api.ts:342 | on encoder output, replacing a three-character escape only ever replaces whole escapes |
| StaticUrl.GetStaticUrl | src/lib/api.ts:338-400 | an empty path gives the empty string; every result is the input itself or free of `#` and `?` |
| StaticUrl.PlainPathUnchanged | src/lib/api.ts:398-399 | a path without a scheme that is not a drive path is returned unchanged |
| StaticUrl.DrivePathUrl | src/lib/api.ts:395-397 | a drive path becomes `local-file:///` followed by the encoded path |
| StaticUrl.LocalFileUrlKept | src/lib/api.ts:345-359 | a well-formed `local-file://` URL without `#` or `?` and with no one-letter host is kept |
| StaticUrl.LocalFileUnparseable | src/lib/api.ts:360-365 | an unparseable `local-file://` URL only has `#` and `?` escaped |
| StaticUrl.FileUnparseable | src/lib/api.ts:388-391 | an unparseable `file://` URL loses the scheme and leading slashes and is re-rooted and encoded |
| Tasks.CancelledIsUnfinished | src/pages/Tasks.tsx:22-24 | a cancelled task is unfinished on the page though the poller maps it to failed |
| Tasks.UnfinishedCount | src/pages/Tasks.tsx:24 | the unfinished count never exceeds the number of tasks |
| Tasks.StatusesPartition | src/pages/Tasks.tsx:22-24 | done, failed and unfinished tasks add up to all tasks |
| Tasks.StatusBadge | src/pages/Tasks.tsx:26-38 | green exactly for done, red exactly for failed, yellow exactly for unfinished, with the label of each case |
| Tasks.YellowBadgesCounted | src/pages/Tasks.tsx:24-38 | the unfinished count equals the number of yellow badges |
| Tasks.ProgressWidth | src/pages/Tasks.tsx:176 | the width lies in 0..100, equals the progress inside that range, and is clamped outside it |
| Tasks.ProgressWidthMonotone | src/pages/Tasks.tsx:176 | more progress never draws a shorter bar |
| Tasks.StartLoad | src/pages/Tasks.tsx:66-88 | a load while another is in flight does nothing; otherwise the in-flight flag is raised and the kind of load decided |
| Tasks.FinishLoad | src/pages/Tasks.tsx:89-120 | the list replaces the items only on success, and the in-flight flag is cleared in every case |
| Tasks.OverlappingLoadDropped | src/pages/Tasks.tsx:66-68 | a second load during the first is dropped, and a load after the first finishes starts |
| Tasks.InitialLoadSpinner | src/pages/Tasks.tsx:84-106 | the first load shows the spinner and hides it when done |
| Lightbox.SafeImages | src/components/ImageLightbox.tsx:19 | the images shown are exactly the non-empty entries |
| Lightbox.StartIndex | src/components/ImageLightbox.tsx:24 | the start index is clamped into range: the requested index when in range, 0 below it, the last index above it |
| Lightbox.JsRem | src/components/ImageLightbox.tsx:32-33 | JavaScript's remainder agrees with the mathematical one on non-negative operands and stays strictly between minus and plus the divisor |
| Lightbox.KeysStayInRange | src/components/ImageLightbox.tsx:32-33 | the arrow keys keep a valid index valid and step by one around the ring |
| Lightbox.KeysOnEmpty | src/components/ImageLightbox.tsx:32-33 | with no image the keys leave the index at 0 |
| Lightbox.ButtonsMatchKeys | src/components/ImageLightbox.tsx:66-77 | wherever the buttons are drawn they agree with the keys |
| Lightbox.PrevNextInverse | src/components/ImageLightbox.tsx:32-33 | previous and next undo each other |
| Lightbox.NextTimesCountsUp | src/components/ImageLightbox.tsx:33 | before the last image k presses move k images forward |
| Lightbox.FullCircle | src/components/ImageLightbox.tsx:33 | as many presses as images return to the start |
| Card.ImagePaths | src/components/GenerationCard.tsx:30-36 | a non-image has no paths; an image shows its non-empty stored paths, else its result path, else nothing |
| Card.ImagePathsFromRecord | src/components/GenerationCard.tsx:30-36 | every path shown is a stored image path or the result path |
| Card.CoverPath | src/components/GenerationCard.tsx:37 | an image's cover is its first path, anything else's is its result path |
| Card.CoverCount | src/components/GenerationCard.tsx:38 | the count is the number of image paths for an image, else 0 |
| Card.CountBadgeNeedsTwoImages | src/components/GenerationCard.tsx:81 | the count badge shows exactly for an image with at least two non-empty stored paths |
| Card.SuggestedName | src/components/GenerationCard.tsx:39-44 | no name exactly when there is no non-empty cover; an offered name starts with the prompt's prefix (or `video`/`image` by kind), `_` and the timestamp |
| Card.SuggestedNameEndsInCoverExt | src/components/GenerationCard.tsx:39-44 | a suggested name ends in the cover's extension, with no sequence number |
| Text.Trim | src/lib/downloadName.ts:4 | the result is the input without its leading and trailing whitespace, and starts and ends with non-whitespace |
| Text.TrimIdempotent | src/lib/downloadName.ts:4 | trimming twice is trimming once |
| Text.TrimEmptyIff | src/lib/datetime.ts:2-3 | the trim is empty exactly when the input is all whitespace |
| Text.CollapseRunsSeparated | src/lib/downloadName.ts:4 | after collapsing, no two neighbouring characters are both in the run class |
| Text.CollapseRunsStep | src/lib/downloadName.ts:3-4 | appending a character appends the replacement when it opens a run, nothing when it continues one, and the character itself otherwise, which with the empty case determines the whole result |
| Text.CollapseRunsSplice | src/lib/downloadName.ts:3-4 | a non-empty run between pieces that do not touch it with run characters becomes one replacement, each piece collapsed on its own |
| Text.NatToStringRoundTrip | src/lib/downloadName.ts:10 | the decimal string of a number reads back as the number |
| Text.NatToStringInjective | src/lib/downloadName.ts:10 | distinct numbers have distinct decimal strings |
| Text.UnitLength | src/lib/downloadName.ts:37 | a string's `length` lies between its number of characters and twice that |
| Text.UnitLengthAppend | src-main/services/api.ts:60 | `length` adds up over concatenation |
| Text.BmpUnitLength | src-main/services/api.ts:60 | on text of one-unit characters `length` is the number of characters |
| Text.TakeUnits | src-main/services/api.ts:57-60 | `slice(0, n)` gives the longest prefix of at most n code units, and the whole string when it fits |
| Text.BmpTakeUnits | src/lib/downloadName.ts:37 | on text of one-unit characters `slice(0, n)` is the first n characters |
| Text.PadStart | src/lib/downloadName.ts:10 | the result is at least the width, ends with the input, and is padded only with the pad character |

## Left out

- The HTTP transport (`makeRequest`, its headers, TLS and timeouts) is a function parameter that returns the reply or the error message. JSON parsing is left out: replies arrive as records.
- `downloadFile`, `saveFile`, `Buffer.from(..., 'base64')` and `fs.statSync` are left out in the same way: they are parameters whose results stand for what the file system did.
- Timers (`setInterval`) are left out. The poller registry is modelled as a set. A poll is two steps over the state, one up to its `await` of the download and one after it; interleavings at any other `await` (the status request, the file checks) are not modelled.
- `Date.now()`, `new Date()`, `uuidv4()` and `Math.random()` are value parameters: an instant, the local time fields, an id, and the hex digits. A generation reads the clock three times, and each reading is its own parameter: the insert's `datetime('now')` (`created`), the boundary's `Date.now()` in milliseconds (`nowMs`), and the update's `datetime('now')` (`updated`).
- `listPendingVideoTaskIds`, `getGenerationByTaskId` and `updateGenerationByTaskId` are not part of this model. The poll works on a map from task id to record. The 500-row limit of the pending list is the caller's concern.
- `formatDateShanghai`, `toLocaleString` and the `Date` parser are left out. `DateNormalize` models the text handed to `new Date` and stops there.
- `new URL` and `decodeURIComponent` are parameters of `StaticUrl`. The model does not implement URL parsing.
- SQL `LIKE` wildcards inside search text are not interpreted: a search is an ASCII case-insensitive substring test.
- Progress is an integer throughout. A reply whose `progress` is not a number is read as absent. Coercions such as `NaN` are not modelled.
- Requests.GenerateImage: the reference image the caller may pass is ignored by the source, and the model ignores it too.
- Multipart.BuildForm: a field value or file that happens to contain the boundary is not detected, as in the source.
- Filenames.VideoFilename: the `catch` path of `getVideoFilename` computes the same name, so it is not modelled separately.
- Filenames.SuggestedPrefix: when the twelfth code unit is the first half of a surrogate pair, JavaScript keeps that lone half, while the model stops before the whole character, because a string here is a sequence of Unicode scalar values and cannot hold a lone surrogate.
- Filenames.VideoPrefix: the same applies to the cut at 18 code units.
- Filenames.VideoFilename: the same applies to the cut at 60 code units, which a real date never reaches: the cut bites only for out-of-range clock fields or a year of more than 30 digits.
- Requests.ImageSize: the size table is a plain object, so an aspect ratio naming an inherited property (`constructor`, `toString`, `__proto__`) looks up a function or object rather than a size; the model treats every key outside the table as missing and gives the square size.
- Store.Ordered: SQLite leaves the order of rows with equal `created_at` open; the model keeps such rows in table order.
- React rendering, toasts, scrolling and the IPC layer are left out: they carry no logic beyond the pieces above.
