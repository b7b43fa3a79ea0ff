# Download-job table of the youtube-downloader API

This project models the state machine behind the downloader's HTTP API
(`api.py`): a table of download records keyed by id, and a temp folder of
fetched files. Each handler is modelled as one atomic, sequential step on
that state:

- **create** (`POST /download/`) inserts a record with status `Downloading`;
- the **progress hook** rewrites a record's status, and for events other
  than `finished` its percentage, for each event the fetch engine reports;
- the **background task** (`download_video`) runs the engine's events through
  the hook, records the file name and title of a successful fetch, and then
  always marks the job `Completed`;
- **progress lookup**, **listing** of completed jobs (each id also shown in
  Base64, section 4 of RFC 4648, over its UTF-8 bytes), **serving** a file,
  **deleting** one job and **clearing** everything.

Files:

- `wrappers.dfy`: `Option` and `Result`.
- `utf8.dfy`: UTF-8 encoding of a string, with a strict decoder and the round trip.
- `base64.dfy`: Base64 encoding with `=` padding, with a decoder and the round trip.
- `jobs.dfy`: module `Jobs` holds the record, the progress event and the
  fetch outcome. It gives the effect of the progress hook, the fetch, the
  lookup and serving as functions of the table, and the listing as the
  predicate `IsListing`. Create, delete and clear give their new state
  directly in service.dfy. Module
  `JobLemmas` holds the properties that relate several calls.
- `service.dfy`: class `DownloadService` has the table (`map<string, Job>`)
  and the folder (`set<string>`) as fields. It has one method per
  state-changing handler, each with a contract that gives the new table and
  folder (in terms of the functions of `Jobs` for the hook and the fetch).
  `ClientScenario`, a method of module `Service` outside the class, is a
  client: submit, progress, fetch, serve, delete, clear and list, checked
  from the contracts alone.

The fetch engine is an input. `DownloadVideo` takes the sequence of progress
events the engine reports, the outcome (`Fetched(ext?, title?)` or
`FetchFailed`), and the set of files it left in the folder. The uuid of a new
job is a caller-supplied id that must not be in the table yet.

Quirks of the code that the model keeps:

- A new record has no title (None), not an empty title. Its percentage is
  the column default, 0.
- `"finished"` is not terminal. The hook does not look at the current status,
  so a later event overwrites `Completed` (`JobLemmas.FinishedNotTerminal`).
- A failed fetch also ends `Completed`. No `Failed` state is reachable.
- Serving an unknown id, or a record whose file is missing, raises a 404.
  The generic `except` catches it and re-raises it as a 500. The detail is
  `Internal Server Error: 404: File not found`. Deleting an unknown id is
  also a 500, with detail `Internal Server Error`.
- A progress event with a positive `total_bytes` and no `downloaded_bytes`
  makes the hook raise. The exception ends the fetch: later events are not
  delivered, and finalisation takes the failure branch.
- The percentage is neither bounded to 0..100 nor monotone. Nothing in the
  code enforces either, so no contract claims them.

## Model

| member | source | states |
|---|---|---|
| Jobs.Percent | api.py:97-98 | a missing or zero total gives 0; a positive total with no downloaded count raises; otherwise percent × total = downloaded × 100 |
| Jobs.ApplyProgress | api.py:93-101 | the hook raises exactly when the event is not finished and the percentage raises; it keeps the key set and every other record; it changes only the job's status and percent; finished sets Completed and keeps percent; any other event stores the label and the percentage |
| Jobs.RunHooks | api.py:62-68 | delivering the events in order keeps the key set, every other record, and the job's url, file name and title; it stops with `raised` exactly when some event makes the hook raise |
| JobLemmas.RunHooksSnoc | api.py:62-68 | delivering one more event after a run that raised changes nothing; otherwise it applies the hook to the table the earlier events left, and raises exactly when that hook call raises |
| JobLemmas.LastEventWins | api.py:93-101 | after a run that did not raise, the job holds what its last event wrote: Completed with the earlier percent for a finished event, else that event's label and percentage |
| Jobs.FileNameFor | api.py:69 | the saved name is the id, a dot, and the reported extension, or mp4 when none is reported |
| Jobs.Finalise | api.py:66-90 | keeps the key set and every other record; the job ends Completed with its url and percent kept; a fetch that returned without a hook raising writes file name id.ext and the title (Unknown Title when none); otherwise file name and title stay as they were |
| Jobs.FetchResult | api.py:58-91 | the whole background fetch keeps the key set and every other record, and leaves the job Completed with the percentage its progress events left |
| Jobs.GetProgress | api.py:116-127 | "no progress" exactly for an unknown id; otherwise the record's url, status, percent and title |
| Jobs.ServeFile | api.py:148-177 | a file is served exactly when the record exists and names a regular file of the folder, under the record's file name at temp_downloads/name; otherwise the 500 that wraps the 404 |
| JobLemmas.ProgressIdempotent | api.py:93-101 | delivering the same event twice leaves the table as one delivery did |
| JobLemmas.FinishedNotTerminal | api.py:94-99 | after a finished event sets Completed, a later event of another label replaces that status |
| JobLemmas.FetchEndsCompleted | api.py:66-91 | after the background fetch the job is Completed and no other record changed; a fetch that returned without a hook raising wrote file name id.ext (ext defaulting to mp4) and the title (defaulting to Unknown Title); otherwise file name and title are as before |
| JobLemmas.FetchOfUnknownId | api.py:74-90 | the background fetch of a job no longer in the table leaves the table unchanged |
| JobLemmas.FileNamesDistinct | api.py:60-69 | two jobs whose ids differ but have the same length never save to the same file name |
| Utf8.RoundTrip | api.py:137 | decoding the UTF-8 bytes of a string gives the string back |
| Utf8.EncodeInjective | api.py:137 | distinct strings have distinct UTF-8 bytes |
| Base64.Encode | api.py:137 | the encoding of n bytes has 4·⌈n/3⌉ characters |
| Base64.EncodeAlphabet | api.py:137 | every character of an encoding is in the Base64 alphabet or is the `=` pad |
| Base64.RoundTrip | api.py:137 | decoding an encoding gives the bytes back |
| Utf8.Encode | api.py:137 | the UTF-8 bytes of the id, 1 to 4 per character |
| JobLemmas.FetchedFileIsServed | api.py:66-91 | after a fetch that returned without a hook raising, and whose file id.ext is in the folder, serving the id gives temp_downloads/id.ext under the name id.ext |
| Jobs.EncodeId | api.py:137 | the display id decodes (Base64, then UTF-8) back to the id |
| Base64.StandardVectors | api.py:137 | the encoder gives the published test vectors of section 10 of RFC 4648 ("f" → "Zg==", …, "foobar" → "Zm9vYmFy"), which fix the standard alphabet and its order |
| Jobs.InfoOf | api.py:138-144 | a listing entry carries the record's id, file name, title and url, and an encoded name that decodes to the id |
| JobLemmas.DisplayIdInjective | api.py:137 | distinct ids have distinct display ids |
| JobLemmas.ListingShape | api.py:132-146 | a listing is "no files available" exactly when no record is Completed; otherwise it has one entry per Completed record |
| JobLemmas.ListedIdsDecode | api.py:136-143 | each listed entry's encoded name decodes to that entry's id |
| JobLemmas.FetchedJobIsListed | api.py:89-90 | after the background fetch, every listing includes the job with its display id |
| JobLemmas.EmptyTableListing | api.py:146 | the listing of an empty table is exactly "no files available" |
| Service.DownloadService.constructor | api.py:28-54 | the service starts from the table and folder it is given |
| Service.DownloadService.CreateDownload | api.py:103-114 | inserts the fresh id with the url, file name "", status Downloading, percent 0 and no title; leaves every other record and the folder unchanged; replies "Download started" with the id |
| Service.DownloadService.ProgressHook | api.py:93-101 | the table becomes `ApplyProgress` of the old table, or stays the same when the hook raises; the folder is unchanged |
| Service.DownloadService.DownloadVideo | api.py:58-91 | delivers the events through the hook until one raises, then finalises; the table becomes `FetchResult` of the old table, and the folder gains the files the engine produced |
| Service.DownloadService.ListFiles | api.py:129-146 | the reply lists every Completed record exactly once, with its encoded id, file name, id, title and url, or is "no files available" when there is none |
| Service.DownloadService.DeleteFile | api.py:179-198 | an unknown id is a 500 that changes nothing; otherwise the record and its file are removed, nothing else changes, and a later lookup or serve of the id fails |
| Service.DownloadService.ClearAllDownloads | api.py:200-218 | removes every file of the folder and every record, whatever its status |

## Left out

- `index.py` is not part of this model. It is a thread pool over the fetch library plus console input, with no logic of its own.
- The fetch library and its options are not modelled. Its effect enters as the event sequence, the outcome and the set of files produced.
- Scheduling and concurrency are not modelled: background tasks, the database session and commit mechanics, and pool sizing. Each handler is one atomic step, and a background fetch is one step that runs after the job was created.
- The web framework layers are left out: routing, CORS, the request model, and streaming with its headers. `ServeFile` returns the path and the attachment name instead of streaming.
- The file system is a set of regular-file names in the temp folder, and the empty name is never in it. Sub-directories of the folder, which `clear_all_downloads` skips, are not modelled.
- The folder creation at startup is not modelled, and neither is persistence across restarts beyond the constructor's arguments.
- Jobs.Percent: uses exact rational division, so float rounding of the stored percentage is not modelled.
- Logging calls are left out.
- A database or file-system failure (every 500 path other than the caught 404: a failing commit, `os.remove` or `os.listdir`) is not modelled; `DeleteFile` and `ClearAllDownloads` always succeed. A uuid collision on create is excluded by the requirement that the id be fresh.
- Service.DownloadService.ListFiles: states which entries appear but not their order. The query has no `ORDER BY`, so the order is the database's.
- Info entries whose value is present but null (an `ext` or `title` of None in the returned info) are not modelled. Those entries are either a string or absent.
