# HLS segment watcher and Catbox uploader, modelled in Dafny

The repository has two scripts that watch a live HLS stream and push its media segments to
Catbox, a file host.

**index.php** runs a `while (true)` loop:
- Each cycle it fetches the playlist and picks out every line that contains `.ts`.
- It derives a short name for each segment line and resolves the line against the playlist's
  directory.
- For a new name it downloads the segment, saves it and uploads it with `catbox_upload`.
- For a name it has already downloaded, it uploads again only when the local file still
  exists and `$uploaded` does not mark the name.
- Every upload appends one `TS | NAME | STATUS | INFO` record to `upload_log.txt`. At startup
  the log is replayed into the `$uploaded` map.
- `catbox_upload` first tries cURL up to `maxRetry` times. An error that names HTTP/2 or
  `PROTOCOL_ERROR`, or a PHP build without cURL, hands over to a second loop. That loop builds
  a `multipart/form-data` body by hand (section 5.1.1 of RFC 2046, RFC 7578) and posts it over
  a plain stream, again up to `maxRetry` times.

**node.js** lets ffmpeg cut the stream into `seg_NNNNNN.mp4` files and polls the output
directory:
- `processBatch` takes the segment files in sorted order. It starts uploads of stable files,
  skips names already in flight, and keeps at most `MAX_PAR = 2` uploads running.
- `uploadOne` skips a name already listed in `.uploaded.list`. On success it appends
  `name url` to the list and deletes the file. On failure it moves the file to `failed/`.
- When ffmpeg exits, one last batch runs.

The model replaces every I/O call by an input:
- the playlist download is an optional body, and the segment downloads are a function from URL to an optional body, one for each segment line of a cycle;
- each `catbox_upload` attempt is a value giving the cURL error, HTTP code and body, or the
  stream status line and body;
- `FILTER_VALIDATE_URL` is a predicate parameter `isUrl`;
- the random boundary bytes, the detected MIME type and the timestamps are parameters;
- the file-size samples of `isStable` and Catbox's answer to each node upload are inputs.

Modules, one per file:
- `Text` (`text.dfy`): the PHP and JavaScript string functions the scripts rely on: `explode`
  and `split`, `trim`/`ltrim`/`rtrim`, `stripos`, `strrpos`, decimal text and JavaScript's
  string order.
- `UploadLog` (`upload_log.dfy`): the `write_log` record format, `file()` line reading, and the
  startup loop that fills `$uploaded`.
- `Playlist` (`playlist.dfy`): segment-line selection, the short name, and URL resolution.
- `Multipart` (`multipart.dfy`): the fallback body builder and `addslashes`.
- `Catbox` (`catbox.dfy`): `catbox_upload`. Its two counted loops are methods proved against a
  function over each attempt's verdict.
- `Watcher` (`watcher.dfy`): the loop state of index.php. It has a state datatype, a `Step`
  function for one segment line, and a class `Watcher` whose methods update the state in place.
- `UploadedList` (`uploaded_list.dfy`): `markUploaded` and `alreadyUploaded` over the text of
  `.uploaded.list`.
- `Remux` (`remux.dfy`): `isStable`, the filter and sort, the `processBatch` admission rule,
  `uploadOne`, and a class `Uploader` holding the directory contents, the list, the set of
  uploads in flight and the `ffmpegRunning` flag.

Some behaviour of the code is modelled as written, not as one might expect:
- In `catbox_upload`, `$shouldFallback` is set but never read. The fallback loop runs whenever
  the cURL loop ends without returning. With a positive `maxRetry` the last attempt of a loop
  always returns, so the closing message "Gagal upload setelah N percobaan." is reached only
  when `maxRetry <= 0` (`Catbox.OutcomeBudget`).
- `$downloaded` starts empty and is never rebuilt from the log. After a restart, a segment the
  log marks `UPLOADED` is downloaded and uploaded again (`Watcher.RestartUploadsAgain`).
- A segment line starting with `/` is not resolved against the host root. It lands under the
  playlist's directory (`Playlist.RootedSegmentStaysInDirectory`).
- `alreadyUploaded` matches by prefix, so a listed name `a b` makes `a` count as uploaded
  (`UploadedList.NameWithSpaceShadows`).
- The result of `file_put_contents` is ignored. A segment whose write failed is still counted as
  downloaded, uploaded once, and never retried (`Watcher.UnsavedSegmentNotRetried`).
- `markUploaded` appends to `.uploaded.list` without checking that the file ends with a newline.
  After a last line without one, the new name is glued onto it and is not found
  (`UploadedList.GluedLineMissed`).
- `write_log` appends without checking that the log ends with a newline. When the last line is
  a record without one, the next `UPLOADED` record is glued onto it and its name is not marked
  on reload (`UploadLog.GluedRecordMissed`), so after a restart that segment is uploaded again.
- The log's info field is written raw. A failure message that holds a newline followed by a
  well-formed record marks another name on reload (`UploadLog.FailureInfoCanMarkAnother`).

## Model

| member | source | states |
|---|---|---|
| UploadLog.LoadUploaded | index.php:43-55 | the loop's map has exactly the names some log line marks `UPLOADED` as keys, each mapped to true |
| UploadLog.UploadedNamesIff | index.php:45-55 | a name is loaded exactly when some line splits into at least 4 fields on `" \| "` with field 3 `UPLOADED` and field 2 that name |
| UploadLog.MarkedNameOfRecord | index.php:47-53 | a `write_log` record marks its own name exactly when its status is `UPLOADED`, whatever its info holds |
| UploadLog.RecordFields | index.php:220 | `explode(" \| ")` of a record gives the timestamp, the name, the status, then the pieces of the info |
| UploadLog.UploadedNamesAppend | index.php:45-55 | replaying more lines only adds names; a later `UPLOAD_FAIL` never removes an `UPLOADED` name |
| UploadLog.ReplayTwice | index.php:45-55 | replaying a log twice over loads the same names as replaying it once |
| UploadLog.FileLinesAppend | index.php:221 | appending to a log whose last line is complete reads back as the old lines followed by the new ones |
| UploadLog.RecordReloads | index.php:218-222 | after an `UPLOADED` record is appended to a log whose last line is complete, reloading the log marks its name, whatever the info holds, provided the timestamp and the name are single fields without a newline |
| UploadLog.GluedRecordMissed | index.php:218-222 | when the log's last line is a record with no newline after it, an appended `UPLOADED` record is glued onto that line: reloading marks only what the old last line marks, so the new name is lost |
| UploadLog.RecordEffect | index.php:218-222 | a one-line record adds exactly its name to the loaded set when its status is `UPLOADED`, and nothing otherwise |
| UploadLog.FailureInfoCanMarkAnother | index.php:292-293 | an `UPLOAD_FAIL` record whose message holds a newline and a well-formed `UPLOADED` record marks that other name on reload |
| Playlist.SelectedIff | index.php:236-239 | a segment is selected exactly when some playlist line contains `.ts` and trims to it |
| Playlist.SegmentsJoin | index.php:236-238 | segments come line by line, in the order of the playlist |
| Playlist.SegmentsOfLine | index.php:236-239 | one line yields its trimmed self when it contains `.ts`, and nothing otherwise |
| Text.TrimKeeps | index.php:239 | trimming a selected line keeps its `.ts` occurrence |
| Playlist.UrlPath | index.php:240 | the path is the longest prefix before the first `?` or `#` |
| Playlist.ShortName | index.php:240-241 | the short name holds no `/` |
| Playlist.ShortNameOfPath | index.php:240-241 | the short name of `dir/file?query` is `file`: directories, query and fragment are dropped |
| Playlist.ShortNameOfFile | index.php:240-241 | a bare file name with no query is its own short name |
| Playlist.DirnameOf | index.php:267 | `dirname` of `dir/file` is `dir` |
| Playlist.ResolveRelative | index.php:266-271 | a relative line `seg3.ts` is put under the playlist's directory and keeps its short name |
| Playlist.RootedSegmentStaysInDirectory | index.php:266-268 | a line `/file` resolves to the playlist's directory plus `/file`, not to the host root |
| Playlist.SlashSegment | index.php:268 | a line `/file` resolves to the playlist's `dirname`, right-trimmed of `/`, then `/file`: `ltrim` drops the line's leading `/` |
| Watcher.Start | index.php:39-56 | at startup nothing is downloaded, and `$uploaded` holds exactly the names the log marks |
| Watcher.Watcher.constructor | index.php:39-56 | the loaded state is `Start` of the log's text and the save directory |
| Watcher.AfterUpload | index.php:284-294 | recording an upload leaves `$downloaded` and the local files alone |
| Watcher.Watcher.RecordUpload | index.php:284-294 | the new state is the old one with one log record, plus the mark on success |
| Watcher.Watcher.Handle | index.php:244-299 | the new state is `Step` of the old state for that name and URL, the segment's file stored only when the write succeeded |
| Watcher.Watcher.ProcessSegment | index.php:238-299 | the new state is `Step` for the line's short name and resolved URL |
| Watcher.Watcher.Poll | index.php:226-306 | the new state is `Cycle`: the files removed since the last cycle are gone, then each segment line is a `Step`; a failed playlist fetch changes nothing more |
| Watcher.KnownNameNotDownloaded | index.php:244-263 | a name already in `$downloaded` is never fetched again, and the file map and list stay as they were |
| Watcher.UploadsIff | index.php:244-283 | a known name is uploaded again exactly when its file exists and it is not marked; a new name exactly when its download succeeds |
| Watcher.StepLogsEachUpload | index.php:283-294 | each upload appends exactly one `UPLOADED` or `UPLOAD_FAIL` record and marks the name only on success; a step without an upload writes nothing |
| Watcher.FailedDownloadChangesNothing | index.php:296-299 | a failed download leaves the state unchanged, so the next cycle tries again |
| Watcher.StepGrows | index.php:244-299 | `$downloaded` only grows by the fetched name; marks, local files and the log text are kept |
| Watcher.StepValid | index.php:244-299 | a step keeps every name in `$downloaded` at most once |
| Watcher.StepsValid | index.php:238-302 | the segment lines of a cycle keep that invariant |
| Watcher.CycleValid | index.php:226-306 | every cycle keeps that invariant, whatever files vanished and whatever the writes returned |
| Watcher.UnsavedSegmentNotRetried | index.php:244-283 | a segment whose write failed is uploaded once, counted as downloaded, and never uploaded again, because `file_exists` fails for it |
| Watcher.VanishedFileNotRetried | index.php:244-247 | a downloaded segment whose file was removed is neither fetched nor uploaded again |
| Watcher.StartValid | index.php:39-56 | the invariant holds at startup |
| Watcher.StartLogCovers | index.php:39-56 | right after startup, every name in `$uploaded` is one a reload of the log marks, when the log ends with a complete line |
| Watcher.StepLogCovers | index.php:284-294 | a step keeps the log in agreement with `$uploaded`: a reload would mark every name it holds |
| Watcher.RestartUploadsAgain | index.php:274-283 | after a restart a name the log marks `UPLOADED` is still downloaded and uploaded again |
| Catbox.StatusFrom | index.php:187-190 | the status read from a header line is at most 999 |
| Catbox.StatusOfWellFormedLine | index.php:187-190 | the line `HTTP/<version> <code>...` yields its three-digit code |
| Catbox.CurlVerdict | index.php:116-134 | a cURL attempt never gives up at once: it succeeds, retries or hands over to the fallback |
| Catbox.CurlAcceptIff | index.php:126-128 | a cURL attempt succeeds exactly on no error, a 2xx code, and a non-empty trimmed body that `isUrl` accepts; the URL is that trimmed body |
| Catbox.CurlSwitchIff | index.php:116-121 | a cURL attempt hands over to the fallback exactly when its error names HTTP/2 or `PROTOCOL_ERROR` in any letter case |
| Catbox.StreamVerdict | index.php:146-209 | a fallback attempt never switches loops |
| Catbox.StreamAcceptIff | index.php:192-199 | a fallback attempt succeeds exactly when the file was read, a 2xx status came back, and the trimmed body is a non-empty URL |
| Catbox.StreamGiveUpIff | index.php:146-149 | only an unreadable file ends the fallback loop at once |
| Catbox.Attempts | index.php:84-134 | a counted loop uses at most `maxRetry` attempts |
| Catbox.AttemptsShape | index.php:84-134 | a loop stops at its first non-retry verdict or at attempt `maxRetry`, and that attempt decides the outcome |
| Catbox.AttemptsFromStart | index.php:84-134 | a loop with a positive budget makes at least one attempt, falls out only on a switch, and succeeds only on an accepted attempt |
| Catbox.Outcome | index.php:73-213 | neither loop makes more than `maxRetry` attempts |
| Catbox.Run | index.php:73-213 | `catbox_upload` over the attempts' outcomes makes at most `maxRetry` attempts per loop |
| Catbox.RunMissingFile | index.php:74-76 | a missing file fails at once with "File tidak ditemukan", and no attempt is made |
| Catbox.RunAttemptBounds | index.php:83-141 | without cURL no cURL attempt is made; the fallback runs after cURL attempts only when the last of them asked for the switch |
| Catbox.RunCurlStopsEarlyOnlyOnAcceptOrSwitch | index.php:84-134 | every cURL attempt but the last was retryable, and the cURL loop ends early only on success or on the switch |
| Catbox.RunStreamStopsEarlyOnlyOnAcceptOrUnreadable | index.php:141-210 | every fallback attempt but the last was retryable, and the loop ends early only on success or on an unreadable file |
| Catbox.OutcomeOk | index.php:73-213 | the call succeeds exactly when the last attempt made was accepted, and returns that attempt's URL |
| Catbox.RunOk | index.php:73-213 | the same, stated on the raw cURL and stream outcomes |
| Catbox.OutcomeBudget | index.php:141-212 | with `maxRetry <= 0` no attempt is made and the closing message is returned; otherwise the last attempt's own result is returned |
| Catbox.RunBudget | index.php:141-212 | the same, stated on the raw outcomes |
| Catbox.RunAlwaysFailing | index.php:122-133 | a transport that always fails with an ordinary error uses the whole cURL budget and reports the last message; the fallback is never tried |
| Catbox.ThreeTimesHttp500 | index.php:131-133 | three answers of 500 "oops" give `[false, "HTTP 500, response: oops"]` after 3 attempts |
| Catbox.Http500Verdict | index.php:133 | the message of one such attempt is "HTTP 500, response: oops" |
| Catbox.CatboxUpload | index.php:73-213 | the result and attempt counts are those of `Run`, and the requests sent are those of the fallback attempts made |
| Catbox.CurlLoop | index.php:84-135 | the cURL loop ends as `Attempts` over the cURL verdicts says |
| Catbox.CurlAttemptStep | index.php:111-134 | one pass returns or breaks as that attempt's verdict says, or goes round again with the loop's outcome unchanged |
| Catbox.StreamLoop | index.php:141-210 | the fallback loop ends as `Attempts` over the stream verdicts says, and sends one request for each attempt that read the file |
| Catbox.Send | index.php:143-185 | a fallback attempt sends the built body with its headers exactly when the file was read |
| Multipart.BuildBody | index.php:151-166 | the body built by the `.=` appends is the RFC 2046 encoding of the `reqtype`, `userhash` and `fileToUpload` parts |
| Multipart.AppendField | index.php:153-159 | the appends for a plain field add its opening line, its part and CRLF |
| Multipart.AppendFile | index.php:161-164 | the appends for the file add its opening line, a part with two headers and the data, and CRLF |
| Multipart.EncodeSplits | index.php:151-166 | cutting the body along `CRLF--boundary` gives the parts back, unchanged and in order, when the boundary occurs in no part |
| Multipart.ThreePartBodySplits | index.php:151-166 | a three-part body cuts into an empty preamble, the three parts, and the closing `--` |
| Multipart.CatboxBodySplits | index.php:151-166 | the Catbox body cuts into `reqtype`, `userhash` and the file, in this order |
| Multipart.ContentLengthMatches | index.php:168-170 | the `Content-Length` header is decimal digits whose value is the body's length |
| Multipart.AddSlashes | index.php:162 | escaping at most doubles the file name's length |
| Multipart.StripAddSlashes | index.php:162 | the quoting is lossless: `stripslashes` recovers the file name |
| Multipart.AddSlashesQuotes | index.php:162 | every `"` in the escaped name comes right after a backslash |
| UploadedList.AlreadyUploadedIff | node.js:43-46 | a name is listed exactly when some line of the list starts with the name and a space |
| UploadedList.AppendedLine | node.js:40 | after text is appended to a list whose last line is complete, a prefix is found exactly when it was found in the old list or is found in the appended text |
| UploadedList.MarkThenAlready | node.js:39-46 | after `markUploaded` the name is found, earlier finds still hold, and the old text is a prefix of the new |
| UploadedList.GluedLineMissed | node.js:24-46 | when the list's last line lacks its newline, the next `name url` is glued onto it, and that name is not found afterwards unless the glued line starts with it |
| UploadedList.NameWithSpaceShadows | node.js:45 | once `base rest` is listed, `base` counts as uploaded although it never was |
| UploadedList.UnreadableListIsEmpty | node.js:44 | an unreadable list counts as empty |
| Remux.IsStableIff | node.js:31-37 | a file is stable exactly when both size samples exist, are equal and are not zero |
| Remux.SegmentFilesIff | node.js:109-110 | the filter keeps exactly the `seg_*.mp4` names, and no more copies than listed |
| Remux.SortCorrect | node.js:111 | the sort is ascending and a permutation of its input |
| Remux.CandidatesCorrect | node.js:109-111 | the batch walks exactly the listed segment files, each as often as listed, in ascending order |
| Remux.AdmitLoop | node.js:113-122 | the loop starts exactly the names `Admit` picks and adds them to the in-flight set |
| Remux.AdmitOnlyEligible | node.js:113-121 | a batch starts only listed names that are not in flight, are present and are stable, and none of them twice |
| Remux.AdmitBound | node.js:114 | a batch starts nothing once `MAX_PAR` uploads are in flight, and never takes the in-flight set above `MAX_PAR` |
| Remux.AdmitMaximal | node.js:113-122 | if fewer than `MAX_PAR` uploads are in flight after a batch, every eligible listed name was started |
| Remux.AdmitInOrder | node.js:111-122 | uploads start in sorted order, oldest segment first |
| Remux.UploadOneListed | node.js:50 | a name already listed is not uploaded, and no file and no list changes |
| Remux.UploadOneSuccess | node.js:52-56 | a success appends exactly `name url\n` to any list and deletes the file, and nothing moves to `failed/`; the name is then found when the list ended with a complete line and the name holds no newline |
| Remux.UploadOneFailure | node.js:57-62 | a failure leaves the list alone and moves the file, if it is there, to `failed/` |
| Remux.SettleAllShrinks | node.js:121 | settling uploads only removes names from the in-flight set |
| Remux.SettleAllKeepsFile | node.js:48-63 | a file whose upload did not settle stays in `OUT_DIR` |
| Remux.RoundBound | node.js:114-127 | a poll pass never takes the in-flight set above `MAX_PAR` |
| Remux.NewSegmentStarted | node.js:109-128 | a segment file ffmpeg wrote, listed, stable, not in flight and not settled in that pass is started by the pass's batch, unless `MAX_PAR` uploads are in flight after it |
| Remux.Uploader.constructor | node.js:23-24 | whatever the list held is kept, an empty list is created when missing, and nothing is in flight |
| Remux.Uploader.UploadOne | node.js:48-63 | the upload is attempted exactly when the name is not listed, and the directories and list change as `UploadOneEffect` says |
| Remux.Uploader.Finish | node.js:121 | a settled upload applies `uploadOne`'s effect and leaves the in-flight set; after a success the name is found in the list when the list ended with a complete line and the name holds no newline |
| Remux.Uploader.ProcessBatch | node.js:108-123 | the batch starts the names `Admit` picks from the sorted segment files, adds them to `uploading`, and touches no file |
| Remux.Uploader.RunRound | node.js:109-129 | a poll pass is `AfterRound`: ffmpeg's new files appear, the uploads that finished settle, then a batch runs; at most `MAX_PAR` uploads stay in flight |
| Remux.Uploader.PollWhileRunning | node.js:126-129 | the `while (ffmpegRunning)` loop runs one pass per batch that sees ffmpeg running, and ends in the state `AfterRounds` gives for those passes |
| Remux.Uploader.Drive | node.js:126-131 | the batches before ffmpeg's exit see it running, exactly one batch follows the exit, and the final state is `AfterRounds` over all those passes |

## Left out

- The network, the filesystem and the clock are inputs, not calls. That covers the playlist and segment downloads, cURL, `file_get_contents` on the endpoint, `$http_response_header`, the Catbox library, `fsp.stat`, `readdir`, `appendFile`, `unlink` and `rename`.
- `FILTER_VALIDATE_URL`, `mime_content_type`, `random_bytes` and `date()` are foreign library calls. They are a predicate parameter and plain inputs.
- Stdin prompts, argv and environment parsing, `mkdir`, and console output are plumbing and are not modelled.
- `sleep`, `usleep`, `setTimeout` and the 90-second timeouts are not modelled: timing plays no part in the decisions.
- The ffmpeg subprocess, its exit event and the SIGINT/SIGTERM cleanup are not modelled. The exit is an input saying after which batch `ffmpegRunning` turns false.
- `file_put_contents` of a segment is an input `written` per segment line. Its result is ignored by the script, and the model stores the file only when it is true. Files that something else removes from the save directory are an input `vanished` per cycle of index.php.
- The segment download is an input per segment line of a cycle, like the write result, the upload outcome and the timestamp.
- The outcome of `catbox_upload` for each upload is an input. It is not tied to whether the segment's file was written.
- In node.js, `readdir` and ffmpeg's writes are separate inputs of a pass: `Round.created` adds files to `OUT_DIR`, and `Round.listing` is what `readdir` returns. The listing is not required to match the directory, just as a name can vanish between `readdir` and `exists`.
- A settled upload that the model has no record of starting (`Remux.Settle` of a name not in flight) changes nothing: only a started upload has a promise that can settle.
- Async interleaving in node.js is not modelled. An upload's completion is a separate step (`Remux.Uploader.Finish`), and `processBatch`'s awaits are taken to run without other uploads settling in between.
- Remux.Uploader.ProcessBatch: collects the names in a local set and stores it into `uploading` once the loop ends. With no interleaving modelled, that is the same state as adding to the field inside the loop.
- `$DELETE_LOCAL_AFTER_UPLOAD` is false in the script, so the `unlink` after an upload in index.php is dead code and is not modelled. Local files are always kept.
- The `while (true)` of index.php is modelled one cycle at a time (`Watcher.Watcher.Poll`). Its repetition is not a method of its own.
- Playlist.UrlPath: `parse_url` is simplified to the text before the first `?` or `#`. Scheme, host and port are not separated out. The short name agrees with the script for relative paths and for `scheme://host/path` URLs. It differs in these cases:
  - a scheme-like prefix without `//`: `a:1.ts` is `1.ts` in the script but `a:1.ts` here;
  - an authority with no path: `https://host?a.ts` is `host?a.ts` in the script but `host` here;
  - control characters, which `parse_url` replaces with `_` and the model keeps.
- Remux.Sort: JavaScript's default sort compares UTF-16 code units, and the model compares Unicode code points. The two orders differ only for names with characters outside the Basic Multilingual Plane.
- Text.ContainsIgnoringCase: `stripos` folds only ASCII letters, as PHP 8.2 does. Locale-dependent folding in older PHP versions is not modelled.
- A failing `appendFile` in `markUploaded` would make `uploadOne` move the file to `failed/` although it was uploaded. Write failures are not modelled.
- A `Throwable` in the fallback's try block is modelled as an attempt that throws before its request is sent (`Threw`). An exception raised after the request went out is not distinguished from one raised before.
