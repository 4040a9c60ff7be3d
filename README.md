# privacy-extensions measurement pipeline, modelled in Dafny

The pipeline measures how browser privacy extensions change page loads. A
host-side wrapper visits each domain in a Docker container, once per extension
configuration. Inside the container, a session runner drives Firefox or Chrome
and waits for the HAR exporter extension's capture. The capture reaches the
container through a framed-message bridge (`har_catcher.py`).

During the visit the runner samples kernel performance counters with `perf`.
It then writes one JSON bundle, `{'har': ..., 'perf': ...}`, to standard output.

The wrapper sanitises that output. It deletes the response bodies and the
escaped NUL characters. It stores the result through a PostgreSQL write path
that reconnects lazily.

The model covers the logic of these five pieces. The browser, the display,
`perf`, Docker and PostgreSQL are abstract.

- `wrappers.dfy`: `Option` and `Result`.
- `seqs.dfy` (module `Seqs`): small sequence facts, stated apart so that each is proved on its own.
- `json.dfy` (module `Json`): JSON values and the few Python operations the
  pipeline uses on them:
  - truthiness;
  - subscripting;
  - `in` and `del`, with the `TypeError`s they raise.
- `har_catcher.dfy` (module `HarCatcher`): the framed-message receiver.
  - The frame decoder is a function; `Encode` is its inverse.
  - The process is a class `CaptureBridge`. Its fields are standard input,
    `har.json`, the `har.json.ready` marker and the log of file operations.
    Its working directory either accepts writes or refuses them.
- `perf_events.dfy` (module `PerfEvents`): the `perf script` CSV dialect and
  `parse`'s per-event summation.
  - The summation is a loop, `Accumulate`, proved against the function
    `Samples`.
  - The module also holds Python's `int()` on the fields, and the
    `sleep timeout+1` command of the recording.
- `extensions.dfy` (module `Extensions`): resolving `--extensions`.
  - `str.split(',')`.
  - `glob("<name>*.xpi")` (or `.crx`) over a directory listing.
  - The exactly-one-match rule.
- `session.dfy` (module `Session`): the measurement both runners share.
  - A class `Container` holds a clock, the marker's appearance time, the
    page's behaviour, the `perf script` output, the extension directory and
    the trace of actions taken.
  - It provides the warm-up sleep, the sampler start, the navigation, the
    marker poll loop, the sampler stop and the HAR read.
- `firefox_run.dfy` and `chrome_run.dfy` (modules `FirefoxRun`, `ChromeRun`):
  the two `main` functions as methods over a `Container`. Their traces are
  stated as functions, with ordering lemmas.
- `sanitizer.dfy` (module `Sanitizer`): `get_extended_har` once the container
  has run.
  - The entry loop that deletes `response.content.text`.
  - The `re.sub(r"(\\)+u0000", "", ...)` NUL stripping.
  - The mapping of failures to `(None, error)`.
- `database.py`'s write path is `database.dfy` (module `Database`).
  - A class `Store` holds a connection state and a table.
  - The server may refuse a connection, a row, or the `CREATE TABLE` and
    `DROP TABLE` commands.
  - `_execute_command`, `_connect`, `_table_exists`, `create`, `drop` and
    `insert` are mutually recursive methods.
- `orchestrator.dfy` (module `Orchestrator`): `run_configuration` and `run`.
  - `random.shuffle` is an in-place Fisher–Yates loop with an arbitrary
    choice at each step.
  - The visit schedule is proved about what the loops produce.

## Model

| member | source | states |
|---|---|---|
| HarCatcher.Uint32 | docker/firefox/har_catcher.py:16 | a 4-byte prefix decodes to a length below 2^32 |
| HarCatcher.Uint32Bytes | docker/firefox/har_catcher.py:16 | the sender's prefix for any length below 2^32 is 4 bytes and decodes back to that length |
| HarCatcher.NextFrame | docker/firefox/har_catcher.py:10-18 | end of input exactly when no byte is left; a 1–3 byte remainder is a bad prefix that consumes everything; otherwise the payload is the bytes after the prefix, as many as the prefix announces or as remain, whichever is fewer, and the rest follows it |
| HarCatcher.Uint32BytesOfUint32 | docker/firefox/har_catcher.py:16 | every 4-byte prefix is the sender's prefix for the length it decodes to |
| HarCatcher.NextFrameOfEncoded | docker/firefox/har_catcher.py:11-17 | a well-formed frame followed by anything is read back as exactly its payload, leaving the rest |
| HarCatcher.WholeFrameIsEncoded | docker/firefox/har_catcher.py:11-17 | conversely, an input holding at least the announced number of payload bytes is a well-formed frame of that payload followed by the rest, and is read so |
| HarCatcher.DecodeAppend | docker/firefox/har_catcher.py:20-24 | frames in front of any input are processed first, in order, and the ending is that of the remaining input |
| HarCatcher.Decode | docker/firefox/har_catcher.py:20-24 | the loop itself never ends in a write failure, and it ends through the handler on a prefix only when 1–3 bytes remain, fewer than a full length prefix |
| HarCatcher.RoundTrip | docker/firefox/har_catcher.py:10-24 | on the concatenated frames of m1..mn the loop processes exactly m1..mn in order and exits cleanly |
| HarCatcher.ZeroLengthIsEmptyMessage | docker/firefox/har_catcher.py:13-17 | a zero length prefix is not end of input: it yields an empty message and the loop continues |
| HarCatcher.TruncatedPrefix | docker/firefox/har_catcher.py:16-27 | a 1–3 byte prefix ends the loop through the exception handler with no message |
| HarCatcher.ShortPayload | docker/firefox/har_catcher.py:17 | a payload cut short by the end of input is still delivered, then the loop exits cleanly |
| HarCatcher.Ops | docker/firefox/har_catcher.py:21-24 | every processed message causes exactly two file operations |
| HarCatcher.OpsAppend | docker/firefox/har_catcher.py:22-24 | one more message adds a write of that message followed by a touch of the marker |
| HarCatcher.TouchFollowsWrite | docker/firefox/har_catcher.py:21-24 | the marker is touched only right after a write of the corresponding message, so never before the first message |
| HarCatcher.CaptureBridge.Read | docker/firefox/har_catcher.py:11-17 | `read(n)` returns the next min(n, remaining) bytes and consumes them |
| HarCatcher.CaptureBridge.GetMessage | docker/firefox/har_catcher.py:10-18 | the frame read and the input left are those of the decoder `NextFrame` |
| HarCatcher.CaptureBridge.WriteHarFile | docker/firefox/har_catcher.py:22-23 | where writes succeed, `har.json` holds exactly the message (mode `'wb'` overwrites); where they are refused, `open` fails and nothing changes |
| HarCatcher.CaptureBridge.TouchMarker | docker/firefox/har_catcher.py:24 | where writes succeed the marker exists afterwards; otherwise `touch` fails and nothing changes |
| HarCatcher.CaptureBridge.Save | docker/firefox/har_catcher.py:21-24 | `har.json` holds the message, then the marker exists, and the two operations are logged in that order; where writes are refused, it reports failure and changes nothing |
| HarCatcher.CaptureBridge.Run | docker/firefox/har_catcher.py:9-27 | where writes succeed (or no message arrives), the loop consumes all input, ends as `Decode` says, performs write/touch for each decoded message, leaves `har.json` equal to the last message and the marker set iff some message arrived; where writes are refused, the first message ends the loop through the handler, unsaved, with the input after it left unread and no file touched |
| PerfEvents.Decimal | docker/firefox/perfevents.py:33 | `str(n)` of a natural is a non-empty string of digits |
| PerfEvents.RecordCommand | docker/firefox/perfevents.py:27-33 | the recording asks `perf` for each of the five sampled counters (`-e`), system-wide (`-a`) |
| PerfEvents.SleepOutlastsTimeout | docker/firefox/perfevents.py:33 | the recorded `sleep` runs for `timeout + 1` seconds: its argument parses back to `timeout + 1` |
| PerfEvents.ParseIntToString | docker/firefox/perfevents.py:70 | `int(str(n)) == n` for every integer |
| PerfEvents.TrimStart | docker/firefox/perfevents.py:70 | a suffix of the input that does not start with whitespace |
| PerfEvents.TrimEnd | docker/firefox/perfevents.py:70 | a prefix of the input that does not end with whitespace |
| PerfEvents.TrimDigits | docker/firefox/perfevents.py:70 | trimming leaves a string without outer whitespace unchanged |
| PerfEvents.ParseInt | docker/firefox/perfevents.py:70 | `int()` of a blank string raises; a value it accepts came from a string holding a digit, and a negative one from a string holding `-` |
| PerfEvents.UnsignedDecimal | docker/firefox/perfevents.py:70 | a rendered natural is read back as itself |
| PerfEvents.DigitsValueDecimal | docker/firefox/perfevents.py:70 | the digits of `str(n)` have the value n |
| PerfEvents.WithoutUnderscoresDigits | docker/firefox/perfevents.py:70 | removing the digit-group underscores leaves only digits |
| PerfEvents.WithoutUnderscoresOfDigits | docker/firefox/perfevents.py:70 | a string of digits has no underscore to remove |
| PerfEvents.Lines | docker/firefox/perfevents.py:64 | no line holds the line terminator |
| PerfEvents.Scan | docker/firefox/perfevents.py:13-17 | every line tokenises into at least one field |
| PerfEvents.ScanSpaceFree | docker/firefox/perfevents.py:14-16 | no field holds the delimiter (there is no quoting) |
| PerfEvents.SkipInitialSpaces | docker/firefox/perfevents.py:17 | spaces at the start of a field are skipped |
| PerfEvents.SpaceRunSeparates | docker/firefox/perfevents.py:14-17 | a run of spaces after a field ends that field exactly once |
| PerfEvents.ScanWord | docker/firefox/perfevents.py:14-16 | a word without spaces is read into the current field whole |
| PerfEvents.FieldsOfJoined | docker/firefox/perfevents.py:13-17 | non-empty space-free fields joined by single spaces are read back as the same fields |
| PerfEvents.Fields | docker/firefox/perfevents.py:13-17 | a line gives no fields iff it is empty, and no field holds the delimiter |
| PerfEvents.Table | docker/firefox/perfevents.py:64-65 | one row per input line |
| PerfEvents.DataRows | docker/firefox/perfevents.py:64-69 | the rows after the header, with empty rows skipped |
| PerfEvents.RestValues | docker/firefox/perfevents.py:64-65 | every column a row does not reach maps to None, and nothing else is added |
| PerfEvents.Zip | docker/firefox/perfevents.py:64-65 | every key of `dict(zip(names, row))` is a column name mapped to a field, and every column the row reaches is a key |
| PerfEvents.ZipKeys | docker/firefox/perfevents.py:64-65 | the keys are exactly the names of the columns the row reaches |
| PerfEvents.ZipValues | docker/firefox/perfevents.py:64-65 | with distinct column names, each column the row reaches maps to its own field |
| PerfEvents.DictRowColumns | docker/firefox/perfevents.py:64-70 | with distinct column names, a row maps exactly the header's names, each to its field or to None beyond the row's end |
| PerfEvents.SampleOf | docker/firefox/perfevents.py:64-70 | a row yields a sample only when the header has both `EVENT` and `VAL`; a `KeyError` names a column the header lacks; `int(None)`'s `TypeError` arises only for a row shorter than the header |
| PerfEvents.Samples | docker/firefox/perfevents.py:64-70 | a failure needs at least one data row, and the samples are fewer than the input's lines, the header taking one |
| PerfEvents.SampleOfColumns | docker/firefox/perfevents.py:70 | a row contributes its `EVENT` field and `int(VAL)`, or raises `ValueError` when `VAL` is not an integer literal |
| PerfEvents.Collect | docker/firefox/perfevents.py:69-70 | the loop over rows succeeds iff every row does, and then yields one result per row in order |
| PerfEvents.CollectFailure | docker/firefox/perfevents.py:69-70 | the exception of the first failing row is the one that escapes |
| PerfEvents.CollectSnoc | docker/firefox/perfevents.py:69-70 | one more successful row adds its result at the end |
| PerfEvents.CollectAppend | docker/firefox/perfevents.py:69-70 | a successful pass over two blocks of rows is the two passes concatenated |
| PerfEvents.Parse | docker/firefox/perfevents.py:58-72 | `parse` succeeds iff every data row does, returns the first row's exception otherwise, and on success the keys are exactly the occurring events, each with the sum of its `VAL`s |
| PerfEvents.Accumulate | docker/firefox/perfevents.py:67-70 | the loop's map holds exactly the events seen, each with the sum of its values, or the loop stops with the first row's exception |
| PerfEvents.SumsSnoc | docker/firefox/perfevents.py:70 | adding one sample's value to its event's entry (created at zero when new) keeps the map equal to the per-event sums |
| PerfEvents.NoDataRows | docker/firefox/perfevents.py:64-72 | an empty input or a header alone gives no samples, so an empty map |
| PerfEvents.TotalAbsent | docker/firefox/perfevents.py:68-70 | an event that never occurs totals zero |
| PerfEvents.TotalAppend | docker/firefox/perfevents.py:69-70 | totals are additive over blocks of rows |
| PerfEvents.TotalsIgnoreOrder | docker/firefox/perfevents.py:69-70 | a reordering of the samples changes no event's total |
| PerfEvents.SumsIgnoreOrder | docker/firefox/perfevents.py:68-70 | a map that sums the samples also sums any reordering of them |
| PerfEvents.CollectReordered | docker/firefox/perfevents.py:69-70 | reordering rows neither changes whether all succeed nor the multiset of their results |
| PerfEvents.RowOrderIrrelevant | docker/firefox/perfevents.py:69-70 | the result of `parse`'s loop does not depend on the order of the data rows |
| Extensions.Split | docker/firefox/run.py:47 | `str.split(',')` gives at least one piece, none holding a comma |
| Extensions.JoinSplit | docker/firefox/run.py:47 | joining the pieces with commas gives back the argument |
| Extensions.SplitJoin | docker/firefox/run.py:47 | splitting comma-free pieces joined by commas gives back the pieces |
| Extensions.Glob | docker/firefox/run.py:48 | the glob returns no more files than the directory holds |
| Extensions.GlobMatches | docker/firefox/run.py:48 | a file is found iff it is in the directory and matches `<name>*<suffix>` |
| Extensions.Pick | docker/firefox/run.py:49 | a file is picked iff exactly one matches |
| Extensions.PickMatches | docker/firefox/run.py:48-50 | the picked file is the directory's one match |
| Extensions.Installed | docker/firefox/run.py:46-50 | at most one installation per requested name |
| Extensions.InstalledNext | docker/firefox/run.py:47-50 | one more name installs its single match, if any, after the earlier ones |
| Extensions.InstalledAppend | docker/firefox/run.py:47-50 | installations follow the order of the names |
| Extensions.InstalledMembers | docker/firefox/run.py:46-50 | a path is installed iff some requested name has it as its single match |
| Extensions.InstalledOne | docker/firefox/run.py:49-50 | one name installs its match when exactly one file matches, and nothing when zero or several do |
| Extensions.NoneRequested | docker/firefox/run.py:46 | with `--extensions` absent or empty nothing besides the exporter is installed |
| Extensions.Resolve | docker/firefox/run.py:46-50 | `--extensions` absent or empty resolves to no path; otherwise there are never more paths than comma-separated names |
| Extensions.InstalledFromListing | docker/firefox/run.py:46-50 | every installed path is the path of a file in the directory that matches one of the requested names |
| Extensions.SplitCons | docker/firefox/run.py:47 | a comma-free piece followed by a comma splits off as the first piece, ahead of the pieces of the rest |
| Session.DefaultArgs | docker/firefox/run.py:23-25 | timeout 30, no extensions, and an extensions wait of 1 for Firefox and 15 for Chrome |
| Session.Installs | docker/chrome/run.py:45-48 | one installation event per resolved path |
| Session.InstallsAppend | docker/chrome/run.py:45-48 | installation events follow the order of the paths |
| Session.InstallsStep | docker/firefox/run.py:47-50 | one pass of the extension loop appends the events of its own name |
| Session.InstallsAt | docker/chrome/run.py:48 | the i-th installation event installs the i-th resolved path |
| Session.PollEvents | docker/firefox/run.py:70-72 | every pass of the poll loop is a one-second sleep |
| Session.MeasureEvents | docker/firefox/run.py:53-81 | a whole measurement is six actions, one per poll, and the HAR read when the marker was there |
| Session.MeasureTraceCut | docker/firefox/run.py:53-61 | a negative warm-up sleep stops the run right after the sampler is created; a page-load timeout stops it right after the navigation |
| Session.MeasureTraceWhole | docker/firefox/run.py:53-81 | a measurement that reaches the poll loop performs page load, polls and gathering in that order |
| Session.MeasureTracePrefix | docker/firefox/run.py:53-81 | a measurement cut short by an exception is a prefix of the whole one |
| Session.MeasureTraceEvents | docker/firefox/run.py:53-81 | a measurement neither launches, installs, tears down nor emits anything |
| Session.MeasureOrder | docker/firefox/run.py:53-81 | sampler created, then warm-up sleep, then the sampler's recording starts (its `sleep` lasts `timeout + 1` seconds, see `PerfEvents.SleepOutlastsTimeout`), then the start time, then the navigation; 1-second polls; the sampler stopped right after them; the HAR read right after that when the marker was there |
| Session.StopsOnce | docker/firefox/run.py:75 | a whole measurement stops the sampler exactly once, whichever condition ended the poll loop |
| Session.ReadsIfReady | docker/firefox/run.py:78-81 | a whole measurement reads har.json once when the marker existed at the re-check, and never otherwise |
| Session.Container.Sleep | docker/firefox/run.py:56 | `time.sleep` succeeds iff the length is non-negative, and then takes at least that long |
| Session.Container.Navigate | docker/firefox/run.py:61 | `driver.get` returns iff the page loads before the page-load timeout |
| Session.Container.StopPerf | docker/firefox/run.py:75 | the sampler's result is `parse` of its script output: the same exception or the per-event sums |
| Session.Container.ReadHar | docker/firefox/run.py:80-81 | `json.load` gives the file's content or its decoding error |
| Session.Container.AddExtensions | docker/firefox/run.py:45-50 | the extension block installs exactly the resolved paths, in order, and takes no time |
| Session.Container.AddEach | docker/firefox/run.py:47-50 | the loop over the names installs each name's single match in list order |
| Session.Container.AddExtension | docker/firefox/run.py:48-50 | one pass installs the name's single match, or nothing |
| Session.Container.PollForMarker | docker/firefox/run.py:70-72 | the loop ends only when the marker exists or `timeout` seconds have elapsed since the start, sleeping 1 s per pass and at most `timeout` times; it does not sleep at all when the marker is already there or the time is already up; before its last sleep the marker was still absent and the time not yet up |
| Session.Container.LoadPage | docker/firefox/run.py:53-61 | a negative wait crashes right after the sampler is created; a page that does not load crashes after the navigation; otherwise the page-load actions run in order |
| Session.Container.Gather | docker/firefox/run.py:75-81 | the sampler is stopped and parsed; the HAR is `{}` unless the marker exists at the re-check, and then it is the parsed file; a parse failure of either escapes |
| Session.Container.Measure | docker/firefox/run.py:53-81 | the measurement's trace, its two crash conditions as if-and-only-ifs, the gathered result, the poll bound, and, once the page has loaded, the time the poll loop ended, by which the marker existed or `timeout` seconds had passed since the start |
| FirefoxRun.Prepare | docker/firefox/run.py:38-50 | launch, the exporter, the page-load timeout, then the resolved add-ons, taking no time |
| FirefoxRun.Run | docker/firefox/run.py:19-84 | the session's trace is setup, measurement and teardown; it crashes on a negative wait iff the wait is negative and on a page-load timeout iff the page does not load; otherwise it returns the gathered bundle, and the poll loop ended at a time when the marker existed or the timeout had elapsed |
| FirefoxRun.Teardown | docker/firefox/run.py:82-84 | after a measurement that returned, `quit` and then the one bundle; after one that raised, nothing |
| FirefoxRun.ExporterFirst | docker/firefox/run.py:38-50 | launch, then the exporter, then the page-load timeout, then the resolved add-ons in list order; nothing is installed afterwards |
| FirefoxRun.SetupInstalls | docker/firefox/run.py:41-50 | the setup is the three start actions followed by one installation per resolved add-on |
| FirefoxRun.NoInstallAfterSetup | docker/firefox/run.py:53-84 | neither the measurement nor the teardown installs an add-on |
| FirefoxRun.SingleOutput | docker/firefox/run.py:82-84 | a successful session ends with `quit` and then its one bundle, and emits nothing earlier; a crashed session neither quits nor emits |
| FirefoxRun.EmittedMeasuredFully | docker/firefox/run.py:53-84 | a session that wrote its bundle went through the whole measurement |
| ChromeRun.Prepare | docker/chrome/run.py:31-52 | display started, exporter and resolved extensions added as options, then launch and page-load timeout |
| ChromeRun.Run | docker/chrome/run.py:21-86 | the session's trace is setup, measurement and teardown, with the same crash conditions, gathered result and poll exit condition as Firefox |
| ChromeRun.Teardown | docker/chrome/run.py:83-86 | after a measurement that returned, `quit`, the display stop and then the one bundle; after one that raised, nothing |
| ChromeRun.SetupShape | docker/chrome/run.py:31-52 | display start, exporter, the resolved extensions in list order, launch, page-load timeout |
| ChromeRun.NothingStartsAfterSetup | docker/chrome/run.py:55-86 | after the launch nothing is added, launched or started |
| ChromeRun.ExtensionsBeforeLaunch | docker/chrome/run.py:31-52 | the display starts first; the exporter and then the extensions in order are all added before the single launch; nothing is added, launched or started after it |
| ChromeRun.Shutdown | docker/chrome/run.py:83-86 | a successful session ends with quit, display stop and its one bundle, with no earlier output; a crashed session emits nothing and stops neither browser nor display |
| ChromeRun.QuietUntilTeardown | docker/chrome/run.py:31-81 | before the teardown nothing is emitted, quit or stopped |
| ChromeRun.EmittedMeasuredFully | docker/chrome/run.py:55-86 | a session that wrote its bundle went through the whole measurement |
| Json.Contains | docker/wrapper.py:70 | `in` is key membership on a dict, and raises `TypeError` on values that are not containers |
| Json.DelItem | docker/wrapper.py:71 | `del` succeeds iff the dict has the key, and removes just that key |
| Json.Subscript | docker/wrapper.py:69-70 | `j[key]` succeeds iff `j` is a dict holding the key, and then gives one of its values; otherwise it raises |
| Json.Truthy | docker/database.py:128 | a value is false exactly when it is None, False, 0, 0.0, the empty string, the empty list or the empty dict |
| Sanitizer.StripEntryMeaning | docker/wrapper.py:69-71 | after the loop body the entry has no `response.content.text`; an entry without one is unchanged; otherwise only that key is removed |
| Sanitizer.StripEntryIdempotent | docker/wrapper.py:69-71 | removing `text` again is a no-op |
| Sanitizer.StripEntry | docker/wrapper.py:70-71 | an entry without `response.content` raises; a cleaned entry has no body text |
| Sanitizer.CleanedMeaning | docker/wrapper.py:69-71 | after the entry loop no entry has a body, each entry is its cleaned original, and every other key of the document is unchanged |
| Sanitizer.CleanedIdempotent | docker/wrapper.py:69-71 | running the entry loop on its own result changes nothing |
| Sanitizer.Cleaned | docker/wrapper.py:69-71 | a document without `har.entries` raises; a cleaned one is a dict with the same top-level keys |
| Sanitizer.StripBodies | docker/wrapper.py:69-71 | the loop cleans the entries one by one, or stops with the first entry's exception |
| Sanitizer.RunLength | docker/wrapper.py:78 | the length of the maximal run of leading backslashes |
| Sanitizer.Strip | docker/wrapper.py:78 | the stripped text is never longer than the input |
| Sanitizer.StripChanges | docker/wrapper.py:77-78 | stripping changes the text iff it contains an escaped NUL, and then shortens it |
| Sanitizer.StripCanLeaveEscape | docker/wrapper.py:78 | one pass of stripping can leave an escaped NUL behind: the text `\u00\u000000` holds one and strips to `\u0000`, which holds one again |
| Sanitizer.RemovesRun | docker/wrapper.py:78 | a whole run of one or more backslashes is deleted together with its `u0000` |
| Sanitizer.RunLengthOf | docker/wrapper.py:78 | the run ends at the first non-backslash |
| Sanitizer.OccursAtShift | docker/wrapper.py:77 | an occurrence of the escape in a suffix is exactly an occurrence in the whole text, shifted |
| Sanitizer.KeptPrefix | docker/wrapper.py:77-78 | kept characters that start no escape preserve "changed iff an escape occurs" |
| Sanitizer.NotEscapeInRun | docker/wrapper.py:78 | no escaped NUL starts inside a backslash run that is not followed by `u0000` |
| Sanitizer.Sanitise | docker/wrapper.py:67-79 | the `try` block parses, deletes bodies and strips NULs only when the re-serialised text has an escaped one |
| Sanitizer.Sanitised | docker/wrapper.py:67-79 | the `try` block succeeds only when the text parsed and every entry's body could be deleted |
| Sanitizer.ExtendedHar | docker/wrapper.py:53-85 | output that is not blank never lets an exception escape; the only one that can escape is the decoding error of stderr |
| Sanitizer.GetExtendedHar | docker/wrapper.py:53-85 | the pair is the sanitised HAR and no error, or no HAR and the stderr text or the exception's message |
| Sanitizer.BlankOutput | docker/wrapper.py:61-65 | empty or single-space output gives `(None, stderr)` |
| Sanitizer.ErrorsReturned | docker/wrapper.py:53-85 | only an undecodable stderr with unusable stdout escapes; an error always comes with no HAR; with usable stdout the error is present iff parsing or stripping raised, and then it is `str(e)` |
| Sanitizer.NoNullKeepsDocument | docker/wrapper.py:76-79 | without an escaped NUL the cleaned document is returned as it is |
| Database.Apply | docker/database.py:86-135 | `to_regclass` changes nothing; `CREATE TABLE` succeeds iff the table is absent and the server allows it; `DROP` iff present and allowed; an insert succeeds iff the table exists, the key is free and the server accepts the row, and then appends exactly that row |
| Database.Created | docker/database.py:81-100 | after `create` the table exists iff it existed or the server allows `CREATE TABLE`; an existing table keeps its rows, a new one is empty, and a refused one stays missing |
| Database.CreatedIdempotent | docker/database.py:81-84 | creating twice is creating once |
| Database.Prepared | docker/database.py:66-67 | before a command the table exists iff it existed or the connection was closed and the reconnection's `CREATE TABLE` was allowed; with an open connection or an existing table nothing changes |
| Database.Flagged | docker/database.py:75-77 | a failed command leaves a dropped connection flagged closed and every other state as it was |
| Database.RowOf | docker/database.py:128-133 | a truthy HAR is stored with a NULL error; otherwise the HAR is NULL and the error is stored as given; the other columns are the caller's |
| Database.Store.ExecuteCommand | docker/database.py:65-79 | a closed connection is reopened (through `create`) before the command; a failure is returned, not raised, and leaves the table as it was; an unreachable server raises; on a connection the server dropped the command fails and the handler's `commit` raises `InterfaceError`, leaving the connection flagged closed and the table as it was |
| Database.Store.Connect | docker/database.py:25-41 | a successful connection leaves the table as `create` leaves it, whatever `create` returned; a failed one raises at once, through `create` |
| Database.Store.TableExists | docker/database.py:43-46 | reports whether the table exists |
| Database.Store.Create | docker/database.py:81-100 | an existing table is kept with its rows and is no error; otherwise `CREATE TABLE` runs, and a refused one is returned as its exception with the table still missing; success exactly when the table exists afterwards |
| Database.Store.Drop | docker/database.py:102-110 | a missing table is no error and stays as it was; otherwise `DROP TABLE` runs, and a refused one is returned as its exception with the table kept; success exactly when the table is absent afterwards |
| Database.Store.ConnectionLost | docker/database.py:65-79 | an open connection the server closes still reads as open, so the next command raises through the handler's `commit` and only the one after reconnects; the table is untouched |
| Database.Store.Insert | docker/database.py:112-138 | exactly one insert of the row shaped by the HAR's truthiness, with the caller's key and time |
| Database.KeysStayDistinct | docker/database.py:92 | inserted rows keep distinct primary keys |
| Orchestrator.Shuffle | docker/wrapper.py:17-23 | the shuffle is a permutation |
| Orchestrator.RunConfiguration | docker/wrapper.py:28-38 | every exception is caught; without a database nothing is stored; with one, "saved" iff the insert succeeded, and a failed insert leaves the table as it was |
| Orchestrator.StoredVisits | docker/wrapper.py:24-25 | one visit with the database per configuration, in order |
| Orchestrator.StoredVisitsNext | docker/wrapper.py:24-25 | one more configuration of the round appends its visit with the database |
| Orchestrator.VisitDomain | docker/wrapper.py:21-25 | a warm-up with no extensions and no database, then each configuration once in the shuffled order; the warm-up writes nothing |
| Orchestrator.Run | docker/wrapper.py:16-25 | the domains and the configurations are permuted, every round visits each configuration once, the visits follow the schedule, and no warm-up writes to the database |
| Orchestrator.WarmupsUnwrittenAppend | docker/wrapper.py:18-21 | warm-ups stay unwritten across domains |
| Orchestrator.ScheduleLength | docker/wrapper.py:16-25 | `|domains|·(1+|configurations|)` visits in total |
| Orchestrator.ScheduleNext | docker/wrapper.py:18-25 | one more domain appends its warm-up and then its configurations |
| Orchestrator.SchedulePrefix | docker/wrapper.py:18-25 | the visits for the first domains come before all later ones |
| Orchestrator.ScheduleStep | docker/wrapper.py:18-25 | the visits for the first d+1 domains are those for the first d followed by domain d's block |
| Orchestrator.ScheduleBlock | docker/wrapper.py:18-25 | domain d's block starts right after the earlier domains' visits, with its warm-up and then its configurations in order |
| Orchestrator.ScheduleBlocks | docker/wrapper.py:18-25 | with k configurations, domain d's block starts at d·(1+k) with its warm-up and then visits each configuration of its round, all inside the schedule |

## Left out

- Threads, subprocesses and the operating system:
  - the sampler's `Popen`, `pgrep` and `os.kill`;
  - the `perf script` call, whose output is an input of the model;
  - Docker and `subprocess.run` in the wrapper;
  - the browser's own behaviour, which is reduced to whether the page loads.
- The `ValueError` that `int()` raises in `perf.stop()` when `pgrep` prints nothing is not modelled: it belongs to the process plumbing.
- `csv` details the dialect never meets: `'\r'` line ends, NUL characters, and the field size limit.
- PerfEvents.ParseInt: only ASCII digits and ASCII whitespace are accepted; the non-ASCII Unicode decimal digits and Unicode whitespace that Python's `int()` also accepts raise `ValueError` in the model. The `perf script` output holds only ASCII counts.
- File names with glob metacharacters or `/` are treated as plain text.
- Exception texts are modelled by kind, not by Python's exact wording.
- Time passes only in sleeps, in `driver.get` and in `perf.stop()`.
  - Every other action takes no time.
  - The clock, the moment the marker appears and the page's behaviour are parameters of a `Container`.
- The navigation timeout and a failing `json.load` of `har.json` are not caught, as in the code.
  - Such a session performs no teardown and writes nothing.
- HarCatcher: the native byte order of the length prefix is fixed to little-endian.
- HarCatcher.CaptureBridge.Run: the working directory either accepts every write or refuses every one (`writable`); a failure part-way through (a disk that fills after some messages, a write that fails after `open` truncated the file) is not modelled.
- Sanitizer.Strip: no contract says that the stripped text is free of escaped NULs. With `re.sub`'s single pass it need not be (`Sanitizer.StripCanLeaveEscape`), and the model follows the code. Whether such a text still parses depends on the abstract `json.loads`.
- UTF-8 decoding of the container's streams is reduced to "decodable or not".
- `json.loads` and `json.dumps` are parameters, not implementations.
- Python `None` for the extended HAR is represented by the JSON value `null`.
- Sanitizer.GetExtendedHar: "exactly one of the pair is None" is proved only when the document after NUL stripping is not itself `null`.
  - A stripped text that parses to `null` would give `(None, None)`, as in the code.
- The dead `CalledProcessError` handler, logging, argument parsing and both `main` entry points of the wrapper are not part of this model.
- The time and the UUID of a visit are inputs supplied by the environment.
- Database.Store.Connect: the reconnection failure is modelled as an immediate `RecursionError`.
  - The code recurses until Python's limit: `_execute_command` → `_connect` → `create` → `_table_exists` → `_execute_command` on the still-closed connection.
  - Whether the server accepts connections is fixed for the lifetime of a `Store`.
  - A failed `CREATE TABLE` during a reconnection is ignored, as `_connect` ignores what `create` returns.
- Database.Store.TableExists: the `to_regclass` query itself never fails in the model, so `_table_exists` never meets the empty cursor that a failed query would leave.
- The cursor, the SQL text, the read queries (`get_hars`, `get_resources`, `get_resource_counts`, `get_pageloads`), `init_from_config_file` and `main` of `database.py` are not part of this model.
- The HAR exporter extension (`background.js`, `devtools.js`) is not part of this model.
  - It relays messages asynchronously between browser contexts.
  - The bridge's input stands for what it sends.
- `random.shuffle`'s distribution is not modelled, only that it permutes.
