# ESP32-DHT22: a verified model of the response-body logic

This project models the parts of the ESP32-DHT22 thermometer firmware that compute text and
bytes: the web server's template engine, its request handlers and method dispatch, the
Prometheus metrics writer, and the firmware's small formatters. It also models the page
script that parses the device's time text, and the build script that frames the web assets
as gzip members. Everything is written in Dafny, and the properties the code promises are
proved about the model.

The modules follow the program's files:

- `Utils` (utils.dfy) covers src/utils.h: `strlen`, `get_base_name_offset` and the
  documented contract of `timespan_to_string`.
- `Template` (template.dfy) covers the template engine of src/webhandler.cpp.
  - The declared-length pre-pass of `replacingRequestHandler` is a loop method.
  - The resumable `replacingResponseFiller` is a class over the caller's `char` array.
  - Its `offset` field is the shared `int64_t` the handler allocates.
  - `ServeTemplate` drives the filler the way the web server does and proves that the whole
    body equals the substituted page and that the announced length is its length.
- `WebHandler` (webhandler.dfy) covers:
  - the static and compressed handlers;
  - the HEAD wrapper;
  - the 405 handler with its `Allow` list;
  - `registerRequestHandler`, which splits a route's method set three ways.
- `Http` (http.dfy) holds the request method bits and the `ResponseData` triple.
- `Dispatch` (dispatch.dfy) covers src/AsyncTrackingFallbackWebHandler.cpp:
  - `get_msb`;
  - the per-method handler table;
  - the path-prefix test;
  - dispatch with its fallback and its counter increment.
- `Counters` (counters.dfy) models `prom::http_requests_total`.
  - It is an ordered map from path to an ordered map from (method, status) to a `uint64_t`
    count.
  - It is kept as a sorted association list, so iterating it visits keys in ascending order.
- `Metrics` (metrics.dfy) gives the text of a scrape, the `max_len` budget `getMetrics`
  computes, and the proofs that relate them.
- `Prometheus` (prometheus.dfy) writes that text into a `char` array of `max_len + 1`
  characters, with `strcpy`, `strncpy`, `sprintf` and `snprintf` modelled as methods.
  - `GetMetrics` returns the buffer read as a C string.
- `Firmware` (firmware.dfy) covers src/main.cpp:
  - the elapsed-time text `getTimeSinceMeasurement`;
  - `handle_serial_input`'s command recognition;
  - the serial line editor in `loop`, as a class holding `command`;
  - the DHT update rule of `measure`, as a class holding the globals.
- `IndexJs` (index_js.dfy) covers data/index.js: `parseTimeString` and `timer`. Its lemmas
  close the round trip from the device's time text to the page's time value.
- `GzipStream` (gzip_stream.dfy) covers shared/gzip_compressing_stream.py.
  - It models the member header of section 2.3 of RFC 1952, with a reader for it.
  - It models CRC-32, with its standard check value.
  - `GzipCompressingStream` is a class whose `write` and `close` append to the output file.

Text is `seq<char>` with one `char` per C `char`, and gzip data is a sequence of bytes
`0..255`. The program's unsigned integers are unbounded here, except where wrap-around
matters:

- `now - last_measurement` on `uint64_t`;
- counter increments modulo 2^64;
- ISIZE modulo 2^32.

Three behaviours of the code that the model keeps as they are:

- A placeholder whose name is not in the map is emitted as its bare name, with only its two
  markers dropped (src/webhandler.cpp:167-175). The pre-pass counts `-2` for it
  (src/webhandler.cpp:370), which matches.
- Every filler call that completes its window returns exactly `max_len` bytes, zero-padded
  past the end of the page (src/webhandler.cpp:146-156, 188-197).
- Each counter line prints its count with `%.3f`, so the count carries a `.000` suffix
  (src/prometheus.cpp:235-238).

## Model

| member | source | states |
|---|---|---|
| Utils.StrLen | src/utils.h:58-60 | the result is the position of the first NUL: every character before it is non-NUL |
| Utils.StrLenIsCStrLength | src/utils.h:52-60 | strlen is exactly the length of the text a C string reader takes, everything before the first NUL |
| Utils.BaseNameOffset | src/utils.h:35-40 | searching down from `i`: the result is at most `i + 1`; no '/' or '\\' lies in `file[r..i]`; the character before it is a separator unless it is 0; so it is one past the last separator, or 0 |
| Utils.FileBaseNameOffset | src/utils.h:35-40 | started at S - 1: the offset is below S; no separator lies at or after it; the base name of a NUL-free literal is NUL-free |
| Utils.TimespanToString | src/utils.h:106-117 | "Unknown" exactly for a negative timespan; otherwise 12 characters "HH:MM:SS.mmm" whose fields are the hours, minutes, seconds and milliseconds of `time_ms % 100h`, zero-padded |
| Utils.SpanFields | src/utils.h:107-110 | those fields are below 100, 60, 60 and 1000 and add up to `time_ms % 100h` |
| Utils.ClockTextShape | src/utils.h:107-110 | "HH:MM:SS.mmm" has its four fields, zero-padded to widths 2, 2, 2 and 3, at their fixed positions |
| Template.FindMarker | src/webhandler.cpp:143-144 | memchr's result lies in the searched range and holds a marker |
| Template.FindMarkerGap | src/webhandler.cpp:143-144 | memchr finds the first marker: none lies between the start and the one reported, and none at all when it reports none |
| Template.ClosingAt | src/webhandler.cpp:162-163 | the closing marker of a placeholder lies after its opening marker and is a marker |
| Template.NameIsCString | src/webhandler.cpp:168-171 | for a NUL-free page, the name read with `String((char*) buf)` from the zero-terminated copy is exactly the text between the markers |
| Template.Pad | src/webhandler.cpp:149-155 | a window is exactly `max_len` long: the source's prefix when it is long enough, otherwise the source followed by NULs |
| Template.VerbatimPrefix | src/webhandler.cpp:146-156 | text without markers is copied unchanged and adds nothing to the length change or to the longest replacement |
| Template.Unpaired | src/webhandler.cpp:358-363 | a marker without a partner, and all that follows it, is copied verbatim and contributes 0 to the declared length change |
| Template.NoMarkerLeft | src/webhandler.cpp:146-156 | with no marker ahead, the rest of the page is emitted unchanged |
| Template.ClosingMarker | src/webhandler.cpp:162-166 | when every marker is paired, a marker met outside a placeholder has a closing marker, so `if (!template_end) break;` is never taken |
| Template.LenDiffIsLengthChange | src/webhandler.cpp:356-376 | page length plus the pre-pass's `len_diff` equals the length of the substituted text (mapped value minus span for a known name, -2 for an unknown one) |
| Template.LenDiffAhead | src/webhandler.cpp:358-373 | the pre-pass reads each marker pair in turn: a closed placeholder contributes its own length change and an unterminated marker ends the sum |
| Template.LenDiffLowerBound | src/webhandler.cpp:376 | the length change never exceeds the page length removed, so the `size_t` content length is never negative |
| Template.LongestFromBoundary | src/webhandler.cpp:176-177 | no placeholder met later in the page expands to more than the longest replacement counted from an earlier boundary |
| Template.PlaceholderWithinLongest | src/webhandler.cpp:176-177 | every placeholder's text is at most the longest replacement of the page |
| Template.DeclaredLength | src/webhandler.cpp:355-376 | the pre-pass loop computes the page length plus the summed changes, which is the length of the substituted page |
| Template.Memcpy | src/webhandler.cpp:150 | memcpy appends its data to the window's prefix |
| Template.Memset | src/webhandler.cpp:151 | memset appends `n` NULs to the window's prefix |
| Template.ReplacingFiller.constructor | src/webhandler.cpp:377 | the filler is bound to the page and the map, and the shared offset starts at 0 |
| Template.ReplacingFiller.CopyText | src/webhandler.cpp:160-161 | copying marker-free source text advances `written` by its length and keeps the window a prefix of the body |
| Template.ReplacingFiller.CopyReplacement | src/webhandler.cpp:168-184 | a placeholder's whole text is written, the filler moves past its closing marker, and `index + written + *offset` stays the source position, so the window stays a prefix of the body |
| Template.ReplacingFiller.Advance | src/webhandler.cpp:176-177 | with a window at least as wide as the longest replacement a call is never a retry: it sends at least one byte that continues the body, and leaves the filler synced |
| Template.ReplacingFiller.SendWindow | src/webhandler.cpp:137-199 | one round of the server: a non-empty piece that continues the body exactly where the previous one stopped |
| Template.ReplacingFiller.BodyEndsInWindow | src/webhandler.cpp:189-193 | a window holding the rest of the body and then NULs is a complete `max_len` answer |
| Template.ReplacingFiller.WindowFull | src/webhandler.cpp:194-196 | a window filled up with body text is a complete `max_len` answer |
| Template.ReplacingFiller.StopBefore | src/webhandler.cpp:176-177 | before a placeholder too long for the rest of the window, the filler returns what it has written, or the retry signal when that is nothing; the placeholder is not split |
| Template.ReplacingFiller.FinishWindow | src/webhandler.cpp:188-197 | both exits copy text up to the window's end, zero-fill what the page does not cover, and return `max_len` |
| Template.ReplacingFiller.Fill | src/webhandler.cpp:137-199 | one call is either a full window of the body from `index` on (zero-padded past its end), a shorter prefix that stops before an oversized placeholder, or a retry that changes nothing; the filler ends synced behind what it returned |
| Template.ServeTemplate | src/webhandler.cpp:376-381 | announcing the pre-pass length and then calling the filler with the running index delivers exactly the substituted page, and that length is the page's length |
| WebHandler.StaticHandler | src/webhandler.cpp:306-311 | the body is the bytes as they are; status and declared length are the given status and their length |
| WebHandler.AcceptsGzipExamples | src/webhandler.cpp:318-320 | the strstr test accepts "gzip" anywhere in the header and refuses a missing header or one without it |
| WebHandler.CompressedStaticHandler | src/webhandler.cpp:313-336 | a gzip client gets the stored bytes with `Content-Encoding: gzip` and their length; any other client gets the inflated body declared with the decompressor's size |
| WebHandler.HeadWrapped | src/webhandler.cpp:211-214 | the HEAD wrapper replaces only the response object; status and declared length are unchanged |
| WebHandler.ReplacingRequestHandler | src/webhandler.cpp:351-384 | the page is served through the filler with the given status, declaring the length the body will have |
| WebHandler.EvaluateReplacements | src/webhandler.cpp:343-346 | each generator is called once and its text is kept up to its first NUL, under the same key |
| WebHandler.ReplacingGeneratorHandler | src/webhandler.cpp:338-349 | the page is served with, under each generator's key, that generator's text up to its first NUL |
| WebHandler.ValidNamesMember | src/webhandler.cpp:247-267 | method `j` is listed exactly when its bit is set |
| WebHandler.ValidNamesOrdered | src/webhandler.cpp:247-267 | the list names exactly the methods of the mask, each once, in GET, POST, DELETE, PUT, PATCH, HEAD, OPTIONS order |
| WebHandler.MethodTests | src/webhandler.cpp:247-266 | each `validMethods & HTTP_X` test reads exactly the bit of that method |
| WebHandler.CollectValid | src/webhandler.cpp:245-267 | the seven tests build the list of valid method names in bit order |
| WebHandler.AllowList | src/webhandler.cpp:288-294 | the Allow value is the valid names joined by ", " |
| WebHandler.DetailsList | src/webhandler.cpp:269-278 | the details list puts ", " between items and "and " before the last of two or more |
| WebHandler.DetailsPrefixIsJoin | src/webhandler.cpp:269-278 | before the last item the details text is the plain ", "-joined list |
| WebHandler.DetailsIsAllowWithAnd | src/webhandler.cpp:269-294 | the details list is the Allow list with "and " inserted before its last item |
| WebHandler.InvalidMethodHandler | src/webhandler.cpp:243-304 | status 405; the Allow header holds the valid methods joined by ", "; the error page's details name them with "and " before the last |
| WebHandler.GetOnlyRouteNames | src/webhandler.cpp:247-267 | a GET-only route (GET plus the synthesized HEAD) lists exactly "GET" and "HEAD" |
| WebHandler.GetOnlyRouteLists | src/webhandler.cpp:269-294 | its Allow value is "GET, HEAD" and its details read "GET, and HEAD" |
| WebHandler.Run | src/webhandler.cpp:201-220 | a tracking route answers with the handler's response; a HEAD route with the same response HEAD-wrapped; a 405 route with status 405, the Allow header of its valid methods and the error page naming them |
| WebHandler.Server.On | src/webhandler.cpp:389 | `server.on` appends one route with its uri, methods and action |
| WebHandler.RegisterRequestHandler | src/webhandler.cpp:386-398 | adds the handler on its methods, a HEAD wrapper when HEAD is not among them, and the 405 handler on `(method or HEAD) xor HTTP_ANY` |
| WebHandler.GetOnlyRegistration | src/webhandler.cpp:386-398 | a GET-only route gets a HEAD wrapper and a 405 route for GET and HEAD, whose Allow value is "GET, HEAD" and whose page reads "GET, and HEAD" |
| WebHandler.RegistrationSplitsMethods | src/webhandler.cpp:389-397 | the registered masks are pairwise disjoint and cover HTTP_ANY; the HEAD wrapper exists exactly when HEAD was not requested; the 405 handler lists exactly the methods outside its own mask |
| Dispatch.GetMsb | src/AsyncTrackingFallbackWebHandler.cpp:21-27 | the loop returns 0 for 0 and otherwise the `r` with `2^r <= n < 2^(r+1)` |
| Dispatch.Msb | src/AsyncTrackingFallbackWebHandler.cpp:21-27 | the most significant bit: 0 for 0; otherwise `2^r <= n < 2^(r+1)` |
| Dispatch.MsbUnique | src/AsyncTrackingFallbackWebHandler.cpp:21-27 | at most one exponent brackets a number, so get_msb's answer is determined |
| Dispatch.MethodValue | src/AsyncTrackingFallbackWebHandler.cpp:40-42 | the method with bit `i` has the value `2^i`, so get_msb maps it back to slot `i` |
| Dispatch.HandledMaskBit | src/AsyncTrackingFallbackWebHandler.cpp:56-64 | bit `i` of the handled mask is set exactly when slot `i` holds a handler |
| Dispatch.Assign | src/AsyncTrackingFallbackWebHandler.cpp:44-50 | setHandler's new table keeps the table's size |
| Dispatch.AssignHandled | src/AsyncTrackingFallbackWebHandler.cpp:44-64 | after setHandler the handled methods are the old ones plus the given ones within HTTP_ANY |
| Dispatch.UriMatches | src/AsyncTrackingFallbackWebHandler.cpp:66-76 | false for an empty uri; otherwise true exactly for the uri itself and paths that continue it with '/' |
| Dispatch.UriMatchExamples | src/AsyncTrackingFallbackWebHandler.cpp:66-76 | "/a" matches "/a" and "/a/b" but not "/ab" or "/"; an empty uri matches nothing |
| Dispatch.TrackingHandler.constructor | src/AsyncTrackingFallbackWebHandler.cpp:29-34 | the table has `get_msb(HTTP_ANY) + 1` slots, all empty |
| Dispatch.SlotOf | src/AsyncTrackingFallbackWebHandler.cpp:40-42 | get_msb of any method value within HTTP_ANY is one of the 7 slots, and a single method's is its own bit index |
| Dispatch.TrackingHandler.GetHandler | src/AsyncTrackingFallbackWebHandler.cpp:40-42 | any method value within HTTP_ANY is looked up, unchecked, in the slot of its highest bit; a single method in its own slot |
| Dispatch.TrackingHandler.SetHandler | src/AsyncTrackingFallbackWebHandler.cpp:44-50 | exactly the slots whose bit is set now hold the handler; every other slot is unchanged |
| Dispatch.TrackingHandler.SetFallbackHandler | src/AsyncTrackingFallbackWebHandler.cpp:52-54 | the fallback is replaced |
| Dispatch.TrackingHandler.GetHandledMethods | src/AsyncTrackingFallbackWebHandler.cpp:56-64 | bit `i` of the result is set exactly when slot `i` is non-empty |
| Dispatch.TrackingHandler.CanHandle | src/AsyncTrackingFallbackWebHandler.cpp:66-76 | the prefix test of UriMatches on the handler's own uri |
| Dispatch.TrackingHandler.HandleRequest | src/AsyncTrackingFallbackWebHandler.cpp:78-95 | for any method value within HTTP_ANY: the handler in its get_msb slot, else the fallback told the handled methods, else an empty 500; the counter table changes exactly by incrementing `[url][(method, status)]`, under the value as it is |
| Counters.StrLessOrder | src/prometheus.cpp:22 | String's order is a strict total order, so the sorted table holds each path once |
| Counters.CellRows | src/prometheus.cpp:187-189 | the inner iteration yields one row per cell, in order, carrying the path |
| Counters.BumpCellsSorted | src/AsyncTrackingFallbackWebHandler.cpp:93-94 | incrementing a cell keeps the inner map sorted with counts below 2^64 |
| Counters.BumpCellsLength | src/AsyncTrackingFallbackWebHandler.cpp:93-94 | a cell is created exactly when the key was missing |
| Counters.BumpCellsCount | src/AsyncTrackingFallbackWebHandler.cpp:93-94 | the key's count goes up by one modulo 2^64; every other count is unchanged |
| Counters.BumpSorted | src/AsyncTrackingFallbackWebHandler.cpp:93-94 | the increment keeps the table sorted by path with no empty inner map |
| Counters.BumpCount | src/AsyncTrackingFallbackWebHandler.cpp:93-94 | `[path][key]` goes up by one modulo 2^64; every other cell of every path is unchanged |
| Counters.BumpEntries | src/AsyncTrackingFallbackWebHandler.cpp:93-94 | the number of entries grows by one exactly when the cell did not exist |
| Counters.RowsOrdered | src/prometheus.cpp:183-189 | the nested iteration yields one row per entry, strictly ascending by path, then method, then status |
| Counters.RequestCounters.constructor | src/prometheus.cpp:22 | the table starts empty |
| Counters.RequestCounters.Increment | src/AsyncTrackingFallbackWebHandler.cpp:93-94 | `http_requests_total[path][key]++`: that cell goes up by one, every other is unchanged, and the table stays sorted |
| Metrics.MetricNameLength | src/prometheus.cpp:306-317 | the namespace and its '_' count only when the namespace is non-empty, and likewise the unit |
| Metrics.MetadataLineShape | src/prometheus.cpp:295-326 | one line of `# FIELD NAME VALUE` with the newline as its last character, of the counted length |
| Metrics.MetricTextLength | src/prometheus.cpp:261-291 | HELP and TYPE, UNIT only under OpenMetrics, then the sample with " %.3f" or " NAN" |
| Metrics.MethodLabelIsLowerName | src/prometheus.cpp:196-233 | the label is the method's name in lower case, "unknown" for any other value, at most 7 characters |
| Metrics.RowLinesAppend | src/prometheus.cpp:183-243 | the counter lines of consecutive rows are the concatenation of their lines |
| Metrics.SampleValueLength | src/prometheus.cpp:283-288 | the sample tail is the reading's text plus 2 characters, or 5 for " NAN\n" |
| Metrics.TemperatureFits | src/prometheus.cpp:88-90 | a reading of at most three digits before and after the dot fits temp_max_len, with equality at the largest |
| Metrics.HumidityFits | src/prometheus.cpp:91-93 | the same for humidity_max_len |
| Metrics.HeapFits | src/prometheus.cpp:94-96 | a heap size within 32 bits fits heap_max_len, with equality at ten digits |
| Metrics.BuildInfoLength | src/prometheus.cpp:140-173 | the build_info group's exact length, "info" under OpenMetrics and "gauge" otherwise |
| Metrics.RequestsHeaderLength | src/prometheus.cpp:177-181 | the HELP and TYPE lines of http_requests_total are `86 + 36 + 2 * |ns|` characters (2 fewer without a namespace) |
| Metrics.CountDigits | src/prometheus.cpp:104 | a `uint64_t` count has at most 20 digits, so its `%.3f` text has at most 24 characters |
| Metrics.RequestLineFits | src/prometheus.cpp:104-108 | with a 3-digit status, a counter line is at most `83 + |ns| + |path|` characters |
| Metrics.RowLinesFit | src/prometheus.cpp:105-108 | a run of counter lines fits its per-line budget |
| Metrics.CellRowsBudget | src/prometheus.cpp:105-108 | a path's lines are budgeted `(83 + |ns| + |path|)` each |
| Metrics.TableRowsBudget | src/prometheus.cpp:105-108 | over the table that is `(83 + |ns|)` times the entry count plus each path's length once per entry |
| Metrics.FixedSectionsFit | src/prometheus.cpp:88-102 | the groups before the counter lines fit their four budgets |
| Metrics.MaxLenParts | src/prometheus.cpp:114-116 | max_len is the sum of the section budgets |
| Metrics.TableLinesFit | src/prometheus.cpp:105-108 | all counter lines of a sorted table fit their budget |
| Metrics.MetricsFit | src/prometheus.cpp:114-118 | with the corrected budget the whole scrape, and the NUL the last write keeps, fits in `max_len` |
| Metrics.BuildInfoOverBudget | src/prometheus.cpp:101-102 | the build_info group is 2 characters longer than build_info_max_len as written |
| Metrics.UriLenSumShortfall | src/prometheus.cpp:73-78 | uri_len_sum counts each path once, falling short whenever a path has two or more entries |
| Metrics.RequestLineLength | src/prometheus.cpp:190-238 | the exact length of a counter line, piece by piece |
| Metrics.MaxLenAsWrittenTooSmall | src/prometheus.cpp:112-116 | for an OpenMetrics scrape of one 100-character path requested with GET and HEAD, the text is 58 characters longer than max_len as written |
| Metrics.GuardLeavesInnerLoopOnly | src/prometheus.cpp:239-242 | with two one-line paths and a budget of 5, the second line is begun at 10, past the buffer |
| Metrics.GuardedStartsBelowMaxLen | src/prometheus.cpp:239-242 | with the guard ending both loops, no line is begun at or past `max_len` |
| Prometheus.Buffer.constructor | src/prometheus.cpp:118 | a fresh array of the given size with nothing written |
| Prometheus.Buffer.Put | src/prometheus.cpp:300 | `buffer[written++] = c` appends one character |
| Prometheus.Buffer.Terminate | src/prometheus.cpp:289 | `buffer[written] = 0` terminates the text |
| Prometheus.Buffer.Strcpy | src/prometheus.cpp:150-173 | strcpy appends the string and a NUL |
| Prometheus.Buffer.Sprintf | src/prometheus.cpp:284 | sprintf appends the formatted text, NUL-terminated, and returns its length |
| Prometheus.Buffer.Strncpy | src/prometheus.cpp:190-194 | strncpy appends the first `min(n, |s|)` characters; it terminates only when `|s| < n` |
| Prometheus.Buffer.Snprintf | src/prometheus.cpp:235-238 | snprintf appends at most `size - 1` characters and a NUL, nothing for size 0, and returns the full length |
| Prometheus.WriteName | src/prometheus.cpp:306-317 | appends `[ns_]name[_unit]` and returns its length |
| Prometheus.WriteMetadataLine | src/prometheus.cpp:294-326 | appends the metadata line, NUL-terminated, and returns its length |
| Prometheus.WriteMetric | src/prometheus.cpp:256-292 | appends the metric group, NUL-terminated, and returns its length |
| Prometheus.WriteMetadataLines | src/prometheus.cpp:261-268 | appends HELP, TYPE and (under OpenMetrics) UNIT |
| Prometheus.WriteLabel | src/prometheus.cpp:150-171 | two strcpy calls append a label's name and value; `len` advances by their lengths |
| Prometheus.WriteBuildInfoSample | src/prometheus.cpp:150-173 | the strcpy chain appends the build_info sample line |
| Prometheus.WriteBuildInfo | src/prometheus.cpp:140-173 | appends the build_info group |
| Prometheus.WriteGauges | src/prometheus.cpp:120-138 | appends the temperature, humidity and heap groups |
| Prometheus.WriteRequestsHeader | src/prometheus.cpp:177-181 | appends the HELP and TYPE lines of http_requests_total |
| Prometheus.WriteFixedSections | src/prometheus.cpp:120-181 | appends every group before the counter lines |
| Prometheus.WriteRequestLine | src/prometheus.cpp:190-238 | the strncpy and snprintf calls append exactly one counter line |
| Prometheus.WritePathLines | src/prometheus.cpp:187-243 | the inner loop appends one path's lines in cell order; the guard never fires under the corrected budget |
| Prometheus.WriteRequestLines | src/prometheus.cpp:183-244 | the nested loops append every counter line in map order |
| Prometheus.GetRequestCounts | src/prometheus.cpp:329-336 | the number of (method, status) entries over all paths, one per counter line |
| Prometheus.SumPathLengths | src/prometheus.cpp:73-78 | the corrected uri_len_sum: each path's length once per counter line that prints it |
| Prometheus.ComputeMaxLen | src/prometheus.cpp:88-116 | the loops and additions compute the corrected `max_len` |
| Prometheus.WriteTail | src/prometheus.cpp:183-249 | appends the counter lines and, under OpenMetrics, "# EOF\n" with its NUL |
| Prometheus.ScrapeFits | src/prometheus.cpp:114-118 | under the budget's assumptions, the scrape and its NUL fit in the corrected `max_len` |
| Prometheus.WriteScrape | src/prometheus.cpp:118-249 | a `max_len + 1` array receives the whole scrape text, NUL-terminated |
| Prometheus.GetMetrics | src/prometheus.cpp:71-254 | the result is the scrape text read as a C string |
| Prometheus.TerminatedCStr | src/prometheus.cpp:251 | `String metrics = buffer` reads the written text up to its first NUL |
| Firmware.Elapsed | src/main.cpp:402-404 | `now - last_measurement` on `uint64_t`: the difference, or the difference plus 2^64 when `now` is smaller |
| Firmware.ElapsedText | src/main.cpp:400-415 | 12 characters: hours within the day, minutes, seconds and milliseconds, zero-padded to 2, 2, 2 and 3, separated by ':', ':' and '.' |
| Firmware.FieldsAreTimeOfDay | src/main.cpp:403-413 | the four fields add up to the elapsed time modulo one day |
| Firmware.IsCommand | src/main.cpp:304-352 | only a text of 2 to 11 characters can be a recognised command (temperature, temp, humidity, ip, scan, help) |
| Firmware.CommandsHaveNoCntrl | src/main.cpp:276-279 | every command can be typed, since none holds a control character |
| Firmware.Edit | src/main.cpp:262-279 | one character of the editor keeps the pending line free of control characters |
| Firmware.Settle | src/main.cpp:282-284 | after a chunk a recognised command runs and is cleared; anything else stays |
| Firmware.EditAllAppend | src/main.cpp:262-280 | editing two pieces one after the other is editing their concatenation |
| Firmware.TypingAppends | src/main.cpp:276-279 | printable characters are appended and nothing runs |
| Firmware.CommandFiresWithoutNewline | src/main.cpp:282-284 | a command arriving in one chunk runs once without a newline and leaves the line empty |
| Firmware.SplitChunkRunsPrefix | src/main.cpp:257-284 | "temp" then "erature" in two chunks runs "temp" and leaves "erature" pending |
| Firmware.LineEndsCommand | src/main.cpp:268-275 | a typed non-empty line ended by '\n' is run when it is a command and reported as unknown otherwise, and the line is cleared |
| Firmware.SerialConsole.constructor | src/main.cpp:38 | the pending command starts empty |
| Firmware.SerialConsole.Feed | src/main.cpp:257-285 | the input loop over one chunk, then the final check, give the editor's result and the commands run or reported |
| Firmware.Station.constructor | src/main.cpp:35-37 | both readings start as NaN and the measurement time at 0 |
| Firmware.Station.Measure | src/main.cpp:354-368 | a NaN reading never overwrites its value; the measurement time moves to now only when both readings are numbers |
| Firmware.Station.TimeSinceMeasurement | src/main.cpp:400-415 | the text of `now - last_measurement` is 12 characters with ':' at 2 and 5 and '.' at 8 |
| IndexJs.Split | data/index.js:82 | split always yields at least one piece |
| IndexJs.SplitNoSeparator | data/index.js:82 | text without the separator splits into itself |
| IndexJs.SplitLast | data/index.js:82 | a separator followed by separator-free text adds that text as the last piece |
| IndexJs.SetUtcHours | data/index.js:88-90 | setUTCHours on day 0 gives a time value within TimeClip's range, or NaN, never null |
| IndexJs.ParseTimeString | data/index.js:72-91 | null exactly for a non-string, for "Unknown", and for text whose part before the first '.' has other than three ':' fields |
| IndexJs.SplitClockColons | data/index.js:82 | "HH:MM:SS" splits into its three fields |
| IndexJs.SplitClockDot | data/index.js:82-89 | "HH:MM:SS.mmm" splits at '.' into the clock and the milliseconds |
| IndexJs.ParseClockText | data/index.js:72-91 | any zero-padded clock text parses to `h*3600000 + m*60000 + s*1000 + ms` |
| IndexJs.ParseElapsedText | data/index.js:72-91 | the device's time text for elapsed `d` parses to `d` modulo one day |
| IndexJs.TimerTextValid | data/index.js:41-68 | for a valid date the timer shows the clock text of its UTC time of day |
| IndexJs.TimerTextInvalid | data/index.js:41-68 | an invalid date shows "NaN:NaN:NaN.NaN" |
| IndexJs.AppendTwoDigits | data/index.js:47-50 | one '0' below 10, then the number: two-digit zero padding |
| IndexJs.AppendThreeDigits | data/index.js:62-68 | a '0' below 100 and another below 10: three-digit zero padding |
| IndexJs.Timer | data/index.js:36-70 | the display stays as it is while it shows "Unknown"; otherwise it shows the padded fields of the estimated time |
| IndexJs.ParseTimerText | data/index.js:36-91 | the timer's text for a valid date parses back to that date's time of day |
| GzipStream.GzName | shared/gzip_compressing_stream.py:43-44 | ".gz" is appended exactly when the name does not already end with it |
| GzipStream.GzNameIdempotent | shared/gzip_compressing_stream.py:43-44 | fixing a name twice is fixing it once |
| GzipStream.BaseName | shared/gzip_compressing_stream.py:67 | os.path.basename is a '/'-free suffix of the path |
| GzipStream.DropLast3 | shared/gzip_compressing_stream.py:67 | `[:-3]` drops three characters, or all of fewer |
| GzipStream.Latin1 | shared/gzip_compressing_stream.py:68-69 | latin-1 succeeds exactly when every code point is below 256, one byte each |
| GzipStream.HeaderFor | shared/gzip_compressing_stream.py:64-92 | the header is 10 bytes, plus the name and its NUL when there is a name |
| GzipStream.HeaderFields | shared/gzip_compressing_stream.py:64-92 | ID1, ID2 and CM; FLG is FNAME exactly when there is a name; MTIME zero; XFL 2, 4 or 0 by level; OS 0xff; then the NUL-terminated name |
| GzipStream.ReadHeaderRoundTrip | shared/gzip_compressing_stream.py:64-92 | a reader of section 2.3 of RFC 1952 takes back the flags, XFL, OS and name, and finds the data right after the header |
| GzipStream.HeaderAsWrittenAgrees | shared/gzip_compressing_stream.py:64-92 | as written and as intended agree on every name latin-1 can encode |
| GzipStream.HeaderAsWrittenRaises | shared/gzip_compressing_stream.py:70-73 | for "caf€.bin.gz" the code as written raises (AttributeError after ID1, ID2 and CM), while the intended header is the 10 bytes without FNAME |
| GzipStream.Crc32Continues | shared/gzip_compressing_stream.py:124 | continuing the CRC piece by piece equals one CRC over all the data |
| GzipStream.Crc32CheckValue | shared/gzip_compressing_stream.py:124 | the CRC-32 of "123456789" is 0xCBF43926 |
| GzipStream.LittleEndian32 | shared/gzip_compressing_stream.py:139-140 | `struct.pack("<L", x)` is four bytes |
| GzipStream.CrcBytes | shared/gzip_compressing_stream.py:139 | the packed CRC is four bytes |
| GzipStream.LittleEndian32RoundTrip | shared/gzip_compressing_stream.py:139-140 | reading the four bytes back gives the value |
| GzipStream.Utf8 | shared/gzip_compressing_stream.py:115-116 | one to four bytes per code point, one exactly for ASCII |
| GzipStream.EncodeUtf8 | shared/gzip_compressing_stream.py:115-116 | the encoding is never shorter than the text, and as long as it for ASCII |
| GzipStream.CompressingStream.constructor | shared/gzip_compressing_stream.py:24-50 | the header for the ".gz" name is written; size 0, CRC 0, open |
| GzipStream.CompressingStream.Write | shared/gzip_compressing_stream.py:94-126 | ValueError when closed or for another type, changing nothing; otherwise returns the payload length, and a non-empty payload adds its deflate output, its length to `size` and itself to the CRC |
| GzipStream.CompressingStream.Absorb | shared/gzip_compressing_stream.py:121-124 | size and CRC stay those of all the input accounted for |
| GzipStream.CompressingStream.Close | shared/gzip_compressing_stream.py:128-142 | the first close appends the flushed tail, the CRC and `size & 0xffffffff`, little-endian; a second close changes nothing |
| GzipStream.TrailerReadsBack | shared/gzip_compressing_stream.py:134-140 | the trailer reads back as the CRC of all the input and its length modulo 2^32 |

## Left out

- uzlib decompression is not part of this model. `compressedStaticHandler` takes the decompressed size as a parameter, and `decompressingResponseFiller` is not modelled.
- ESPAsyncWebServer is not part of this model.
  - Responses are data: `beginResponse*`, `send` and `addHeader`.
  - `server.on` appends to a route list.
  - The Accept-Encoding `strstr` test is a predicate on the header value.
  - `csvHeaderContains`, and so the OpenMetrics negotiation of `handleMetrics`, is a boolean parameter.
  - The method bit constants are the library's values GET=1 to OPTIONS=64, ANY=127.
- Floating-point formatting is abstract. The `%.3f` text of the temperature and humidity is given as a string, and its length is assumed to be at most 7, as the budget comments say. `getTemperature`, `getHumidity`, `getJson`, `celsiusToFahrenheit` and `printTemperature` are not modelled.
  - Readings in `measure` are `real` or NaN.
- Prometheus push is not modelled: `pushMetrics`, the TCP client, `connect()`'s URL and the asynchronous callbacks.
- Device plumbing is I/O and is not modelled: WiFi, OTA, mDNS, deep sleep, sensor drivers and Serial output. The clock `millis()` is a parameter. `handle_serial_input`'s printing is reduced to a `Ran` event.
- The Dallas branch of `measure` (src/main.cpp:369-379) is not modelled; only the DHT rule is.
- `notFoundHandler` is not modelled, because it uses the same template engine and the same HEAD wrapping already covered.
- `trackingRequestHandlerWrapper` and `defaultHeadRequestHandlerWrapper` are modelled without their counter update. Their `pair<String, uint16_t>` key does not fit the map's declared shape. The counter update is the one of `handleRequest`.
- `log_e`, `log_w` and `log_d` are not modelled.
- `fetch`, the DOM and `setInterval` in data/index.js are not modelled. `Date.now() - update_time` is the parameter `elapsed`.
- `zlib.compressobj` is not part of this model: what each `compress` and `flush` call returns is a parameter. The stream's own `flush()` is not modelled as a separate call; the Z_SYNC_FLUSH output that `close()` writes through it is part of the `flushed` parameter of GzipStream.CompressingStream.Close. `fileno()` and the read refusals of the Python stream are not modelled.
- Template.ReplacingFiller.Fill requires every marker to be paired. After an unterminated marker the source copies the prefix before it and breaks without advancing (src/webhandler.cpp:160-165), so that path is not modelled. Template.DeclaredLength does model the pre-pass's `break` on an unterminated marker.
- Template.ReplacingFiller.Fill takes a placeholder's name to be the whole text between its markers. The source's `String((char*) buf)` stops at a NUL inside the name (src/webhandler.cpp:168-171). Every caller passes `page + strlen(page)` as the end, so pages hold no NUL and the two readings agree (Template.NameIsCString). Pages with an inner NUL are not modelled.
- Template.DeclaredLength computes `len_diff` and `content_length` on unbounded integers. In the source, `length() - span` (src/webhandler.cpp:368) is unsigned 32-bit arithmetic on the ESP32, so a placeholder that shrinks adds 2^32 minus the shrink to the `int64_t` sum. The conversion to the 32-bit `size_t` at src/webhandler.cpp:376 removes it again. The declared length therefore agrees with the model's modulo 2^32, but the intermediate values are not modelled.
- Dispatch.TrackingHandler.HandleRequest requires the method value to be within HTTP_ANY. A value from 128 up would index past the 7 slots, which C leaves undefined.
- Dispatch.GetMsb requires `number < 2^31`. From 2^31 on, the loop shifts a `uint32_t` by 32, which C leaves undefined.
- Prometheus.GetMetrics is proved for the corrected budget and under the budget comments' assumptions:
  - readings of at most 7 characters;
  - a heap within 32 bits;
  - a 7-character commit hash;
  - 3-digit status codes.

  It states the result as the scrape text read as a C string. It does not prove the text NUL-free, which would need the namespace and labels to be NUL-free.
- Prometheus.WriteRequestLine does not model the truncating behaviour of `strncpy` and `snprintf` when a line does not fit. Under the corrected budget every line fits.
- Metrics.FixedText writes a count's `%.3f` text as its decimal digits and ".000". This is exact only below 2^53, where a `double` holds the count exactly.
- IndexJs.ParseTimeString reads only decimal digit runs as numbers. Any other field text, such as signs, blanks or exponents, reads as NaN, while JavaScript's ToNumber accepts more syntaxes. The device only sends digit runs.
- GzipStream.BaseName is POSIX `os.path.basename`. The Windows variant, which also splits at '\\', is not modelled.
- Utils.TimespanToString follows the function's documentation. Its body is in a file that is not part of this model.

## Findings

| source | as written | input that shows it | evidently intended | confidence | as-written member | corrected member |
|---|---|---|---|---|---|---|
| src/prometheus.cpp:101-102 | build_info_max_len budgets 104 fixed characters for the sample line | any non-empty namespace and a 7-character commit: the line has 29+7+12+19+15+19+5 = 106 fixed characters | a budget of 106 | high, not executed | Metrics.BuildInfoOverBudget | Metrics.MetricsFit |
| src/prometheus.cpp:112 | eof_max_len is 5, while the `strncpy` of "# EOF\n" (src/prometheus.cpp:246-248) copies up to 7 bytes: 6 characters and a NUL | an OpenMetrics scrape whose other sections fill their budgets | a budget of 7 | high, not executed | Metrics.MaxLenAsWrittenTooSmall | Metrics.MetricsFit |
| src/prometheus.cpp:74-78 | uri_len_sum adds each path's length once, but every (method, status) line of that path prints it | one 100-character path requested with GET and HEAD (together with the two budgets above, 58 characters past max_len) | the path's length once per counter line | high, not executed | Metrics.UriLenSumShortfall | Prometheus.SumPathLengths |
| src/prometheus.cpp:239-242 | the overflow `break` leaves only the inner loop, so the next path's lines are still written at `len >= max_len` (and `max_len - len` wraps in `size_t`) | two paths of one line each, each line reaching `max_len` | stop writing counter lines altogether | medium, not executed | Metrics.GuardLeavesInnerLoopOnly | Metrics.GuardedStartsBelowMaxLen |
| shared/gzip_compressing_stream.py:70-73 | the `except UnicodeEncodeError` branch formats `self.name`, which the stream does not have (and `traceback` is not imported), so it raises instead of falling back | the file name "caf€.bin" | drop the name and write a header without FNAME | high, not executed | GzipStream.HeaderAsWrittenRaises | GzipStream.Header |
