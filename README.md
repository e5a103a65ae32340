# A verified model of the file server's request handler and job queue

The server accepts TCP connections, queues each client socket in a bounded
ring buffer (`job_queue_t`), and lets worker threads pop the sockets and run
`handle_request` on them. `handle_request` does five things in order:

1. It reads into an 819200-byte buffer until the header block ends. The end
   is the first `"\r\n\r\n"`, or else the first `"\n\n"`.
2. It splits the header block into lines. It picks out `Content-Length` and
   `X-Secret`, compared case-insensitively.
3. It rejects every request whose secret is not the shared key.
4. It reads the body, into the header buffer or into a separately
   allocated one.
5. It dispatches. GET streams a file to the client. POST appends the body to
   a file. Both take a file semaphore that holds three permits.

The project models this core in Dafny, in the form the C code has:

- `cstrings.dfy` (module `CStrings`): the C library calls the handler relies
  on, as pure functions over `seq<char>` with NUL as `0 as char`. These are
  `strstr`, `strncasecmp`, `atoi`, `strncpy`, the blank skipping and the
  `sscanf("%15s %255s")` of the request line.
- `io_model.dfy` (module `IoModel`): `read` and `write` as values.
  - What a socket or file delivers is a sequence of pieces, and a read takes
    at most the requested number of bytes of the next piece.
  - What successive writes report is a sequence of results.
- `request_spec.dfy` (module `RequestSpec`): each stage of `handle_request`
  and of the two handlers as a function of the bytes the peer sends and of
  what `malloc`, `open`, `read` and `write` report (`Env`).
- `request_handler.dfy` (module `RequestHandler`): the imperative code.
  - Each stage is a method with the C loop and its invariants: the header
    read filling `buffer` in place, the line loop, the two body paths, the
    partial-write loop and the GET streaming loop.
  - Each method is proved to compute the matching `RequestSpec` function.
  - The handlers take and give back a `FileGate` object, which models the
    semaphore.
- `properties.dfy` (module `RequestProperties`): what those functions
  promise.
  - The terminator rules, 413 and 400, the rules for the header fields, and
    which stream bytes become the body.
  - The full set of statuses, and that a file is opened only with the key.
  - What GET and POST send or append.
- `server.dfy` (module `Server`): `job_queue_t` as a class over an `int`
  array of 256 slots with `front`, `rear` and `count`.
  - The class carries a ghost FIFO view.
  - `Replay` runs any non-blocking schedule of pushes and pops and shows
    that the pops return the pushed sockets in order.
  - The file semaphore is a permit counter.

Three behaviours of the code are easy to misread. The model follows the
code on each of them:

- A failed write while GET streams a file only ends the inner write loop.
  The outer loop goes on reading and sending the next piece, so the answer
  stays 200. This is `StreamGoesOnAfterFailure`.
- The header-line loop starts at the first byte of the buffer. The request
  line is therefore scanned as a header line too.
- The request line is read with `sscanf` on the whole buffer. It is not
  limited to the first line.

The body stage follows line 137 as written: the separate buffer is used only
for a Content-Length above 819200 (`MaterializeBodyAsWritten`, computed by
`RequestHandler.ReadBody`). So `Parse`, `Serve`, `ParseRequest` and
`HandleRequest` answer 400 where the code does. A body the peer sends in full is
meant to be read in full; `MaterializeBody` is that corrected threshold. "## Findings" compares the two.

## Model

| member | source | states |
|---|---|---|
| CStrings.FindFrom | src/request_handler.c:32-45 | strstr: the result is a match position, and no earlier position matches; None means no position matches |
| CStrings.CrlfFromIsStrStr | src/request_handler.c:76 | the byte scan for "\r\n" from the current line equals strstr on the C string that starts there |
| CStrings.LfFromIsStrStr | src/request_handler.c:80 | the byte scan for "\n" from the current line equals strstr on the C string that starts there |
| CStrings.SpanIs | src/request_handler.c:104-105 | the blank skip stops exactly at the first byte that is not a space or tab |
| CStrings.DecValueDecimal | src/request_handler.c:106 | the digits of a number read back as that number |
| CStrings.AtoiDecimal | src/request_handler.c:106 | atoi of leading white space, then a decimal number, then a non-digit gives that number |
| CStrings.AtoiNegative | src/request_handler.c:106 | atoi of '-' followed by the decimal digits of n gives -n, so a negative Content-Length is possible |
| CStrings.StrNCopyPrefix | src/request_handler.c:115-116 | strncpy into the 256-byte secret keeps at most 255 bytes, keeps a NUL-free prefix of the source, and keeps the whole C string when it fits |
| CStrings.ScanWord | src/request_handler.c:67 | a %Ns conversion yields between 1 and N bytes, none of them white space |
| CStrings.ScanRequestLine | src/request_handler.c:66-67 | a successful sscanf gives a method of 1-15 bytes and a path of 1-255 bytes |
| CStrings.ScanWordAt | src/request_handler.c:67 | a %Ns conversion skips the white space, then takes the word that follows, cut to N bytes |
| CStrings.ScanRequestLineTokens | src/request_handler.c:66-67 | for white space, a method of 1-15 bytes, white space, a path of 1-255 bytes, then white space, NUL or the end: the method and the path are exactly those two words |
| CStrings.ScanRequestLineSplit | src/request_handler.c:66-67 | a first word longer than 15 bytes gives its first 15 bytes as the method, and the path starts with its 16th byte (cut to 255 bytes) |
| CStrings.StrStrGrows | src/request_handler.c:32-45 | a pattern strstr finds in the buffer is still found after more bytes are appended |
| CStrings.RequestLineFilled | src/request_handler.c:67 | two non-space bytes of the C string at least 15 apart are enough for sscanf to fill both method and path |
| IoModel.Receive | src/request_handler.c:26 | a read returns at most the requested bytes; a read that delivers bytes consumes them from the stream in order, and an empty read with room left means end of stream |
| IoModel.Transmit | src/request_handler.c:261 | a write never reports more than requested, and it consumes one result of the schedule |
| RequestSpec.HeaderEnd | src/request_handler.c:32-45 | a header end lies inside the C string in the buffer, at least 2 bytes in |
| RequestSpec.LineEnd | src/request_handler.c:76-86 | a line found ends before the header end, with a line ending of 1 or 2 bytes |
| RequestSpec.LinesAreShort | src/request_handler.c:89-95 | every header line the scan keeps is shorter than 4096 bytes |
| RequestSpec.TooLongMeaning | src/request_handler.c:89-95 | a scan that stops on a long line stops at a line it reaches whose text is 4096 bytes or more |
| RequestSpec.ScanFromSplits | src/request_handler.c:73-121 | the line loop as run, from the first byte, yields the header lines in order and says whether it stopped at a line that is too long |
| RequestSpec.ReadHeadersBounds | src/request_handler.c:26-47 | a found header end is where the terminator rule puts it, lies inside the C string, and the buffer holds fewer than 819200 bytes |
| RequestSpec.LineInside | src/request_handler.c:96-98 | every header line is the slice of the header block it was copied from |
| RequestSpec.SecretFromSomeLine | src/request_handler.c:110-117 | a non-empty secret was set by the last X-Secret line |
| RequestSpec.KeyLineWords | src/request_handler.c:110-115 | a line whose secret is the key holds two non-space bytes at least 15 apart |
| RequestSpec.SecretFillsRequestLine | src/request_handler.c:66-67 | once the secret check passes, sscanf has filled both method and path, so the undefined case cannot reach the dispatch |
| RequestSpec.BodyLength | src/request_handler.c:131-183 | a body read in full (line 137 as written) holds max(0, Content-Length) bytes |
| RequestSpec.InlineBodyLength | src/request_handler.c:170-182 | the body completed in the header buffer holds exactly Content-Length bytes |
| RequestSpec.SpillBodyLength | src/request_handler.c:138-162 | the separate buffer holds exactly Content-Length bytes once it is full |
| RequestSpec.ParseBodyLength | src/request_handler.c:192 | the POST handler gets a body of max(0, data_length) bytes |
| RequestSpec.WriteLoop | src/request_handler.c:258-271 | on success, total_written reaches data_length (or stays at 0 for a non-positive length); on failure, it stays below data_length |
| RequestHandler.ReadHeaderBlock | src/request_handler.c:26-63 | the read loop computes ReadHeaders on an empty buffer, and a found header block is what the buffer holds |
| RequestHandler.SkipBlanks | src/request_handler.c:104-105 | the blank-skipping loop stops at Span |
| RequestHandler.FindLineEnd | src/request_handler.c:76-89 | the two strstr calls and the header_end tests compute LineEnd |
| RequestHandler.ParseHeaderLine | src/request_handler.c:100-117 | the two strncasecmp tests update Content-Length and the secret as ApplyLine says |
| RequestHandler.ScanHeaderLines | src/request_handler.c:69-121 | the line loop over the buffer computes ScanHeaders: the fields of all lines in order, or the 400 for a line that is too long |
| RequestHandler.SpillIntoNew | src/request_handler.c:140-162 | the malloc'd buffer, seeded with the bytes past the header end and filled by reads of the remaining size, computes SpillBody |
| RequestHandler.ReadRound | src/request_handler.c:172-181 | one read of the inline loop appends what arrives, at most the room left before the last byte, after the bytes already in the buffer |
| RequestHandler.ReadInline | src/request_handler.c:164-182 | the read loop into the header buffer computes InlineBody and leaves the header bytes already in the buffer as they were |
| RequestHandler.ReadBody | src/request_handler.c:131-183 | the body stage computes MaterializeBodyAsWritten: the separate buffer only for a Content-Length above 819200, as line 137 tests; the bytes already in the header buffer are left as they were |
| RequestHandler.ParseRequest | src/request_handler.c:16-201 | handle_request up to the dispatch computes Parse: a status or a handler call |
| RequestHandler.WriteAll | src/request_handler.c:258-271 | the partial-write loop computes WriteLoop, and the bytes written are the first count bytes of the data, in order |
| RequestHandler.StreamToSocket | src/request_handler.c:219-234 | the read/write loop computes StreamFile |
| RequestHandler.HandleGet | src/request_handler.c:203-240 | handle_get_request computes GetOutcome, with one sem_wait and one sem_post, so the permit count is unchanged |
| RequestHandler.HandlePost | src/request_handler.c:242-279 | handle_post_request computes PostOutcome, with one sem_wait and one sem_post on every path, the write-failure return included |
| RequestHandler.HandleRequest | src/request_handler.c:16-202 | one request computes Serve; a free permit is needed only when a handler runs, and the semaphore is taken and given back exactly when a handler opens a file |
| RequestProperties.HeaderEndAtCrlf | src/request_handler.c:32-36 | the header ends just past the first "\r\n\r\n", even when a "\n\n" comes earlier |
| RequestProperties.HeaderEndAtLf | src/request_handler.c:40-44 | with no "\r\n\r\n", the header ends just past the first "\n\n" |
| RequestProperties.HeaderEndNone | src/request_handler.c:32-46 | no header end is found exactly when neither terminator occurs |
| RequestProperties.HeadersFoundIsPrefix | src/request_handler.c:26-29 | the header buffer is the start of the stream, and the unread rest is the remainder |
| RequestProperties.TooLargeMeaning | src/request_handler.c:49-54 | 413 comes only after 32768 or more bytes (but fewer than 819200) of the stream hold no terminator |
| RequestProperties.NoTerminatorMeaning | src/request_handler.c:57-63 | 400 for a missing terminator comes only when the peer stopped after fewer than 32768 bytes, none of which end the headers |
| RequestProperties.HeaderEndGrows | src/request_handler.c:29-45 | once the buffer holds a header terminator, appending bytes keeps one |
| RequestProperties.ShortStreamGetsNoTerminator | src/request_handler.c:26-63 | a peer that stops before 32768 bytes without a terminator gets 400 |
| RequestProperties.NoTerminatorExactly | src/request_handler.c:26-63 | the header read ends in 400 exactly when the stream is shorter than 32768 bytes and holds no terminator |
| RequestProperties.LongStreamGetsTooLarge | src/request_handler.c:26-54 | a stream of 32768 bytes or more whose first 819199 bytes hold no terminator gets 413 |
| RequestProperties.LineEndMeaning | src/request_handler.c:76-86 | a line ends at the first "\r\n", else at the first "\n", and the scan stops when neither comes before the header end |
| RequestProperties.OtherLinesKeepFields | src/request_handler.c:100-117 | lines that are neither Content-Length nor X-Secret change neither field |
| RequestProperties.ContentLengthDefault | src/request_handler.c:70 | with no Content-Length line, the content length keeps its value (0 at the start) |
| RequestProperties.ContentLengthLastWins | src/request_handler.c:101-107 | when several lines give a Content-Length, the last one decides |
| RequestProperties.SecretDefault | src/request_handler.c:71 | with no X-Secret line, the secret stays empty |
| RequestProperties.SecretLastWins | src/request_handler.c:110-117 | when several lines give an X-Secret, the last one decides |
| RequestProperties.ContentLengthValue | src/request_handler.c:101-107 | a line made of the name in any case, then blanks, then a decimal number gives that number |
| RequestProperties.SecretValue | src/request_handler.c:110-117 | a line made of the name in any case, then blanks, then a value gives that value, cut to 255 bytes |
| RequestProperties.SpillBodyMeaning | src/request_handler.c:147-162 | the separate buffer fills exactly when the peer sends enough bytes, and it holds the first Content-Length bytes after the header end; otherwise 400 |
| RequestProperties.InlineBodyMeaning | src/request_handler.c:164-182 | the inline read completes exactly when the body fits below the buffer's last byte and the peer sends it, and it holds the bytes after the header end |
| RequestProperties.MaterializeBodyMeaning | src/request_handler.c:135-183 | corrected body stage (separate buffer above BUFFER_SIZE − 1 − header_end): empty for a Content-Length of 0 or less, 500 when the allocation fails, the bytes after the header end when the peer sends enough, otherwise 400 |
| RequestProperties.AsWrittenRejectsFittingBody | src/request_handler.c:137 | as written, a Content-Length above 819199 minus the header end but at most 819200 always ends in 400 |
| RequestProperties.FullBufferBody | src/request_handler.c:137 | a fully sent 819200-byte body gets 400 as written and is read in full with the corrected threshold |
| RequestProperties.MaterializeBodyAgrees | src/request_handler.c:137 | outside that range the corrected threshold behaves as the code |
| RequestProperties.AsWrittenReadAgrees | src/request_handler.c:135-183 | a body the code as written reads in full is the one the corrected threshold reads |
| RequestProperties.BodyFromStream | src/request_handler.c:132-183 | a completed body is the max(0, Content-Length) stream bytes after the header end |
| RequestProperties.FileAccessNeedsKey | src/request_handler.c:124-129 | a file is opened only when the last X-Secret line of the header block carries the key |
| RequestProperties.DispatchAccepted | src/request_handler.c:186-197 | a handler is called only with a body read in full; GET exactly for method "GET"; the path loses its first byte; POST passes the body and Content-Length |
| RequestProperties.ParseAccepted | src/request_handler.c:16-197 | a handler call comes from a found header block, the key as secret and the request line's method; the file name is the path minus its first byte |
| RequestProperties.PostBodyIsStream | src/request_handler.c:132-192 | the body given to POST is the max(0, Content-Length) stream bytes after the header end |
| RequestProperties.MethodNotAllowedMeaning | src/request_handler.c:198-201 | 405 means the header block was found, every line was short enough, the secret was the key, the body was read in full, and the method is neither GET nor POST |
| RequestProperties.OtherMethodGets405 | src/request_handler.c:186-201 | conversely, a request that passes all of those checks with a method other than GET and POST is answered 405 |
| RequestProperties.WrongSecretGets403 | src/request_handler.c:124-129 | a request whose header lines are short enough but whose secret is not the key gets 403 |
| RequestProperties.NoSecretLineGets403 | src/request_handler.c:124-129 | a request with no X-Secret line at all gets 403 |
| RequestProperties.LineTooLongGets400 | src/request_handler.c:89-95 | a header block in which the scan meets a line of 4096 bytes or more gets 400 |
| RequestProperties.CheckHeadersStatus | src/request_handler.c:90-200 | after the header block, only 400, 403, 405 or 500 is answered without a handler, and 403 only for a wrong secret |
| RequestProperties.DispatchStatus | src/request_handler.c:144-200 | without a handler call, the body stage and the dispatch answer only 400, 405 or 500 |
| RequestProperties.ParseStatus | src/request_handler.c:16-202 | handle_request answers only 400, 403, 405, 413 or 500 itself; 413 exactly for an oversized header block |
| RequestProperties.ServeStatus | src/request_handler.c:16-279 | every request is answered 200, 400, 403, 404, 405, 413 or 500, and a file is opened exactly when a handler is called |
| RequestProperties.WriteLoopSucceeds | src/request_handler.c:258-271 | the write loop completes when every write makes progress and there are enough of them |
| RequestProperties.PostMeaning | src/request_handler.c:242-279 | POST answers 200 or 500; 200 means the whole body was appended; 500 after a successful open means a strict prefix was; a non-positive length gives 200 |
| RequestProperties.StreamMeaning | src/request_handler.c:221-234 | GET sends the file's bytes in order: all of them when no write fails, and never more than the file holds |
| RequestProperties.GetMeaning | src/request_handler.c:203-240 | GET answers 404 exactly when open fails, otherwise 200 with the file's bytes, and never appends |
| RequestProperties.StreamGoesOnAfterFailure | src/request_handler.c:221-234 | for every file and write schedule: a failed write drops only the rest of its piece, the stream goes on with the next piece, and everything after that piece is sent when no later write fails |
| RequestProperties.StreamFailureExample | src/request_handler.c:227-231 | with the file read as "ab" then "cd" and the first write failing, "cd" is still sent |
| Server.JobQueue.Init | src/server.c:38-43 | front, rear and count are all 0, which is the empty queue |
| Server.JobQueue.Push | src/server.c:45-59 | on a queue that is not full: the socket goes into jobs[rear], rear advances modulo 256, count goes up by one, no other slot changes, and the FIFO view gains the socket at its end |
| Server.JobQueue.Pop | src/server.c:61-74 | on a non-empty queue: the result is jobs[front], the oldest queued socket; front advances modulo 256, count goes down by one, and the slots are unchanged |
| Server.Replay | src/server.c:45-74 | any schedule in which no call blocks pops exactly the pushed sockets, in push order |
| Server.FileGate.Init | src/server.c:82 | the semaphore starts with 3 permits |
| Server.FileGate.Acquire | src/request_handler.c:206 | sem_wait with a permit free takes one |
| Server.FileGate.Release | src/request_handler.c:239 | sem_post gives one back |

## Left out

- The logger (`log_message`) is left out. It prints under a mutex and has no effect on control flow.
- `main`, `initialize_server` and `worker_thread` are left out. These are socket setup, the bind retries, `listen`, `accept`, thread creation and the endless worker loop. `Replay` stands for the queue's use by the accept loop and the workers, run one call at a time.
- The queue's mutex and condition variable are not modelled. The same goes for the blocking of `sem_wait`. A wait becomes a precondition: `Push` needs a non-full queue, `Pop` a non-empty one, and `Acquire` a free permit. Interleavings of threads are not modelled.
- `read`, `write`, `malloc` and `open` are not modelled as system calls.
  - Reads are the chunk schedule `Input`.
  - Writes are the result schedule in `Env.writes`.
  - `malloc` and `open` are the success flags `Env.allocOk` and `Env.openOk`.
  - The file's contents are `Env.file`. The same write schedule serves the file write in POST and the socket write in GET.
- The write of the status line and `close()` are left out. Their results are ignored by the code. The status is an `Outcome` field.
- `free(body)` is left out, because memory is not modelled.
- RequestSpec.ContentLengthOf does not model `atoi`'s undefined behaviour on values outside `int`. Dafny integers are unbounded, so a huge Content-Length is kept as the number it spells.
- RequestHandler.ScanHeaderLines works on a snapshot of the buffer as a sequence, not on `char *` pointers into the array. The buffer is not changed while the lines are scanned.
- RequestHandler.ParseHeaderLine copies a line into a local 4096-byte array with `memcpy` and a NUL, and that copy is not modelled. The line is the sequence slice, and `LinesAreShort` shows the copy fits.
- `sscanf` leaving `method` or `path` uninitialised is not modelled as undefined behaviour. `SecretFillsRequestLine` proves it cannot happen on any request that passes the secret check, and no other request reads them.

## Findings

| source | as written | input that shows it | evidently intended | confidence | as-written member | corrected member |
|---|---|---|---|---|---|---|
| src/request_handler.c:137 | the separate body buffer is used only when `content_length > BUFFER_SIZE`; a smaller body that does not fit after the header end goes to the header buffer, which holds at most BUFFER_SIZE - 1 bytes in all, so once it is full the read at line 172 asks for 0 bytes and the request gets 400 | a POST with a 40-byte header block, `Content-Length: 819200` and all 819200 body bytes sent | every body that the peer sends in full is read in full: the separate buffer is used whenever the body does not fit in the header buffer after the header end (`content_length > BUFFER_SIZE - 1 - header_end`) | not executed | RequestProperties.AsWrittenRejectsFittingBody | RequestProperties.MaterializeBodyMeaning |
