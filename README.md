# mysql_slowlogd: the tailing reader and the record rate limiter

mysql_slowlogd serves the live tail of a MySQL slow query log over HTTP
(`GET /slow?rate_limit=N`). This project models and proves the core of
`src/mysql_slowlogd.c`:

- **`apply_rate_limit`** (module `RateLimiter`) rewrites a buffer in place.
  It keeps one record in N, splitting the buffer into records at every
  occurrence of the 13-byte delimiter `# User@Host: `. A record
  straddling two buffers is handled through the counter and the matcher
  state carried between calls. The in-place loop is the method
  `ApplyRateLimit` over an `array`. It is proved against the specification
  function `Compact`, whose properties are lemmas:
  - the output is the kept spans in order;
  - exactly one record in N is kept;
  - the closed form of the counter;
  - the leading partial record is dropped;
  - compacting `a + b` equals compacting `a` and then `b`.
- **The streaming matcher** `sbmh_feed`/`sbmh_reset` (module
  `StreamMatcher`) is modelled by its contract. A reference matcher carries
  the last 12 bytes fed since the last reset. A lemma shows that these
  12 bytes stand for the whole history. The Boyer-Moore-Horspool algorithm
  itself is not modelled.
- **`struct tailed_file` and `tailed_file_content_reader`** (module
  `TailedFiles`) are the START/WAIT/DUMP state machine.
  - The class `TailedFile` holds the C structure's fields and its methods
    update them in place.
  - Each method is proved equal to a specification function on snapshots
    (`PollSpec`, `DumpSpec`, `StartSpec`, `ReaderSpec`).
  - The file system is an input of each call (`Env`): what `fstat`,
    `stat`, `open` and `read` return.
  - Lemmas over whole sequences of calls show that a client receives
    the delimiter, then exactly what one pass of the rate limiter over
    everything read keeps, however the reads were split.
- **The `rate_limit` argument of `handle_request`** (module `RequestArgs`).
  `atoi` is modelled as glibc implements it: `strtol` on a 64-bit `long`,
  saturated, then truncated to 32 bits. The clamp to at least 1 follows.

The module `Util` holds an Option type and a few facts about slices of sequences.

C's `%` truncates toward zero. It is modelled by `RateLimiter.CRem`,
because the counter can be -1.

A buffer of exactly 13 bytes is refused by the START block. The test at
`src/mysql_slowlogd.c:262` is `QUERY_DELIM_LEN >= max`, although 13 bytes
would hold the delimiter. The model follows the code.

## Model

| member | source | states |
|---|---|---|
| Delimiter.QueryDelimIsUserHostLabel | src/mysql_slowlogd.c:61-62 | the delimiter is the 13 ASCII bytes `# User@Host: ` |
| Delimiter.TailKeepsOccurrences | src/mysql_slowlogd.c:120-123 | forgetting all but the last 12 bytes of the history loses no delimiter that ends in later bytes |
| StreamMatcher.Reset | src/mysql_slowlogd.c:133 | `sbmh_reset` forgets any partial match: the carried bytes are empty |
| StreamMatcher.Feed | src/mysql_slowlogd.c:120-123 | a feed of a non-empty chunk consumes at least one byte and at most the whole chunk |
| StreamMatcher.FeedContract | src/mysql_slowlogd.c:120-134 | the count is the position just past the first completed delimiter, or the whole chunk if none completes; `found` holds iff one completed there; the carried state is the last bytes seen |
| StreamMatcher.FeedUnique | src/mysql_slowlogd.c:120-123 | the three properties of the contract determine the count uniquely |
| StreamMatcher.LookbehindStandsForHistory | src/mysql_slowlogd.c:120-123 | matching after the carried state finds exactly the delimiters that end in the new chunk of the whole history |
| StreamMatcher.FeedSplitFound | src/mysql_slowlogd.c:118-123 | when a delimiter completes in `a`, feeding `a + b` gives the same result as feeding `a` |
| StreamMatcher.FeedSplitNotFound | src/mysql_slowlogd.c:118-123 | when none completes in `a`, feeding `a + b` equals feeding `a` and then `b` with the carried state; a delimiter straddling the split is found at the same place |
| RateLimiter.CRem | src/mysql_slowlogd.c:132 | C's `%`: the result differs from the dividend by a multiple of the divisor, has the sign of the dividend and magnitude below the divisor, which determines it |
| RateLimiter.Compact | src/mysql_slowlogd.c:118-136 | the compacted length never exceeds the input length |
| RateLimiter.SpansPartition | src/mysql_slowlogd.c:118-130 | the spans the matcher reports concatenate, in order, to the buffer |
| RateLimiter.SpansShape | src/mysql_slowlogd.c:118-131 | every span is non-empty, and every span but the last ends with a delimiter |
| RateLimiter.CompactKeepsOneInN | src/mysql_slowlogd.c:124-134 | the output is the in-order concatenation of the spans that begin when the counter is 0 |
| RateLimiter.CounterAtClosedForm | src/mysql_slowlogd.c:132 | from a counter in [-1, N), after d delimiters the counter is -1 while c0 + d < 0 and (c0 + d) mod N afterwards |
| RateLimiter.CompactCounterAfter | src/mysql_slowlogd.c:131-132 | the counter left after a buffer is the counter advanced once per delimiter in it |
| RateLimiter.CompactCounterInRange | src/mysql_slowlogd.c:132 | a counter in [-1, N) stays there; it is non-negative once any delimiter has been seen |
| RateLimiter.LeadingPartialDropped | src/mysql_slowlogd.c:124-134 | with counter -1, the bytes up to the first delimiter are dropped and the rest is compacted from counter 0; with no delimiter nothing is kept |
| RateLimiter.FirstSpanKept | src/mysql_slowlogd.c:124-129 | with counter 0 the first span is kept at the start of the output |
| RateLimiter.NoLimitKeepsAll | src/mysql_slowlogd.c:124-134 | at rate limit 1 and counter 0 the buffer is unchanged and the counter stays 0, which is why the reader may skip the limiter then |
| RateLimiter.CompactSplit | src/mysql_slowlogd.c:118-135 | compacting `a + b` gives the output for `a` followed by that for `b` from the counter and matcher `a` leaves |
| RateLimiter.MoveDown | src/mysql_slowlogd.c:126-127 | `memmove` to a lower position: the target range holds the old source bytes, the rest of the buffer outside it is unchanged |
| RateLimiter.KeepSpan | src/mysql_slowlogd.c:125-129 | the kept prefix grows by the span, moving only when source and destination differ |
| RateLimiter.ConsumeSpan | src/mysql_slowlogd.c:120-134 | one loop iteration on the array: the cursors advance by the feed count, the counter and the matcher as in `CompactStep` |
| RateLimiter.ApplyRateLimit | src/mysql_slowlogd.c:80-137 | the new length is at most the old length; the buffer's prefix of that length, the counter and the matcher are those `Compact` gives for the old contents; bytes past the length are untouched |
| TailedFiles.SameFile | src/mysql_slowlogd.c:196-198 | the file counts as unchanged when mode, mtime and size agree |
| TailedFiles.Replaced | src/mysql_slowlogd.c:203 | the path names another file when inode or device differ |
| TailedFiles.PollSpec | src/mysql_slowlogd.c:188-234 | outside WAIT nothing changes; in WAIT the wait count is reset or grows by one, START is never entered, and entering DUMP resets the count |
| TailedFiles.DumpSpec | src/mysql_slowlogd.c:236-256 | the reply is the number of bytes left, at most the number read; at end of file the state becomes WAIT; the offset advances by what was read; descriptor, stat, wait count and rate limit are untouched |
| TailedFiles.StartSpec | src/mysql_slowlogd.c:258-272 | nothing is read and the descriptor and offset are untouched; the reply is the error value exactly when the buffer has at most 13 bytes |
| TailedFiles.ReaderSpec | src/mysql_slowlogd.c:183-275 | the reply is the error value exactly in START with a buffer of at most 13 bytes; any other reply counts the bytes left in the buffer; the rate limit never changes |
| TailedFiles.StartCase | src/mysql_slowlogd.c:258-272 | START with a buffer of at most 13 bytes: error, nothing changes; otherwise the reply is the delimiter alone, the state becomes DUMP with counter -1, and nothing is read |
| TailedFiles.DumpAtEndOfFile | src/mysql_slowlogd.c:236-240 | DUMP at end of file: the state becomes WAIT and 0 is returned |
| TailedFiles.DumpWithData | src/mysql_slowlogd.c:236-255 | DUMP with data: the bytes pass untouched iff the counter is non-negative and the rate limit is 1, otherwise they are compacted; the offset advances by what was read |
| TailedFiles.WaitFstatFails | src/mysql_slowlogd.c:188-193 | WAIT with a failing `fstat`: only the wait count changes, by one |
| TailedFiles.WaitFileChanged | src/mysql_slowlogd.c:218-231 | WAIT with a changed `fstat`: wait count 0, stat replaced, read in the same call, from offset 0 only if the file shrank |
| TailedFiles.WaitUnchanged | src/mysql_slowlogd.c:196-201 | WAIT, unchanged, before the fourth wait: only the wait count changes |
| TailedFiles.WaitRotationCheck | src/mysql_slowlogd.c:201-216 | the fourth unchanged wait resets the count; if the path names another file it is reopened with the new stat and read at once when the descriptor is positive, otherwise nothing else changes |
| TailedFiles.PollKeepsStream | src/mysql_slowlogd.c:188-234 | the WAIT block changes neither rate limit, counter nor matcher, and never enters or leaves START |
| TailedFiles.ReaderKeepsValid | src/mysql_slowlogd.c:183-275 | every call keeps the rate limit and, once started, a counter in [-1, N); no call returns to START |
| TailedFiles.NoErrorOnceStarted | src/mysql_slowlogd.c:236-256 | after START the reader never returns the error value |
| TailedFiles.ReplyFitsBuffer | src/mysql_slowlogd.c:236-271 | the reply is the number of bytes left in the buffer, and at most `max` |
| TailedFiles.RotationNoticed | src/mysql_slowlogd.c:191-216 | while the log stays unchanged and the path names a new file that opens, the reader waits exactly `WaitsUntilCheck(waitCount)` polls and then reopens |
| TailedFiles.RotationNoticedWithinFourPolls | src/mysql_slowlogd.c:201-216 | from a non-negative wait count the rotation is noticed within four polls |
| TailedFiles.GarbageWaitCountDelaysRotation | src/mysql_slowlogd.c:155 | from the leftover wait count -10, four unchanged polls still wait on the old descriptor |
| TailedFiles.WaitCountStaysNonNegative | src/mysql_slowlogd.c:191-228 | one call keeps a non-negative wait count non-negative |
| TailedFiles.RunKeepsWaitCount | src/mysql_slowlogd.c:191-228 | over any sequence of calls a non-negative wait count stays non-negative |
| TailedFiles.ReaderSendsCompaction | src/mysql_slowlogd.c:236-255 | one call after START sends what the rate limiter keeps of the bytes it read and leaves its counter |
| TailedFiles.RunSendsCompaction | src/mysql_slowlogd.c:236-255 | over any sequence of calls after START, the bytes sent are one pass of the rate limiter over all bytes read |
| TailedFiles.ResponseIsDelimiterThenCompaction | src/mysql_slowlogd.c:258-271 | a response from a fresh file is the delimiter followed by the compaction, from counter -1, of everything read |
| TailedFiles.WriteBytes | src/mysql_slowlogd.c:265 | the bytes are copied to the start of the buffer and the rest of the buffer is unchanged |
| TailedFiles.TailedFile.constructor | src/mysql_slowlogd.c:160-171 | the new object is in START with the opened descriptor, the stat of the path and a reset matcher |
| TailedFiles.TailedFile.StartResponse | src/mysql_slowlogd.c:295-300 | the rate limit is stored and the offset set to the end of the file; nothing else changes |
| TailedFiles.TailedFile.Poll | src/mysql_slowlogd.c:188-234 | the fields become `PollSpec` of the old fields |
| TailedFiles.TailedFile.DumpChunk | src/mysql_slowlogd.c:236-256 | the fields, the reply and the buffer prefix are those `DumpSpec` gives |
| TailedFiles.TailedFile.StartStream | src/mysql_slowlogd.c:258-272 | the fields, the reply and the buffer prefix are those `StartSpec` gives |
| TailedFiles.TailedFile.ContentReader | src/mysql_slowlogd.c:183-275 | the fields, the reply and the buffer prefix are those `ReaderSpec` gives, so every lemma above holds of the object |
| TailedFiles.OpenTailedFile | src/mysql_slowlogd.c:149-178 | null iff `stat` of the path or `open` fails; otherwise a fresh object in START whose wait count, rate limit and counter are whatever memory held |
| TailedFiles.OpenZeroedTailedFile | src/mysql_slowlogd.c:155 | as intended: the same, with wait count, rate limit and counter 0 |
| RequestArgs.IsSpace | src/mysql_slowlogd.c:377 | the white space `strtol` skips in the C locale: space and `\t` to `\r` |
| RequestArgs.SkipSpaces | src/mysql_slowlogd.c:377 | the result is a suffix of the input that does not start with white space |
| RequestArgs.SkipDropsOnlySpaces | src/mysql_slowlogd.c:377 | every character white space skipping drops is white space, so with `SkipSpaces` the result is the input without exactly its leading white space |
| RequestArgs.StrtolValue | src/mysql_slowlogd.c:377 | the number `strtol` reads: white space, an optional sign, the longest run of digits |
| RequestArgs.Saturate | src/mysql_slowlogd.c:377 | `strtol` gives LONG_MAX above the range of `long`, LONG_MIN below it, and leaves values inside it alone |
| RequestArgs.ToInt | src/mysql_slowlogd.c:377 | the conversion to `int` keeps the value modulo 2^32 within the `int` range, and leaves `int` values alone |
| RequestArgs.Atoi | src/mysql_slowlogd.c:377 | `atoi` always gives a value in the `int` range |
| RequestArgs.RateLimitArgument | src/mysql_slowlogd.c:364-379 | the rate limit is at least 1 and at most INT_MAX; 1 when the argument is absent; otherwise the `atoi` value when that is at least 1, and 1 when it is below 1 |
| RequestArgs.StrtolOfSigned | src/mysql_slowlogd.c:377 | `strtol` reads back any decimal numeral, whatever non-digit follows it |
| RequestArgs.AtoiOfSigned | src/mysql_slowlogd.c:377 | `atoi` reads back every `int` written in decimal |
| RequestArgs.AtoiWraps | src/mysql_slowlogd.c:377 | a numeral within `long` but outside `int` keeps only its low 32 bits |
| RequestArgs.RateLimitOfNumeral | src/mysql_slowlogd.c:373-379 | `?rate_limit=N` gives N for N in [1, INT_MAX] and 1 for any `int` below 1 |
| RequestArgs.RateLimitBeyondLong | src/mysql_slowlogd.c:377-379 | a numeral above LONG_MAX gives `atoi` -1, one below LONG_MIN gives 0, and the rate limit 1 in both cases |
| RequestArgs.RateLimitOfNonNumeral | src/mysql_slowlogd.c:377-379 | an argument such as `abc` reads as 0 and gives the rate limit 1 |
| RequestArgs.RateLimitWraps | src/mysql_slowlogd.c:377-379 | numerals 2^32 apart give the same rate limit, so 4294967298 gives 2 |

## Left out

- Daemonising, `main`, signal handlers, option parsing, syslog, the HTTP server glue (`send_slow_log`'s responses, `not_found_page`, the method and path routing of `handle_request`), because they are the surrounding service rather than the core.
- The Boyer-Moore-Horspool search inside `sbmh_feed` (StreamBoyerMooreHorspool.h is not part of this model): the matcher is a reference model of its contract.
- `usleep` in the WAIT block, threads and timing, because the model has no clock; only the order of calls matters.
- Allocation failure, `strdup`, `free_tailed_file` and `close`: the model has no heap failures; closing a descriptor is modelled only as `fd` becoming 0.
- The file name and the `pos` argument of the reader, because neither affects what the reader does beyond the `stat`/`open` results that are inputs.
- TailedFiles.TailedFile.ContentReader: requires that `read` delivers at most `max` bytes, and has no error path for `read`. In the source `n` is a `size_t`, so the `n < 0` test at line 242 can never hold. When `read` fails, `n` is SIZE_MAX. If the counter is negative or the rate limit is above 1, that length goes to `apply_rate_limit`. Otherwise line 255 returns it as -1, which the HTTP library takes as the end of the stream, not an error. Neither branch is modelled.
- TailedFiles.PollSpec: the `lseek` to 0 on a shrunk file is assumed to succeed (its result is ignored in the source), so the offset becomes 0.
- TailedFiles.TailedFile.StartResponse: the `lseek` to the end of the file is assumed to succeed. The early `MHD_NO` return when it fails is not modelled.
- TailedFiles.OpenTailedFile: `send_slow_log` stores `rate_limit` through the result before testing it for NULL (lines 295-297). That dereference when opening fails is undefined behaviour and is not modelled.
- TailedFiles.TailedFile.Poll: `wait_count` and the file offset are unbounded integers, so a 32-bit overflow of `wait_count++` from a large leftover value is not modelled.

## Findings

| source | as written | input that shows it | evidently intended | confidence | as-written member | corrected member |
|---|---|---|---|---|---|---|
| src/mysql_slowlogd.c:155 | the structure is cleared with the size of a pointer, not of the structure, so `wait_count` starts as whatever the allocation held | a leftover `wait_count` of -10: after a rotation, four unchanged polls still read the old file (it takes fourteen) | clear the whole structure, so the wait count starts at 0, stays non-negative (`RunKeepsWaitCount`) and a rotation is noticed within four polls (`RotationNoticedWithinFourPolls`) | medium, not executed | TailedFiles.GarbageWaitCountDelaysRotation | TailedFiles.OpenZeroedTailedFile |
