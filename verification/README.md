# librastro write side, in Dafny

librastro is an event-tracing library. A producer owns a buffer (`rst_buffer_t`): a byte
arena, a write cursor, a reference second `t0`, a first-hour flag and two ids that name
its trace file. Every event is laid out in the arena as a record. A record starts with a
32-bit header word: the 14-bit event type shifted up by 18, OR'ed with the signature
bits, and possibly with the `RST_TIME_SET` bit. Next comes an optional resynchronisation
block holding the reference second and the clock resolution. Then a 64-bit delta, then
the fields, then padding to the next multiple of 4. When the arena is close to full it is
flushed to the file with `write(2)`. Initialisation writes an INIT record carrying the
two ids and the host name. Teardown writes a STOP record and flushes.

The project models `include/rastro.h` and `src/rst_write.c`:

- `bytes.dfy` (`Bytes`): machine words as unbounded integers, the little-endian layout
  `LE`/`FromLE`, and truncation to a field's width.
- `bits.dfy` (`Bits`): `x | 2^k`, `x & ~2^k` and the bit test on numeric values.
- `rastro.dfy` (`Rastro`): the public constants of the header, the type letters, the
  counters of a decoded event, and `ALIGN_PTR`.
- `arena.dfy` (`Arena`): the buffer, the emitted stream `Stream(b) = file + arena[..cursor]`,
  and the macros `RST_PUT` and `RST_PUT_STR`. The predicate `Grows(b, r, chunk)` says that
  `r` is `b` with `chunk` written at the cursor and appended to the stream, and that the
  arena past the new cursor is untouched.
- `flush.dfy` (`Flush`): `rst_flush`. `write(2)` is an oracle: a sequence of replies that
  `Honest` constrains. The loop is also given as a method with C's `size_t` counter.
- `event.dfy` (`Event`): `_rst_timestamping`, `rst_startevent`, `rst_endevent`,
  `rst_event_ptr` and `rst_event_lls_ptr`. It also has a decoder for time blocks and
  (u64, u64, string) records, used to state round trips.
- `lifecycle.dfy` (`Lifecycle`): `__rst_init`, `rst_destroy_buffer`, and the name of the
  trace file.

`RST_TIME_SET` and `RST_MAX_EVENT_SIZE` come from `rst_private.h`, which is not part of
this model. They are the fields `timeSetBit` (the bit's position) and `maxEventSize` of a
`Macros` value. `ValidMacros` states what the writer relies on:

- the bit lies in the 18 low bits, below the 14 type bits;
- the bit is clear in both built-in signatures;
- an empty resynchronised record fits in `RST_MAX_EVENT_SIZE`.

The trace file is named `rastro-<id1>-<id2>.rst`, as `__rst_init` builds it and as
`include/rastro.h` documents it at `rst_init`.

## Model

| member | source | states |
|---|---|---|
| Rastro.ClockResolution | include/rastro.h:45-51 | the default clock counts nanoseconds with clock_gettime and microseconds otherwise; the resolution is positive |
| Rastro.MaskType | include/rastro.h:52-54 | `x & RST_EVENT_TYPE_MASK` is at most 0x3fff, negative x included |
| Rastro.ReservedTypes | include/rastro.h:52-54 | INIT is 0x3fff and STOP is 0x3ffe; they are distinct and already within the type mask |
| Rastro.TypeOfLetter | include/rastro.h:59-73 | a letter that names a type names the type whose letter it is |
| Rastro.LettersDistinct | include/rastro.h:59-73 | the seven type letters are pairwise distinct, and each letter maps back to its type |
| Rastro.ParseLettersOfLetters | include/rastro.h:59-82 | the letter string of a signature parses back to that signature |
| Rastro.LettersInjective | include/rastro.h:59-82 | two signatures with the same letter string (the same generated function name) are equal |
| Rastro.CountersCoverSignature | include/rastro.h:88-96 | the seven counters of rst_counters_t add up to the number of fields |
| Rastro.DecodedEventBounds | include/rastro.h:98-119 | an event that fits rst_event_t has at most 105 fields, and its string has at most 99 bytes |
| Rastro.Width | include/rastro.h:265-270 | every fixed-size field is 1, 2, 4 or 8 bytes wide |
| Rastro.AlignPtr | include/rastro.h:262 | ALIGN_PTR gives a multiple of 4, at least p and less than p + 4 |
| Rastro.AlignLeast | include/rastro.h:262 | ALIGN_PTR is the least such multiple, and an aligned pointer is kept |
| Rastro.AlignOffset | include/rastro.h:262 | with a 4-aligned arena base, aligning the address is aligning the offset |
| Bytes.FromLEOfLE | include/rastro.h:265-270 | a value stored in a field of its width reads back unchanged |
| Bytes.LEOfFromLE | include/rastro.h:265-270 | storing the value of a field's bytes reproduces those bytes |
| Bytes.TruncateLE | include/rastro.h:268 | the `(type)(val)` cast does not change the stored bytes: only the low bytes are kept |
| Bits.SetThenClear | src/rst_write.c:209 | OR'ing a clear bit into the header sets it, and clearing it restores the header |
| Arena.PutBytes | include/rastro.h:265-270 | the bytes land at the cursor, the cursor moves past them, the stream gains exactly them, and only the arena and the cursor change |
| Arena.Put | include/rastro.h:265-270 | RST_PUT of an unsigned field type appends the value's width-truncated layout to the stream, and only the arena and the cursor change |
| Arena.PutReadsBack | include/rastro.h:265-270 | the field at the old cursor reads back as the value modulo 256^width |
| Arena.PutStr | include/rastro.h:271-278 | RST_PUT_STR of a C string (no NUL inside) moves the cursor to the aligned end of the string and its NUL; the stream gains the string, the NUL and the padding bytes as they were |
| Arena.PutStrReadsBack | include/rastro.h:271-278 | a reader finds the string at the old cursor, ended by its NUL |
| Arena.PutStrFrame | include/rastro.h:271-278 | only the string and its NUL are written; the padding and the rest of the arena are kept |
| Arena.CStringOfTerminated | include/rastro.h:271-278 | reading a C string that was copied with its NUL gives it back, whatever follows |
| Arena.GrowsChain | include/rastro.h:265-278 | two successive writes at the cursor append their bytes to the stream in order |
| Flush.Written | src/rst_write.c:176-180 | the bytes that reach the file are at most those to write, all of them when no write fails, and fewer after a failure while bytes remain (a failed write with nothing left to write loses nothing) |
| Flush.FlushBuffer | src/rst_write.c:170-185 | a flush always empties the arena and keeps the rest of the buffer; the file gains the used bytes when every write succeeds, and a failure is reported otherwise |
| Flush.FlushWritesPrefix | src/rst_write.c:170-185 | whatever the replies, the file gains a prefix of the used bytes, and a shorter one after a failure |
| Flush.PrefixOfStream | src/rst_write.c:170-185 | whatever the replies, the file after a flush is a prefix of the stream emitted before it |
| Flush.FlushKeepsStream | src/rst_write.c:170-185 | a complete flush moves the buffered bytes to the file and leaves the emitted stream as it was |
| Flush.FlushLoop | src/rst_write.c:170-185 | the C loop, the report and the reset compute the same buffer as FlushBuffer |
| Flush.WriteLoop | src/rst_write.c:176-182 | the loop stops; the file gains the written prefix; the counter equals the byte count exactly when no write failed, because -1 wraps the size_t counter |
| Event.ShiftTypeIsShift | src/rst_write.c:241 | `type << 18` in a 32-bit header keeps the 14 low bits of the type in bits 18-31 |
| Event.HeaderFields | src/rst_write.c:238-256 | the header fits 32 bits, and the type and the signature can be read back from it |
| Event.HeaderExamples | src/rst_write.c:238-256 | the headers of type 0 and of INIT/STOP are the expected words (e.g. INIT lls = 0xfffe4410) |
| Event.HeaderAvoidsTimeSet | src/rst_write.c:209 | the built-in headers never carry RST_TIME_SET themselves, and setting it stays within 32 bits |
| Event.SplitStamping | src/rst_write.c:39-56 | splitting a clock reading into seconds and ticks and fusing them as _rst_timestamping does gives it back |
| Event.StampingSplits | src/rst_write.c:201-204 | conversely, a reading fused from a second and fewer than `res` ticks splits back, as rst_startevent splits it, into that second and those ticks |
| Event.StampOf | src/rst_write.c:198-217 | the stamp's second is time / resolution and the stored delta fits 64 bits |
| Event.ResyncRule | src/rst_write.c:203-206 | for every 64-bit t0, a resynchronisation happens exactly on the first record, when the clock is more than 3600 s past t0, or when it went back before t0 by less than 2^64 - 3600 s (the unsigned `sec - t0` wraps); when t0 + 3600 < 2^64 that is: first record, clock went back, or more than an hour on |
| Event.ResyncWraps | src/rst_write.c:205-206 | near the top of the 64-bit range the unsigned `sec - t0` wraps: second 0 read against t0 = 2^64 - 1 is not resynchronised although the clock went back |
| Event.StampRoundTrip | src/rst_write.c:198-217 | the reference second after the record, times the resolution, plus the delta, is the clock reading |
| Event.DeltaBounds | src/rst_write.c:198-217 | after a resynchronisation the delta is the sub-second ticks; otherwise it is below 3601 seconds' worth |
| Event.EncodeBlock | src/rst_write.c:206-216 | a time block takes 28 bytes with a resynchronisation and 12 without |
| Event.ParseEncodeBlock | src/rst_write.c:206-216 | decoding an encoded time block gives back the header, the sync fields and the delta, and says how many bytes it took, whatever follows |
| Event.WriteBlock | src/rst_write.c:203-216 | writing the time block advances the cursor by the block's size; t0 and the first-hour flag change only on a resynchronisation |
| Event.WriteBlockGrows | src/rst_write.c:203-216 | the stream gains exactly the encoded time block |
| Event.StartEvent | src/rst_write.c:198-217 | rst_startevent clears the first-hour flag, moves t0 to the clock's second exactly on a resynchronisation, and appends the encoded block |
| Event.EndEvent | src/rst_write.c:219-228 | rst_endevent aligns the cursor and keeps the arena, t0, flag and ids; it only aligns when RST_MAX_EVENT_SIZE bytes are still free or the arena is smaller than that (the size_t limit wraps); otherwise it reports and flushes, leaving the arena empty |
| Event.FlushLimit | src/rst_write.c:222 | the size_t test `count > size - max` holds exactly when max <= size < count + max |
| Event.EndEventPrefix | src/rst_write.c:219-228 | whatever the replies, the stream after rst_endevent is a prefix of the old stream followed by the alignment padding |
| Event.EndEventStream | src/rst_write.c:219-228 | when a flush writes everything, the stream gains only the alignment padding |
| Event.EventPtr | src/rst_write.c:238-243 | rst_event_ptr, as rst_startevent then rst_endevent, keeps the buffer valid between records and moves t0 exactly on a resynchronisation |
| Event.EventPtrStream | src/rst_write.c:238-243 | rst_event_ptr appends exactly the encoded time block of an empty event of that type |
| Event.EventPtrPrefix | src/rst_write.c:238-243 | whatever the replies, the stream after rst_event_ptr is a prefix of the old stream followed by the record |
| Event.PutLlsFields | src/rst_write.c:252-254 | the two 64-bit values, the string, its NUL and the padding follow the block; the cursor stays aligned |
| Event.LlsBodyGrows | src/rst_write.c:250-254 | the stream gains the block, both values, the string and its NUL, then the padding bytes the arena held |
| Event.EventLls | src/rst_write.c:248-256 | rst_event_lls_ptr, as rst_startevent, the fields and rst_endevent, keeps the buffer valid between records and moves t0 exactly on a resynchronisation |
| Event.EventLlsStream | src/rst_write.c:248-256 | rst_event_lls_ptr appends exactly the record's bytes and the padding after its string |
| Event.ParseLlsBytes | src/rst_write.c:248-256 | decoding a (u64, u64, string) record gives back its time block, both values and the string |
| Lifecycle.Reset | src/rst_write.c:92-113 | init records the ids, raises the first-hour flag, sizes the arena from RST_BUFFER_SIZE (default 102400, with a report when unparsable), clears it and empties it |
| Lifecycle.Init | src/rst_write.c:73-132 | a NULL pointer only reports; an unopenable file leaves the reset buffer without t0 and reports; otherwise the buffer is valid, past its first hour, with t0 at the clock's second |
| Lifecycle.InitRecord | src/rst_write.c:123-131 | after a successful init the trace holds exactly one record: the resynchronised INIT record with id1, id2 and the host name, which a reader decodes back |
| Lifecycle.InitHeader | src/rst_write.c:130-131 | the INIT record's header carries type 0x3fff and the (u64, u64, string) signature |
| Lifecycle.Destroy | src/rst_write.c:58-71 | a NULL pointer is left alone; otherwise the buffer ends empty, with its ids |
| Lifecycle.DestroyStopLast | src/rst_write.c:58-71 | when every write succeeds, the file holds everything emitted, then the STOP record and nothing after it, and the last record decodes with type STOP |
| Lifecycle.DestroyWritesPrefix | src/rst_write.c:58-71 | whatever the replies, the file holds a prefix of everything emitted before, followed by the STOP record |
| Lifecycle.Decimal | src/rst_write.c:115 | `%" PRIu64 "` prints at least one digit, only digits, and no leading zero |
| Lifecycle.DecimalRoundTrip | src/rst_write.c:115 | the printed digits denote the number |
| Lifecycle.DecimalLength | src/rst_write.c:115 | a number prints in at most k digits exactly when it is below 10^k |
| Lifecycle.TraceFileName | src/rst_write.c:115 | the name is the two ids' digits plus 12 characters |
| Lifecycle.FitsDeclaredIff | src/rst_write.c:80 | the name and its NUL fit `char fname[30]` exactly when the ids have at most 17 digits between them |
| Lifecycle.FnameOverflow | src/rst_write.c:80 | two ten-digit ids, or two ids of 2^64 - 1, overflow `fname[30]`; the largest name needs 53 bytes |
| Lifecycle.FnameFits | src/rst_write.c:80 | every pair of 64-bit ids gives a name that fits a 53-byte array with its NUL |

## Left out

- Clock, host name and file system are parameters of the model.
  - The stamping and resolution callbacks are replaced by the reading `time` and the resolution `res`.
  - `gethostname` is replaced by the string it returned.
  - `open(2)` is replaced by a predicate on the path. A successful open starts an empty file (`O_TRUNC`).
  - Neither the file descriptor nor errno is modelled.
- The messages printed on stderr are values of `Diag` in a log, without their text.
- The model does not cover:
  - `malloc` failure;
  - `free` and `close` in `rst_destroy_buffer`;
  - the global and thread-specific buffer pointer (`RST_SET_PTR`, `RST_PTR`);
  - the public wrappers that only pass through to the modelled functions (`rst_init`, `rst_init_ptr`, `rst_init_timestamp`, `rst_init_timestamp_ptr`, `rst_finalize`, `rst_finalize_ptr`, `rst_event`);
  - the signal handler, which only flushes.
- Concurrency is left out: each buffer has one writer.
- The host's byte order is fixed to little-endian.
- Float and double fields, the generated `rst_event_*` functions other than the two built-in ones, and the reader side are left out.
- The arena base is assumed 4-aligned, as `malloc` returns it, so alignment is stated on offsets.
- `rst_private.h` is not part of this model. `RST_TIME_SET` and `RST_MAX_EVENT_SIZE` are abstract, constrained by `ValidMacros`.
- `type << 18` operates on a promoted `int`, which overflows for types of 2^13 and above. It is modelled as the 32-bit truncation the header word receives.
- The OR of the type, the signature bits and `RST_TIME_SET` is modelled as a sum. The three are proved disjoint.
- The padding bytes after a string are whatever the arena held, as in the source. The model tracks them but does not fix their value except right after init, when the arena is zero.
- Flush.Honest: the replies are a finite sequence that lasts until the loop stops. A `write` that returns 0 forever, on which the C loop would spin, is left out; a finite run of 0 replies is retried as in the C loop.
- Event.StampOf: requires `0 < res`. With a zero resolution `time/resolution` in rst_startevent divides by zero, which has no defined result in C.
- Event.StartEvent: requires `0 < res`, for the same reason.
- Event.EventPtr: requires `0 < res`, for the same reason.
- Event.EventLls: requires `0 < res`, for the same reason.
- Lifecycle.Init: requires `0 < res`, for the same reason.
- Lifecycle.Destroy: requires `0 < res` (through `DestroyReady`), for the same reason.
- Arena.Put: requires an unsigned field type. A float or double cast stores IEEE bits, which this model does not cover.
- Event.StampRoundTrip: requires `t0 + 3600 < 2^64`. Closer to 2^64, the unsigned `sec - t0` can wrap into the no-resync window.
- Event.DeltaBounds: requires `t0 + 3600 < 2^64`, for the same reason.
- Event.EventLls: requires the whole record to fit `RST_MAX_EVENT_SIZE`. The source does not check the string's length, and a longer string would run past the space rst_endevent keeps free.
- Event.EndEventStream: assumes every write of the flush rst_endevent may trigger succeeds. Flush.FlushWritesPrefix covers failing writes.
- Event.EventPtrStream: assumes every write of the flush the record may trigger succeeds.
- Event.EventLlsStream: assumes every write of the flush the record may trigger succeeds. Like Event.EventLls, it requires the record to fit `RST_MAX_EVENT_SIZE`.
- Lifecycle.Init: requires the arena to hold at least `RST_MAX_EVENT_SIZE` bytes and less than 2^63. The source accepts any parsed `RST_BUFFER_SIZE`. With a smaller arena, `RST_BUF_SIZE - RST_MAX_EVENT_SIZE` in rst_endevent wraps as a size_t, so the flush test never fires (Event.FlushLimit, and Event.EndEvent's no-flush clause) and later records run past the end of the arena.
- Lifecycle.Init: requires the INIT record to fit `RST_MAX_EVENT_SIZE` and the `write` replies to be honest.
- Lifecycle.InitRecord: assumes every write of a flush the INIT record may trigger succeeds.
- Lifecycle.DestroyStopLast: assumes every write of both flushes succeeds.

## Findings

| source | as written | input that shows it | evidently intended | confidence | as-written member | corrected member |
|---|---|---|---|---|---|---|
| src/rst_write.c:80 | `sprintf` writes `rastro-<id1>-<id2>.rst` and its NUL into `char fname[30]` | id1 = id2 = 1000000000 (33 bytes with the NUL); id1 = id2 = 2^64 - 1 needs 53 bytes | the array holds every name two 64-bit ids produce: 53 bytes | high; not executed | Lifecycle.FnameOverflow | Lifecycle.FnameFits |
