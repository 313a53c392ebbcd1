# digitalcz/streams in Dafny

This project models the core of the PHP library digitalcz/streams.

- **`Stream`.** The PSR-7 stream over a PHP resource. It works out its capabilities from the `fopen` mode, runs the open → detached state machine with its error order, and keeps a cached size that every write forgets.
- **`StreamUtils`.** The string → stream constructor and the chunked `copy` loop.
- **`BufferedStream`.** A read-only decorator that makes a forward-only source seekable. It mirrors every byte it pulls from the source into a temporary buffer, up to a frontier counter `written`.
- **`CachingStream`.** A read/write decorator. It serves reads from a temporary buffer first and pulls the shortfall from the original. A `skipBytes` counter makes it discard original bytes that a write has already shadowed in the buffer.
- **`StreamWrapper`.** Only the parts that are not PHP stream plumbing: the `fopen` mode `from` chooses, the context check of `stream_open`, and the `stream_stat`/`url_stat` tables.

A PHP resource is the value `Handles.Handle`: its bytes, a cursor, an end-of-file flag, its mode, and whether it can seek and whether `fstat` knows its size. The PHP built-ins the library calls (`fread`, `fwrite`, `fseek`, `fstat`, `stream_get_contents`, `stream_copy_to_stream`) are functions on that value. Two choices follow PHP's memory and temp streams:

- A read sets the end-of-file flag only when it asks for more bytes than remain. A cursor that merely reaches the end is not yet at eof.
- A seek outside `[0, size]` fails and clears nothing.

Each PHP class is modelled twice:

- **As a value.** `Streams.StreamState`, `Buffered.BufferedState` and `Caching.CachingState` are datatypes. Each operation is a function returning the new state and a `Result`; an exception the library throws is an `Err` carrying its message.
- **As a class.** `Streams.Stream`, `Buffered.BufferedStream` and `Caching.CachingStream` have the PHP fields. Their methods are written statement by statement: the PHP `while` loops are Dafny loops with invariants. Each method is proved to produce exactly the state and result of the function.

The properties are lemmas about the functions. For the decorators they are stated against the bytes a reader sees:

- `Buffered.Mirrors` with `Buffered.Cursor`;
- `Caching.Coherent` with `Caching.Content`, which is the buffer laid over the original's bytes.

Modules, one per file:

- `Results`: options, the exceptions as data, results.
- `Handles`: the resource model, plus sequence lemmas.
- `Modes`: the mode patterns.
- `Streams`: `Stream`.
- `Utils`: `StreamUtils`.
- `Buffered`: `BufferedStream`.
- `Caching`: `CachingStream` and the members it takes from `StreamDecoratorTrait`.
- `Wrapper`: `StreamWrapper`.

Three definitions follow the code rather than what one might read into it:

- **CHUNK.** The chunk size `1024 ^ 2` is PHP's exclusive or, so chunks are 1026 bytes (`Handles.ChunkIsXorNotPower`).
- **`max` of a size.** `max(null, $n)` in `CachingStream::getSize` keeps `null` when `$n` is 0: PHP compares null with ints by truth value and returns the first argument on a tie (`Caching.PhpMax`).
- **Which stream the trait methods use.** `CachingStream` gets `tell`, `rewind`, the capability flags, `detach`, `copy` and `__toString` from `StreamDecoratorTrait`. All of them act on the buffer, never on the original.

## Model

| member | source | states |
|---|---|---|
| `Handles.ChunkIsXorNotPower` | src/StreamUtils.php:56 | The chunk `1024 ^ 2` is 1026 bytes, not 1024 * 1024. |
| `Handles.Handle.Read` | src/Stream.php:207 | `fread` returns the bytes after the cursor, at most n of them, and moves the cursor past them. Fewer than n come back exactly when the read runs past the end, and only then is eof raised. |
| `Handles.Handle.Write` | src/Stream.php:229 | `fwrite` overwrites at the cursor, extending the data past its end, moves the cursor past the bytes and reports all of them written. |
| `Handles.Handle.Seek` | src/Stream.php:104 | `fseek` succeeds exactly for a seekable handle, a known whence and a target within the data; it then moves there and clears eof. |
| `Handles.Handle.Drain` | src/Stream.php:127 | `stream_get_contents` returns everything after the cursor and leaves the handle at its end, at eof. |
| `Handles.CopyToStream` | src/Stream.php:257 | `stream_copy_to_stream` drains the source, writes what it drained at the target's cursor, and returns the number of bytes copied. |
| `Handles.OverwriteReadsBack` | src/Stream.php:229 | Bytes written at a position are read back from that position. |
| `Handles.OverwriteTwice` | src/Stream.php:229 | Two consecutive writes equal one write of the concatenation. |
| `Modes.ContainsIffOccurs` | src/Stream.php:13-14 | The recursive substring test matches an unanchored regex literal: it holds iff the literal occurs at some index. |
| `Modes.ReadableWithR` | src/Stream.php:40 | Any mode containing 'r' anywhere is readable. |
| `Modes.NotReadableWithout` | src/Stream.php:13 | A mode with neither 'r' nor '+' matches no alternative of READABLE_MODES. |
| `Modes.WritableWith` | src/Stream.php:41 | Any mode containing 'a', 'w', 'x' or 'c' is writable. |
| `Modes.NotWritableWithout` | src/Stream.php:14 | A mode without 'a', 'w', 'x', 'c' and '+' matches no alternative of WRITABLE_MODES. |
| `Modes.UpdateModes` | src/Stream.php:39-41 | Every mode opening with "r+", "w+", "a+", "x+" or "c+" is readable and writable, whatever suffix follows. |
| `Modes.ModesOfTests` | tests/StreamTest.php:234-302 | The tests' verdicts for every mode listed. "r", "rb", "rt" and "rb9" are read-only. "w", "wb", "wb2", "a", "x" and "c" are write-only. The update modes and "rb+" are both. "rw" is writable. |
| `Streams.StreamState.GetHandle` | src/Stream.php:112-119 | Gives the handle iff the stream is attached, otherwise the "Stream is detached" error. |
| `Streams.StreamState.Read` | src/Stream.php:191-214 | Checks in the source's order: a negative length, then detached, then not readable. `read(0)` yields "" and touches nothing. Otherwise it yields the handle's read, and an error changes nothing. |
| `Streams.StreamState.Write` | src/Stream.php:219-236 | Detached before not writable; an error changes nothing. A write forgets the cached size and writes at the cursor, reporting every byte. |
| `Streams.StreamState.Seek` | src/Stream.php:96-107 | Detached before not seekable. An `fseek` that fails gives the error carrying offset and whence, with the state unchanged. Otherwise it is the handle's seek. |
| `Streams.StreamState.GetSize` | src/Stream.php:136-155 | A cached size is returned unchanged. A detached stream has no size. Otherwise `fstat`'s size is returned and cached, and nothing but the size field changes. |
| `Streams.StreamState.Detach` | src/Stream.php:73-85 | Hands over the handle, and leaves no handle, no size and all three flags false. |
| `Streams.StreamState.Close` | src/Stream.php:59-68 | Ends in the same detached state as `detach`. |
| `Streams.StreamState.GetContents` | src/Stream.php:121-134 | Detached fails. Otherwise it succeeds: a seekable stream is rewound first, the rest is drained, and data and flags are kept. |
| `Streams.StreamState.Copy` | src/Stream.php:238-268 | Source readability is checked before target writability. A seekable source is rewound, copied whole, and put back at its position, with eof cleared. A source that cannot seek is copied from its cursor and left at its end, at eof. The source's flags and size are unchanged. The target's size is forgotten, the bytes are written at its cursor, and the result is their count. |
| `Streams.Stream.Read` | src/Stream.php:191-214 | The method's new state and result are those of `StreamState.Read`. |
| `Streams.Stream.Write` | src/Stream.php:219-236 | The method's new state and result are those of `StreamState.Write`. |
| `Streams.Stream.Seek` | src/Stream.php:96-107 | The method's new state and result are those of `StreamState.Seek`. |
| `Streams.Stream.GetSize` | src/Stream.php:136-155 | The method's new state and result are those of `StreamState.GetSize`. |
| `Streams.Stream.Detach` | src/Stream.php:73-85 | The method's new state and result are those of `StreamState.Detach`. |
| `Streams.Stream.Close` | src/Stream.php:59-68 | The method's new state is that of `StreamState.Close`. |
| `Streams.Stream.GetContents` | src/Stream.php:121-134 | The method's new state and result are those of `StreamState.GetContents`. |
| `Streams.Stream.ToString` | src/Stream.php:278-281 | `__toString` is `getContents`. |
| `Streams.Stream.Copy` | src/Stream.php:238-268 | Both streams end as `StreamState.Copy` says, and the result is its result. |
| `Streams.Stream.Tell` | src/Stream.php:172-181 | The result is the cursor, or the detached error. |
| `Streams.Stream.Eof` | src/Stream.php:167-170 | The result is the handle's eof flag, or the detached error. |
| `Streams.Stream.Rewind` | src/Stream.php:183-186 | The method is `seek(0)`. |
| `Streams.Stream.IsReadable` | src/Stream.php:157-160 | The result is the readable flag. |
| `Streams.Stream.IsWritable` | src/Stream.php:162-165 | The result is the writable flag. |
| `Streams.Stream.IsSeekable` | src/Stream.php:87-90 | The result is the seekable flag. |
| `Streams.Stream.GetHandle` | src/Stream.php:112-119 | The result is the handle. |
| `Streams.Stream.constructor` | src/Stream.php:30-42 | Opening a resource takes the size given, the handle's seekability, and the flags its mode matches. |
| `Streams.WriteThenReadBack` | src/Stream.php:219-236 | On a stream that can do all three, what `write` put down is what `seek` back plus `read` of the same length returns. |
| `Streams.ReadSplits` | src/Stream.php:191-214 | `read(m)` then `read(n)` returns the bytes of `read(m + n)` and reaches the same cursor. |
| `Streams.SizeFollowsWrites` | src/Stream.php:228 | After a write the next `getSize` reports the grown size, not the stale cached one. |
| `Streams.SizeOfFooThenTest` | tests/StreamTest.php:119-129 | Three bytes written before wrapping, then four more, give sizes 3 and then 7. |
| `Streams.EofNeedsReadPastEnd` | tests/StreamTest.php:96-106 | At the last byte `eof()` is false. A `read(1)` there yields "", and only then is `eof()` true. |
| `Streams.SeekThenTell` | tests/StreamTest.php:131-142 | `seek(o)` succeeds iff `0 <= o <= size`, after which `tell()` is o. A failed seek moves nothing. |
| `Streams.DetachedStreamRefusesEverything` | tests/StreamTest.php:359-401 | After `detach`/`close`, each of read, write, seek, tell, eof and getContents fails with "Stream is detached". The size is unknown, the flags are false, and a second `detach` gives nothing. |
| `Streams.GetContentsTwice` | tests/StreamTest.php:59-67 | A seekable stream's contents come back whole, every time. |
| `Utils.FromStringHolds` | src/StreamUtils.php:21-26 | `create($string)` holds exactly the string with the cursor at 0, and is readable, writable and seekable. |
| `Utils.FromStringRoundTrip` | src/StreamUtils.php:21-26 | Reading back a stream made from a string, by `getContents` or by one `read`, yields the string. |
| `Utils.ReadsBackFromStart` | src/StreamUtils.php:24 | Rewound data comes back whole through both `getContents` and `read`. |
| `Utils.Create` | src/StreamUtils.php:15-34 | A PSR stream is turned into its string first: the new stream holds that string, or the cast's error. A string gives the rewound temp stream. A resource gives a new `Stream` with that handle. Anything else gives "Cannot create stream from …". |
| `Utils.CopyLoop` | src/StreamUtils.php:53-61 | The loop keeps both streams valid and readable/writable and never changes the source's data. |
| `Utils.Copy` | src/StreamUtils.php:36-72 | Source readability is checked before target writability, and a failed check touches neither stream. |
| `Utils.CopyStreams` | src/StreamUtils.php:36-72 | The loop over two `Stream` objects ends with exactly the states and result of `Copy`. |
| `Utils.CopyChunks` | src/StreamUtils.php:55-61 | The `while` loop over two `Stream` objects ends in exactly the states and count of `CopyLoop`. |
| `Utils.CopyLoopCopiesRest` | src/StreamUtils.php:55-61 | The loop moves everything after the source's cursor to the target's cursor and leaves the source at eof. The count is the last chunk's size, or unchanged if the source was already at eof. |
| `Utils.CopyStep` | src/StreamUtils.php:56 | One round reads a chunk of up to 1026 bytes and writes it at the target's cursor. The source is at eof afterwards iff the chunk came up short. |
| `Utils.CopySeekable` | src/StreamUtils.php:46-65 | A seekable source is copied whole into the target at its cursor and put back where it stood. The target's size is forgotten, and the result is `|data| % 1026` (0 for an exact multiple). |
| `Utils.CopyUnseekable` | src/StreamUtils.php:53-69 | A source that cannot seek is copied from its cursor on. One already at eof fails with "Failed to copy stream", target untouched. |
| `Utils.CopyReportsLastChunk` | src/StreamUtils.php:56 | As written, copying 1026 bytes reports 0 and copying 1027 reports 1. |
| `Utils.CopyCorrectedCountsAll` | src/StreamUtils.php:53-71 | A copy that adds up every write reports the whole source's length. It ends in the same states as `copy`. |
| `Utils.CopyIntoFreshTarget` | tests/StreamUtilsTest.php:31-53 | Copying a written stream into a fresh temp one puts its bytes there, and the target's size goes from 0 to their count. |
| `Utils.CopyToReadOnlyTarget` | tests/StreamUtilsTest.php:21-29 | A target opened "rb" gives "Target stream is not writable" and nothing else happens. |
| `Buffered.BufferedState.Read` | src/BufferedStream.php:57-74 | The state stays valid and the frontier never moves back. |
| `Buffered.BufferedState.GetSize` | src/BufferedStream.php:28-35 | If the source's size is unknown and the source is at eof, the result is the frontier; otherwise it is the source's size. |
| `Buffered.BufferedState.Seek` | src/BufferedStream.php:38-54 | A target at or behind the frontier is a buffer seek. One past it is a read of `target - written` bytes. The frontier never moves back. |
| `Buffered.BufferedState.Write` | src/BufferedStream.php:77-80 | Always "This stream is not writable", with nothing changed. |
| `Buffered.BufferedState.GetContents` | src/BufferedStream.php:92-101 | Chunks read until `eof()` is true, concatenated; the frontier never moves back. |
| `Buffered.BufferedState.Detach` | src/BufferedStream.php:112-120 | The rest of the source is read into the buffer, the source is closed, and the buffer's handle is handed over. The frontier never moves back. |
| `Buffered.BufferedState.Close` | src/BufferedStream.php:103-107 | Source and buffer are both closed; the frontier is kept. |
| `Buffered.BufferedState.ToString` | src/BufferedStream.php:153-162 | Rewind and read everything; an exception gives the empty string. The frontier never moves back. |
| `Buffered.WrapMirrors` | src/BufferedStream.php:20-26 | A fresh buffered stream has frontier 0 and an empty buffer at 0, mirrors its source, and shows the source's bytes. |
| `Buffered.ReadServesContent` | src/BufferedStream.php:57-74 | `read(n)` returns the next `min(n, rest)` bytes of the content and moves the cursor past them. The frontier becomes the furthest point read, and the buffer still mirrors the source. |
| `Buffered.EofMeansEnd` | src/BufferedStream.php:87-90 | `eof()` iff the source is at eof and the cursor is at the frontier. The whole content then lies behind the cursor. |
| `Buffered.GetContentsDrains` | src/BufferedStream.php:92-101 | `getContents` returns the content from the cursor to the end. All of it is then buffered and the source is at eof. |
| `Buffered.GetSizeReports` | src/BufferedStream.php:28-35 | The size is the source's when known, and the frontier (the content length) once an unknown-size source is exhausted. |
| `Buffered.SeekTargetResolves` | src/BufferedStream.php:40-45 | The target is offset (SET) or offset + cursor (CUR). For END it is offset + the source's cached size; offset + the content's length when the source's handle knows its size; and, for a source of unknown size, offset + frontier once the source is at eof, offset + 0 before. Any other whence gives "Invalid whence". |
| `Buffered.SeekBehindFrontier` | src/BufferedStream.php:51-53 | A target within the frontier only moves the cursor; a negative one fails and changes nothing. |
| `Buffered.SeekFromFrontier` | src/BufferedStream.php:47-50 | From the frontier, a seek past it lands on the target, or at the content end if that comes first. |
| `Buffered.SeekPastFrontierFallsShort` | src/BufferedStream.php:47-50 | As written, a seek past the frontier from a cursor behind it lands short of the target by (frontier − cursor). |
| `Buffered.SeekCorrectedLands` | src/BufferedStream.php:38-54 | The corrected seek lands on any target in `[0, |content|]`, and at the end beyond it. A negative target fails. |
| `Buffered.ToStringIsContent` | src/BufferedStream.php:153-162 | `__toString` is the whole content, from any cursor. |
| `Buffered.ToStringOnceDetached` | src/BufferedStream.php:153-162 | After `close()`, or a `detach()` that succeeded, `rewind()` fails with "Stream is detached" and `__toString` yields "" with nothing changed. |
| `Buffered.DetachHandsOverContent` | src/BufferedStream.php:112-120 | The handle `detach` gives holds the whole content, and the source ends closed. |
| `Buffered.ReadCachedByte` | tests/BufferedStreamTest.php:30-39 | Over "testing": `seek(5)`, `read(1)` gives 'n'; `seek(0)`, `read(1)` gives 't'. |
| `Buffered.SeekSixLandsAtOne` | src/BufferedStream.php:47-50 | Over "testing", after `seek(5)` and `seek(0)`, `seek(6)` leaves `tell()` at 1. |
| `Buffered.SeekNearEnd` | tests/BufferedStreamTest.php:41-49 | Over the alphabet, `seek(-1, SEEK_END)` gives tell 25, `read(1)` gives 'z', and the size is 26. |
| `Buffered.SeekToEnd` | tests/BufferedStreamTest.php:51-59 | Over the alphabet, `seek(0, SEEK_END)` leaves the source at 26, `read(1)` gives "", and the size is 26. |
| `Buffered.DetachAlphabet` | tests/BufferedStreamTest.php:109-127 | Over the alphabet, `detach` closes the source and returns a handle holding the alphabet. |
| `Buffered.BufferedStream.Read` | src/BufferedStream.php:57-74 | The method's state and result are those of `BufferedState.Read`. |
| `Buffered.BufferedStream.SeekTargetOf` | src/BufferedStream.php:39-44 | The `match` on whence leaves the object in the state `BufferedState.SeekTargetOf` gives and returns its target or its error. |
| `Buffered.BufferedStream.Seek` | src/BufferedStream.php:38-54 | The method's state and result are those of `BufferedState.Seek`. |
| `Buffered.BufferedStream.GetSize` | src/BufferedStream.php:28-35 | The method's state and result are those of `BufferedState.GetSize`. |
| `Buffered.BufferedStream.Eof` | src/BufferedStream.php:87-90 | The method's state and result are those of `BufferedState.Eof`. |
| `Buffered.BufferedStream.GetContents` | src/BufferedStream.php:92-101 | The `while (!eof())` loop ends with the state and result of `BufferedState.GetContents`. |
| `Buffered.BufferedStream.Detach` | src/BufferedStream.php:112-120 | The method's state and result are those of `BufferedState.Detach`. |
| `Buffered.BufferedStream.Close` | src/BufferedStream.php:103-107 | Both streams end as `BufferedState.Close` says. |
| `Buffered.BufferedStream.Write` | src/BufferedStream.php:77-80 | Refuses, changing nothing. |
| `Buffered.BufferedStream.Copy` | src/BufferedStream.php:148-151 | Refuses, changing nothing. |
| `Buffered.BufferedStream.ToString` | src/BufferedStream.php:153-162 | The result is that of `BufferedState.ToString`. |
| `Buffered.BufferedStream.Tell` | src/BufferedStream.php:138-141 | The result is the buffer's cursor. |
| `Buffered.BufferedStream.Rewind` | src/BufferedStream.php:143-146 | The method is the buffer's `rewind()`; only the buffer changes. |
| `Buffered.BufferedStream.IsWritable` | src/BufferedStream.php:82-85 | The result is always false. |
| `Buffered.BufferedStream.IsSeekable` | src/BufferedStream.php:128-131 | The result is the buffer's flag. |
| `Buffered.BufferedStream.IsReadable` | src/BufferedStream.php:133-136 | The result is the buffer's flag. |
| `Buffered.BufferedStream.constructor` | src/BufferedStream.php:22-26 | The new object holds the source, a fresh "w+b" buffer and `written` 0. |
| `Caching.PhpMax` | src/CachingStream.php:31 | PHP's `max(?int, int)`: null only if the int is 0, otherwise the larger value. |
| `Caching.CachingState.Read` | src/CachingStream.php:57-75 | The result always keeps the state valid and never raises the skip count. A failed read leaves the skip count as it was. |
| `Caching.CachingState.Write` | src/CachingStream.php:78-87 | The original is untouched, and the skip count never drops. |
| `Caching.CachingState.GetSize` | src/CachingStream.php:23-32 | Unknown iff the original's size is. Otherwise it is PHP's `max` of the buffer's size and the original's. |
| `Caching.CachingState.SeekTargetOf` | src/CachingStream.php:37-42 | Only SEEK_END may touch anything, and only to copy an original of unknown size into the buffer. |
| `Caching.Wrap` | src/CachingStream.php:17-21 | The new state holds the original, a fresh empty "rb+" buffer, and skip count 0. |
| `Caching.WrapCoheres` | src/CachingStream.php:15-21 | A fresh caching stream over an original at 0 is coherent: at 0, nothing buffered, and showing exactly the original's bytes. |
| `Caching.ReadServes` | src/CachingStream.php:57-75 | With nothing to skip, `read(n)` returns the next `min(n, rest)` bytes of the content and moves the cursor past them. It buffers up to the furthest point read and still has nothing to skip. |
| `Caching.ReadCorrectedServes` | src/CachingStream.php:57-75 | The corrected `read` does the same with any skip count. Coherence and the content are kept, and the original reaches eof only once the whole content is buffered. |
| `Caching.ReadAgreesWithoutSkip` | src/CachingStream.php:65 | With nothing to skip, `read` is the corrected `read`. |
| `Caching.ReadDiffersOnlyInSkip` | src/CachingStream.php:65-68 | As-written and corrected `read` return the same bytes and reach the same state except for the skip count. |
| `Caching.ReadAtCacheEnd` | src/CachingStream.php:59-70 | At the buffer's end, `read(n)` asks the original for `n + skipBytes` bytes and returns what follows the skipped ones. |
| `Caching.WriteCorrectedOverlays` | src/CachingStream.php:78-87 | The corrected `write` reports every byte and lays them over the content at the cursor, moving the cursor past them. Coherence is kept. |
| `Caching.WriteAgreesWithoutSkip` | src/CachingStream.php:80 | With nothing to skip, `write` is the corrected `write`. |
| `Caching.WriteThenReadBack` | src/CachingStream.php:78-87 | Whatever the skip count: write, then `seek` back to where the write began, then `read` of the same length returns the bytes written. |
| `Caching.EofMeansEnd` | src/CachingStream.php:89-92 | `eof()` iff both streams are at eof. The cursor is then at the content's end. |
| `Caching.GetSizeIsLength` | src/CachingStream.php:23-32 | The size is known iff the original knows its size, and then it is the content's length. |
| `Caching.GetContentsDrains` | src/CachingStream.php:94-103 | With nothing to skip, `getContents` returns the content from the cursor on and leaves both streams at eof, with everything buffered. |
| `Caching.SeekTargetResolves` | src/CachingStream.php:37-42 | When the original knows its size: SET gives offset, CUR gives offset + cursor, END gives offset + size. Any other whence gives "Invalid whence". |
| `Caching.SeekWithinCache` | src/CachingStream.php:51-53 | A target no further than the buffer's end is a buffer seek. It succeeds iff the target is not negative. |
| `Caching.SeekLoopLands` | src/CachingStream.php:46-50 | With nothing to skip, the loop fills the buffer up to the target, or to the content's end if that comes first, and leaves the cursor there. An original already at eof gives no rounds. |
| `Caching.SeekBeyondCache` | src/CachingStream.php:44-50 | A seek past the buffer's end lands at `min(target, |content|)`, or stays put if the original was already at eof. |
| `Caching.ToStringShowsOnlyCache` | src/StreamDecoratorTrait.php:98-101 | As written, `__toString` gives only the buffered bytes. |
| `Caching.ToStringCorrectedIsContent` | src/StreamDecoratorTrait.php:98-101 | Rewind followed by `getContents` gives the whole content. |
| `Caching.RewindCoheres` | src/StreamDecoratorTrait.php:70-73 | `rewind` moves the cursor to 0 and keeps the content and the bookkeeping. |
| `Caching.UseOriginalIfAvailable` | tests/CachingStreamTest.php:11-16 | The size of a caching stream over "test" is 4. |
| `Caching.ReadCachedByte` | tests/CachingStreamTest.php:18-27 | Over "testing": `seek(5)`, `read(1)` gives 'n'; `seek(0)`, `read(1)` gives 't'. |
| `Caching.SeekNearEnd` | tests/CachingStreamTest.php:29-37 | Over the alphabet, `seek(-1, SEEK_END)` leaves the original at 25, `read(1)` gives 'z', and the size is 26. |
| `Caching.SeekToEnd` | tests/CachingStreamTest.php:39-47 | Over the alphabet, `seek(0, SEEK_END)` leaves the original at 26, `read(1)` gives "", and the size is 26. |
| `Caching.ReadAfterWriteDropsByte` | src/CachingStream.php:65-68 | Over "1234567": `write("abc")`, then two `read(2)`. As written, the second gives "7"; corrected, it gives "67". |
| `Caching.SecondWriteSkipsTooMuch` | src/CachingStream.php:80 | Over "12345": `write("ab")`, then `write("cd")`. As written, the skip count is 6 and `read(1)` gives "". |
| `Caching.SecondWriteCorrectedSkipsShadowed` | src/CachingStream.php:80 | The corrected writes leave a skip count of 4, and `read(1)` gives "5". |
| `Caching.ToStringMissesUnreadBytes` | src/StreamDecoratorTrait.php:98-101 | Over a non-empty string, `__toString` of a fresh caching stream is "" as written and the string when corrected. |
| `Caching.CachingStream.Read` | src/CachingStream.php:57-75 | The method's state and result are those of `CachingState.Read`. |
| `Caching.CachingStream.Write` | src/CachingStream.php:78-87 | The method's state and result are those of `CachingState.Write`. |
| `Caching.CachingStream.GetSize` | src/CachingStream.php:23-32 | The method's state and result are those of `CachingState.GetSize`. |
| `Caching.CachingStream.SeekLoop` | src/CachingStream.php:46-50 | The `while` loop ends in the state of `CachingState.SeekLoop`. |
| `Caching.CachingStream.Seek` | src/CachingStream.php:35-54 | The method's state and result are those of `CachingState.Seek`. |
| `Caching.CachingStream.Eof` | src/CachingStream.php:89-92 | The method's state and result are those of `CachingState.Eof`. |
| `Caching.CachingStream.GetContents` | src/CachingStream.php:94-103 | The `while (!eof())` loop ends with the state and result of `CachingState.GetContents`. |
| `Caching.CachingStream.Close` | src/CachingStream.php:105-109 | Both streams end as `CachingState.Close` says. |
| `Caching.CachingStream.Tell` | src/StreamDecoratorTrait.php:50-53 | The result is the buffer's cursor. |
| `Caching.CachingStream.Rewind` | src/StreamDecoratorTrait.php:70-73 | The method rewinds the buffer. |
| `Caching.CachingStream.Detach` | src/StreamDecoratorTrait.php:35-38 | The method detaches the buffer, leaving the original open. |
| `Caching.CachingStream.Copy` | src/StreamDecoratorTrait.php:93-96 | The method copies into the buffer and leaves the skip count alone. |
| `Caching.CachingStream.ToString` | src/StreamDecoratorTrait.php:98-101 | The result is the buffer's `__toString`. |
| `Caching.CachingStream.IsReadable` | src/StreamDecoratorTrait.php:55-58 | The result is the buffer's flag. |
| `Caching.CachingStream.IsWritable` | src/StreamDecoratorTrait.php:60-63 | The result is the buffer's flag. |
| `Caching.CachingStream.IsSeekable` | src/StreamDecoratorTrait.php:65-68 | The result is the buffer's flag. |
| `Caching.CachingStream.constructor` | src/CachingStream.php:17-21 | The new object holds the original, a fresh "rb+" buffer and skip count 0. |
| `Wrapper.ModeFor` | src/StreamWrapper.php:30-36 | Fails iff the stream is neither readable nor writable, with "The stream must be readable, writable, or both.". |
| `Wrapper.ModeAdvertisesCapabilities` | src/StreamWrapper.php:30-33 | The mode chosen ("r+", "r" or "w") is readable and writable by the library's own patterns exactly as the stream is. |
| `Wrapper.ModeBits` | src/StreamWrapper.php:132-138 | The table has an entry exactly for "r", "rb", "r+", "w" and "wb". |
| `Wrapper.ModeBitsMatchModes` | src/StreamWrapper.php:132-138 | Every entry is a regular file (S_IFREG) that its owner can read. The owner's write bit is set iff the mode is writable. |
| `Wrapper.FromModeHasBits` | src/StreamWrapper.php:30-33 | Every mode `from` picks has an entry in the table. |
| `Wrapper.StatOf` | src/StreamWrapper.php:140-154 | The stat has the mode's bits and the stream's size, 0 when unknown; every other field is 0. |
| `Wrapper.UrlStatOf` | src/StreamWrapper.php:160-177 | All fields are 0, for any path and flags. |
| `Wrapper.UrlStatIsEmptyStreamStat` | src/StreamWrapper.php:160-177 | `url_stat` equals the `stream_stat` of any opened resource with mode and size set to 0; in particular it is the stat of an empty stream with the mode cleared. |
| `Wrapper.StatOfResource` | tests/StreamWrapperTest.php:29-56 | The resource over "foobar" stats as mode 33206, size 6. |
| `Wrapper.ContextStream` | src/StreamWrapper.php:74 | A stream is found iff `options['digitalcz-streams']['stream']` is set and not null. |
| `Wrapper.CreateStreamContext` | src/StreamWrapper.php:52-57 | The stream put in the context is the one `stream_open` finds there. |
| `Wrapper.StreamWrapper.StreamOpen` | src/StreamWrapper.php:70-82 | Succeeds iff the context holds a stream. It then records mode and stream, and otherwise changes nothing. |
| `Wrapper.StreamWrapper.StreamStat` | src/StreamWrapper.php:130-155 | The result is `StatOf` of the recorded mode and the stream's `getSize`. The only state change is the size the stream caches. |
| `Wrapper.StreamWrapper.UrlStat` | src/StreamWrapper.php:160-177 | The result is the all-zero stat. |
| `Wrapper.OpenOnCreatedContext` | tests/StreamWrapperTest.php:62-71 | Opening on the context made for a stream binds that stream, for any path and mode. |
| `Wrapper.OpenWithoutStream` | src/StreamWrapper.php:74-76 | Opening on a context without the option fails and leaves the wrapper unset. |

## Left out

- `getMetadata`, the `popen`/gzip/`php://output` cases of the tests, and `__destruct`: these are PHP resource metadata and lifetime.
- The `is_resource` check of the `Stream` constructor ("Not a resource"): a `Handle` is always a resource.
- `Stream::temp` and `Stream::from` are not part of this model's source files. They are modelled as a fresh empty seekable handle, and as `create` of a string.
- The failure results of `ftell`, `fread`, `fwrite` and `stream_get_contents`: the model's handle never fails there, so "Unable to …" and "Failed to copy stream" from `Stream::copy` cannot arise. `StreamUtils::copy`'s "Failed to copy stream" is modelled.
- Append modes: `fwrite` always writes at the cursor.
- `fseek` past the end of the data is refused, where PHP's temp stream would allow it.
- File, TempFile and TempStream: OS file creation and deletion.
- Wrapper registration, `fopen` on the `digitalcz-streams://` scheme, `stream_context_create`, `stream_cast`, and the forwarding `stream_read`/`stream_write`/`stream_tell`/`stream_eof`/`stream_seek`: these are PHP stream-subsystem plumbing.
- `StreamInterface` as an interface: every stream argument is the concrete `Stream` class, so a decorator cannot wrap another decorator. The wrapper holds a `Stream`.
- Aliasing: a decorator's original and buffer are distinct objects, and `Stream.Copy` takes a source other than the target. Copying a stream into itself is not modelled.
- `BufferedStream::__toString` turns any exception into "". The model takes that branch once the buffer is detached by `close()` or `detach()` (`Buffered.ToStringOnceDetached`); on an attached stream `Buffered.ToStringIsContent` gives the whole content. Other PHP exceptions, such as I/O failures of the buffer, are not modelled.
- Caching.WrapCoheres: requires the original to be at offset 0 when it is wrapped, because `Coherent` ties the buffer to the original's bytes from 0. When wrapped elsewhere, the model's functions still follow the code, but no content lemma is stated.
- Caching.GetContentsDrains: stated only with nothing to skip, as `getContents` uses the as-written `read`, which can lose bytes after a write (see Findings).
- Caching.SeekBeyondCache: stated only with nothing to skip, for the same reason.
- Caching.SeekLoopLands: stated only with nothing to skip, for the same reason.
- Caching.SeekTargetResolves: SEEK_END is resolved only for an original that knows its size. Otherwise the target is the count `copy` returns, and `Utils.CopySeekable` describes that count.

## Findings

| source | as written | input that shows it | evidently intended | confidence | as-written member | corrected member |
|---|---|---|---|---|---|---|
| src/BufferedStream.php:47-50 | a seek past the frontier reads `target - written` bytes from the current cursor | over "testing": `seek(5)`, `seek(0)`, `seek(6)`; `tell()` is 1 | the cursor lands on 6 | not executed; high | `Buffered.SeekSixLandsAtOne` | `Buffered.SeekCorrectedLands` |
| src/StreamUtils.php:56 | `copy` returns the count of the last write only | a 1026-byte source reports 0, a 1027-byte one reports 1 | the number of bytes copied, as `Stream::copy` returns | not executed; medium | `Utils.CopyReportsLastChunk` | `Utils.CopyCorrectedCountsAll` |
| src/CachingStream.php:65-68 | the skip count drops by the bytes kept after `substr`, not by those read | over "1234567": `write("abc")`, `read(2)`, `read(2)`; the second read is "7" | "67" | not executed; high | `Caching.ReadAfterWriteDropsByte` | `Caching.ReadCorrectedServes` |
| src/CachingStream.php:80 | the overflow is measured from `original->tell()`, counting already-shadowed bytes again | over "12345": `write("ab")`, `write("cd")`; skip is 6 and `read(1)` is "" | skip 4, `read(1)` is "5" | not executed; high | `Caching.SecondWriteSkipsTooMuch` | `Caching.SecondWriteCorrectedSkipsShadowed` |
| src/StreamDecoratorTrait.php:98-101 | `CachingStream::__toString` casts the buffer, which holds only what was read so far | a fresh caching stream over "test" gives "" | "test", all of the stream as PSR-7 says | not executed; high | `Caching.ToStringShowsOnlyCache` | `Caching.ToStringCorrectedIsContent` |
