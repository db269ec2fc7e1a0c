# cbsl streaming reader, session header and dictionary trainer in Dafny

cbsl is a C library that stores a binary stream through zstd compression and
reads it back. A session context owns the file, a dictionary slot, and two
staging buffers: an input buffer of compressed bytes read from the file, and an
output buffer of decompressed bytes not yet handed to the caller. Each buffer
has a window given by a position cursor and a used cursor.

This project models three pieces of it:

- **The streaming reader** (`src/read.c`). This is the core. On success
  `cbsl_read` delivers the next `size` bytes of the stream, whatever sizes
  the earlier calls asked for. A request larger than the output buffer uses the *immediate*
  strategy: the engine decompresses straight into the caller's buffer. Any
  other request uses the *buffered* strategy: leftovers of the output buffer
  are delivered first, then whole output buffers of fresh engine output,
  whose surplus is kept for the next call. Both strategies share the same
  step: slide the unconsumed input to the front of the input buffer, then
  refill it from the file.
- **Opening and closing** (`src/file.c`). The header is a 64-bit version,
  the 64-bit `dict_size_used`, and a dictionary slot of
  `MAX_DICTIONARY_SIZE` bytes. A load-mode open checks the header. A
  store-mode open writes a placeholder header. Closing a store-mode file
  rewrites `dict_size_used` and the dictionary in place.
- **Dictionary training** (`src/dict.c`). It checks its arguments, computes
  the sample table, calls the trainer, and primes the compression engine.

The modules follow the program's structure:

| module | file | contents |
|---|---|---|
| `Wrappers` | wrappers.dfy | the `Option` type |
| `Bytes` | bytes.dfy | `byte`, the little-endian `uint64_t` codec, the header constants, `memcpy` and `memmove` over arrays |
| `Stdio` | stdio.dfy | a `File` class over a byte sequence with a cursor; fopen, fread, fwrite, fseek and fclose |
| `Zstd` | zstd.dfy | the compression library as oracles that have contracts only |
| `Context` | context.dfy | the `Ctx` class (`cbsl_ctx`), its invariant, and its ghost views of the stream |
| `StreamingRead` | read.dfy | `src/read.c`, plus the pure model of its delivery counter |
| `FileLifecycle` | file.dfy | `src/file.c`, plus the pure header codec |
| `Dictionary` | dict.dfy | `src/dict.c` |

### How the stream is followed

zstd is modelled by a *copy engine*. Each call consumes some bytes of the
input window and appends the same bytes to the output window. It consumes at
least one byte whenever both windows have room, and it may fail instead. Under
this engine the decompressed stream equals the compressed one. Every byte the
context still has to hand out is then, in order:

- the output window,
- then the input window,
- then the rest of the file.

`Ctx.Pending()` is that sequence. A successful `cbsl_read` delivers
`old(Pending())[..size]` and leaves `old(Pending())[size..]`. This holds for
every strategy and after any earlier sequence of request sizes.
`StreamingRead.ChunksAreStream` is a fact about the pure function `Chunks`:
however a prefix of a sequence is split, the pieces concatenate back to it.
`StreamingRead.ReadSequence` is a run of `cbsl_read` calls on one context,
one call per requested size. When every call succeeds, its buffers are exactly
`Chunks(old(Pending()), sizes)`. So whenever a split succeeds, the caller
receives the same bytes, however they split their reads. Whether it succeeds
can depend on the split (see "Refused immediate reads" below). It always
succeeds when:

- the engine is healthy;
- no request is larger than the output buffer;
- the requests add up to at most the pending bytes.

`ReadSequence` proves it.

The engines' health is the context's constant `engineOk`, which `cbsl_open`
is given. It says whether the file holds well-formed compressed data and the
engines accept its dictionaries. A healthy engine never reports an error or
refuses a dictionary. Otherwise any engine call may fail. Training has its own
flag, `trainerOk`, for whether the samples are fit for training.

### Where the code and the intended design differ

They differ in the ways below. Three of them are marked *corrected*. For those,
the model has the corrected behaviour and records the code as written under
Findings. For all the others the model follows the code:

- **Output cursors after an immediate read.** The immediate strategy leaves
  both output cursors at `size`, beyond the output buffer's capacity.
  `src/read.c:60-61` does this. The invariant `pos <= used <= capacity`
  therefore does not hold for the output buffer. `Ctx.OutputValid` promises
  only two things:
  - `pos <= used`;
  - `used <= capacity` while the window is non-empty.
- **`dict_size_used` is not bounded after a load** (corrected). In load mode
  the code reads it from the file unchecked (`src/file.c:64`). It then primes
  the engine with that many bytes of the `MAX_DICTIONARY_SIZE`-byte slot
  (`src/file.c:68`). See Findings. `FileLifecycle.LoadHeader` rejects a
  larger value before priming. So after any successful open,
  `dict_size_used <= MAX_DICTIONARY_SIZE`. In store mode the bound holds
  because training stores at most that many bytes (`Dictionary.TrainData`).
  The context invariant itself keeps only the 64-bit bound.
- **Refused immediate reads.** The immediate strategy refuses a request while
  buffered output remains (`src/read.c:30`). A run of requests can therefore
  fail where the same bytes, requested another way, arrive. For example,
  take `[1, out_buffer_size + 1]` on a context whose output window holds at
  least two bytes. The first call is served from the window, leaves the rest
  of it buffered, and touches neither the input buffer nor the file. The
  second call is then refused. On a fresh context with a healthy engine and
  at least `out_buffer_size + 2` pending bytes, a single request of that
  size succeeds. The model follows the code: `StreamingRead.Read` promises
  success for a request larger than the output buffer only when the output
  window is empty.
- **The store-mode dictionary placeholder.** It is not zero-filled: the slot
  comes from `malloc` (`src/file.c:57`). `FileLifecycle.OpenStore` writes
  whatever the slot holds.
- **`dict_size_used` after a priming failure.** When training succeeds but
  priming fails, `dict_size_used` is already the trained size
  (`src/dict.c:56-59`).
- **Input cursor write-back.** The input cursors are written back once per
  outer pass, after the inner engine loop (`src/read.c:56-57` and
  `src/read.c:118-119`). They are not written back after each engine call. An
  engine error inside the loop returns before the write-back.
- **Line 116** (corrected). The buffered strategy's drain is bounded by the whole
  request, not by what is still missing (`src/read.c:116`). See Findings. The
  imperative model uses the corrected bound.
- **End of stream** (corrected). When the file is exhausted and nothing is staged, a pass
  of either outer loop delivers nothing. The loop then runs the same pass
  again forever (`src/read.c:33`, `src/read.c:91`). See Findings. The
  imperative model returns an error as soon as a pass finds nothing staged,
  as the library does for every other short read. So a request for more bytes
  than remain fails.

## Model

| member | source | states |
|---|---|---|
| `StreamingRead.Read` | src/read.c:126-142 | A null context, a context not in load mode, or a null destination gives an error and changes nothing. A request larger than the output buffer goes to the immediate strategy and fails unchanged when buffered output remains; its success leaves both output cursors at `size`. A request within the output buffer that the output window already covers always succeeds. It keeps the rest of the output window and leaves the input buffer, the input cursors and the file position unchanged. A request for more bytes than are pending always fails, and with a healthy engine any other request succeeds, unless it is larger than the output buffer while buffered output remains. Every success delivers the next `size` bytes of `Pending()` and leaves the rest pending. Nothing past `data[size)` is ever written, and the dictionary size, both engine dictionary references and the file's contents and open state are never changed |
| `StreamingRead.StreamingReadImmediate` | src/read.c:24-64 | Refuses, changing nothing, while the output window is non-empty. On success the destination holds the next `size` bytes of the stream, the rest stays pending, and the output cursors are both `size`; so a stream shorter than `size` is an error. With a healthy engine, an empty output window and at least `size` pending bytes, it succeeds. Nothing past `data[size)` is written |
| `StreamingRead.ImmediateRound` | src/read.c:33-57 | One pass of the outer loop. Delivered bytes plus staged input equal the staged input before the pass, and nothing past `data[size)` is written. A pass that does not fail ends with the input window empty or the destination full, and a healthy engine never fails. The refilled input window is empty exactly when nothing was staged. It then delivers a byte whenever it is non-empty; when it is empty the pass delivers nothing and leaves nothing staged, so the loop as written repeats the same pass forever |
| `StreamingRead.DecompressToDestination` | src/read.c:50-55 | The engine loop appends exactly the consumed prefix of the input window to `data[..opos]`, and makes progress while both windows are non-empty. It stops only when the window is used up or `data[..size)` is full, or on an engine error, which a healthy engine never reports. An empty window calls no engine and delivers nothing. Nothing past `data[size)` is written |
| `StreamingRead.DecompressInput` | src/read.c:50-57 | After the engine loop and the write-back of the input cursors, nothing consumed is lost: delivered bytes plus the new input window equal what there was before. Without an error, the new window is empty or the destination is full. An empty window delivers nothing, and nothing past `data[size)` is written |
| `StreamingRead.ReadFromBuffer` | src/read.c:67-78 | Copies exactly `min(|window|, size)` leading bytes of the output window to `data[off..]` and removes them from the window, leaving the rest of `data` unchanged. An empty window copies nothing and leaves the cursor alone |
| `StreamingRead.CompactInput` | src/read.c:36-46 | After compaction `in_buffer_pos == 0` and the input window holds the same bytes as before |
| `StreamingRead.RefillInput` | src/read.c:48 | Refill appends the next file bytes to the window: its size becomes `min(capacity, window + rest of file)`, and the window plus the rest of the file are unchanged as a sequence |
| `StreamingRead.PrepareInput` | src/read.c:36-48 | Compaction then refill leaves `in_buffer_pos == 0` and loses no byte. The window holds `min(capacity, staged bytes)` bytes, so it is empty only when the file is exhausted, and it is non-empty when anything was staged |
| `StreamingRead.RefillOutput` | src/read.c:111-115 | The engine fills the output buffer afresh from the input window; the new output window is exactly the input it consumed, at least one byte |
| `StreamingRead.DrainOutput` | src/read.c:116 | With the drain bound `size - read`, the counter advances as `DrainStep` says and the drained bytes plus the remaining output window are the old output window. Nothing past `data[size)` is written |
| `StreamingRead.DrainRound` | src/read.c:111-116 | One engine call and drain: the counter advances by `DrainStep`, never past `size`; the window is left empty unless the request is met; delivered plus buffered bytes are the consumed input. Nothing past `data[size)` is written |
| `StreamingRead.NextDrainRound` | src/read.c:111-116 | `DrainRound` as one iteration of the inner loop: what the engine consumed, counted against a snapshot of the input buffer, extends the delivered bytes plus the output window, and the counter advances by `DrainStep` of what the engine produced; a healthy engine never fails and nothing past `data[size)` is written |
| `StreamingRead.DecompressAndDrain` | src/read.c:108-117 | The inner loop delivers or buffers exactly the consumed prefix of the input window, and makes progress while input remains and the request is unmet. Its ghost trace of per-call engine outputs adds up to the consumed input, and the counter is `InnerRead` of that trace, so `InnerReadDelivers` and `AsWrittenAgrees` speak about this loop. Without an error it stops only when the input is used up or `read == size`, and a healthy engine never reports one. An empty window delivers nothing, and nothing past `data[size)` is written |
| `StreamingRead.DrainInput` | src/read.c:108-119 | After the inner loop and the write-back, delivered bytes, the output window and the new input window together are the old delivered bytes and input window. Without an error, the new input window is empty or the request is met. An empty window delivers nothing, and nothing past `data[size)` is written |
| `StreamingRead.BufferedRound` | src/read.c:91-119 | One outer pass keeps `data[..read] + Pending()` equal to what it was and writes nothing past `data[size)`. A pass that does not fail ends with the input window empty or the request met, and a healthy engine never fails. The refilled input window is empty exactly when nothing was staged. It then delivers a byte whenever it is non-empty; when it is empty the pass delivers nothing and nothing is pending, so the loop as written repeats the same pass forever |
| `StreamingRead.StreamingReadBuffered` | src/read.c:80-124 | Leftover output first, then fresh engine output, in order: on success the destination holds the next `size` bytes of the stream and the rest stays pending (`read == size`), so a stream shorter than `size` is an error. A request the output window already covers always succeeds without entering the loop: the output window keeps its remaining bytes, and the input buffer, input cursors and file position are unchanged. Any request the pending bytes cover succeeds when the engine is healthy. Nothing past `data[size)` is written |
| `StreamingRead.DrainStepAsWritten` | src/read.c:116 | The drain as written is right in two cases: from `read == 0` it never passes `size`, and while the engine output fits in what is still missing it adds exactly that output. Once some bytes are delivered, an engine output larger than the missing count takes the counter past `size` |
| `StreamingRead.DrainStep` | src/read.c:116 | The corrected drain: the counter stays within `[read, size]` and never gains more than the engine produced; it is `read + produced` unless the request is met |
| `StreamingRead.InnerReadAsWritten` | src/read.c:109-117 | The counter after the inner loop as written never decreases |
| `StreamingRead.InnerRead` | src/read.c:109-117 | The counter after the corrected inner loop stays within `[read, size]` |
| `StreamingRead.InnerReadDelivers` | src/read.c:109-121 | The corrected inner loop ends at `min(size, read + total produced)`: exactly `size` when the engine produced enough |
| `StreamingRead.InnerReadSnoc` | src/read.c:109-117 | One more engine call, while the request is unmet, extends the corrected loop's counter by exactly one `DrainStep` |
| `StreamingRead.AsWrittenOverruns` | src/read.c:116-121 | As written, 2 of 4 bytes delivered plus an engine output of 4 ends the counter at 6, past the request; the corrected loop ends at 4 |
| `StreamingRead.AsWrittenPastRequest` | src/read.c:116 | As written, once some bytes are delivered, any engine output larger than the missing count takes the counter past `size` |
| `StreamingRead.AsWrittenAgrees` | src/read.c:109-117 | The loop as written and the corrected loop end at the same counter if and only if `NoOverdraw` holds. That means that, until the request is met, no drain starting after some bytes were delivered gets more than is still missing. The first drain from `read == 0` may get any amount |
| `StreamingRead.Chunks` | src/read.c:126-141 | Successive reads of the given sizes deliver chunks of exactly those sizes |
| `StreamingRead.ReadChunk` | src/read.c:126-142 | One `cbsl_read` into a fresh buffer of `n` bytes: on success the buffer holds the next `n` pending bytes and the rest stays pending. With a healthy engine it succeeds whenever `n` is within the output buffer and the pending bytes |
| `StreamingRead.ReadSequence` | src/read.c:126-142 | A run of `cbsl_read` calls, one per requested size: on success the buffers are `Chunks` of the pending stream, they concatenate to its next `Sum(sizes)` bytes, and the rest stays pending. With a healthy engine the run succeeds whenever each request is within the output buffer and together they are within the pending bytes |
| `StreamingRead.ChunksAreStream` | src/read.c:126-141 | However the requests are split, the delivered chunks concatenate to the next bytes of the stream |
| `Context.Ctx.constructor` | src/file.c:41-57 | A fresh, zeroed context: empty windows, no dictionary in use, staging buffers of the given capacities, and a dictionary slot holding whatever the allocation held |
| `Context.Ctx.Valid` | src/file.c:41-57 | The context invariant every read and open relies on: not released, three distinct buffers, a full dictionary slot, a 64-bit `dict_size_used`, and valid input and output cursors |
| `Context.Ctx.InputValid` | src/read.c:36-48 | The input cursors: `in_buffer_pos <= in_buffer_used <= capacity` of a non-empty buffer |
| `Context.Ctx.OutputValid` | src/read.c:60-78 | The output cursors: `pos <= used`, and `used <= capacity` while the window is non-empty, since an immediate read leaves both at `size` |
| `FileLifecycle.EncodeHeader` | src/file.c:74-77 | The written header is `16 + MAX_DICTIONARY_SIZE` bytes long |
| `FileLifecycle.ParseHeader` | src/file.c:61-65 | An accepted header yields a full dictionary slot and a 64-bit `dict_size_used` |
| `FileLifecycle.ParseAccepts` | src/file.c:61-65 | A file is accepted if and only if it holds a whole header whose first 8 bytes are the library's version. A file shorter than 8 bytes is a short read; a wrong version is rejected as such |
| `FileLifecycle.HeaderRoundTrip` | src/file.c:59-77 | Reading a written header gives back its `dict_size_used` and dictionary, and the stream after it starts at offset `16 + MAX_DICTIONARY_SIZE` |
| `FileLifecycle.RewriteKeepsVersionAndStream` | src/file.c:91-94 | The close-time rewrite changes only bytes `[8, 16 + MAX)`: they become `dict_size_used` and the dictionary, while the version, the trailing stream and the file length are kept |
| `FileLifecycle.OversizedDictionaryAccepted` | src/file.c:62-68 | The load-mode checks as written accept a header whose `dict_size_used` is `MAX_DICTIONARY_SIZE + 1`, larger than the slot it describes |
| `FileLifecycle.StoreThenLoad` | src/file.c:59-94 | A store-mode file, after close, loads back the final `dict_size_used` and dictionary, and its load-mode stream is what was appended after the header |
| `FileLifecycle.Close` | src/file.c:83-105 | Always succeeds. A null context is a no-op. In store mode the header fields are rewritten at offset 8 and the position returns to the end; other modes leave the file's bytes alone. The context is always released and the file closed |
| `FileLifecycle.LoadHeader` | src/file.c:59-71 | A header that `ParseHeader` rejects fails the open, and so does one whose `dict_size_used` exceeds `MAX_DICTIONARY_SIZE`. With a healthy engine every other header is accepted, with or without a dictionary. On success the context holds the header's fields, the file is positioned at the stream, `dict_size_used <= MAX_DICTIONARY_SIZE`, and the decompression engine references the dictionary exactly when `dict_size_used > 0`. A valid header with no dictionary always succeeds |
| `FileLifecycle.StoreHeader` | src/file.c:72-78 | The store-mode open writes exactly the encoded header with the context's `dict_size_used` and dictionary slot, and leaves the file position after it |
| `FileLifecycle.OpenLoad` | src/file.c:53-71 | A load-mode open after a successful fopen fails when the header is rejected or its `dict_size_used` exceeds the slot, and then the file is closed. It succeeds when a valid header has no dictionary, and, with a healthy engine, whenever a valid header's dictionary fits the slot. On success the context and its staging buffers and dictionary slot are fresh allocations, the context holds the header's fields, and everything still to be read is the file after the header |
| `FileLifecycle.OpenStore` | src/file.c:53-78 | A store-mode open after a successful fopen yields a zeroed context, with freshly allocated staging buffers and dictionary slot, whose file is the placeholder header |
| `FileLifecycle.Open` | src/file.c:37-81 | No context for a null path, an unsupported mode, a missing load-mode file, a rejected header or a `dict_size_used` larger than the slot. A load-mode open of a stored file whose header is valid and whose dictionary fits the slot succeeds with a healthy engine. A successful open returns a fresh context with a fresh file, staging buffers and dictionary slot. A successful load-mode open has the header's fields and starts the stream after the header; a successful store-mode open has written a placeholder header with `dict_size_used = 0` |
| `FileLifecycle.OpenAndRead` | src/file.c:53-71 | Opening a file in load mode and reading it in chunks: on success the header was valid and the chunks concatenate to the stream after the header. A valid header whose dictionary fits the slot, a healthy engine and requests that each fit the output buffer and together fit the stream always succeed, however the requests are split |
| `Dictionary.UsedSize` | src/dict.c:44 | `used_size` is at most the source size and at most a hundred dictionaries, and equals one of the two |
| `Dictionary.SampleCount` | src/dict.c:45 | `nsamples` is the largest count of whole samples that fits in `used_size` |
| `Dictionary.SumOfEqualSizes` | src/dict.c:49-52 | A table of `n` entries all equal to `sample_size` adds up to `n * sample_size` |
| `Dictionary.SamplesWithinSource` | src/dict.c:44-54 | The samples the table describes add up to at most `used_size <= total_size`, so they never pass the end of the source |
| `Dictionary.SampleTable` | src/dict.c:47-52 | The table has `nsamples` entries, each equal to `sample_size` |
| `Dictionary.TrainData` | src/dict.c:35-63 | A null context or source, a zero size, or a mode other than store is rejected, touching nothing. With fit samples and a healthy engine, valid arguments always succeed. `dict_size_used` changes only to a trained size of at most `MAX_DICTIONARY_SIZE`. With a healthy engine an error is a training failure and leaves `dict_size_used` unchanged; with fit samples it is a priming failure and keeps the trained size. An error leaves the compression engine's dictionary as it was; success makes it reference exactly `dict_size_used` bytes |
| `Dictionary.TrainAndClose` | tests/cbsl_train_data.c:57-69 | A store session that trains and closes always leaves a file whose header a load-mode open accepts, with `dict_size_used` within the slot and no stream yet; with fit samples and healthy engines training succeeds |
| `Bytes.U64Bytes` | src/file.c:74-76 | A `uint64_t` is written as 8 bytes that read back as the same value |
| `Bytes.U64Value` | src/file.c:62-64 | Eight bytes read as a value below 2^64 |
| `Bytes.DecodeEncode` | src/file.c:62-64 | Decoding the `n`-byte little-endian form of a value below 256^n gives the value back |
| `Bytes.EncodeDecode` | src/file.c:62-64 | Every byte string is the encoding of its decoded value |
| `Bytes.MemCopy` | src/read.c:73 | `memcpy`: the destination range holds the source bytes and nothing after it changes |
| `Bytes.MoveToFront` | src/read.c:39 | `memmove` to the front: the buffer starts with the moved bytes and the part after them is unchanged |
| `Stdio.Overwrite` | src/file.c:92-93 | A write at an offset puts its bytes there, keeps every other byte, zero-fills a gap past the end, and sets the length to the larger of the two ends |
| `Stdio.OverwriteTwice` | src/file.c:92-93 | Two consecutive writes are one write of both |
| `Stdio.OpenForReading` | src/file.c:53 | `fopen(path, "rb")` fails exactly when nothing is stored at the path; otherwise the stream starts at offset 0 of the stored bytes |
| `Stdio.OpenForWriting` | src/file.c:53 | `fopen(path, "wb")` gives an empty file at offset 0 when it succeeds |
| `Stdio.File.ReadInto` | src/read.c:48 | fread into a buffer: reads `min(n, remaining)` bytes in order into `dst[off..]`, changes nothing after them, and advances the file by that many |
| `Stdio.File.Read` | src/file.c:62-64 | fread of a header field: the next `min(n, remaining)` bytes, and the cursor moves past them |
| `Stdio.File.Write` | src/file.c:75-77 | fwrite overwrites at the cursor and advances it by the number of bytes written |
| `Stdio.File.Seek` | src/file.c:91 | `fseek(SEEK_SET)` sets the cursor |
| `Stdio.File.SeekEnd` | src/file.c:94 | `fseek(SEEK_END)` puts the cursor at the end of the file |
| `Stdio.File.Close` | src/file.c:102 | `fclose`: the file is closed afterwards |
| `Zstd.DecompressStream` | src/read.c:53 | The copy engine: it appends exactly the input it consumed, stays within both windows, consumes at least one byte when both have room, never writes past `outSize`, and on an error changes nothing. On a well-formed stream it never reports an error |
| `Zstd.LoadDictionaryByReference` | src/file.c:68 | Priming an engine with a dictionary (also `src/dict.c:58`) needs the size to lie within the slot: a rejected dictionary leaves the engine's reference as it was; an accepted one makes it reference exactly `size` bytes of the slot. A healthy engine never rejects one |
| `Zstd.TrainFromBuffer` | src/dict.c:54 | A successful training uses at most the dictionary capacity and writes only the `size` leading bytes of the slot; no training writes past the capacity. Training on fit samples never fails |

## Left out

- File I/O is modelled by a byte sequence with a cursor; there is no real
  file system. A write past the end zero-fills the gap, as POSIX specifies.
  fwrite never writes short and fseek never fails. For `cbsl_close`, whose
  checks at `src/file.c:91-94` do not act on a failure, the control flow and
  the result are unchanged; what a failed seek or a short write would leave in
  the file (a stale or partly rewritten header) is not modelled. For the
  store-mode `cbsl_open` it drops three checks: a short
  header write at `src/file.c:75-77` makes the C code return no context, and
  `FileLifecycle.OpenStore` cannot fail once fopen has succeeded.
- Memory allocation never fails, so the malloc checks at `src/file.c:41-42`,
  `src/file.c:57` and `src/dict.c:47-48` always pass. Freeing, leak freedom
  and destruction order are not modelled: Dafny's memory is garbage collected.
  `cbsl_close` and the cleanup path of `cbsl_open` are modelled by a
  `released` flag and a closed file. The freeing of the sample table in
  `src/dict.c` is absent for the same reason.
- `fopen(path, "rb")` of a stored path and `create_streaming_buffers`
  (`src/file.c:54`) never fail. `FileLifecycle.Open` and
  `FileLifecycle.OpenAndRead` promise success for a valid header whose
  dictionary fits the slot only under these two assumptions; a real fopen can
  be refused and a real allocation can fail.
- The context is created after fopen succeeds. The C code allocates it first,
  and on a failed fopen it closes it with no file. In store mode that
  closing path also calls cbsl_flush. Only the null result is observable, and
  it is modelled.
- The engine internals of zstd and ZDICT are not modelled.
  `ZSTD_decompressStream` is a copy engine without internal buffering.
  - Both inner loops call the engine only while the input window is
    non-empty (`src/read.c:51`, `src/read.c:109`). Output a real engine held
    back would never be retrieved once the input runs out, and the outer loop
    would spin. The copy engine holds nothing back, so `Pending()` is
    everything still to come, and the model's end-of-stream error relies on
    that.
  - Error codes and error names are reduced to a flag.
  - Dictionary references are recorded as the size the engine was given.
- `create_streaming_buffers`, `cbsl_write`, `cbsl_flush` and the macros of
  `cbsl_internal.h` are not part of this model. The buffer capacities are
  positive parameters. `MAX_DICTIONARY_SIZE` (1024) and `CBSL_VERSION` (1)
  are placeholders for values that header defines.
- The dictionary slot and the file of a live context are never null. The
  null-dictionary check of `src/dict.c:42` therefore always passes and is
  not modelled.
- Debug messages are not modelled.
- Counters are unbounded integers. `uint64_t` and `size_t` wrap-around is
  not modelled, because no counter here comes near 2^64; the header fields
  keep their 64-bit bound explicitly.
- `fopen(path, "wb")` may fail for reasons outside the model, such as
  permissions. The model lets it fail nondeterministically, so a store-mode
  open through `cbsl_open` is never promised to succeed; `OpenStore`, which
  starts after fopen, always does.
- Whether the engines and the trainer succeed is given to the model as
  flags: the context's `engineOk` and the `trainerOk` of training. Which
  streams, dictionaries and samples make zstd fail is not modelled.
- Close on an already released context is a use after free in C. It is
  excluded by the requirement that the context be valid.

## Findings

| source | as written | input that shows it | evidently intended | confidence | as-written member | corrected member |
|---|---|---|---|---|---|---|
| src/read.c:116 | the drain into `data + read` is bounded by the whole request `size` rather than by the `size - read` bytes still missing | a buffered read of `size = 4` with 2 leftover bytes already delivered, and one engine call that produces 4 bytes: the counter ends at 6, two bytes are written past the end of the caller's 4-byte buffer, and the assertion `read == size` at src/read.c:121 fails | bound the drain by `size - read`, as the buffered strategy's contract (`read == size`) requires | not executed | `StreamingRead.AsWrittenOverruns` | `StreamingRead.DrainRound` |
| src/read.c:33 | the immediate strategy's outer loop runs while the request is unmet; when the file is exhausted and nothing is staged, a pass delivers nothing and the loop never ends | `size = out_buffer_size + 1`, an empty output window, an empty input window, and no bytes left in the file | return an error, as every other short read of the library does | not executed | `StreamingRead.ImmediateRound` | `StreamingRead.StreamingReadImmediate` |
| src/read.c:91 | the buffered strategy's outer loop runs while `read < size`; when the file is exhausted and nothing is staged or buffered, a pass delivers nothing and the loop never ends | `size = 1`, empty output and input windows, and no bytes left in the file | return an error, as every other short read of the library does | not executed | `StreamingRead.BufferedRound` | `StreamingRead.StreamingReadBuffered` |
| src/file.c:64-68 | `dict_size_used` is read from the file unchecked and passed as the dictionary size when priming the decompression engine with the `MAX_DICTIONARY_SIZE`-byte slot | a file with the right version whose bytes 8..16 encode `MAX_DICTIONARY_SIZE + 1`, followed by a full slot: the open accepts it and the engine reads one byte past the slot | reject a `dict_size_used` larger than `MAX_DICTIONARY_SIZE`: the slot holds only that many bytes, and every other path keeps `dict_size_used` within it | not executed | `FileLifecycle.OversizedDictionaryAccepted` | `FileLifecycle.LoadHeader` |
