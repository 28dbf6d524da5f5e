# psrdada-rs in Dafny

A model of the core of `psrdada-rs`, the Rust bindings to the psrdada
shared-memory ring buffers used in radio astronomy. A psrdada client owns
two rings: a data ring at a key and a header ring at the key plus one.
Each ring holds `nbufs` blocks of `bufsz` bytes. A writer fills one block
at a time and marks it filled. A reader takes blocks in the order they
were filled and marks each one cleared. A block may carry end-of-data.
End-of-data is raised explicitly, or implicitly when a block is marked
filled with fewer than `bufsz` bytes. The header ring holds headers:
ASCII `KEY VALUE` lines.

The model has these parts:

- `wrappers.dfy`: `Option`/`Result`, bytes, and the crate's error enum.
- `ring.dfy`: the C ring (`ipcbuf_t`), reached through the foreign
  `ipcbuf_*` calls. It is an abstract class with a ghost FIFO `queue` of
  committed blocks, real slot arrays, a log of every foreign call, and a
  fixed `faults` set. The set decides which calls the environment makes
  fail. `Valid()` ties the cursors, the per-slot byte counts and
  end-of-data tags, and the slot contents to the queue.
- `io.dfy`: `io/mod.rs`. The `Writer`/`Reader` lock guards and the ring
  `State` codes.
- `io_write.dfy`, `io_read.dfy`: `io/write.rs` and `io/read.rs`. The
  guard-based `WriteBlock`/`ReadBlock` and their `Drop`s.
- `io_halves.dfy`: `io.rs`. `WriteHalf`/`ReadHalf` and their blocks.
- `highlevel.dfy`: `highlevel.rs`. `push`, `pop`, `push_data`, `pop_data`.
- `headers.dfy`: `headers.rs`. The nom parser, `header_to_bytes` (a loop,
  modelled as a method) and `bytes_to_header`, with the round trip.
- `header_client.dfy`: `push_header`/`pop_header` over the header ring.
- `client.dfy`: `client.rs`. Connecting, `reset`, `build` and the
  destroying `Drop`.
- `builder.dfy`: `builder.rs`. The builder, its defaults and `build` with
  every teardown path.
- `scenarios.dfy`: four of the crate's block-level tests, replayed on a fresh
  ring where no call fails.

The size getters `data_buf_size`, `header_buf_size`, `data_buf_count` and
`header_buf_count` (`src/client.rs:118-138`) are plain field reads
(`DadaClient.DataBufSize` and friends); `Build` and the scenarios state
facts about them.

## Model

| member | source | states |
|---|---|---|
| IoState.ToI32 | src/io/mod.rs:147-170 | every state has a discriminant between 0 and 9 |
| IoState.FromI32 | src/io/mod.rs:172-188 | defined exactly on 0..9 (anything else is unreachable), and it is a right inverse of `ToI32` |
| IoState.StateRoundTrip | src/io/mod.rs:172-188 | converting a state to `i32` and back gives the same state |
| IoState.ToI32Injective | src/io/mod.rs:147-170 | two states have the same code if and only if they are equal |
| Io.Writer.New | src/io/mod.rs:68-76 | Ok exactly when `ipcbuf_lock_write` succeeds, and the ring is then write-locked; otherwise `DadaLockingError`, and the half-built guard's drop issues an unlock; the calls made, and the ring consistency kept |
| Io.Writer.Lock | src/io/mod.rs:47-55 | one `ipcbuf_lock_write`; Ok if and only if it succeeds; a failure is `DadaLockingError` |
| Io.Writer.Unlock | src/io/mod.rs:58-66 | one `ipcbuf_unlock_write`; the ring stays locked only when the call fails |
| Io.Writer.Drop | src/io/mod.rs:79-83 | unlocks, ignoring failure |
| Io.Reader.New | src/io/mod.rs:115-122 | the same as `Writer.New`, for the read lock |
| Io.Reader.Lock | src/io/mod.rs:94-102 | one `ipcbuf_lock_read`; Ok if and only if it succeeds |
| Io.Reader.Unlock | src/io/mod.rs:105-113 | one `ipcbuf_unlock_read`; the ring stays locked only when the call fails |
| Io.Reader.Drop | src/io/mod.rs:125-129 | unlocks, ignoring failure |
| IoWrite.WriteBlock.constructor | src/io/write.rs:46-53 | nothing written yet, `write_all` set, no end-of-data |
| IoWrite.WriteBlock.New | src/io/write.rs:26-54 | a block exactly when `get_next_write` hands out a slot, as the ring's slot; on NULL the write lock is released and nothing else changes |
| IoWrite.WriteBlock.Block | src/io/write.rs:66-68 | the whole slot, `bufsz` bytes long |
| IoWrite.WriteBlock.IncrementFilled | src/io/write.rs:72-75 | adds `n` to the count and clears `write_all` |
| IoWrite.WriteBlock.MarkEod | src/io/write.rs:86-88 | sets the end-of-data flag |
| IoWrite.WriteBlock.Write | src/io/write.rs:119-130 | refused, changing nothing, exactly when the bytes would pass `bufsz`; otherwise copies them right after those already written, leaves the rest of the slot alone, and advances the count |
| IoWrite.WriteBlock.Drop | src/io/write.rs:91-104 | `enable_eod` if flagged, then `mark_filled` with the whole slot size under `write_all`, else the count. On success exactly the first `n` bytes of the slot are appended to the queue, tagged end-of-data when raised or when `n < bufsz`. The write lock is left alone |
| IoRead.ReadBlock.constructor | src/io/read.rs:46-51 | nothing read yet |
| IoRead.ReadBlock.New | src/io/read.rs:24-52 | `None` without touching the ring when `ipcbuf_eod` reports end-of-data; otherwise a block exactly when `get_next_read` hands one out, and it carries the oldest unread block's bytes; on NULL the read lock is released |
| IoRead.ReadBlock.Block | src/io/read.rs:58-60 | the bytes of the oldest unread block |
| IoRead.ReadBlock.Read | src/io/read.rs:85-112 | copies `min(buf.len, left)` bytes from the read position into the front of `buf`, leaves the rest of `buf` alone, and advances the position by that much |
| IoRead.ReadBlock.Drop | src/io/read.rs:63-70 | `mark_cleared`. On success the oldest block leaves the queue and its end-of-data tag becomes what the reader sees; on failure nothing changes |
| Halves.WriteHalf.Next | src/io.rs:101-129 | a block exactly when both `lock_write` and `get_next_write` succeed; lock failure changes nothing; on NULL it unlocks |
| Halves.WriteBlock.constructor | src/io.rs:122-127 | nothing written, no end-of-data |
| Halves.WriteBlock.MarkEod | src/io.rs:65-67 | sets the end-of-data flag |
| Halves.WriteBlock.Write | src/io.rs:133-151 | refused, changing nothing, exactly when the bytes would pass `bufsz`; otherwise spliced in after the bytes already written |
| Halves.WriteBlock.Drop | src/io.rs:70-95 | `enable_eod` if flagged, `mark_filled(bytes_written)`, then `unlock_write`. On success the written bytes are appended to the queue with the right end-of-data tag; on failure the queue is unchanged and the slot stays open |
| Halves.ReadHalf.constructor | src/io.rs:22-27 | a fresh half is not done |
| Halves.ReadHalf.Next | src/io.rs:208-247 | `None` when done, or when locking fails (which sets done); otherwise a block exactly when a block is available, carrying the oldest block's bytes, with the slot already cleared and done set when that block ends the data; on NULL the lock is kept |
| Halves.ReadHalf.Claim | src/io.rs:220-239 | `get_next_read`, `mark_cleared`, `ipcbuf_eod`, in that order, with their effects on the queue and on done |
| Halves.ReadBlock.constructor | src/io.rs:241-246 | nothing read |
| Halves.ReadBlock.Read | src/io.rs:179-195 | refused, changing nothing, exactly when the read would pass the block size; otherwise returns the next `buf.len` bytes of the block |
| Halves.ReadBlock.ReadBlock | src/io.rs:199-201 | the whole block |
| Halves.ReadBlock.Drop | src/io.rs:167-176 | `unlock_read`; the ring stays locked only when that fails |
| HighLevel.PushAsWritten | src/highlevel.rs:15-21 | Ok exactly when a block is available and the data fits; the exact calls made. On a block, the data (or, when it does not fit, nothing) is committed and marks end-of-data when short, whether or not the push succeeded |
| HighLevel.WriteAndDrop | src/highlevel.rs:20 | the write, then the block's drop: the data when it fits, else an empty commit |
| HighLevel.Push | src/highlevel.rs:15-21 | corrected `push`: Ok exactly when a block is available and the data fits. A failure commits nothing. Data too long for a block makes no foreign call. On Ok, the data is appended to the queue |
| HighLevel.Pop | src/highlevel.rs:27-33 | some block if and only if the half is not done and a block is available, and it is the oldest block's bytes; the calls made; the block leaves the queue and done follows its end-of-data tag |
| HighLevel.PushData | src/highlevel.rs:38-42 | the as-written `push` on the data ring: Ok exactly when a block is free and the data fits; data too long for a free block fails with `DadaWriteError` yet commits an empty block, end-of-data when short of `bufsz`; the header ring stays consistent |
| HighLevel.PopData | src/highlevel.rs:45-49 | `pop` on a fresh read half of the data ring |
| HighLevel.PushThenPop | src/highlevel.rs:73-78 | on an empty healthy data ring, `pop_data` after `push_data` returns exactly the pushed bytes and leaves the ring empty |
| HighLevel.OverflowCommitsEmptyBlock | src/highlevel.rs:15-21 | as written, pushing five bytes onto one 4-byte block fails yet commits one empty end-of-data block |
| HighLevel.OverflowRefused | src/highlevel.rs:15-21 | the corrected push of the same bytes fails and commits nothing |
| Headers.Token | src/headers.rs:60-62 | succeeds exactly when the first byte is not reserved; splits off a maximal non-empty run of non-reserved bytes |
| Headers.Pair | src/headers.rs:64-69 | a parsed pair has token key and value and consumes input |
| Headers.HeaderParser | src/headers.rs:71-76 | a parsed header has at least one pair |
| Headers.BytesToHeader | src/headers.rs:94-109 | `HeaderParseError` exactly when the parser fails; otherwise a non-empty map whose keys are exactly the parsed keys (values last-wins, by `CollectLastWins`); trailing input ignored |
| Headers.Collect | src/headers.rs:96-108 | the map's keys are exactly the keys of the pairs |
| Headers.Entries | src/headers.rs:85 | the i-th entry is the i-th key of the iteration order with its value |
| Headers.HeaderToBytes | src/headers.rs:83-92 | the loop's output is the `k SP v LF` serialisation of the entries in iteration order, and its length is the sum of `|k| + |v| + 2` |
| Headers.EncodedSizeIsLength | src/headers.rs:83-92 | the serialisation's length is the sum of `|k| + |v| + 2` |
| Headers.TokenOf | src/headers.rs:60-62 | a token followed by a reserved byte, or by nothing, is split off exactly there |
| Headers.PairOf | src/headers.rs:64-69 | key, blanks, value, optional blanks and an optional `#` comment parse as that key and value, leaving the line ending |
| Headers.CommentOf | src/headers.rs:67 | a `#` comment without line-ending bytes is skipped entirely |
| Headers.EncodeEntryPair | src/headers.rs:86-89 | one serialised entry parses back as that pair |
| Headers.MorePairsOfEncoding | src/headers.rs:73 | after the first entry, the separated list picks up every remaining serialised entry and stops before the final line feed |
| Headers.HeaderOfEncoding | src/headers.rs:71-76 | the parser returns exactly the serialised entries, with NUL padding behind them |
| Headers.CollectEntries | src/headers.rs:96-108 | collecting a map's entries in any key order rebuilds the map on those keys |
| Headers.CollectLastWins | src/headers.rs:96-108 | a repeated key takes the value of its last occurrence |
| Headers.CollectFrom | src/headers.rs:96-108 | every collected entry comes from some parsed pair |
| Headers.RoundTrip | src/headers.rs:151-158 | `bytes_to_header(header_to_bytes(h)) == h` for every non-empty well-formed header, in every iteration order |
| Headers.RoundTripPadded | src/headers.rs:112-128 | the same with any number of zero bytes after the serialisation, as in a header block |
| Headers.DecodeEncoding | src/headers.rs:94-109 | decoding a serialisation with padding collects its entries |
| Headers.ParsedPairsAreTokens | src/headers.rs:60-76 | every key and value the parser returns is a well-formed token |
| Headers.DecodedIsWellFormed | src/headers.rs:94-109 | a decoded header is well formed |
| Headers.HeaderNeedsFirstPair | src/headers.rs:71-76 | the header parses if and only if its first pair does |
| Headers.EmptyIsError | src/headers.rs:94-95 | empty input gives `HeaderParseError` |
| HeaderIo.HeaderBlock | src/headers.rs:116-118 | a block of exactly `bufsz` bytes: the serialisation, then zeros |
| HeaderIo.PushHeader | src/headers.rs:112-120 | Ok exactly when a block is available, and then the whole `bufsz`; on commit, the zero-padded serialisation is appended to the header ring; on failure nothing is committed |
| HeaderIo.PopHeader | src/headers.rs:122-129 | the parse of the oldest header block, or `HeaderEodError` when no block is handed out; the block leaves the queue |
| HeaderIo.ClientPushHeader | src/headers.rs:133-136 | `push_header` on the header ring; the data ring stays consistent |
| HeaderIo.ClientPopHeader | src/headers.rs:138-141 | `pop_header` on the header ring |
| HeaderIo.HeaderBlockRoundTrip | src/headers.rs:112-128 | a pushed header block decodes to the header |
| HeaderIo.PushThenPopHeader | src/headers.rs:228-244 | on an empty healthy header ring, `pop_header` after `push_header` returns the pushed header and leaves the ring empty |
| Client.HeaderKey | src/client.rs:90 | the header ring's key is `key + 1` wrapped to `i32`: always distinct from `key`, and exactly `key + 1` below `i32::MAX` |
| Client.HeaderClient.Reader | src/io.rs:37-42 | a fresh read half of the header ring, not done |
| Client.HeaderClient.Writer | src/io.rs:45-47 | the write half of the header ring |
| Client.DataClient.Reader | src/io.rs:22-27 | a fresh read half of the data ring, not done |
| Client.DataClient.Writer | src/io.rs:30-32 | the write half of the data ring |
| Client.FirstFault | src/client.rs:142-168 | the index of the first failing call: every earlier call succeeds and that one fails |
| Client.ResetCalls | src/client.rs:146-165 | the six calls of `reset` |
| Client.DadaClient.Split | src/client.rs:33-44 | the header client on the header ring, the data client on the data ring |
| Client.DadaClient.Connect | src/client.rs:81-97 | connects the data ring, then (only if that worked) the header ring at `key + 1`; Ok exactly when both exist and connect; else `DadaInitError` |
| Client.DadaClient.New | src/client.rs:69-77 | a non-owning client over the two connected rings, exactly when both connect |
| Client.DadaClient.Reset | src/client.rs:142-168 | the calls up to the first failure; Ok exactly when all six succeed; the error for the failing step; which rings end write-locked; which are reset |
| Client.DadaClient.LockBoth | src/client.rs:146-151 | steps 0 and 1 of `reset` |
| Client.DadaClient.ResetBoth | src/client.rs:153-158 | steps 2 and 3 of `reset` |
| Client.DadaClient.UnlockBoth | src/client.rs:160-165 | steps 4 and 5 of `reset` |
| Client.DadaClient.Drop | src/client.rs:171-193 | an owning client destroys the data ring, then the header ring, ignoring failures; a non-owning one calls nothing |
| Client.DadaClient.Build | src/client.rs:53-65 | Ok exactly when `reset` succeeds, with both rings reset and unlocked; otherwise the reset's error, after the client has been dropped, destroying both rings |
| Builder.UnwrapOr | src/builder.rs:80-85 | the set value, or the default |
| Builder.SetupCalls | src/builder.rs:114-176 | two calls per enabled stage |
| Builder.StageCalls | src/builder.rs:115-144 | the call on the data ring, then on the header ring, or none |
| Builder.DadaClientBuilder.New | src/builder.rs:26-36 | the key, nothing set |
| Builder.DadaClientBuilder.Resolve | src/builder.rs:80-85 | the defaults are 4 data blocks of `128 * page_size`, 8 header blocks of `page_size`, no lock, no page, each overridden by a set value |
| Builder.DadaClientBuilder.Build | src/builder.rs:78-183 | every path. Data create fails: `DadaInitError`. Header create fails: the data ring is destroyed, giving `DadaInitError` or `DadaDestroyError`. A lock or page fails: teardown, giving `DadaShmemLockError` or `DadaDestroyError`. Otherwise the client's reset decides. The exact call logs and the registered rings on each path; on Ok an owning, valid, reset client of the resolved sizes at `key` and `key + 1` |
| Builder.DadaClientBuilder.CreateRings | src/builder.rs:87-112 | the two creates with the data ring destroyed when the header create fails; the error for each case; fresh initial rings of the resolved sizes on success |
| Builder.DadaClientBuilder.Finish | src/builder.rs:114-182 | once both rings exist: on a lock or page failure, the calls up to it, the teardown and its error, with both rings unregistered when the teardown succeeds; otherwise the reset calls up to the first failure, Ok exactly when none fails, and on Ok a valid, reset client owning exactly the two rings |
| Builder.DadaClientBuilder.Setup | src/builder.rs:114-176 | lock (if set) then page (if set), data ring first; Ok exactly when no such call fails; otherwise the calls up to the failing one, then the teardown |
| Builder.DadaClientBuilder.Stage | src/builder.rs:115-144 | one lock or page stage: data ring, header ring, teardown at the first failure |
| Builder.DadaClientBuilder.Teardown | src/builder.rs:120-128 | destroys the data ring, then the header ring, stopping at a failure; `DadaDestroyError`, or `DadaShmemLockError` when both went |
| Builder.SettersOverride | src/builder.rs:39-72 | each setter overrides exactly its own setting of the resolved configuration |
| Builder.Defaults | src/builder.rs:76-85 | a fresh builder resolves to 4 × `128 * page_size` data and 8 × `page_size` header blocks, unlocked and unpaged |
| Ring.Host.Create | src/builder.rs:89-112 | `ipcbuf_create` succeeds exactly when the key is free, `nbufs > 0` and the environment lets it; the new ring is registered, empty, unlocked and of the given sizes |
| Ring.Host.Connect | src/client.rs:84-93 | `ipcbuf_connect` gives the ring registered at the key, or fails |
| Ring.Ring.LockWrite | src/io/mod.rs:49 | `ipcbuf_lock_write`: locks when the environment lets it |
| Ring.Ring.UnlockWrite | src/io/mod.rs:60 | `ipcbuf_unlock_write`: unlocks when the environment lets it |
| Ring.Ring.GetNextWrite | src/io/write.rs:30 | the next slot in ring order, exactly when the call is allowed, the ring is write-locked, no slot is open and the ring is not full |
| Ring.Ring.EnableEod | src/io/write.rs:97 | raises end-of-data for the next `mark_filled` |
| Ring.Ring.MarkFilled | src/io/write.rs:80 | appends the first `n` bytes of the open slot to the queue, tagged end-of-data when it was raised or `n < bufsz`; fails when `n > bufsz` or no slot is open |
| Ring.Ring.LockRead | src/io/mod.rs:96 | `ipcbuf_lock_read` |
| Ring.Ring.UnlockRead | src/io/mod.rs:107 | `ipcbuf_unlock_read` |
| Ring.Ring.GetNextRead | src/io/read.rs:35 | the oldest unread block, its slot and size, exactly when one is available |
| Ring.Ring.MarkCleared | src/io/read.rs:66 | removes the oldest block; the reader then sees its end-of-data tag |
| Ring.Ring.Eod | src/io/read.rs:26 | what the reader sees as end-of-data |
| Ring.Ring.Reset | src/client.rs:153 | on a write-locked ring, and when the call is allowed, empties the queue and clears the cursors and end-of-data flags; otherwise changes nothing |
| Ring.Ring.ShmLock | src/builder.rs:118 | `ipcbuf_lock`, succeeding when the environment lets it |
| Ring.Ring.Page | src/builder.rs:150 | `ipcbuf_page`, succeeding when the environment lets it |
| Ring.Ring.Destroy | src/client.rs:177 | `ipcbuf_destroy`: unregisters the ring when it succeeds |
| Scenarios.ReadUntilEod | src/io/read.rs:150-173 | a single end-of-data block is read once; the next `ReadBlock::new` gives nothing |
| Scenarios.ImplicitEodReadsOnce | src/io/read.rs:150-173 | three bytes in a block of four read back once, then end-of-data |
| Scenarios.ExplicitEodReadsOnce | src/io/read.rs:175-199 | a full block marked end-of-data reads back once, then nothing |
| Scenarios.ShortWriteReadsBack | src/io/read.rs:129-148 | four bytes written into a larger block read back as written, and the reader is then at end-of-data |
| Scenarios.HalvesImplicitEod | src/io.rs:411-435 | a full and a short block pushed through the halves pop back in order, then `pop` gives nothing |

## Left out

- The C library. `ipcbuf_*` is an abstract ring whose contract covers
  only what the crate relies on: FIFO blocks, implicit and explicit
  end-of-data, locks, create/connect/destroy. Shared memory, semaphores,
  multiple readers, viewers, and `ipcbuf_get_bufsz`/`get_nbufs` as calls
  (they are fields here) are not modelled.
- Failures of foreign calls come from a fixed `faults` set of
  (key, call) events. A call that would block in C (waiting for a free or
  a filled block) is modelled as failing on that set or as "no block
  now". Concurrency and the multithreaded tests (`src/io.rs:302-326`,
  `src/io/mod.rs:230-262`) are not modelled.
- `state()` (`src/io/mod.rs:25-27`) reads a C field; only the code
  conversion is modelled (`IoState`).
- `DadaClient::disconnect` (`src/client.rs:101-114`) is never called by
  the crate and is not modelled.
- Memory: the `Box` allocations and their release in `Drop`, including
  the leak in `connect` when the header ring fails to connect
  (`src/client.rs:89-93`), and the raw-pointer safety of
  `from_raw_parts` (`src/io/read.rs:36`, called before the NULL check).
- `page_size::get()` is a parameter of `Resolve` and `Build`.
- Widths: `u64`/`usize` sizes are `nat`. `key + 1` on `i32` is modelled
  as a release build's wrap-around (`Client.HeaderKey`); a debug build
  panics at `i32::MAX` instead.
- `HashMap` iteration order is a parameter (`order`) of `HeaderToBytes`.
  The round trip holds for every order.
- Strings: keys and values are bytes. The UTF-8 conversion of
  `bytes_to_header` (`src/headers.rs:100-105`) is left out. A token
  holding bytes that are not valid UTF-8 makes the source panic there.
  The model returns those bytes instead.
- HeaderIo.PushHeader: requires the serialisation to fit in a header
  block, because the copy at `src/headers.rs:118` panics otherwise.
- HighLevel.Push: a failing `mark_filled` in the block's drop is ignored
  by the source, so `push` can return Ok without committing; the
  contract states which happens, as the source does.
- In the source the header grammar of the module documentation
  (`src/headers.rs:21-34`) allows leading blank lines, and its token class
  allows spaces. The parser code requires a leading pair and excludes
  the space from tokens. The model follows the code
  (`Headers.HeaderNeedsFirstPair`, `Headers.IsReserved`).
- `io.bak.rs`, `iter.rs`, `dada_iter.rs`, the logging, the examples, the
  benchmarks and the trait plumbing (`private::Token`) are not part of
  this model. `next_write_block` is modelled as `WriteHalf::next`.
- `HeaderParseError` and `HeaderEodError` are used by `headers.rs` but
  are not variants in `src/errors.rs`; the model adds them to the error
  type.
- The tests that drive four or more blocks
  (`src/io.rs:346-381`, `src/io/mod.rs:200-228`) are not replayed;
  `Scenarios.HalvesImplicitEod` replays two blocks and the FIFO contract
  of `Ring` covers any number.
- The setters of `DadaClientBuilder` carry no contract of their own;
  `Builder.SettersOverride` states what each does.
- The Rust `std::io::Write`/`Read` retry loops (`write_all`,
  `read_exact`, `read_to_end`) are library code, not part of this model.

## Findings

| source | as written | input that shows it | evidently intended | confidence | as-written member | corrected member |
|---|---|---|---|---|---|---|
| src/highlevel.rs:15-21 | `push` takes a block before checking the length; when `write` refuses the data, the block's drop (`src/io.rs:70-95`) still calls `mark_filled(0)`, committing an empty block that also raises end-of-data | a ring of one 4-byte block, pushing 5 bytes: `Err(DadaWriteError)`, yet the reader then sees one empty end-of-data block | a failed push commits nothing | medium, not executed | HighLevel.PushAsWritten, HighLevel.PushData, HighLevel.OverflowCommitsEmptyBlock | HighLevel.Push, HighLevel.OverflowRefused |
