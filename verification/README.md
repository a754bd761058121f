# A verified model of teldrive's streaming stack

Teldrive stores files as encrypted, multi-part documents on Telegram and serves byte ranges of them. This project models
how a range "bytes start..end of this file" becomes aligned chunk requests, how the replies are decrypted and
delivered, and proves that what the caller receives is exactly that range. Around this core it models the parallel
block hasher, the client pool with its circuit breakers, the coalescing cache, path resolution and keyset paging.

`dafny verify dfyconfig.toml` checks everything.

## How the model is built

| layer | files |
|---|---|
| bytes, arithmetic | `Bytes.dfy`, `Arith.dfy` |
| encrypted format | `Nonce.dfy`, `Layout.dfy`, `Format.dfy` |
| cipher streams | `Chunks.dfy` (what uneven blocks do to a file), `Cipher.dfy` (encrypter), `Decrypter.dfy`, `RoundTrip.dfy`, `Upstream.dfy` (the `io.Reader` and open callback they see) |
| chunk requests | `ChunkPlan.dfy`, `Pipe.dfy` (the fill goroutine), `TgReader.dfy` (the reading side) |
| file reader | `Reader.dfy`, with the end-to-end theorems `StreamRange` and `StreamEncryptedRange` |
| block hasher | `HashNet.dfy` (workers and channels), `Hasher.dfy` |
| client pool | `Breaker.dfy`, `ClientPool.dfy` |
| cache, paths, listing | `Cache.dfy`, `CacheHistory.dfy` (what callers get, told by the run alone), `Paths.dfy`, `Paging.dfy` |

Conventions:

- Objects with changing fields are classes. Goroutines are state machines over labelled events; a run is any sequence
  of enabled events. A class that runs beside goroutines lets them take any number of steps, chosen by havoc, before it
  touches a channel. A blocking wait is a loop that lets some goroutine step; that the loop terminates is the proof
  that the wait cannot deadlock, because an enabled step must exist and every step decreases a measure.
- `secretbox` is a pair of functions (`Format.Box`) with three laws: the tag costs 16 bytes, opening inverts sealing,
  and only sealed boxes open. Where connections can break, a fourth assumption says that a block cut short does not
  authenticate. `LawsAreConsistent` exhibits a box that meets all four. One result (`ContentsSurvive`) names a fifth:
  ciphertext that is not one whole seal in its place does not authenticate (`OnlyWholeSeals`, met by the box of
  `OnlyWholeSealsIsConsistent`). BLAKE3 is an arbitrary function.
- Sources deliver short reads and may report the end with the last bytes or after them. A `faulty` environment may
  also fail or cancel at any moment; results for it promise a prefix.
- `Read(p)` is modelled by the number of bytes asked for and the bytes returned.
- A transport failure, a cancelled context and an abandoned stream are one error, `Transport`.
- Numbers are unbounded; `SizesFitInt64` gives the bound below which the size computations fit 64 bits, and seeks ask
  for an offset that is a signed 64-bit number.

Preconditions that come from the code: a concurrency of at least one (with zero the fill loop makes no progress); all
parts but the last have the size of part 0, and the last is no larger (the ranges are computed from part 0 alone); a
range opened on a Telegram part is inside it or empty, and an empty one does not end before its start in the same KiB
(there the fill goroutine slices from the far cut to the near one and panics, see `EmptyPlan`); `Write` is not called
after `Sum` (the job channel is closed by then).

## What turned out false, and exactly when it holds

- "Encrypting a source gives a file that decrypts to it": the encrypter drops an error that comes after some bytes of a
  block and seals a short block. For every source and every run (`EncryptSource`) the file is the header and the seals
  of the chunks read. It decrypts to as many bytes as were read if and only if these fill all but the last of the
  sealed blocks (`LengthSurvives`), from the cipher's laws alone; it decrypts to the plaintext if and only if every
  chunk but the last was full, or the length survives and everything from the first short chunk's block on is zeros
  (`ContentsSurvive`). Counterexample: any plaintext below a block whose source fails once inside it
  (`DroppedErrorBreaksFile`).
- "No load starts while a live value is stored" holds in every reachable state if and only if there is no stale copy,
  so for `Fetch` and, whatever its lifetimes, never for `FetchWithStale` (`NeverLoadsLiveExactly`, counterexample
  `RefreshCanRaceLoad`). When it fails, a background refresh stored the main copy after that load's second look
  (`LoadWhileLiveNeedsRace`).
- "A negative limit reads to the end": the reader's open callback takes a negative limit to mean "up to byte 0", so on a
  Telegram part a decrypter never opens with one (`NewDecrypterSeek`) and a seek with one reports the end of the file
  (`RangeSeek`); on sources that heed it both read to the end.
- Resolving a printed path finds the file again if and only if the first component below the root does not begin with
  "root"; otherwise it finds what has the path without its first component, if anything, never the file
  (`ResolvePrintRoundTrip`, counterexample `RootLikeNameIsLost`).
- A keyset page equals the offset page if and only if no run of equal keys crosses the page's first boundary
  (`KeysetIsOffset`), and all pages together list every row once and in order if and only if that holds for every page
  (`PagesListEverything`, counterexample `TiesAreLost`).
- A cached value expires at all if and only if its lifetime is at least one second (`LifetimeBounds`).

## Model

| member | source | states |
|---|---|---|
| `Nonce.Carry` | internal/crypt/cipher.go:128-138 | rippling a carry in place from digit i adds one to the number above it, wrapping at the top, and leaves the digits below alone |
| `Nonce.Increment` | internal/crypt/cipher.go:140-142 | one step of the little-endian counter |
| `Nonce.Add` | internal/crypt/cipher.go:144-157 | the eight-digit loop plus carry lands exactly x steps on, for every 64-bit x |
| `Nonce.JumpIsRepeatedStep` | internal/crypt/cipher.go:140-157 | adding x equals x increments |
| `Nonce.AtIsModularAddition` | internal/crypt/cipher.go:128-157 | both are addition modulo 256^24 = 2^192 on the little-endian value |
| `Nonce.AtAdd` | internal/crypt/cipher.go:433-434 | a seek to block k uses the nonce the encrypter reached by stepping |
| `Nonce.NoncesDistinct` | internal/crypt/cipher.go:213-213 | block nonces of one file never repeat below 2^192 blocks |
| `Nonce.CarryStops` | internal/crypt/cipher.go:128-138 | one step clears the leading 255s of the little-endian digits and raises the next one |
| `Nonce.Load` | internal/crypt/cipher.go:119-126 | copying a nonce from a buffer; a buffer too short overwrites the front and is reported |
| `Layout.SizeRoundTrip` | internal/crypt/cipher.go:530-554 | `DecryptedSize` inverts `EncryptedSize` for every plaintext size |
| `Layout.SizeRejectsExactly` | internal/crypt/cipher.go:539-554 | a length is accepted if and only if some plaintext has it, and then its size re-encrypts to that length; below 34 it is too short, else a bad header |
| `Layout.SizesFitInt64` | internal/crypt/cipher.go:530-554 | no intermediate value overflows 64 bits when the result does not |
| `Layout.WindowEnds` | internal/crypt/cipher.go:386-412 | the window starts at the block of the offset, spans whole blocks and reaches far enough |
| `Layout.WindowIsExact` | internal/crypt/cipher.go:386-412 | a block is in the window if and only if it meets [offset, offset+limit) |
| `Format.EncryptedLength` | internal/crypt/cipher.go:530-537 | an encrypted file has `EncryptedSize` bytes |
| `Format.SealedPiece` | internal/crypt/cipher.go:202-214 | block k of the ciphertext is block k of the plaintext sealed under the k-th nonce |
| `Format.OnDisk` | internal/crypt/cipher.go:171-217 | the file byte by byte: magic, nonce, and the seal of every 65536 bytes of plaintext at its offset |
| `Format.OpenedSealed` | internal/crypt/cipher.go:342-354 | decrypting an encrypted body block by block gives the plaintext |
| `Format.OpenedPiece` | internal/crypt/cipher.go:327-356 | block k of the plaintext view is what block k of any body opens to |
| `Format.CorruptionStaysInBlock` | internal/crypt/cipher.go:342-351 | blocks that fail authentication read as zeros; length and all other bytes are unchanged |
| `Upstream.ReadFill` | internal/crypt/cipher.go:49-56 | fills the buffer from short reads; what it returns is the front of the stream, complete unless the stream ended or failed |
| `Upstream.Opener.Open` | internal/reader/reader.go:161-170 | opening a range yields exactly its bytes; with a negative limit a Telegram part yields its first byte at offset 0 and nothing elsewhere |
| `Cipher.Encrypter.constructor` | internal/crypt/cipher.go:171-193 | a new encrypter has the whole encryption, header first, ahead of it |
| `Cipher.Encrypter.SealNext` | internal/crypt/cipher.go:202-213 | for every source: the chunk read is sealed under the next nonce, and header, seals and plaintext consumed stay in step |
| `Cipher.Encrypter.Refill` | internal/crypt/cipher.go:202-214 | sealing the next block does not change what is still to come |
| `Cipher.Encrypter.Deliver` | internal/crypt/cipher.go:215-217 | copies the next bytes of the buffer; what is handed out and what is pending move by them |
| `Cipher.Encrypter.Read` | internal/crypt/cipher.go:195-230 | for every source what is handed out is the header and the seals of the chunks read; an error is sticky and comes only when all of that is out, the end only when the source is used up, a failure only from a faulty source; a source that does not fail gives the ciphertext in order and in full however short its reads |
| `Cipher.SealedSplit` | internal/crypt/cipher.go:195-218 | the blocks sealed and the blocks to come are the whole body |
| `Chunks.LengthSurvives` | internal/crypt/cipher.go:205-213 | a file sealed in uneven blocks decrypts to as many bytes as went in if and only if they fill all but the last of its blocks |
| `Chunks.DroppedErrorBreaksFile` | internal/crypt/cipher.go:205-213 | a plaintext below one block whose source fails once inside it does not come back, not even in length |
| `Chunks.SealStart` | internal/crypt/cipher.go:210-213 | seals stand where the decrypter looks for them up to the first short chunk and nowhere after it |
| `Chunks.ZerosAfterShort` | internal/crypt/cipher.go:342-354 | such a file reads as its plaintext up to the block of the first short chunk and as zeros from there on |
| `Chunks.FullChunksDecrypt` | internal/crypt/cipher.go:205-213 | source errors between full blocks do no harm |
| `Chunks.ContentsSurvive` | internal/crypt/cipher.go:205-213 | it decrypts to the plaintext if and only if all chunks but the last are full, or the length survives and all from the first short chunk on is zeros |
| `Decrypter.Decrypter.ReadHeader` | internal/crypt/cipher.go:265-282 | reads nonce and body; too short, bad magic and transport errors each exactly when they apply to the stream |
| `Decrypter.NewDecrypter` | internal/crypt/cipher.go:256-284 | the decrypter stands at block 0 of the file with its first nonce |
| `Decrypter.Decrypter.ReadBlock` | internal/crypt/cipher.go:327-351 | the next block opens to its plaintext or to zeros; end of file, bad header and success exactly when nothing, a fragment or more is left of the window; a transport failure is reported, never turned into zeros |
| `Decrypter.TailSeen` | internal/crypt/cipher.go:327-340 | reading through the whole body never passes over a fragment at its end |
| `Decrypter.Decrypter.FillBuffer` | internal/crypt/cipher.go:327-356 | buffer, nonce and upstream move together to the next block |
| `Decrypter.Decrypter.Refill` | internal/crypt/cipher.go:365-370 | refilling keeps the position; end of file only when the limit allows nothing more |
| `Decrypter.Decrypter.Deliver` | internal/crypt/cipher.go:371-383 | copies the next bytes up to the limit and reports the end as soon as the limit is used up |
| `Decrypter.Decrypter.Read` | internal/crypt/cipher.go:358-384 | delivers the pending plaintext in order; errors sticky; nothing delivered with a failure |
| `Decrypter.OpenWindow` | internal/crypt/cipher.go:431-436 | the ciphertext opened for a range is the body from the block of the offset on, far enough for the limit |
| `Decrypter.StreamWindow` | internal/crypt/cipher.go:431-436 | what a source opens for a seek is that window, and no window at all if it does not heed the limit |
| `Decrypter.Decrypter.SeekTo` | internal/crypt/cipher.go:431-455 | the seek proper: positions, reads and skips, with the outcome for every offset |
| `Decrypter.Decrypter.Reposition` | internal/crypt/cipher.go:433-441 | nonce and upstream stand at the block of the offset |
| `Decrypter.Decrypter.SeekInBlock` | internal/crypt/cipher.go:443-455 | skips inside the block; which error comes when the offset is past the end |
| `Decrypter.Decrypter.RangeSeek` | internal/crypt/cipher.go:414-456 | from any state that ended normally or at the end of file, the next reads deliver P[o..min(o+l,n)], or P[o..] for a negative limit the source heeds; every error, and the one kept from before, exactly when it applies |
| `Decrypter.Decrypter.Finish` | internal/crypt/cipher.go:466-476 | the first error stays |
| `Decrypter.DecryptData` | internal/crypt/cipher.go:514-520 | the outcome for every file: the whole plaintext pending if the header is sound, too short or bad magic otherwise |
| `Decrypter.NewDecrypterSeek` | internal/crypt/cipher.go:286-325 | opening at an offset with a limit has exactly that slice of the plaintext pending; a negative limit the source does not heed fails as too short at offset 0 and as end of file elsewhere |
| `Decrypter.PlainOfEncrypt` | internal/crypt/cipher.go:195-384 | an encrypted file has a sound header and reads as its plaintext |
| `RoundTrip.ReadToEnd` | internal/crypt/cipher.go:358-384 | reading with any buffer sizes until the end yields all that was pending; the end is an end of file unless the body has a short tail or a faulty transport failed |
| `RoundTrip.Drain` | internal/crypt/cipher.go:195-218 | draining the encrypter with any buffer sizes ends, and yields the header and all seals of what was read; the whole ciphertext if the source does not fail |
| `RoundTrip.EncryptSource` | internal/crypt/cipher.go:171-230 | for every source, failing at any point: the file produced, which prefix of the source it holds, and exactly when it decrypts to the length and to the contents of the source |
| `RoundTrip.DecryptFile` | internal/crypt/cipher.go:256-384 | decrypting any file through any buffer sizes gives its plaintext and ends in a bad header if and only if a fragment follows it, or gives the header error that applies |
| `RoundTrip.EncryptThenDecrypt` | internal/crypt/cipher.go:195-384 | encrypt and decrypt through arbitrary short reads: the plaintext comes back and ends in an end of file, and the ciphertext has `EncryptedSize` bytes |
| `RoundTrip.SeekAfterHistory` | internal/crypt/cipher.go:414-487 | seeking is history-independent, on any source: after any reads and seeks the state is sound or stuck with an error, sound if nothing failed and every seek landed, and from a sound one a seek and reads give the slice asked for, a prefix only if the transport fails |
| `ChunkPlan.CalculateChunkSize` | internal/tgc/helpers.go:285-292 | the largest power of two from 1 KiB to 1 MiB not above end-start, with a floor of 1 KiB |
| `ChunkPlan.MakePlanValid` | internal/reader/tg_reader.go:217-232 | the fields computed for a stream fit together; the number of requests is end/size - start/size + 1 |
| `ChunkPlan.PiecesTile` | internal/reader/tg_reader.go:303-325 | the pieces the requests contribute are non-empty and tile the range |
| `ChunkPlan.RequestsAligned` | internal/reader/tg_reader.go:217-232 | every request is aligned to its size and never crosses a 1 MiB boundary |
| `ChunkPlan.FewRequests` | internal/tgc/helpers.go:285-292 | a range with end-start below 1 MiB needs at most three requests |
| `ChunkPlan.EmptyPlan` | internal/reader/tg_reader.go:217-232 | for an empty range at most one request is planned, and its cuts cross exactly when the range ends before its start in the same KiB |
| `Pipe.PiecesServed` | internal/reader/tg_reader.go:306-325 | cutting each aligned reply leaves exactly its piece of the range, without slicing out of bounds |
| `Pipe.FlatPieces` | internal/reader/tg_reader.go:217-232 | the pieces concatenate to the range |
| `Pipe.FetchNeverPanics` | internal/reader/tg_reader.go:306-325 | in every reachable state a fetch slices within its reply and brings its slot's piece |
| `Pipe.StepInv` | internal/reader/tg_reader.go:255-363 | every step (start, fetch done, fetch failed, settle, send, abort, end, close, cancel, begin and end of a wait, receive) keeps channel and batch holding consecutive pieces in order |
| `Pipe.StepDescends` | internal/reader/tg_reader.go:288-297 | every step of the fill goroutine decreases parts left, phase and work, so the fill loop terminates |
| `Pipe.NeverStuck` | internal/reader/tg_reader.go:260-270 | while a reader waits on an empty open channel the goroutine can move |
| `Pipe.EveryRunDeliversPrefix` | internal/reader/tg_reader.go:255-363 | for every capacity, completion order, failure, cancellation and interleaving with a reader that waits or not, the buffers received are a prefix of the range, and all of it when the stream stopped uncancelled and was emptied |
| `Pipe.EveryRunCanComplete` | internal/reader/tg_reader.go:255-363 | every run in which nothing has failed, unbuffered channels included, can go on to deliver the whole range |
| `TgReader.FetchChunkWithRetry` | internal/reader/tg_reader.go:365-411 | a chunk arrives if and only if one of three attempts brings it after transient failures whose pauses were waited out; never a fourth attempt; giving up exactly on a fatal error, a back-off that stops, a cancellation or the third failure |
| `TgReader.OpenEnv` | internal/reader/tg_reader.go:209-241 | the request size is the one `CalculateChunkSize` picks and the plan covers the range |
| `TgReader.AwaitChannel` | internal/reader/tg_reader.go:260-270 | the blocking receive always ends |
| `TgReader.TakeBuffer` | internal/reader/tg_reader.go:261-269 | the receive gets the next piece, or nothing when the stream was cancelled or is over |
| `TgReader.TgMultiReader.constructor` | internal/reader/tg_reader.go:209-241 | a new stream has source[start..end] ahead of it |
| `TgReader.TgMultiReader.Read` | internal/reader/tg_reader.go:255-286 | delivers the next bytes of the range under any schedule, the end together with the last bytes, a failure with nothing |
| `TgReader.TgMultiReader.Deliver` | internal/reader/tg_reader.go:272-285 | the cursor moves over exactly what was copied |
| `Reader.CalculatePartByteRanges` | internal/reader/reader.go:39-54 | one range per part met, with the loop's max/min formula |
| `Reader.RangeInPart` | internal/reader/reader.go:39-54 | each range lies in its part, and read there it is the piece of the file range that falls in that part |
| `Reader.RangesFetchPieces` | internal/reader/reader.go:39-54 | together the ranges fetch the file range |
| `Reader.SizeIsLength` | pkg/services/common.go:67-74 | the size a part is split by, `DecryptedSize` of what is stored, is the length of its plaintext |
| `Reader.Inner.Read` | internal/reader/reader.go:96-97 | plain and decrypting part streams obey one contract and report the end with their last bytes |
| `Reader.GetPartReader` | internal/reader/reader.go:137-177 | the stream of a part delivers exactly its range, plain or decrypted |
| `Reader.FileReader.MoveToNextPart` | internal/reader/reader.go:128-135 | changing parts does not change what is left of the range |
| `Reader.FileReader.Read` | internal/reader/reader.go:91-107 | the range continues across parts without gap; the end is reported only when all has been delivered |
| `Reader.NewReader` | internal/reader/reader.go:56-89 | a new reader has file[start..end] ahead of it |
| `Reader.StreamRange` | internal/reader/reader.go:39-177 | for every buffer size, completion order and interleaving the bytes before the end are exactly file[start..end]; after a failure a prefix |
| `Reader.EncryptedFile` | internal/reader/reader.go:157-172 | parts encrypted one by one stand for the concatenation of their plaintexts |
| `Reader.StreamEncryptedRange` | internal/reader/reader.go:39-177 | end to end: encrypt parts, store them, read any range back unchanged; a prefix if a connection breaks |
| `HashNet.StepConserves` | internal/hash/hash.go:75-86 | no worker step loses or duplicates a block |
| `HashNet.StepFaithful` | internal/hash/hash.go:75-91 | every job carries its block and every result its block's hash; workers leave and the result channel closes only when nothing is left |
| `HashNet.StepDescends` | internal/hash/hash.go:75-91 | every worker step uses up work |
| `HashNet.NeverStuck` | internal/hash/hash.go:62-92 | with work left and room for a result some worker can move |
| `Hasher.AwaitRoom` | internal/hash/hash.go:94-102 | with at most 3W blocks in flight the send on the job channel always goes through |
| `Hasher.AwaitResult` | internal/hash/hash.go:178-184 | while blocks are in flight a result comes; the channel is never seen closed |
| `Hasher.BlockHasher.DispatchBlock` | internal/hash/hash.go:94-102 | the block joins those in flight; every dispatched block is in exactly one place |
| `Hasher.BlockHasher.ProcessResult` | internal/hash/hash.go:104-116 | a result is kept, and every digest due is committed in order |
| `Hasher.BlockHasher.CommitDue` | internal/hash/hash.go:107-115 | commits digests in index order until the next one due is missing, losing none |
| `Hasher.BlockHasher.DrainResultsNonBlocking` | internal/hash/hash.go:118-130 | afterwards at most 3W blocks are in flight |
| `Hasher.BlockHasher.Write` | internal/hash/hash.go:149-167 | appends the input whatever the cut, and always returns |
| `Hasher.BlockHasher.CloseJobs` | internal/hash/hash.go:132-177 | the partial last block is dispatched and the channel closed |
| `Hasher.BlockHasher.Sum` | internal/hash/hash.go:170-192 | for every schedule the sum holds the digest of each block of everything written, in order, and nothing else |
| `Hasher.HashAll` | internal/hash/hash.go:149-192 | for every worker count, schedule and cut of the input into writes the sum is D bytes per block of the concatenated input, each the hash of its block |
| `Hasher.ChopFull` | internal/hash/hash.go:149-174 | full blocks and a remainder are what chopping the input gives |
| `Hasher.SerialSumHashesBlocks` | internal/hash/hash.go:75-86 | the serial hash has one digest per block of the data, piece k of it the hash of block k |
| `Hasher.BlockDigest` | internal/hash/hash.go:149-192 | with the offsets written out: bytes k*D to (k+1)*D of the sum are the hash of bytes k*B to min((k+1)*B, n) of the input |
| `Hasher.SumIsUnique` | internal/hash/hash.go:170-192 | a string with the right digest for every block is the sum |
| `Hasher.TreeInputIndependentOfParts` | pkg/services/file.go:308-323 | per-part block hashes concatenated in order are the block hashes of the whole file, if all parts but the last are whole blocks |
| `Hasher.TreeHash` | pkg/services/file.go:308-329 | the tree hash stored for an upload is the hash of the digests of the blocks of the whole file, absent only for an empty one; without an upload only a file of size 0 gets one, of empty data |
| `Breaker.TripsAreEarned` | internal/tgc/client_pool.go:126-201 | over every run trips*threshold + consecutive <= failures, and consecutive < threshold |
| `Breaker.TalliesAreExact` | internal/tgc/client_pool.go:126-201 | failures, successes and skips reported are exactly the uncancelled failures, the successes and the refused checks of the run |
| `Breaker.TrippedHoldsOff` | internal/tgc/client_pool.go:126-201 | after a trip at t no check before t+cooldown succeeds, whatever arrives; without further failures every later one does |
| `Breaker.TripsExactly` | internal/tgc/client_pool.go:148-201 | from rest the circuit trips if and only if some stretch of the run without a success holds a threshold's worth of uncancelled failures; until then it stays closed, and a success clears the count |
| `Breaker.FirstTrip` | internal/tgc/client_pool.go:176-201 | the failure that completes such a stretch opens it until that failure's time plus the cooldown |
| `Breaker.OpenCountsFailures` | internal/tgc/client_pool.go:148-201 | while the cooldown runs successes do not count: it trips again exactly at a threshold's worth of failures since the last trip |
| `Breaker.CooledDownRests` | internal/tgc/client_pool.go:126-174 | the first check or success after the cooldown closes it with nothing counted |
| `ClientPool.TotalSet` | internal/tgc/client_pool.go:259-277 | changing one slot changes the sum of connections by the change of that slot |
| `ClientPool.ClientPool.Acquire` | internal/tgc/client_pool.go:259-267 | counts one get on the slot and in the total |
| `ClientPool.ClientPool.Release` | internal/tgc/client_pool.go:269-277 | counts one release on a slot that exists; a holder's release keeps counts non-negative |
| `ClientPool.ClientPool.GetUserClient` | internal/tgc/client_pool.go:280-328 | handed out if and only if it was ready or its creation succeeds, as one more get for its key |
| `ClientPool.ClientPool.SelectClient` | internal/tgc/client_pool.go:230-257 | the first client with fewest connections, or the next in turn |
| `ClientPool.RemoveBotCandidate` | internal/tgc/client_pool.go:421-430 | exactly the other keys remain, in their order |
| `ClientPool.ExceptAppend` | internal/tgc/client_pool.go:421-430 | leaving keys out respects concatenation, so what remains keeps its order |
| `ClientPool.ClientPool.IsBotClientAvailable` | internal/tgc/client_pool.go:126-146 | available if and only if the circuit is not open, and the circuit's new state |
| `ClientPool.ClientPool.RecordBotSuccess` | internal/tgc/client_pool.go:148-174 | a success puts a circuit that is not open at rest; an open one keeps its cooldown and its count |
| `ClientPool.ClientPool.RecordBotFailure` | internal/tgc/client_pool.go:176-201 | the circuit after a failure; cancellations do not count |
| `ClientPool.ClientPool.Available` | internal/tgc/client_pool.go:351-357 | the bots whose circuit is not open, in their order |
| `ClientPool.ClientPool.TryOne` | internal/tgc/client_pool.go:372-412 | handed out if and only if it is ready or its creation succeeds; a failed creation is recorded on its circuit unless cancelled |
| `ClientPool.ClientPool.TryCandidates` | internal/tgc/client_pool.go:365-418 | each candidate tried, and the one handed out, is the first with fewest connections, or the next in turn, among those not yet tried; exactly the counters consulted move on; refusal only when all failed |
| `ClientPool.ClientPool.GetBotClient` | internal/tgc/client_pool.go:332-419 | each pick is what the routing asks for among the bots not open at entry and not yet tried; a client is handed out if and only if one of those is ready or can be created; exactly the failed, uncancelled attempts count against their bots |
| `ClientPool.ClientPool.Sweep` | internal/tgc/client_pool.go:596-610 | removes exactly the slots without connections idle for longer than the timeout, with their circuits; never one with a holder |
| `ClientPool.ServeCalls` | internal/tgc/client_pool.go:259-419 | over any run of calls each slot counts the clients held under its key, the total is their number and the sum of the slots, nothing negative, no held slot removed |
| `ClientPool.ServeInTurn` | internal/tgc/client_pool.go:235-242 | over any number of calls with all bots ready and closed, round robin hands them out strictly in turn |
| `Cache.LifetimeBounds` | internal/cache/cache.go:62-69 | a value expires if and only if its lifetime is at least a second, and is then served exactly for its whole seconds |
| `Cache.StepInv` | internal/cache/cache.go:151-301 | what every interleaved step of callers, load, refresh and clock keeps: at most one load, its waiters, the ages of what is handed out; the values are the subject of `CacheHistory` |
| `Cache.NoLoadWhileLive` | internal/cache/cache.go:151-184 | under any interleaving of `Fetch` callers and cancellations no load starts while a stored value is live |
| `Cache.CallersShareOneLoad` | internal/cache/cache.go:151-184 | any number of `Fetch` callers, arriving and cancelling in any order, cause one load, unless time passes, the value is deleted or the load fails |
| `Cache.LoadWhileLiveNeedsRace` | internal/cache/cache.go:186-269 | a load can start while a value is live only with a stale copy and a refresh that stored the main copy at a position of the run after that load's second look |
| `Cache.RefreshCanRaceLoad` | internal/cache/cache.go:186-269 | with a stale copy, whatever the lifetimes, such a state is reached |
| `Cache.NeverLoadsLiveExactly` | internal/cache/cache.go:151-269 | no reachable state starts a load while a value is live, if and only if there is no stale copy |
| `Cache.WaitersShare` | internal/cache/cache.go:156-179 | callers of one load get the same outcome; nobody waits for a load that is gone |
| `Cache.WaitersAreServed` | internal/cache/cache.go:294-301 | a load can always move towards delivery, and delivery answers every remaining waiter |
| `Cache.RefreshEnds` | internal/cache/cache.go:243-269 | a background refresh always ends, whatever its load returns, and no second one begins meanwhile |
| `Cache.NothingTooOld` | internal/cache/cache.go:186-241 | with lifetimes of at least a second nobody is handed a value stored longer ago than the larger lifetime when it was read |
| `CacheHistory.LooksAreExact` | internal/cache/cache.go:151-269 | after any run each look at the store (a caller's two, the load's second one, the refresh's) finds exactly the copy stored last, with its age, while its lifetime lasts, and only a miss leads on |
| `CacheHistory.EveryAnswerIsExplained` | internal/cache/cache.go:151-241 | over every run each caller was handed the value stored last before its look, or what the load it joined returned, its failure, or the copy that load's second look found |
| `CacheHistory.ValuesComeFromLoads` | internal/cache/cache.go:151-269 | every value handed out is the result of a load or a refresh of the run |
| `Paths.SplitJoin` | pkg/services/common.go:92-95 | splitting a joined path gives its components |
| `Paths.PathForm` | pkg/services/common.go:87-95 | every path is slashes, components and slashes, or slashes alone |
| `Paths.Tree.LevelHasPath` | pkg/services/common.go:99-112 | whatever the recursive query reaches has exactly the path asked for |
| `Paths.Tree.LevelOfOwnPath` | pkg/services/common.go:99-112 | the query for a file's own path reaches that file alone |
| `Paths.Tree.PrintedPath` | pkg/services/file.go:446-462 | the printed path is empty for the root and else the components below it |
| `Paths.Tree.ResolvesExactly` | pkg/services/common.go:86-121 | what any path resolves to, by its leading slashes and components: trailing slashes do not matter, empty components find nothing, slashes alone find the root |
| `Paths.Tree.ResolvePrintRoundTrip` | pkg/services/common.go:86-121 | resolving a printed path gives the file back if and only if its first component does not begin with "root"; else exactly the file, if any, whose path is the rest, never this one |
| `Paths.RootLikeNameIsLost` | pkg/services/common.go:87-89 | a file for which it does not |
| `Paging.KeysetIsOffset` | pkg/services/file_query_builder.go:240-252 | with keys ascending for "asc" and descending otherwise, a keyset page is rows (p-1)*l to p*l if and only if no equal keys cross its first boundary |
| `Paging.QuerySortsAsAsked` | pkg/services/file_query_builder.go:271-280 | the query sorts ascending for "asc", and descending for "desc" and anything else |
| `Paging.PagesListEverything` | pkg/services/file_query_builder.go:60-71 | pages 1 to TotalPages list every row once in order if and only if no equal keys cross any page boundary; then none of them is empty |
| `Paging.DistinctKeysListEverything` | pkg/services/file_query_builder.go:60-71 | with distinct keys they do |
| `Paging.TiesAreLost` | pkg/services/file_query_builder.go:249-250 | with equal keys a row can be on no page |

## Left out

- Telegram RPC, Redis, Postgres, HTTP, login and configuration: plumbing around libraries that are not part of this model.
- Buffer pooling and the reuse of block buffers in place: buffers are sequences that are replaced, so stale bytes behind the filled part, which the code never reads, are not represented.
- Closing streams and reading after closing; the unread extra stream opened for an encrypted part; timers and back-off durations.
- NewDecrypterSeek: offsets for which the fill goroutine of an empty range would panic are excluded; the reader never asks for one.
- Nonces from a random source: the initial nonce is a parameter.
- GetBotClient: calls are whole steps; waiting for another goroutine that creates the same client, and the moment when a client is marked ready before its API handle is set, are below this grain.
- Sweep: the check and the delete of one slot are one step.
- Bot keys are pairs of user and token instead of formatted strings.
- StepInv: freecache and singleflight by contract only; direct writes to the key by other code, type mismatches and store errors are not modelled.
- NothingTooOld: the age is taken when the value is read from the store; a goroutine may be suspended between reading and returning.
- The name search, filters and date parsing of listings: a filtered, sorted list is the starting point of the paging model, and sort keys are integers without NULL.
- Moving and deleting folders: cycle freedom is not enforced by the code, so the tree is taken as acyclic.
- HTTP range parsing: ranges are taken as 0 <= start <= end < size.
- The retry middleware, category, duration and event packages: they would only add easy members.
