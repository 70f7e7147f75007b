# rdiff in Dafny

A model of the core of rdiff, a Go tool that keeps file signatures and
rewrites files from deltas. A signature records a file's size, path and
times. It also holds the file's chunks: the bytes of each 8192-byte read,
with a rolling hash, an offset and a length. The model covers these parts:

- the rolling hash and its attempted inverse (internal/pkg/rolling);
- the chunker (internal/pkg/chunks) and the two signature constructors
  (internal/pkg/signature and internal/shared/models);
- the chunk-by-chunk comparison that gives a delta (internal/pkg/diff);
- the in-memory store (internal/store/memory);
- `Changes` (internal/pkg/apply), which writes a delta into the original
  file, regenerates the signature and records it;
- `Handle` (internal/logic), which chooses between saving a new
  signature and diffing and applying against the stored one;
- the older root package: `GenerateSignature`, `MemoryStorage` and
  `Apply`.

The model uses Dafny's own form for each kind of code:

- Go loops are `method`s with loop invariants. Each is proved equal to a
  pure specification function, and lemmas state the properties of that
  function.
- The stores and the file handle are `class`es. Their methods update
  fields and name them in `modifies` clauses.
- The chunk buffer is an `array`.

Both signature constructors, and so `Changes` and `Handle`, use the
chunker as written. A corrected chunker (`Chunks.GenerateCorrected`) and
a signature generator over it (`SignaturePkg.GenerateFixed`) stand beside
them as the corrected halves of the Findings.

A reader is modelled as the sequence of `(bytes, error)` results that its
`Read` calls return. Past the last result, it answers `(0, io.EOF)`. A
write handle is a class holding the file's bytes, its cursor and a call
counter. A map of injected faults says which write calls fail (`Faults`).

Modules, one per file:

| module | file |
|---|---|
| `Common` | common.dfy |
| `Rolling` | rolling.dfy |
| `Streams` (the read loop and regular files) | streams.dfy |
| `Models` | models.dfy |
| `Chunks` | chunks.dfy |
| `SignaturePkg` | signature.dfy |
| `ModelsSignature` | newsignature.dfy |
| `Diff` | diff.dfy |
| `Files` (write handles) | files.dfy |
| `Memory` | memory.dfy |
| `Apply` | apply.dfy |
| `Logic` | logic.dfy |
| `LegacyModels` | legacy_models.dfy |
| `LegacySignature` | legacy_signature.dfy |
| `LegacyStorage` | legacy_storage.dfy |
| `LegacyApply` | legacy_apply.dfy |

Where the code and its comments disagree, the model follows the code:

- models/chunk.go:12 calls `Offset` the chunk's start, but the chunker
  stores its end (see Findings).
- The comments of internal/pkg/diff/diff.go (lines 20 and 41) speak of
  comparing rolling hashes, but line 44 compares the `Data` bytes.
- A store `Update` is described as replacing the earlier record of a
  file. In the code, `Changes` regenerates the signature with a fresh ID,
  so `Update` adds a second entry for the same path.

## Model

| member | source | states |
|---|---|---|
| Rolling.Hash | internal/pkg/rolling/rolling_hash.go:25-51 | The loop returns Σ data[i]·2^i modulo 2^64, with wrapping `powers` and wrapping accumulation. An empty slice panics at `powers[0]`, hence `requires` at least one byte. |
| Rolling.KnownValues | internal/pkg/rolling/rolling_hash_test.go:10-13 | The hash of [1] is 1, of [1,2] is 5, of [255] is 255 and of [255,254] is 763. |
| Rolling.PowersWrapToZero | internal/pkg/rolling/rolling_hash.go:40-42 | From index 64 on, `powers[i]` wraps to 0 in uint64. |
| Rolling.HashOfFirst64 | internal/pkg/rolling/rolling_hash.go:44-48 | The hash of 64 or more bytes equals the hash of the first 64. |
| Rolling.HashIgnoresFrom64 | internal/pkg/rolling/rolling_hash.go:44-48 | Inputs that agree on their first 64 bytes hash alike, so later bytes never change a chunk's hash. |
| Rolling.HashExactForShortData | internal/pkg/rolling/rolling_hash.go:44-48 | Up to 56 bytes nothing wraps: the hash is the exact weighted sum, below 255·2^n. |
| Rolling.HashNotInjective | internal/pkg/rolling/rolling_hash.go:25-51 | [2,0] and [0,1] both hash to 2, so no function of (hash, length) recovers the data. |
| Rolling.DecodeStep | internal/pkg/rolling/rolling_hash.go:71-79 | One downward step, `data[i] = byte(hash / powers[i])` then the wrapping subtraction, peels the last byte off `Unhash`. While the hash is below 256·2^i the byte is the whole quotient hash / 2^i and the rest is hash mod 2^i: nothing wraps. |
| Rolling.FromRollingHash | internal/pkg/rolling/rolling_hash.go:54-82 | Returns exactly n bytes, equal to `Unhash(hash, n)`. Requires 1 <= n <= 64: n = 0 panics at `powers[0]`, and n > 64 divides by a wrapped `powers[n-1]` of 0. |
| Rolling.FromRollingHashIsNotInverse | internal/pkg/rolling/rolling_hash.go:53-82 | The comment says this inverts `Hash`, but [255,254] hashes to 763, which decodes to [1,125]. |
| Streams.ReadLoopCharacterisation | internal/pkg/chunks/chunks.go:36-65 | The read loop, stated without recursion. On success its pieces are the first reads, each non-empty and free of non-EOF errors, then the end or an empty read. On failure, a non-EOF error at some read j, with every read before j a plain non-empty one. |
| Streams.ReadLoopDone | internal/pkg/chunks/chunks.go:36-65 | The success half of the characterisation. |
| Streams.ReadLoopBroke | internal/pkg/chunks/chunks.go:39-42 | Returns the index of the read whose non-EOF error ends the loop; every read before it was non-empty and error-free. |
| Streams.PiecesAreBounded | internal/pkg/chunks/chunks.go:43-49 | Every piece has 1 to 8192 bytes, so the hash is never asked for an empty slice. |
| Streams.EmptyFirstRead | internal/pkg/chunks/chunks.go:43-46 | An empty first read ends the loop with no pieces. |
| Streams.ErrorDiscardsPieces | internal/pkg/chunks/chunks.go:39-42 | A non-EOF error after good reads returns that error, and their pieces are lost. |
| Streams.FileReadsPieces | internal/pkg/chunks/chunks.go:36-65 | Reading a regular file gives ceil(N/8192) pieces, all but the last of 8192 bytes, which laid end to end are the file. |
| Models.ValidateChunk | internal/shared/models/chunk.go:17-31 | True exactly when Length, Offset, Hash and Data all agree, i.e. the chunks are equal. |
| Models.ValidateChunkIsEquivalence | internal/shared/models/chunk.go:17-31 | `ValidateChunk` is reflexive, symmetric and transitive. |
| Models.ValidateSignature | internal/shared/models/signature.go:117-127 | Holds exactly when the signatures are equal once ID and FilePath are disregarded. |
| Models.ValidateSignatureIgnoresIdAndPath | internal/shared/models/signature.go:117-127 | Changing ID or FilePath on either side never changes the verdict. |
| Models.ValidateSignatureNeedsSameCount | internal/shared/models/signature.go:118-120 | Different chunk counts always answer false. |
| Models.ValidateSignatureIsEquivalence | internal/shared/models/signature.go:117-127 | `ValidateSignature` is an equivalence. |
| Chunks.Read | internal/pkg/chunks/chunks.go:38 | `file.Read(buf)` places the i-th result's bytes at the front of the buffer and keeps the rest. Past the end it returns (0, EOF) and leaves the buffer alone. |
| Chunks.Generate | internal/pkg/chunks/chunks.go:19-70 | The loop as written, over the reused `array` buffer, returns `AsWritten(reads)`. |
| Chunks.AsWrittenOutcome | internal/pkg/chunks/chunks.go:36-65 | It fails exactly when the read loop meets a non-EOF error, with that error unchanged. Otherwise there is one chunk per piece, in read order. |
| Chunks.AsWrittenOffsets | internal/pkg/chunks/chunks.go:52-60 | As written, chunk 0's Offset is its own length, and each Offset is the previous one plus the chunk's own length: an end position. |
| Chunks.AsWrittenOffsetsIncrease | internal/pkg/chunks/chunks.go:52-60 | As written, Offsets strictly increase, and the last equals the number of bytes read. |
| Chunks.AsWrittenDataShareBuffer | internal/pkg/chunks/chunks.go:56 | As written, every chunk's Data begin with the bytes of the last read. |
| Chunks.AsWrittenRegularFile | internal/pkg/chunks/chunks.go:19-70 | As written, on a regular file: ceil(N/8192) chunks, all but the last of 8192 bytes. Chunk k hashes the file bytes from 8192·k to its Offset, which is where it ends; the last ends at N. Every chunk's Data begins with the file's last block. |
| Chunks.TwoFullBlocks | internal/pkg/chunks/chunks.go:52-60 | A file of two full blocks x·z: as written both chunks hold z and end at 8192 and 16384; corrected they hold x and z and start at 0 and 8192. |
| Chunks.SharedBufferExample | internal/pkg/chunks/chunks.go:56 | Reads [1] then [2] give two chunks whose Data are both [2]. |
| Chunks.EndOffsetMisplacesData | internal/pkg/chunks/chunks.go:52-60 | Writing the as-written chunks back at their Offsets does not rebuild the file: for the single read [7] the result is [0,7], not [7]. |
| Chunks.GenerateCorrected | internal/pkg/chunks/chunks.go:19-70 | The loop with each chunk's Data copied and its start as Offset returns `Corrected(reads)`. |
| Chunks.CorrectedOutcome | internal/pkg/chunks/chunks.go:36-65 | The corrected chunker fails exactly as the loop does. Otherwise chunk k holds read k's bytes, with its exact hash and Length between 1 and 8192. |
| Chunks.CorrectedOffsets | internal/shared/models/chunk.go:12 | Corrected, chunk 0 is at 0 and each chunk starts where the previous ends. The bytes there are the chunk's Data. |
| Chunks.CorrectedTilesRegularFile | internal/pkg/chunks/chunks.go:19-70 | On a regular file there are ceil(N/8192) chunks. Chunk k is at 8192·k, and all but the last are full, each holding the file's bytes at its place. |
| Chunks.CorrectedChunksRebuild | internal/pkg/apply/apply.go:61-66 | Writing the first k corrected chunks at their Offsets onto an empty file gives back exactly the bytes of the first k reads. |
| SignaturePkg.Assemble | internal/pkg/signature/signature.go:25-45 | A `Stat` failure is wrapped as "unable to get file information", a chunker failure as "unable to generate chunks". Otherwise size and ModTime come from `Stat`, the path from `Name()`, the chunks from the chunker, and ID and CreatedAt from the stamp. |
| SignaturePkg.Generate | internal/pkg/signature/signature.go:21-51 | Succeeds exactly when `Stat` and the read loop succeed. Its chunks are those of `chunks.Generate` as written. |
| SignaturePkg.GenerateFixed | internal/pkg/signature/signature.go:21-51 | The same assembly over the corrected chunker: it succeeds exactly when `Stat` and the read loop succeed, and its chunks are copies of the reads placed at their start. |
| SignaturePkg.StatFailureReadsNothing | internal/pkg/signature/signature.go:26-29 | A `Stat` failure is reported whatever the reads would return. |
| SignaturePkg.ReadFailureWrapped | internal/pkg/signature/signature.go:32-35 | A read error yields only the wrapped read error. |
| SignaturePkg.MetadataIndependentOfContent | internal/pkg/signature/signature.go:38-45 | Files with the same name and `Stat` differ only in their chunks. |
| SignaturePkg.RegenerationDiffersInStamp | internal/pkg/signature/signature.go:38-45 | Two generations of one file differ exactly in ID and CreatedAt. `ValidateSignature` accepts them only when the clock gave the same time. |
| SignaturePkg.GenerateRegularFile | internal/pkg/signature/signature.go:21-51 | As written, a regular file's signature has its length as size, its name and ModTime. It has ceil(N/8192) chunks, all but the last of 8192 bytes. Chunk k hashes the bytes from 8192·k up to its Offset, which is where it ends (the last at N). Every Data begins with the last block. |
| SignaturePkg.GenerateFixedRegularFile | internal/shared/models/chunk.go:12 | Corrected, a regular file's chunks start at 8192·k and each holds the file's bytes at its place, so together they tile the file. |
| ModelsSignature.NewGeneratedSignature | internal/shared/models/signature.go:27-51 | Succeeds exactly when `Stat` and the read loop succeed. Its chunks are those of `generateChunks`, the chunker as written. |
| ModelsSignature.AgreesWithGenerate | internal/shared/models/signature.go:27-114 | `NewGeneratedSignature` builds exactly the signature `signature.Generate` does: the same `Stat` handling, chunker loop and assembly. |
| Diff.CompareSpec | internal/pkg/diff/diff.go:23-53 | No Added chunks and no Metadata. With different counts, Modified is every updated chunk. At most as many Modified as updated chunks. |
| Diff.Compare | internal/pkg/diff/diff.go:23-53 | The index loop returns `CompareSpec`, never an error. |
| Diff.DifferingIndicesMembership | internal/pkg/diff/diff.go:42-50 | An index is listed iff the Data there differ. |
| Diff.DifferingIndicesIncrease | internal/pkg/diff/diff.go:42-50 | The listed indices strictly increase. |
| Diff.ModifiedIffDataDiffer | internal/pkg/diff/diff.go:41-50 | With equal counts, Modified lists the updated chunks at exactly the indices whose Data differ, once each and in order. |
| Diff.CompareWithItselfIsEmpty | internal/pkg/diff/diff.go:41-50 | A signature compared with itself reports no change. |
| Diff.EqualDataIsNoChange | internal/pkg/diff/diff.go:44-49 | Equal Data at every index means no change, whatever Hash, Offset and Length hold. |
| Diff.MiddleChunkExample | internal/pkg/diff/diff_test.go:10-45 | Of three chunks only the second differs, so only it is reported. |
| Files.WriteAtSpec | internal/pkg/apply/apply.go:62 | Length and every byte after writing `data` at `off` (a gap reads 0). |
| Files.WriteAtConcat | internal/pkg/apply/apply.go:56-60 | Writing a and then b right after it is writing a + b. |
| Files.WriteEachBackToBack | internal/pkg/apply/apply.go:56-60 | Fault-free sequential writes land back to back from the cursor. |
| Files.WriteEachStopsAtFailure | internal/pkg/apply/apply.go:56-60 | After a failed `Write`, the later chunks change nothing. |
| Files.WriteAtEachStopsAtFailure | internal/pkg/apply/apply.go:61-66 | After a failed `WriteAt`, the later chunks change nothing. |
| Files.WriteAtEachSucceeds | internal/pkg/apply/apply.go:61-66 | Fault-free positional writes at non-negative offsets succeed, and the file grows to the largest end. |
| Files.WriteAtEachByte | internal/pkg/apply/apply.go:61-66 | After fault-free positional writes, each byte is the last covering patch's, else the old byte, else 0. |
| Files.OsFile.Write | internal/pkg/apply/apply.go:57 | `Write` writes at the cursor and advances it, or reports the injected fault and writes nothing. |
| Files.OsFile.WriteAt | internal/pkg/apply/apply.go:62 | `WriteAt` fails on a negative offset. Otherwise it writes at the offset, or reports the injected fault; the cursor stays. |
| Memory.ScanChunks | internal/store/memory/memory.go:95-99 | The inner `bytes.Equal` scan finds a chunk iff one has the Data. |
| Memory.SaveUnderFreshId | internal/store/memory/memory.go:48-51 | A save under a fresh ID adds one entry and keeps all others. The path is then known iff it was before or is the new one's. |
| Memory.InsertKeepsOtherData | internal/store/memory/memory.go:51 | Inserting keeps every Data found before and adds the new signature's. |
| Memory.Storage.New | internal/store/memory/memory.go:28-38 | The store starts empty. |
| Memory.Storage.Save | internal/store/memory/memory.go:41-54 | Stamps the fresh ID and CreatedAt and inserts under that ID. Never fails. |
| Memory.Storage.Get | internal/store/memory/memory.go:57-69 | Returns the entry under the ID, or "signature not found". |
| Memory.Storage.Update | internal/store/memory/memory.go:72-84 | Stamps LastModified and inserts or replaces the entry under the signature's own ID. |
| Memory.Storage.ChunkExists | internal/store/memory/memory.go:87-102 | True iff some stored chunk has the argument's Data. Never fails. |
| Memory.Storage.GetSignatureForChunk | internal/store/memory/memory.go:105-120 | Returns a stored signature holding the Data, or "signature not found" exactly when none does. |
| Memory.Storage.FileExists | internal/store/memory/memory.go:123-136 | True iff some stored signature has the path. |
| Memory.Storage.GetSignatureForFilename | internal/store/memory/memory.go:139-152 | Returns a stored signature with the path, or "signature not found" exactly when none has it. |
| Apply.Reopened | internal/pkg/apply/apply.go:80 | The rewritten file as the regeneration reads it: its path, its `Stat` and reads of its bytes from the start. |
| Apply.ApplyWrites | internal/pkg/apply/apply.go:56-66 | A failure carries the Added loop's message exactly when an Added write failed, and the Modified loop's otherwise. Without failure every Added write succeeded, and the handle is the positional-write fold of the Modified chunks over it. |
| Apply.ChangesSpec | internal/pkg/apply/apply.go:39-95 | An open failure gives `nil` and an error. Success gives the signature `signature.Generate` makes of the written bytes, stamped by `Update`, with the original path. |
| Apply.WriteAll | internal/pkg/apply/apply.go:56-60 | The Added loop leaves the handle as the sequential-write fold says, stopping at the first error. |
| Apply.WriteAtAll | internal/pkg/apply/apply.go:61-66 | The Modified loop leaves the handle as the positional-write fold says, stopping at the first error. |
| Apply.Applier.New | internal/pkg/apply/apply.go:28-36 | Keeps the delta and the store. |
| Apply.Applier.Changes | internal/pkg/apply/apply.go:39-95 | Returns `ChangesSpec`. The handle ends in the state the writes give. The store gains the new signature only on success. |
| Apply.WriteEachIgnoresOffsets | internal/pkg/apply/apply.go:56-60 | Sequential writes depend only on the chunks' Data and order. |
| Apply.AddedOffsetsIgnored | internal/pkg/apply/apply.go:57 | Replacing the Added chunks' Offsets changes nothing. |
| Apply.ApplyWritesUnfaulted | internal/pkg/apply/apply.go:56-66 | Without faults, the Added data go in one run from the cursor and then each Modified chunk at its Offset. One call per chunk; the length is the largest end. |
| Apply.AddedFailureStops | internal/pkg/apply/apply.go:56-60 | The first failing Added write ends the writes with its error wrapped. |
| Apply.ModifiedFailureStops | internal/pkg/apply/apply.go:61-66 | The first failing Modified write ends the writes with its error wrapped. |
| Apply.ChangesNeverShrinks | internal/pkg/apply/apply.go:48-66 | The file is opened, not truncated: it never gets shorter. |
| Apply.ChangesRecordsWrittenContent | internal/pkg/apply/apply.go:79-94 | On success the returned signature is that of the written bytes. ID and CreatedAt come from the stamp, LastModified from `Update`, and the path is the original's. Size is the content's length. There are ceil(N/8192) chunks, all but the last of 8192 bytes; chunk k hashes the bytes from 8192·k up to its Offset, which is where it ends. |
| Apply.ChangesErrorsAreWrapped | internal/pkg/apply/apply.go:72-83 | "error applying changes" comes with `nil` and "error generating signature" with the empty signature. |
| Apply.ChangesAsWritten | internal/pkg/apply/apply.go:44-76 | As written, `Changes` returns only failures from before the regeneration. |
| Apply.ChangesAsWrittenNeverRegenerates | internal/pkg/apply/apply.go:44-76 | As written, `Changes` panics exactly where the corrected `ChangesSpec` produces a signature; otherwise the two agree. |
| Apply.EmptyDeltaPanics | internal/pkg/apply/apply.go:44-76 | An empty delta on a file that opened: as written a nil dereference, corrected a signature. |
| Logic.HandleUnknown | internal/logic/logic.go:85-99 | The handle's state is left as it was. |
| Logic.HandleKnown | internal/logic/logic.go:51-82 | The handle's state is known exactly when the file opened. A file that did not open is never written or recorded and yields no delta. |
| Logic.Logic.New | internal/logic/logic.go:27-33 | Keeps the store. |
| Logic.Logic.Handle | internal/logic/logic.go:36-100 | An unknown path goes through `HandleUnknown`. A known path goes through `HandleKnown` against some stored signature with that path. Both cover result, store and handle state. `HandleKnown` applies the delta with the corrected `Apply.ChangesSpec`; as written, a known path whose file opens and whose writes succeed ends in `Apply.ChangesAsWritten`'s nil dereference instead of returning a delta. |
| Logic.UnknownPathIsSaved | internal/logic/logic.go:85-99 | An unknown path gives a `nil` delta and one more store entry, and the path becomes known. A failure leaves the store alone. |
| Logic.KnownPathOnlyUpdates | internal/logic/logic.go:51-82 | A known path never calls `Save`. The store changes only by one `Update` of a signature with the original's path and the `Changes` time. |
| Logic.KnownPathReturnsCompare | internal/logic/logic.go:65-81 | A successful known path returns `Compare`'s delta of the stored and regenerated signatures. |
| Logic.FailuresAreWrapped | internal/logic/logic.go:36-100 | Every failure is wrapped as "error generating signature" or "error applying changes". |
| Logic.UnchangedFileGivesEmptyDelta | internal/logic/logic.go:59-67 | Regenerating an unchanged file and comparing gives an empty delta. |
| Logic.AliasingHidesChange | internal/pkg/diff/diff.go:42-50 | As written, a file x·z of two full blocks rewritten as y·z, with x ≠ y, compares as unchanged: both signatures' chunks hold z. With the corrected chunker, `Compare` reports the first block. |
| LegacySignature.GenerateSpec | signature.go:47-96 | A `Stat` error is returned unwrapped. On success ID and CreatedAt come from the stamp, and FilePath is empty. |
| LegacySignature.ReadChunks | signature.go:71-93 | The read loop over the reused `array` returns the chunks built from the read lengths and the final buffer. |
| LegacySignature.GenerateSignature | signature.go:47-96 | Returns `GenerateSpec`. |
| LegacySignature.GenerateShape | signature.go:72-93 | One chunk per non-empty read, chunk k at Start 8192·k with that read's length. A read error is returned unwrapped. |
| LegacySignature.EmptyFileHasNoChunks | signature.go:59-65 | An empty regular file gives a signature with no chunks. |
| LegacySignature.StartsMatchRegularFile | signature.go:86-89 | On a regular file, Start 8192·k is where chunk k lies, the offset the corrected chunker records. |
| LegacySignature.ShortReadsExample | signature.go:86-89 | Reads [1] then [2] give Start 0 and Start 8192, both with Data [2]. |
| LegacyStorage.ScanChunks | storage.go:53-57 | The inner scan finds a chunk iff one has the Data. |
| LegacyStorage.SaveSameIdReplaces | storage.go:29-35 | Saving under an ID already stored replaces that entry and keeps the size. |
| LegacyStorage.GeneratedPathsAreEmpty | signature.go:59-65 | `GenerateSignature` leaves FilePath empty, so saving its result never makes a non-empty path known. |
| LegacyStorage.MemoryStorage.Zero | storage.go:24-27 | The zero value has a nil, unusable map. |
| LegacyStorage.MemoryStorage.Made | storage.go:24-27 | A made map starts empty. |
| LegacyStorage.MemoryStorage.Save | storage.go:29-35 | Stores the signature unaltered under its own ID. Never fails; the nil map panics, hence `requires`. |
| LegacyStorage.MemoryStorage.Get | storage.go:37-46 | The entry under the ID, or "signature not found". |
| LegacyStorage.MemoryStorage.ChunkExists | storage.go:48-60 | True iff some stored chunk has the Data. |
| LegacyStorage.MemoryStorage.GetSignatureForChunk | storage.go:62-74 | Returns a stored signature holding the Data, or "signature not found" exactly when none does. |
| LegacyStorage.MemoryStorage.FileExists | storage.go:76-86 | True iff some stored signature has the path. |
| LegacyApply.WriteAtAll | apply.go:26-30 | Each loop leaves the handle as the positional-write fold says, stopping at the first error. |
| LegacyApply.ApplySpec | apply.go:17-40 | A creation failure returns its error and leaves the previous content. No error means the file was created. Its other properties are the lemmas below. |
| LegacyApply.Apply | apply.go:17-40 | Returns `ApplySpec`: a creation error leaves the file alone, otherwise Modified then Added from an emptied file. |
| LegacyApply.ApplyIsOneFold | apply.go:19-39 | Once created, `Apply` is one fold of positional writes over Modified then Added, from the empty file. |
| LegacyApply.TruncationForgetsPrevious | apply.go:19 | The previous content never matters once `os.Create` succeeds. |
| LegacyApply.ApplyUnfaulted | apply.go:17-40 | Without faults, `Apply` succeeds. The length is the largest end, and each byte is the last covering chunk's or 0. |
| LegacyApply.FirstFailureStops | apply.go:26-37 | The first failing write is returned unwrapped, and nothing later is written. |
| LegacyApply.EndToEndExample | end_to_end_test.go:55-67 | One Modified chunk "updated data" at 0 turns any file into exactly "updated data". |
| LegacyApply.ApplyTestExample | internal/pkg/apply/apply_test.go:39-63 | "updated " at 0 and "data" at 8, as both Modified and Added, give exactly "updated data". The test calls `Apply(path, delta)` with chunks built from `Start` fields, which only the root apply.go and chunk.go define, so it is checked against `LegacyApply` and not `Apply.Applier.Changes`. |

## Left out

- Concurrency: the store's mutex, the `errgroup` in `Changes` and its `g.Wait()` are modelled as sequential code.
- Tracing, logging and the `Print` methods are left out: they change no state the model keeps.
- `uuid.New()` and `time.Now()` are parameters (a `Stamp`, `id`, `now`, `Env`). Timestamps and UUIDs are opaque numbers; the `.UTC()` conversion is not modelled.
- `Stat`, `Read`, `os.Open` and `os.Create` are environment inputs:
  - a `FileView` carries the name, the `Stat` result and the read results;
  - a fault map says which write calls fail;
  - `Env.restat` is the `Stat` of the rewritten file when it is regenerated.
- Write content on disk is modelled, but the file's modification time is not: the writes do not change `Stat`.
- Apply.ChangesSpec: regenerates from the written bytes read from offset 0, after the writes and before the handle is closed (the function the author evidently intended). As written, the handle used for regeneration is nil; see Findings.
- The tree as given does not build in three places. internal/pkg/apply/apply.go:48 calls `fileio.OpenFile(ctx, originalSig.FilePath)`, but internal/pkg/fileio/file.go:10 declares `OpenFile(filename string)`. internal/shared/models/delta.go:18 and :22 read `chunk.Start`, which `models.Chunk` (internal/shared/models/chunk.go:10-15) does not have, and `Changes` calls that `Print` at apply.go:77. internal/shared/models/signature.go:95 calls `rolling.Hash(buf[:n])` with one argument, but internal/pkg/rolling/rolling_hash.go:25 declares `Hash(ctx context.Context, data []byte)`, so package models and every package importing it fail to build there. The model reads apply.go:48 as file.go's one-argument `OpenFile` on the path and signature.go:95 as the two-argument `rolling.Hash(ctx, buf[:n])`, and leaves `Delta.Print` out with the other printing. Every statement about what `Changes`, `Handle` and `NewGeneratedSignature` do at run time holds once the code builds that way.
- internal/pkg/fileio/file.go opens with read-only `os.Open`, so once apply.go:48 resolves to it, the writes in `Changes` would fail on a real system. The model leaves which writes fail to the fault map: it covers both the read-only case and a writable handle.
- Partial writes (`n < len(data)` with `err == nil`) are not modelled: a write either writes everything or fails and writes nothing.
- int64 overflow of `Offset` and of `Start` is not modelled; both are unbounded integers. The uint64 wrap-around of the rolling hash is modelled.
- signature.go:49-50 ignores the `OpenFile` error. No source file of the root package declares that `OpenFile` (internal/pkg/fileio's is another package), so its behaviour is taken from its use: on an error it gives a nil file, `Stat` on it then fails, and the model covers that path through the `Stat` failure of the `FileView`.
- The SHA-1 that signature.go feeds (lines 68, 83) is never read and is left out.
- The stores keep signatures by value, not by reference. A caller that mutates a returned signature afterwards, and so changes the stored one, is not modelled. Likewise, `Save` in internal/store/memory mutates its argument in place; the model returns the stamped copy.
- Logic.Logic.Handle: these error branches are dead with the in-memory store, whose methods never fail: "error checking if file exists", "error retrieving signature" and "error saving signature". So is "error running Diff" (`Compare` never fails). The model proves the calls succeed and does not model those returns.
- Apply.Applier.Changes: the "error saving signature" branch (apply.go:87-89) is dead because `Update` never fails.
- The map-iteration order of Go is unspecified. A scan that returns the first match is modelled as returning some match; `Handle` is stated for whichever stored signature the scan finds.
- The root `Delta` type used by apply.go is not part of this model's source files; its Added and Modified lists are taken from their use.
- cmd/filestorage/main.go and the root `Diff` function are not part of this model.
- LegacyStorage.MemoryStorage.Save: its `requires initialised` leaves out the zero value's nil map, on which storage.go:29-35 panics (the type has no constructor); the model states Save only for a made map.
- Rolling.FromRollingHash: there is no corrected inverse, because the hash is not injective (Rolling.HashNotInjective). The model keeps the code as written with a counterexample.

## Findings

| source | as written | input that shows it | evidently intended | confidence | as-written member | corrected member |
|---|---|---|---|---|---|---|
| internal/pkg/chunks/chunks.go:52-60 | `offset += n` happens before the chunk is built, so `Offset` is the chunk's end. Yet models/chunk.go:12 documents the start, and `Changes` passes it to `WriteAt`. | A single read [7]: the chunk has Offset 1. Writing it back at 1 gives [0,7]. | `Offset` is the chunk's start: add n after building the chunk. | not executed | Chunks.EndOffsetMisplacesData | Chunks.CorrectedChunksRebuild |
| internal/pkg/chunks/chunks.go:56 | `Data: buf[:n]` slices the one reused buffer, so every chunk's Data is overwritten by later reads. | Reads [1] then [2]: both chunks hold [2]. A file x·z of two 8192-byte blocks rewritten as y·z compares as unchanged (Logic.AliasingHidesChange). | Each chunk keeps a copy of its own read. | not executed | Chunks.SharedBufferExample | Chunks.CorrectedOffsets |
| internal/pkg/apply/apply.go:44-76 | `original, err :=` inside the goroutine declares a new `original`, so the outer one stays nil. After the writes succeed, `original.Name()` dereferences nil. | An empty delta on a file that opens: no write fails and `Changes` panics (once apply.go:48 resolves to file.go's `OpenFile`; see Left out). | The goroutine assigns the outer `original` (`original, err =`). The `defer original.Close()` at line 53 then runs only after the regeneration. The regeneration reads the file from offset 0, not from the cursor, which sits past the Added bytes. | not executed | Apply.EmptyDeltaPanics | Apply.ChangesRecordsWrittenContent |
