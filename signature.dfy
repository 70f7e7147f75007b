/** internal/pkg/signature `Generate`: `Stat` the file, chunk it, and
    assemble the signature with a fresh ID and creation time. */
module SignaturePkg {
  import opened Common
  import opened Streams
  import opened Models
  import Chunks
  import Rolling

  /** The `uuid.New()` and `time.Now().UTC()` one call draws: arbitrary
      values supplied by the caller. */
  datatype Stamp = Stamp(id: Uuid, at: Timestamp)

  /** The straight-line code both signature constructors share: a `Stat`
      failure is wrapped as "unable to get file information", a chunker
      failure as "unable to generate chunks", and otherwise the signature
      takes its size and modification time from `Stat`, its path from
      `Name()`, its chunks from the chunker, and its ID and creation time
      from the stamp. */
  function Assemble(file: FileView, stamp: Stamp, chunks: Result<seq<Chunk>>): (r: Result<Signature>)
    ensures file.stat.Failure? ==> r == Failure(Wrapped("unable to get file information", file.stat.error))
    ensures file.stat.Success? && chunks.Failure? ==> r == Failure(Wrapped("unable to generate chunks", chunks.error))
    ensures r.Success? <==> file.stat.Success? && chunks.Success?
    ensures r.Success? ==>
      r.value.chunks == chunks.value && r.value.id == stamp.id && r.value.createdAt == stamp.at &&
      r.value.fileSize == file.stat.value.size && r.value.lastModified == file.stat.value.modTime &&
      r.value.filePath == file.name
  {
    match file.stat
    case Failure(e) => Failure(Wrapped("unable to get file information", e))
    case Success(info) =>
      match chunks
      case Failure(e) => Failure(Wrapped("unable to generate chunks", e))
      case Success(cs) => Success(Signature(stamp.id, info.size, file.name, info.modTime, stamp.at, cs))
  }

  /** `signature.Generate`: it calls `chunks.Generate`, the chunker as
      written (see Chunks). */
  function Generate(file: FileView, stamp: Stamp): (r: Result<Signature>)
    requires ValidReads(file.results)
    ensures r.Success? <==> file.stat.Success? && ReadLoop(file.results).Done?
    ensures r.Success? ==> r.value.chunks == Chunks.AsWritten(file.results).value
  {
    Assemble(file, stamp, Chunks.AsWritten(file.results))
  }

  /** `signature.Generate` over the corrected chunker: the generator the
      delta writers need, whose chunks are copies of the reads placed at
      their start. */
  function GenerateFixed(file: FileView, stamp: Stamp): (r: Result<Signature>)
    ensures r.Success? <==> file.stat.Success? && ReadLoop(file.results).Done?
    ensures r.Success? ==> r.value.chunks == Chunks.CopiedChunks(ReadLoop(file.results).pieces)
  {
    Assemble(file, stamp, Chunks.Corrected(file.results))
  }

  /** A `Stat` failure is reported before anything is read: the result does
      not depend on what the reads would have returned. */
  lemma StatFailureReadsNothing(file: FileView, other: seq<ReadResult>, stamp: Stamp)
    requires file.stat.Failure? && ValidReads(file.results) && ValidReads(other)
    ensures Generate(file, stamp) == Generate(file.(results := other), stamp)
    ensures Generate(file, stamp) == Failure(Wrapped("unable to get file information", file.stat.error))
  {
  }

  /** A read error after a successful `Stat` yields no signature, only the
      wrapped read error. */
  lemma ReadFailureWrapped(file: FileView, stamp: Stamp)
    requires ValidReads(file.results)
    requires file.stat.Success? && ReadLoop(file.results).Broke?
    ensures Generate(file, stamp) == Failure(Wrapped("unable to generate chunks", ReadLoop(file.results).error))
  {
  }

  /** The metadata comes from `Stat` and the name, not from the chunks:
      files with the same name and `Stat` but different bytes differ only
      in their chunks. */
  lemma MetadataIndependentOfContent(a: FileView, b: FileView, stamp: Stamp)
    requires ValidReads(a.results) && ValidReads(b.results)
    requires a.name == b.name && a.stat == b.stat
    requires Generate(a, stamp).Success? && Generate(b, stamp).Success?
    ensures Generate(a, stamp).value.(chunks := []) == Generate(b, stamp).value.(chunks := [])
  {
  }

  /** Two generations of one file differ exactly in ID and creation
      time, so `ValidateSignature` accepts them only when the clock gave
      the same time twice. */
  lemma RegenerationDiffersInStamp(file: FileView, s1: Stamp, s2: Stamp)
    requires ValidReads(file.results)
    requires Generate(file, s1).Success?
    ensures Generate(file, s2).Success?
    ensures Generate(file, s2).value == Generate(file, s1).value.(id := s2.id, createdAt := s2.at)
    ensures ValidateSignature(Generate(file, s1).value, Generate(file, s2).value) <==> s1.at == s2.at
  {
  }

  /** The signature of a regular file, as written: its size is the file's
      length, it has ceil(N/8192) chunks, all but the last of 8192 bytes,
      chunk k hashes the file's bytes from 8192·k up to its Offset, which is
      where the chunk ends (the last one at N), and every chunk's Data
      begins with the file's last block. */
  lemma GenerateRegularFile(name: string, content: seq<byte>, modTime: Timestamp, stamp: Stamp)
    ensures Generate(RegularFile(name, content, modTime), stamp).Success?
    ensures var sig := Generate(RegularFile(name, content, modTime), stamp).value;
      var cs := sig.chunks;
      sig.fileSize == |content| && sig.filePath == name && sig.lastModified == modTime &&
      |cs| == (|content| + ChunkSize - 1) / ChunkSize &&
      (forall k :: 0 <= k < |cs| - 1 ==> cs[k].length == ChunkSize) &&
      (forall k :: 0 <= k < |cs| ==>
        cs[k].offset == ChunkSize * k + cs[k].length && cs[k].offset <= |content| &&
        cs[k].hash as int == Rolling.HashSpec(content[ChunkSize * k..cs[k].offset])) &&
      (|cs| > 0 ==>
        var last := ChunkSize * (|cs| - 1);
        cs[|cs| - 1].offset == |content| &&
        forall k, j :: 0 <= k < |cs| && 0 <= j < cs[k].length && last + j < |content| ==>
          cs[k].data[j] == content[last + j])
  {
    Chunks.AsWrittenRegularFile(content);
  }

  /** The corrected signature of a regular file: its chunks start at
      multiples of 8192 and together hold every byte of the file, in order. */
  lemma GenerateFixedRegularFile(name: string, content: seq<byte>, modTime: Timestamp, stamp: Stamp)
    ensures GenerateFixed(RegularFile(name, content, modTime), stamp).Success?
    ensures var sig := GenerateFixed(RegularFile(name, content, modTime), stamp).value;
      sig.fileSize == |content| && sig.filePath == name && sig.lastModified == modTime &&
      |sig.chunks| == (|content| + ChunkSize - 1) / ChunkSize &&
      forall k :: 0 <= k < |sig.chunks| ==>
        sig.chunks[k].offset == ChunkSize * k &&
        sig.chunks[k].offset + sig.chunks[k].length <= |content| &&
        sig.chunks[k].data == content[sig.chunks[k].offset..sig.chunks[k].offset + sig.chunks[k].length]
  {
    Chunks.CorrectedTilesRegularFile(content);
    FileReadsPieces(content);
  }
}
