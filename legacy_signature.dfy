/** signature.go `GenerateSignature`: the older chunker. It reads into
    one reused 8192-byte buffer like internal/pkg/chunks, gives chunk k
    the Start 8192·k, and keeps each chunk's Data as a slice of the
    buffer; the model keeps that sharing as written. */
module LegacySignature {
  import opened Common
  import opened Streams
  import opened LegacyModels
  import Chunks

  /** The chunks as written: chunk k starts at 8192·k and its Data are the
      first |piece k| bytes of the buffer as the last read left it. */
  function StartChunks(ps: seq<seq<byte>>): (cs: seq<Chunk>)
    requires Chunks.Bounded(ps)
    ensures |cs| == |ps|
  {
    var buf := Chunks.BufferAfter(ps);
    seq(|ps|, k requires 0 <= k < |ps| => Chunk(ChunkSize * k, buf[..|ps[k]|]))
  }

  /** The chunks built at the end from the buffer and the read lengths. */
  function AtStarts(buf: seq<byte>, lengths: seq<nat>): (cs: seq<Chunk>)
    requires forall k :: 0 <= k < |lengths| ==> lengths[k] <= |buf|
  {
    seq(|lengths|, k requires 0 <= k < |lengths| => Chunk(ChunkSize * k, buf[..lengths[k]]))
  }

  /** The read lengths the loop records for these pieces. */
  function Lengths(ps: seq<seq<byte>>): (lengths: seq<nat>)
    ensures |lengths| == |ps| && forall k :: 0 <= k < |ps| ==> lengths[k] == |ps[k]|
  {
    seq(|ps|, k requires 0 <= k < |ps| => |ps[k]|)
  }

  lemma AtStartsOfPieces(ps: seq<seq<byte>>)
    requires Chunks.Bounded(ps)
    ensures AtStarts(Chunks.BufferAfter(ps), Lengths(ps)) == StartChunks(ps)
  {
  }

  /** The chunks the read loop yields, or the read error. */
  function ChunksOf(results: seq<ReadResult>): (r: Result<seq<Chunk>>)
    requires ValidReads(results)
  {
    match ReadLoop(results)
    case Broke(e) => Failure(e)
    case Done(ps) => PiecesAreBounded(results); Success(StartChunks(ps))
  }

  /** What `GenerateSignature` returns for a file whose `Stat` and reads
      are these: a `Stat` error and a read error are returned unwrapped;
      otherwise ID and CreatedAt come from the stamp, FileSize and
      LastModified from `Stat`, and FilePath is left empty. */
  function GenerateSpec(file: FileView, id: Uuid, now: Timestamp): (r: Result<Signature>)
    requires ValidReads(file.results)
    ensures file.stat.Failure? ==> r == Failure(file.stat.error)
    ensures r.Success? ==> r.value.filePath == "" && r.value.id == id && r.value.createdAt == now
  {
    match file.stat
    case Failure(e) => Failure(e)
    case Success(info) =>
      match ChunksOf(file.results)
      case Failure(e) => Failure(e)
      case Success(cs) => Success(Signature(id, info.size, "", info.modTime, now, cs))
  }

  /** The loop of `GenerateSignature`: read into the buffer until an empty
      read, appending `Chunk{Start: len(sig.Chunks) * chunkSize, Data: buf[:n]}`. */
  method ReadChunks(results: seq<ReadResult>) returns (r: Result<seq<Chunk>>)
    requires ValidReads(results)
    ensures r == ChunksOf(results)
  {
    var buf := new byte[ChunkSize](_ => 0);
    var lengths: seq<nat> := [];
    ghost var gathered: seq<seq<byte>> := [];
    var i := 0;
    while true
      invariant 0 <= i <= |results|
      invariant Chunks.Bounded(gathered) && buf.Length == ChunkSize
      invariant buf[..] == Chunks.BufferAfter(gathered)
      invariant lengths == Lengths(gathered)
      invariant ReadLoop(results) == Prefix(gathered, ReadLoop(results[i..]))
      decreases |results| - i
    {
      var n, err := Chunks.Read(buf, results, i);
      if err.Broken? {
        return Failure(err.error);
      }
      if n == 0 {
        Chunks.ReadLoopEnd(results, i);
        break;
      }
      Chunks.GatherStep(results, i, gathered);
      assert Lengths(gathered + [results[i].bytes]) == lengths + [n];
      lengths := lengths + [n];
      gathered := gathered + [results[i].bytes];
      i := i + 1;
    }
    assert ReadLoop(results) == Done(gathered);
    AtStartsOfPieces(gathered);
    r := Success(AtStarts(buf[..], lengths));
  }

  /** `GenerateSignature` on an opened file; `id` and `now` are what
      `uuid.New()` and `time.Now()` draw. The SHA1 the loop feeds is never
      read and is left out. */
  method GenerateSignature(file: FileView, id: Uuid, now: Timestamp) returns (r: Result<Signature>)
    requires ValidReads(file.results)
    ensures r == GenerateSpec(file, id, now)
  {
    if file.stat.Failure? {
      return Failure(file.stat.error);
    }
    var info := file.stat.value;
    var chunks := ReadChunks(file.results);
    if chunks.Failure? {
      return Failure(chunks.error);
    }
    r := Success(Signature(id, info.size, "", info.modTime, now, chunks.value));
  }

  // ---------------------------------------------------------------------
  // Properties

  /** One chunk per non-empty read, in read order, each with the read's
      length of at most 8192 bytes, chunk k at Start 8192·k. */
  lemma GenerateShape(file: FileView, id: Uuid, now: Timestamp)
    requires ValidReads(file.results)
    ensures GenerateSpec(file, id, now).Success? <==> file.stat.Success? && ReadLoop(file.results).Done?
    ensures file.stat.Success? && ReadLoop(file.results).Broke? ==>
      GenerateSpec(file, id, now) == Failure(ReadLoop(file.results).error)
    ensures GenerateSpec(file, id, now).Success? ==>
      var sig := GenerateSpec(file, id, now).value;
      sig.fileSize == file.stat.value.size && sig.lastModified == file.stat.value.modTime &&
      |sig.chunks| == |ReadLoop(file.results).pieces| <= |file.results| &&
      forall k :: 0 <= k < |sig.chunks| ==>
        sig.chunks[k].start == ChunkSize * k &&
        1 <= |sig.chunks[k].data| == |file.results[k].bytes| <= ChunkSize
  {
    ReadLoopCharacterisation(file.results);
    PiecesAreBounded(file.results);
  }

  /** An empty regular file gives a signature with no chunks. */
  lemma EmptyFileHasNoChunks(name: string, modTime: Timestamp, id: Uuid, now: Timestamp)
    ensures GenerateSpec(RegularFile(name, [], modTime), id, now) ==
      Success(Signature(id, 0, "", modTime, now, []))
  {
  }

  /** On a regular file every read but the last fills the buffer, so
      Start 8192·k is where chunk k's bytes lie in the file: the same
      offsets the corrected internal chunker records. */
  lemma StartsMatchRegularFile(name: string, content: seq<byte>, modTime: Timestamp, id: Uuid, now: Timestamp)
    ensures GenerateSpec(RegularFile(name, content, modTime), id, now).Success?
    ensures var sig := GenerateSpec(RegularFile(name, content, modTime), id, now).value;
      var cs := Chunks.Corrected(FileReads(content)).value;
      |sig.chunks| == |cs| == (|content| + ChunkSize - 1) / ChunkSize &&
      forall k :: 0 <= k < |cs| ==> sig.chunks[k].start == cs[k].offset && |sig.chunks[k].data| == cs[k].length
  {
    FileReadsPieces(content);
    Chunks.CorrectedTilesRegularFile(content);
  }

  /** With short reads Start runs ahead of the data: after reads [1] and
      [2] the second chunk claims Start 8192 although its byte was the
      file's second, and both chunks hold [2], the last read's byte. */
  lemma ShortReadsExample(info: FileInfo, id: Uuid, now: Timestamp)
    ensures GenerateSpec(FileView("", Success(info), [ReadResult([1], NoErr), ReadResult([2], NoErr)]), id, now) ==
      Success(Signature(id, info.size, "", info.modTime, now, [Chunk(0, [2]), Chunk(8192, [2])]))
  {
    Chunks.TwoShortReads();
    var ps: seq<seq<byte>> := [[1], [2]];
    assert Chunks.BufferAfter(ps)[..1] == [2];
    assert StartChunks(ps) == [Chunk(0, [2]), Chunk(8192, [2])];
  }
}
