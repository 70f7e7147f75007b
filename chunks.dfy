/** The fixed-size chunker of internal/pkg/chunks (the same loop is
    `generateChunks` in internal/shared/models/signature.go): one reused
    8192-byte buffer, one chunk per non-empty read.

    As written, every chunk's Data is a slice of that one buffer, so once
    the loop ends all of them show the buffer's final bytes, and Offset is
    the position where the chunk ENDS although the record documents it as
    the start, and the delta writers use it as the start. `Generate` models
    the loop as written, and is what the signature constructors call;
    `GenerateCorrected` copies each read and records its start, and is the
    chunker the corrected signature generator uses. */
module Chunks {
  import opened Common
  import opened Streams
  import opened Models
  import Rolling
  import Files

  /** Every piece fits the buffer. */
  predicate Bounded(ps: seq<seq<byte>>)
  {
    forall k :: 0 <= k < |ps| ==> |ps[k]| <= ChunkSize
  }

  /** `copy(buf, p)` as `Read` does it: p over the front of buf, the rest kept. */
  function Overlay(buf: seq<byte>, p: seq<byte>): (r: seq<byte>)
    requires |p| <= |buf|
    ensures |r| == |buf| && r[..|p|] == p
  {
    p + buf[|p|..]
  }

  /** The buffer `make([]byte, 8192)` after each piece was read into it in turn. */
  function BufferAfter(ps: seq<seq<byte>>): (buf: seq<byte>)
    requires Bounded(ps)
    ensures |buf| == ChunkSize
  {
    if ps == [] then seq(ChunkSize, _ => 0)
    else Overlay(BufferAfter(ps[..|ps| - 1]), ps[|ps| - 1])
  }

  /** The chunks the loop returns as written: chunk k has the length and
      hash of piece k, Offset the total length of pieces 0..k, and Data the
      first |piece k| bytes of the buffer as the last read left it. */
  function AliasedChunks(ps: seq<seq<byte>>): (cs: seq<Chunk>)
    requires Bounded(ps)
    ensures |cs| == |ps|
  {
    var buf := BufferAfter(ps);
    seq(|ps|, k requires 0 <= k < |ps| =>
      Chunk(buf[..|ps[k]|], Rolling.HashSpec(ps[k]) as u64, |Flatten(ps[..k + 1])|, |ps[k]|))
  }

  /** What `chunks.Generate` returns for these read results. */
  function AsWritten(results: seq<ReadResult>): (r: Result<seq<Chunk>>)
    requires ValidReads(results)
  {
    match ReadLoop(results)
    case Broke(e) => Failure(e)
    case Done(ps) => PiecesAreBounded(results); Success(AliasedChunks(ps))
  }

  /** The chunks the loop is meant to return: chunk k holds a copy of piece
      k, its hash and length, and starts where pieces 0..k-1 end. */
  function CopiedChunks(ps: seq<seq<byte>>): (cs: seq<Chunk>)
    ensures |cs| == |ps|
  {
    seq(|ps|, k requires 0 <= k < |ps| =>
      Chunk(ps[k], Rolling.HashSpec(ps[k]) as u64, |Flatten(ps[..k])|, |ps[k]|))
  }

  /** What the corrected chunker returns for these read results. */
  function Corrected(results: seq<ReadResult>): (r: Result<seq<Chunk>>)
  {
    match ReadLoop(results)
    case Broke(e) => Failure(e)
    case Done(ps) => Success(CopiedChunks(ps))
  }

  // ---------------------------------------------------------------------
  // The loop

  /** `n, err := file.Read(buf)` on the i-th result: its bytes go to the
      front of buf; past the last result the reader answers (0, EOF). */
  method Read(buf: array<byte>, results: seq<ReadResult>, i: nat) returns (n: nat, err: ReadErr)
    requires buf.Length == ChunkSize && ValidReads(results)
    modifies buf
    ensures i >= |results| ==> n == 0 && err == Eof && buf[..] == old(buf[..])
    ensures i < |results| ==>
      n == |results[i].bytes| && err == results[i].err && buf[..] == Overlay(old(buf[..]), results[i].bytes)
  {
    if i >= |results| {
      return 0, Eof;
    }
    var bytes := results[i].bytes;
    forall j | 0 <= j < |bytes| {
      buf[j] := bytes[j];
    }
    assert buf[..] == Overlay(old(buf[..]), bytes);
    n, err := |bytes|, results[i].err;
  }

  /** One more non-empty, error-free read moves a piece from the rest of
      the loop to the gathered pieces. */
  lemma ReadLoopStep(results: seq<ReadResult>, i: nat, gathered: seq<seq<byte>>)
    requires i < |results| && !results[i].err.Broken? && results[i].bytes != []
    ensures Prefix(gathered, ReadLoop(results[i..])) ==
            Prefix(gathered + [results[i].bytes], ReadLoop(results[i + 1..]))
  {
    assert results[i..][1..] == results[i + 1..];
  }

  /** After a non-empty, error-free read, the buffer is the one the
      gathered pieces plus this read leave, and the loop's remaining
      outcome moves that piece to the gathered ones. */
  lemma GatherStep(results: seq<ReadResult>, i: nat, gathered: seq<seq<byte>>)
    requires ValidReads(results) && Bounded(gathered)
    requires i < |results| && !results[i].err.Broken? && results[i].bytes != []
    ensures Bounded(gathered + [results[i].bytes])
    ensures BufferAfter(gathered + [results[i].bytes]) == Overlay(BufferAfter(gathered), results[i].bytes)
    ensures Prefix(gathered, ReadLoop(results[i..])) ==
            Prefix(gathered + [results[i].bytes], ReadLoop(results[i + 1..]))
  {
    var qs := gathered + [results[i].bytes];
    assert qs[..|qs| - 1] == gathered;
    ReadLoopStep(results, i, gathered);
  }

  /** The loop ends normally at the first empty read or past the last result. */
  lemma ReadLoopEnd(results: seq<ReadResult>, i: nat)
    requires i <= |results|
    requires i < |results| ==> results[i].bytes == [] && !results[i].err.Broken?
    ensures ReadLoop(results[i..]) == Done([])
  {
  }

  /** Per-chunk bookkeeping of the as-written loop: Data is taken from the
      shared buffer only when the loop is over. */
  datatype Slot = Slot(hash: u64, offset: int, length: int)

  /** The bookkeeping after these pieces. */
  function SlotsOf(ps: seq<seq<byte>>): (slots: seq<Slot>)
    ensures |slots| == |ps|
  {
    seq(|ps|, k requires 0 <= k < |ps| => Slot(Rolling.HashSpec(ps[k]) as u64, |Flatten(ps[..k + 1])|, |ps[k]|))
  }

  lemma SlotsOfSnoc(ps: seq<seq<byte>>, p: seq<byte>)
    ensures SlotsOf(ps + [p]) == SlotsOf(ps) + [Slot(Rolling.HashSpec(p) as u64, |Flatten(ps)| + |p|, |p|)]
  {
    var qs := ps + [p];
    assert qs[..|ps| + 1] == qs && qs[..|ps|] == ps;
    forall k | 0 <= k < |ps|
      ensures SlotsOf(qs)[k] == SlotsOf(ps)[k]
    {
      assert qs[..k + 1] == ps[..k + 1];
    }
  }

  /** The chunks built at the end from the buffer and the bookkeeping. */
  function Materialise(buf: seq<byte>, slots: seq<Slot>): (cs: seq<Chunk>)
    requires forall k :: 0 <= k < |slots| ==> 0 <= slots[k].length <= |buf|
  {
    seq(|slots|, k requires 0 <= k < |slots| =>
      Chunk(buf[..slots[k].length], slots[k].hash, slots[k].offset, slots[k].length))
  }

  lemma MaterialiseSlots(ps: seq<seq<byte>>)
    requires Bounded(ps)
    ensures Materialise(BufferAfter(ps), SlotsOf(ps)) == AliasedChunks(ps)
  {
  }

  /** internal/pkg/chunks/chunks.go `Generate`, as written. */
  method Generate(results: seq<ReadResult>) returns (r: Result<seq<Chunk>>)
    requires ValidReads(results)
    ensures r == AsWritten(results)
  {
    var buf := new byte[ChunkSize](_ => 0);
    var slots: seq<Slot> := [];
    ghost var gathered: seq<seq<byte>> := [];
    var offset := 0;
    var i := 0;
    while true
      invariant 0 <= i <= |results|
      invariant Bounded(gathered) && buf.Length == ChunkSize
      invariant buf[..] == BufferAfter(gathered)
      invariant offset == |Flatten(gathered)|
      invariant slots == SlotsOf(gathered)
      invariant ReadLoop(results) == Prefix(gathered, ReadLoop(results[i..]))
      decreases |results| - i
    {
      var n, err := Read(buf, results, i);
      if err.Broken? {
        return Failure(err.error);
      }
      if n == 0 {
        ReadLoopEnd(results, i);
        break;
      }
      ghost var piece := results[i].bytes;
      assert buf[..n] == piece;
      var hash := Rolling.Hash(buf[..n]);
      assert hash == Rolling.HashSpec(piece) as u64;
      offset := offset + n;
      GatherStep(results, i, gathered);
      SlotsOfSnoc(gathered, piece);
      slots := slots + [Slot(hash, offset, n)];
      gathered := gathered + [piece];
      i := i + 1;
    }
    MaterialiseSlots(gathered);
    r := Success(Materialise(buf[..], slots));
    assert ReadLoop(results) == Done(gathered);
  }

  lemma CopiedChunksSnoc(ps: seq<seq<byte>>, p: seq<byte>)
    ensures CopiedChunks(ps + [p]) == CopiedChunks(ps) + [Chunk(p, Rolling.HashSpec(p) as u64, |Flatten(ps)|, |p|)]
  {
    var qs := ps + [p];
    assert qs[..|ps|] == ps;
    forall k | 0 <= k < |ps|
      ensures CopiedChunks(qs)[k] == CopiedChunks(ps)[k]
    {
      assert qs[..k] == ps[..k];
    }
  }

  /** The chunker with each chunk's Data copied out of the buffer and its
      Offset taken before it is advanced. */
  method GenerateCorrected(results: seq<ReadResult>) returns (r: Result<seq<Chunk>>)
    requires ValidReads(results)
    ensures r == Corrected(results)
  {
    var buf := new byte[ChunkSize](_ => 0);
    var chunks: seq<Chunk> := [];
    ghost var gathered: seq<seq<byte>> := [];
    var offset := 0;
    var i := 0;
    while true
      invariant 0 <= i <= |results|
      invariant buf.Length == ChunkSize
      invariant offset == |Flatten(gathered)|
      invariant chunks == CopiedChunks(gathered)
      invariant ReadLoop(results) == Prefix(gathered, ReadLoop(results[i..]))
      decreases |results| - i
    {
      var n, err := Read(buf, results, i);
      if err.Broken? {
        return Failure(err.error);
      }
      if n == 0 {
        ReadLoopEnd(results, i);
        break;
      }
      ghost var piece := results[i].bytes;
      var data := buf[..n];
      assert data == piece;
      var hash := Rolling.Hash(data);
      ReadLoopStep(results, i, gathered);
      CopiedChunksSnoc(gathered, piece);
      chunks := chunks + [Chunk(data, hash, offset, n)];
      gathered := gathered + [piece];
      offset := offset + n;
      i := i + 1;
    }
    r := Success(chunks);
    assert gathered == ReadLoop(results).pieces;
  }

  // ---------------------------------------------------------------------
  // Properties of the chunker as written

  /** |pieces 0..k| grows by |piece k| at each step. */
  lemma FlattenStep(ps: seq<seq<byte>>, k: nat)
    requires k < |ps|
    ensures |Flatten(ps[..k + 1])| == |Flatten(ps[..k])| + |ps[k]|
  {
    assert ps[..k + 1][..k] == ps[..k];
  }

  /** With non-empty pieces, prefix lengths strictly increase. */
  lemma {:induction false} FlattenPrefixGrows(ps: seq<seq<byte>>, k: nat, j: nat)
    requires k < j <= |ps|
    requires forall m :: 0 <= m < |ps| ==> ps[m] != []
    ensures |Flatten(ps[..k])| < |Flatten(ps[..j])|
    decreases j - k
  {
    FlattenStep(ps, k);
    if k + 1 < j {
      FlattenPrefixGrows(ps, k + 1, j);
    }
  }

  /** The chunker fails exactly when the read loop meets a non-EOF error,
      and returns that error unchanged; otherwise it has one chunk per
      piece, in read order, each the length and hash of its read. */
  lemma AsWrittenOutcome(results: seq<ReadResult>)
    requires ValidReads(results)
    ensures AsWritten(results).Success? <==> ReadLoop(results).Done?
    ensures AsWritten(results).Failure? ==> AsWritten(results).error == ReadLoop(results).error
    ensures AsWritten(results).Success? ==>
      var cs := AsWritten(results).value;
      |cs| == |ReadLoop(results).pieces| <= |results| &&
      forall k :: 0 <= k < |cs| ==>
        1 <= cs[k].length <= ChunkSize && cs[k].length == |results[k].bytes| &&
        cs[k].hash as int == Rolling.HashSpec(results[k].bytes)
  {
    ReadLoopCharacterisation(results);
    PiecesAreBounded(results);
  }

  /** As written, Offset is the running total including the chunk itself:
      the first is its own length and each next one adds its length. */
  lemma AsWrittenOffsets(ps: seq<seq<byte>>)
    requires Bounded(ps)
    ensures var cs := AliasedChunks(ps);
      (|cs| > 0 ==> cs[0].offset == cs[0].length) &&
      (forall k :: 0 < k < |cs| ==> cs[k].offset == cs[k - 1].offset + cs[k].length)
  {
    var cs := AliasedChunks(ps);
    forall k | 0 < k < |cs|
      ensures cs[k].offset == cs[k - 1].offset + cs[k].length
    {
      FlattenStep(ps, k);
    }
    if |cs| > 0 {
      FlattenStep(ps, 0);
    }
  }

  /** As written, offsets strictly increase and the last one is the number
      of bytes read. */
  lemma AsWrittenOffsetsIncrease(ps: seq<seq<byte>>)
    requires Bounded(ps) && forall m :: 0 <= m < |ps| ==> ps[m] != []
    ensures var cs := AliasedChunks(ps);
      (forall k, j :: 0 <= k < j < |cs| ==> cs[k].offset < cs[j].offset) &&
      (|cs| > 0 ==> cs[|cs| - 1].offset == |Flatten(ps)|)
  {
    var cs := AliasedChunks(ps);
    forall k | 0 <= k < |cs|
      ensures cs[k].offset == |Flatten(ps[..k + 1])|
    {
      AliasedOffsetAt(ps, k);
    }
    EndOffsetsIncrease(cs, ps);
  }

  /** Chunks whose offsets are the prefix ends of non-empty pieces have
      strictly increasing offsets, the last being the total length. */
  lemma EndOffsetsIncrease(cs: seq<Chunk>, ps: seq<seq<byte>>)
    requires |cs| == |ps| && forall m :: 0 <= m < |ps| ==> ps[m] != []
    requires forall k :: 0 <= k < |cs| ==> cs[k].offset == |Flatten(ps[..k + 1])|
    ensures forall k, j :: 0 <= k < j < |cs| ==> cs[k].offset < cs[j].offset
    ensures |cs| > 0 ==> cs[|cs| - 1].offset == |Flatten(ps)|
  {
    forall k, j | 0 <= k < j < |cs|
      ensures cs[k].offset < cs[j].offset
    {
      FlattenPrefixGrows(ps, k + 1, j + 1);
    }
    assert ps[..|ps|] == ps;
  }

  lemma AliasedOffsetAt(ps: seq<seq<byte>>, k: nat)
    requires Bounded(ps) && k < |ps|
    ensures AliasedChunks(ps)[k].offset == |Flatten(ps[..k + 1])|
  {
  }

  /** As written, all chunks' Data are prefixes of the one final buffer,
      so every chunk begins with the bytes of the LAST read. */
  lemma AsWrittenDataShareBuffer(ps: seq<seq<byte>>)
    requires Bounded(ps) && ps != []
    ensures var cs := AliasedChunks(ps);
      forall k, j :: 0 <= k < |cs| && 0 <= j < |cs[k].data| && j < |ps[|ps| - 1]| ==>
        cs[k].data[j] == ps[|ps| - 1][j]
  {
  }

  /** As written, on a regular file: ceil(N/8192) chunks, all but the last
      of 8192 bytes, each hashing the file's bytes from 8192·k to its
      Offset, which is where it ends (the last one at N); and every chunk's
      Data begins with the file's last block, not with its own bytes. */
  lemma AsWrittenRegularFile(content: seq<byte>)
    ensures ValidReads(FileReads(content))
    ensures AsWritten(FileReads(content)).Success?
    ensures var cs := AsWritten(FileReads(content)).value;
      |cs| == (|content| + ChunkSize - 1) / ChunkSize &&
      (forall k :: 0 <= k < |cs| - 1 ==> cs[k].length == ChunkSize) &&
      (forall k :: 0 <= k < |cs| ==>
        cs[k].offset == ChunkSize * k + cs[k].length && cs[k].offset <= |content| &&
        cs[k].hash as int == Rolling.HashSpec(content[ChunkSize * k..cs[k].offset])) &&
      (|cs| > 0 ==>
        var last := ChunkSize * (|cs| - 1);
        cs[|cs| - 1].offset == |content| &&
        forall k, j :: 0 <= k < |cs| && 0 <= j < cs[k].length && last + j < |content| ==>
          cs[k].data[j] == content[last + j])
  {
    FileReadsValid(content);
    FileReadsPieces(content);
    PiecesAreBounded(FileReads(content));
    var ps := ReadLoop(FileReads(content)).pieces;
    assert AsWritten(FileReads(content)) == Success(AliasedChunks(ps));
    AliasedFullPieces(ps, content);
  }

  /** AsWrittenRegularFile over the pieces: all but the last full, laid
      end to end they are `content`. */
  lemma AliasedFullPieces(ps: seq<seq<byte>>, content: seq<byte>)
    requires Bounded(ps) && Flatten(ps) == content
    requires forall m :: 0 <= m < |ps| - 1 ==> |ps[m]| == ChunkSize
    ensures var cs := AliasedChunks(ps);
      (forall k :: 0 <= k < |cs| - 1 ==> cs[k].length == ChunkSize) &&
      (forall k :: 0 <= k < |cs| ==>
        cs[k].offset == ChunkSize * k + cs[k].length && cs[k].offset <= |content| &&
        cs[k].hash as int == Rolling.HashSpec(content[ChunkSize * k..cs[k].offset])) &&
      (|cs| > 0 ==>
        var last := ChunkSize * (|cs| - 1);
        cs[|cs| - 1].offset == |content| &&
        forall k, j :: 0 <= k < |cs| && 0 <= j < cs[k].length && last + j < |content| ==>
          cs[k].data[j] == content[last + j])
  {
    var cs := AliasedChunks(ps);
    forall k | 0 <= k < |cs|
      ensures cs[k].offset == ChunkSize * k + cs[k].length && cs[k].offset <= |content|
      ensures cs[k].hash as int == Rolling.HashSpec(content[ChunkSize * k..cs[k].offset])
    {
      AliasedFullAt(ps, content, k);
    }
    if |cs| > 0 {
      AliasedLastBlock(ps, content);
    }
  }

  lemma AliasedFullAt(ps: seq<seq<byte>>, content: seq<byte>, k: nat)
    requires Bounded(ps) && Flatten(ps) == content && k < |ps|
    requires forall m :: 0 <= m < |ps| - 1 ==> |ps[m]| == ChunkSize
    ensures var c := AliasedChunks(ps)[k];
      c.offset == ChunkSize * k + c.length && c.offset <= |content| &&
      c.hash as int == Rolling.HashSpec(content[ChunkSize * k..c.offset])
  {
    AliasedAt(ps, k);
    FullPrefixLength(ps, k);
    FlattenStep(ps, k);
    FlattenSlice(ps, k);
  }

  lemma AliasedLastBlock(ps: seq<seq<byte>>, content: seq<byte>)
    requires Bounded(ps) && Flatten(ps) == content && ps != []
    requires forall m :: 0 <= m < |ps| - 1 ==> |ps[m]| == ChunkSize
    ensures var cs := AliasedChunks(ps);
      var last := ChunkSize * (|cs| - 1);
      cs[|cs| - 1].offset == |content| &&
      forall k, j :: 0 <= k < |cs| && 0 <= j < cs[k].length && last + j < |content| ==>
        cs[k].data[j] == content[last + j]
  {
    var cs := AliasedChunks(ps);
    var n := |ps| - 1;
    var last := ChunkSize * n;
    assert ps[..n + 1] == ps;
    AliasedAt(ps, n);
    FullPrefixLength(ps, n);
    FlattenStep(ps, n);
    FlattenSlice(ps, n);
    assert content[last..last + |ps[n]|] == ps[n];
    AsWrittenDataShareBuffer(ps);
    forall k, j | 0 <= k < |cs| && 0 <= j < cs[k].length && last + j < |content|
      ensures cs[k].data[j] == content[last + j]
    {
      assert cs[k].data[j] == ps[n][j];
    }
  }

  lemma AliasedAt(ps: seq<seq<byte>>, k: nat)
    requires Bounded(ps) && k < |ps|
    ensures AliasedChunks(ps)[k] ==
      Chunk(BufferAfter(ps)[..|ps[k]|], Rolling.HashSpec(ps[k]) as u64, |Flatten(ps[..k + 1])|, |ps[k]|)
  {
  }

  /** A file of two full blocks x·z: as written both chunks hold z, the
      last block, and end at 8192 and 16384; corrected, they hold x and z
      and start at 0 and 8192. */
  lemma TwoFullBlocks(x: seq<byte>, z: seq<byte>)
    requires |x| == ChunkSize && |z| == ChunkSize
    ensures ValidReads(FileReads(x + z))
    ensures ReadLoop(FileReads(x + z)) == Done([x, z])
    ensures AsWritten(FileReads(x + z)) == Success([
      Chunk(z, Rolling.HashSpec(x) as u64, ChunkSize, ChunkSize),
      Chunk(z, Rolling.HashSpec(z) as u64, 2 * ChunkSize, ChunkSize)])
    ensures Corrected(FileReads(x + z)) == Success([
      Chunk(x, Rolling.HashSpec(x) as u64, 0, ChunkSize),
      Chunk(z, Rolling.HashSpec(z) as u64, ChunkSize, ChunkSize)])
  {
    TwoBlockReads(x, z);
    var ps := [x, z];
    assert AsWritten(FileReads(x + z)) == Success(AliasedChunks(ps));
    assert Corrected(FileReads(x + z)) == Success(CopiedChunks(ps));
    TwoBlockAliased(x, z);
    TwoBlockCopied(x, z);
  }

  lemma TwoBlockReads(x: seq<byte>, z: seq<byte>)
    requires |x| == ChunkSize && |z| == ChunkSize
    ensures FileReads(x + z) == [ReadResult(x, NoErr), ReadResult(z, NoErr)]
    ensures ValidReads(FileReads(x + z))
    ensures ReadLoop(FileReads(x + z)) == Done([x, z])
  {
    var c := x + z;
    assert c[..ChunkSize] == x && c[ChunkSize..] == z;
    var results := [ReadResult(x, NoErr), ReadResult(z, NoErr)];
    assert FileReads(z) == [ReadResult(z, NoErr)];
    assert FileReads(c) == results;
    var tail := [ReadResult(z, NoErr)];
    assert results[1..] == tail && tail[1..] == [];
    assert x != [] && z != [];
    assert ReadLoop(tail) == Done([z]);
  }

  lemma TwoBlockAliased(x: seq<byte>, z: seq<byte>)
    requires |x| == ChunkSize && |z| == ChunkSize
    ensures Bounded([x, z])
    ensures AliasedChunks([x, z]) == [
      Chunk(z, Rolling.HashSpec(x) as u64, ChunkSize, ChunkSize),
      Chunk(z, Rolling.HashSpec(z) as u64, 2 * ChunkSize, ChunkSize)]
  {
    var ps := [x, z];
    assert ps[..1] == [x] && ps[..2] == ps;
    assert Flatten([x]) == x;
    assert |Flatten(ps)| == 2 * ChunkSize;
    assert BufferAfter([x]) == Overlay(BufferAfter([]), x);
    assert BufferAfter(ps) == Overlay(BufferAfter([x]), z) == z;
    var aliased := AliasedChunks(ps);
    assert aliased[0] == Chunk(z, Rolling.HashSpec(x) as u64, ChunkSize, ChunkSize);
    assert aliased[1] == Chunk(z, Rolling.HashSpec(z) as u64, 2 * ChunkSize, ChunkSize);
    assert aliased == [aliased[0], aliased[1]];
  }

  lemma TwoBlockCopied(x: seq<byte>, z: seq<byte>)
    requires |x| == ChunkSize && |z| == ChunkSize
    ensures CopiedChunks([x, z]) == [
      Chunk(x, Rolling.HashSpec(x) as u64, 0, ChunkSize),
      Chunk(z, Rolling.HashSpec(z) as u64, ChunkSize, ChunkSize)]
  {
    var ps := [x, z];
    assert ps[..1] == [x] && ps[..0] == [];
    assert Flatten([x]) == x;
    var copied := CopiedChunks(ps);
    assert copied[0] == Chunk(x, Rolling.HashSpec(x) as u64, 0, ChunkSize);
    assert copied[1] == Chunk(z, Rolling.HashSpec(z) as u64, ChunkSize, ChunkSize);
    assert copied == [copied[0], copied[1]];
  }

  lemma TwoShortReads()
    ensures ReadLoop([ReadResult([1], NoErr), ReadResult([2], NoErr)]) == Done([[1], [2]])
  {
    var results := [ReadResult([1], NoErr), ReadResult([2], NoErr)];
    assert results[1..][1..] == [];
  }

  lemma SmallHashes()
    ensures Rolling.HashSpec([1]) == 1 && Rolling.HashSpec([2]) == 2 && Rolling.HashSpec([7]) == 7
  {
    assert Rolling.WeightedSum([1]) == 1;
    assert Rolling.WeightedSum([2]) == 2;
    assert Rolling.WeightedSum([7]) == 7;
  }

  /** A two-read example: after the reads [1] and [2] both chunks hold [2],
      and the first chunk's Offset is 1, where it ends. */
  lemma SharedBufferExample()
    ensures AsWritten([ReadResult([1], NoErr), ReadResult([2], NoErr)]) ==
      Success([Chunk([2], 1, 1, 1), Chunk([2], 2, 2, 1)])
  {
    TwoShortReads();
    SmallHashes();
    var ps: seq<seq<byte>> := [[1], [2]];
    assert ps[..1] == [[1]] && ps[..2] == ps;
    assert Flatten([[1]]) == [1];
    assert |Flatten(ps)| == 2;
    assert BufferAfter(ps)[..1] == [2];
    assert AliasedChunks(ps) == [Chunk([2], 1, 1, 1), Chunk([2], 2, 2, 1)];
  }

  // ---------------------------------------------------------------------
  // Properties of the corrected chunker

  /** The corrected chunker fails exactly as the as-written one does; on
      success chunk k is a copy of read k, with its length and hash. */
  lemma CorrectedOutcome(results: seq<ReadResult>)
    requires ValidReads(results)
    ensures Corrected(results).Success? <==> ReadLoop(results).Done?
    ensures Corrected(results).Failure? ==> Corrected(results).error == ReadLoop(results).error
    ensures Corrected(results).Success? ==>
      var cs := Corrected(results).value;
      |cs| == |ReadLoop(results).pieces| <= |results| &&
      forall k :: 0 <= k < |cs| ==>
        cs[k].data == results[k].bytes && 1 <= cs[k].length == |cs[k].data| <= ChunkSize &&
        cs[k].hash as int == Rolling.HashSpec(cs[k].data)
  {
    ReadLoopCharacterisation(results);
    PiecesAreBounded(results);
  }

  /** Corrected: Offset is where the chunk starts, chunk 0 at 0 and each
      next one where the previous ends, and the bytes read at that position
      are the chunk's Data. */
  lemma CorrectedOffsets(ps: seq<seq<byte>>)
    ensures var cs := CopiedChunks(ps);
      (|cs| > 0 ==> cs[0].offset == 0) &&
      (forall k :: 0 < k < |cs| ==> cs[k].offset == cs[k - 1].offset + cs[k - 1].length) &&
      (forall k :: 0 <= k < |cs| ==>
        cs[k].offset + cs[k].length <= |Flatten(ps)| &&
        Flatten(ps)[cs[k].offset..cs[k].offset + cs[k].length] == cs[k].data)
  {
    var cs := CopiedChunks(ps);
    forall k | 0 < k < |cs|
      ensures cs[k].offset == cs[k - 1].offset + cs[k - 1].length
    {
      FlattenStep(ps, k - 1);
    }
    forall k | 0 <= k < |cs|
      ensures cs[k].offset + cs[k].length <= |Flatten(ps)|
      ensures Flatten(ps)[cs[k].offset..cs[k].offset + cs[k].length] == cs[k].data
    {
      FlattenSlice(ps, k);
    }
  }

  /** Pieces that are all full up to k start at 8192·k. */
  lemma {:induction false} FullPrefixLength(ps: seq<seq<byte>>, k: nat)
    requires k < |ps|
    requires forall m :: 0 <= m < |ps| - 1 ==> |ps[m]| == ChunkSize
    ensures |Flatten(ps[..k])| == ChunkSize * k
  {
    if k > 0 {
      FullPrefixLength(ps, k - 1);
      FlattenStep(ps, k - 1);
    }
  }

  /** Corrected, on a regular file: ceil(N/8192) chunks, chunk k at 8192·k,
      all but the last of 8192 bytes, each holding the file's bytes there. */
  lemma CorrectedTilesRegularFile(content: seq<byte>)
    ensures Corrected(FileReads(content)).Success?
    ensures var cs := Corrected(FileReads(content)).value;
      |cs| == (|content| + ChunkSize - 1) / ChunkSize &&
      (forall k :: 0 <= k < |cs| - 1 ==> cs[k].length == ChunkSize) &&
      (forall k :: 0 <= k < |cs| ==>
        cs[k].offset == ChunkSize * k && cs[k].offset + cs[k].length <= |content| &&
        cs[k].data == content[cs[k].offset..cs[k].offset + cs[k].length])
  {
    FileReadsPieces(content);
    var ps := ReadLoop(FileReads(content)).pieces;
    var cs := CopiedChunks(ps);
    assert Corrected(FileReads(content)) == Success(cs);
    forall k | 0 <= k < |cs|
      ensures cs[k].offset == ChunkSize * k && cs[k].offset + cs[k].length <= |content|
      ensures cs[k].data == content[cs[k].offset..cs[k].offset + cs[k].length]
    {
      assert cs[k] == Chunk(ps[k], Rolling.HashSpec(ps[k]) as u64, |Flatten(ps[..k])|, |ps[k]|);
      FullPrefixLength(ps, k);
      FlattenSlice(ps, k);
    }
  }

  // ---------------------------------------------------------------------
  // Writing chunks back at their offsets

  /** Each chunk as a positional write of its Data at its Offset. */
  function Placed(cs: seq<Chunk>): (ps: seq<Files.Patch>)
    ensures |ps| == |cs|
    ensures forall k :: 0 <= k < |cs| ==> ps[k] == Files.Patch(cs[k].offset, cs[k].data)
  {
    seq(|cs|, k requires 0 <= k < |cs| => Files.Patch(cs[k].offset, cs[k].data))
  }

  /** Writing a piece at the end of a file appends it. */
  lemma WriteAtEnd(before: seq<byte>, p: seq<byte>)
    ensures Files.WriteAtSpec(before, p, |before|) == before + p
  {
    var w := Files.WriteAtSpec(before, p, |before|);
    assert forall j :: 0 <= j < |w| ==> w[j] == (before + p)[j];
  }

  /** Corrected: writing the first k chunks at their Offsets onto an empty
      file gives back exactly the bytes of the first k reads. */
  lemma {:induction false} CorrectedChunksRebuild(ps: seq<seq<byte>>, d: Files.Disk, faults: Files.Faults, k: nat)
    requires k <= |ps| && d.content == []
    requires Files.NoFaults(faults, d.calls, k)
    ensures Files.WriteAtEach(d, faults, Placed(CopiedChunks(ps))[..k]) ==
      Files.Written(d.(content := Flatten(ps[..k]), calls := d.calls + k), None)
  {
    if k > 0 {
      var patches := Placed(CopiedChunks(ps));
      CorrectedChunksRebuild(ps, d, faults, k - 1);
      assert patches[..k][..k - 1] == patches[..k - 1];
      var before := Flatten(ps[..k - 1]);
      assert patches[..k][k - 1] == Files.Patch(|before|, ps[k - 1]);
      WriteAtEnd(before, ps[k - 1]);
      assert ps[..k][..k - 1] == ps[..k - 1];
    }
  }

  /** As written, the one-byte file [7] gives the chunk [7] with Offset 1;
      written back at its Offset onto an empty file it yields [0, 7]. The
      corrected chunk has Offset 0 and yields [7]. */
  lemma EndOffsetMisplacesData()
    ensures AsWritten(FileReads([7])) == Success([Chunk([7], 7, 1, 1)])
    ensures Files.WriteAtSpec([], [7], 1) == [0, 7]
    ensures Corrected(FileReads([7])) == Success([Chunk([7], 7, 0, 1)])
    ensures Files.WriteAtSpec([], [7], 0) == [7]
  {
    var results := FileReads([7]);
    assert results == [ReadResult([7], NoErr)];
    assert results[1..] == [];
    var ps: seq<seq<byte>> := [[7]];
    assert ReadLoop(results) == Done(ps);
    assert ps[..1] == ps && ps[..0] == [];
    assert Flatten(ps) == [7];
    assert BufferAfter(ps)[..1] == [7];
    SmallHashes();
    assert AliasedChunks(ps) == [Chunk([7], 7, 1, 1)];
    assert CopiedChunks(ps) == [Chunk([7], 7, 0, 1)];
    var w := Files.WriteAtSpec([], [7], 1);
    assert w[0] == 0 && w[1] == 7;
  }
}
