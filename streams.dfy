/** The reading side of an `*os.File` as the chunkers see it: a sequence
    of `Read(buf)` results for an 8192-byte buffer, the read loop of
    internal/pkg/chunks/chunks.go that turns them into pieces, `Stat`, and
    the results a regular file gives. */
module Streams {
  import opened Common

  /** `chunkSize`: the length of the buffer every chunker reads into. */
  const ChunkSize: nat := 8192

  /** The error half of a `Read` result. */
  datatype ReadErr = NoErr | Eof | Broken(error: Error)

  /** One `n, err := file.Read(buf)`: the n bytes placed at the front of
      `buf`, and the error. A reader asked again after its last result
      answers `(0, io.EOF)`. */
  datatype ReadResult = ReadResult(bytes: seq<byte>, err: ReadErr)

  /** `Read` never places more than `len(buf)` bytes. */
  predicate ValidReads(results: seq<ReadResult>)
  {
    forall i :: 0 <= i < |results| ==> |results[i].bytes| <= ChunkSize
  }

  /** The byte slices the read loop turns into chunks, one per non-empty
      read, or the error that ends the loop. */
  datatype Pieces = Done(pieces: seq<seq<byte>>) | Broke(error: Error)

  /** The loop `for { n, err := file.Read(buf); if err != nil && err != io.EOF
      { return nil, err }; if n == 0 { break }; ... }`: a non-EOF error ends it
      whatever came before, the first empty read ends it normally, and every
      other read contributes its bytes, even one that also reports EOF. */
  function ReadLoop(results: seq<ReadResult>): (p: Pieces)
  {
    if results == [] then Done([])
    else if results[0].err.Broken? then Broke(results[0].err.error)
    else if results[0].bytes == [] then Done([])
    else
      match ReadLoop(results[1..])
      case Done(ps) => Done([results[0].bytes] + ps)
      case Broke(e) => Broke(e)
  }

  /** `pieces` gathered so far, followed by what the rest of the loop yields. */
  function Prefix(gathered: seq<seq<byte>>, rest: Pieces): Pieces
  {
    match rest
    case Done(ps) => Done(gathered + ps)
    case Broke(e) => Broke(e)
  }

  /** The bytes of the pieces laid end to end. */
  function Flatten(ps: seq<seq<byte>>): (s: seq<byte>)
  {
    if ps == [] then [] else Flatten(ps[..|ps| - 1]) + ps[|ps| - 1]
  }

  /** The results of reading a regular file with this content from its
      start into an 8192-byte buffer: full buffers, then the remainder. */
  function FileReads(content: seq<byte>): (results: seq<ReadResult>)
    decreases |content|
  {
    if content == [] then []
    else if |content| <= ChunkSize then [ReadResult(content, NoErr)]
    else [ReadResult(content[..ChunkSize], NoErr)] + FileReads(content[ChunkSize..])
  }

  /** What `file.Stat()` reports. */
  datatype FileInfo = FileInfo(size: int, modTime: Timestamp)

  /** A file handle opened for reading: its `Name()`, its `Stat()` result
      and the results its successive `Read` calls give. */
  datatype FileView = FileView(name: string, stat: Result<FileInfo>, results: seq<ReadResult>)

  /** A freshly opened regular file with this content. */
  function RegularFile(name: string, content: seq<byte>, modTime: Timestamp): (f: FileView)
    ensures f.stat == Success(FileInfo(|content|, modTime))
    ensures ValidReads(f.results)
  {
    FileReadsValid(content);
    FileView(name, Success(FileInfo(|content|, modTime)), FileReads(content))
  }

  // ---------------------------------------------------------------------
  // Properties of the read loop

  /** What the read loop yields, stated without recursion: on success, the
      bytes of the first |ps| results, all non-empty and error-free, and then
      either the end of the results or an empty read; on failure, the first
      read that is not a plain non-empty read carries that error. */
  lemma {:induction false} ReadLoopCharacterisation(results: seq<ReadResult>)
    ensures ReadLoop(results).Done? ==>
      var ps := ReadLoop(results).pieces;
      |ps| <= |results| &&
      (forall k :: 0 <= k < |ps| ==> ps[k] == results[k].bytes && ps[k] != [] && !results[k].err.Broken?) &&
      (|ps| < |results| ==> results[|ps|].bytes == [] && !results[|ps|].err.Broken?)
    ensures ReadLoop(results).Broke? ==>
      exists j :: 0 <= j < |results| && results[j].err == Broken(ReadLoop(results).error) &&
        forall k :: 0 <= k < j ==> results[k].bytes != [] && !results[k].err.Broken?
  {
    if ReadLoop(results).Done? {
      ReadLoopDone(results);
    } else {
      var j := ReadLoopBroke(results);
    }
  }

  lemma {:induction false} ReadLoopDone(results: seq<ReadResult>)
    requires ReadLoop(results).Done?
    ensures var ps := ReadLoop(results).pieces;
      |ps| <= |results| &&
      (forall k :: 0 <= k < |ps| ==> ps[k] == results[k].bytes && ps[k] != [] && !results[k].err.Broken?) &&
      (|ps| < |results| ==> results[|ps|].bytes == [] && !results[|ps|].err.Broken?)
  {
    if results != [] && !results[0].err.Broken? && results[0].bytes != [] {
      var tail := results[1..];
      ReadLoopDone(tail);
      var qs := ReadLoop(tail).pieces;
      var ps := ReadLoop(results).pieces;
      assert ps == [results[0].bytes] + qs;
      forall k | 1 <= k < |ps|
        ensures ps[k] == results[k].bytes && ps[k] != [] && !results[k].err.Broken?
      {
        assert ps[k] == qs[k - 1] && results[k] == tail[k - 1];
      }
      if |ps| < |results| {
        assert results[|ps|] == tail[|qs|];
      }
    }
  }

  /** The index of the read whose error ends the loop. */
  lemma {:induction false} ReadLoopBroke(results: seq<ReadResult>) returns (j: nat)
    requires ReadLoop(results).Broke?
    ensures j < |results| && results[j].err == Broken(ReadLoop(results).error)
    ensures forall k :: 0 <= k < j ==> results[k].bytes != [] && !results[k].err.Broken?
  {
    if results[0].err.Broken? {
      return 0;
    }
    var tail := results[1..];
    var t := ReadLoopBroke(tail);
    forall k | 1 <= k < t + 1
      ensures results[k].bytes != [] && !results[k].err.Broken?
    {
      assert results[k] == tail[k - 1];
    }
    j := t + 1;
    assert results[j] == tail[t];
  }

  /** Every piece is one non-empty read of at most 8192 bytes: the rolling
      hash is never asked for the hash of an empty slice. */
  lemma {:induction false} PiecesAreBounded(results: seq<ReadResult>)
    requires ValidReads(results)
    ensures ReadLoop(results).Done? ==>
      forall k :: 0 <= k < |ReadLoop(results).pieces| ==> 1 <= |ReadLoop(results).pieces[k]| <= ChunkSize
  {
    ReadLoopCharacterisation(results);
  }

  /** An empty first read ends the loop with no pieces, even when it
      reports no error. */
  lemma EmptyFirstRead(results: seq<ReadResult>)
    requires results != [] && results[0].bytes == [] && !results[0].err.Broken?
    ensures ReadLoop(results) == Done([])
  {
  }

  /** A non-EOF error discards the pieces read before it. */
  lemma {:induction false} ErrorDiscardsPieces(good: seq<seq<byte>>, e: Error, rest: seq<ReadResult>)
    requires forall k :: 0 <= k < |good| ==> good[k] != []
    ensures ReadLoop(seq(|good|, k requires 0 <= k < |good| => ReadResult(good[k], NoErr))
                     + [ReadResult([], Broken(e))] + rest) == Broke(e)
  {
    var results := seq(|good|, k requires 0 <= k < |good| => ReadResult(good[k], NoErr))
                 + [ReadResult([], Broken(e))] + rest;
    if good != [] {
      var tail := good[1..];
      ErrorDiscardsPieces(tail, e, rest);
      assert results[1..] == seq(|tail|, k requires 0 <= k < |tail| => ReadResult(tail[k], NoErr))
                           + [ReadResult([], Broken(e))] + rest;
    }
  }

  // ---------------------------------------------------------------------
  // Regular files

  lemma {:induction false} FlattenCons(p: seq<byte>, ps: seq<seq<byte>>)
    ensures Flatten([p] + ps) == p + Flatten(ps)
    decreases |ps|
  {
    if ps != [] {
      var init := ps[..|ps| - 1];
      FlattenCons(p, init);
      assert ([p] + ps)[..|ps|] == [p] + init;
    } else {
      assert Flatten([p]) == Flatten([]) + p;
    }
  }

  lemma {:induction false} FlattenAppend(a: seq<seq<byte>>, b: seq<seq<byte>>)
    ensures Flatten(a + b) == Flatten(a) + Flatten(b)
    decreases |b|
  {
    if b == [] {
      assert a + b == a;
    } else {
      var init := b[..|b| - 1];
      FlattenAppend(a, init);
      assert (a + b)[..|a + b| - 1] == a + init && (a + b)[|a + b| - 1] == b[|b| - 1];
      assert Flatten(a + b) == Flatten(a + init) + b[|b| - 1];
      assert Flatten(b) == Flatten(init) + b[|b| - 1];
    }
  }

  /** Piece k sits in the flattened bytes right after pieces 0..k-1. */
  lemma FlattenSlice(ps: seq<seq<byte>>, k: nat)
    requires k < |ps|
    ensures |Flatten(ps[..k])| + |ps[k]| <= |Flatten(ps)|
    ensures Flatten(ps)[|Flatten(ps[..k])|..|Flatten(ps[..k])| + |ps[k]|] == ps[k]
  {
    assert ps == ps[..k + 1] + ps[k + 1..];
    FlattenAppend(ps[..k + 1], ps[k + 1..]);
    assert ps[..k + 1][..k] == ps[..k];
  }

  lemma {:induction false} FileReadsValid(content: seq<byte>)
    ensures ValidReads(FileReads(content))
    decreases |content|
  {
    if |content| > ChunkSize {
      FileReadsValid(content[ChunkSize..]);
    }
  }

  /** Reading a regular file yields ceil(N/8192) pieces, all but the last
      of exactly 8192 bytes, which laid end to end are the file. */
  lemma {:induction false} FileReadsPieces(content: seq<byte>)
    ensures ReadLoop(FileReads(content)).Done?
    ensures Flatten(ReadLoop(FileReads(content)).pieces) == content
    ensures |ReadLoop(FileReads(content)).pieces| == (|content| + ChunkSize - 1) / ChunkSize
    ensures forall k :: 0 <= k < |ReadLoop(FileReads(content)).pieces| - 1 ==>
      |ReadLoop(FileReads(content)).pieces[k]| == ChunkSize
    decreases |content|
  {
    if content == [] {
    } else if |content| <= ChunkSize {
      assert FileReads(content)[1..] == [];
      assert Flatten([content]) == Flatten([]) + content;
    } else {
      var head, tail := content[..ChunkSize], content[ChunkSize..];
      FileReadsPieces(tail);
      var ps := ReadLoop(FileReads(tail)).pieces;
      assert FileReads(content)[1..] == FileReads(tail);
      assert ReadLoop(FileReads(content)).pieces == [head] + ps;
      FlattenCons(head, ps);
      assert head + tail == content;
    }
  }
}
