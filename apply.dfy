/** internal/pkg/apply `Changes`: write a delta into the original file,
    Added chunks by sequential `Write` and then Modified chunks by
    positional `WriteAt`, regenerate the file's signature and record it
    with the store's `Update`. */
module Apply {
  import opened Common
  import opened Models
  import opened Streams
  import opened Files
  import SignaturePkg
  import Chunks
  import Rolling
  import Memory

  /** What the environment supplies after the writes: the `Stat` of the
      rewritten file (its modification time, or an error), the ID and
      time `signature.Generate` draws, and the time `Update` stamps. */
  datatype Env = Env(restat: Result<Timestamp>, stamp: SignaturePkg.Stamp, now: Timestamp)

  /** The rewritten file as `signature.Generate` sees it: its path, its
      `Stat` and the reads of its current bytes from the start. */
  function Reopened(path: string, content: seq<byte>, restat: Result<Timestamp>): (f: FileView)
    ensures f.name == path && f.results == FileReads(content) && ValidReads(f.results)
    ensures restat.Success? ==> f == RegularFile(path, content, restat.value)
    ensures restat.Failure? ==> f.stat == Failure(restat.error)
  {
    FileReadsValid(content);
    match restat
    case Failure(e) => FileView(path, Failure(e), FileReads(content))
    case Success(t) => FileView(path, Success(FileInfo(|content|, t)), FileReads(content))
  }

  const AddedContext: string := "error writing added chunk to updated file"
  const ModifiedContext: string := "error writing modified chunk to updated file"

  /** The goroutine's two write loops on a handle in state `d`: the first
      failing write ends them with its error wrapped by the loop's
      message: Added failures by `AddedContext`, and Modified chunks are
      written only when every Added chunk was. */
  function ApplyWrites(d: Disk, faults: Faults, delta: Delta): (w: Written)
    ensures var wa := WriteEach(d, faults, Chunks.Placed(delta.added));
      (w.failure.Some? ==>
         w.failure.value.Wrapped? &&
         (w.failure.value.context == AddedContext <==> wa.failure.Some?) &&
         (w.failure.value.context == ModifiedContext <==> wa.failure.None?)) &&
      (w.failure.None? ==> wa.failure.None? && w == WriteAtEach(wa.disk, faults, Chunks.Placed(delta.modified)))
  {
    var wa := WriteEach(d, faults, Chunks.Placed(delta.added));
    if wa.failure.Some? then Written(wa.disk, Some(Wrapped(AddedContext, wa.failure.value)))
    else
      var wm := WriteAtEach(wa.disk, faults, Chunks.Placed(delta.modified));
      if wm.failure.Some? then Written(wm.disk, Some(Wrapped(ModifiedContext, wm.failure.value)))
      else wm
  }

  /** What `Changes` returns: the returned signature (None for `nil`) and
      the error. */
  datatype Outcome = Outcome(saved: Option<Signature>, err: Option<Error>)

  /** `Changes` on the original file at `path`, whose opening gave
      `open` (the handle's state, or the error): an open or write failure
      gives `nil` and "error applying changes"; otherwise the rewritten
      file is regenerated, a failure there giving the empty signature and
      "error generating signature", and the new signature is returned
      with LastModified stamped by `Update`. */
  function ChangesSpec(delta: Delta, path: string, open: Result<Disk>, faults: Faults, env: Env): (o: Outcome)
    ensures open.Failure? ==> o.saved.None? && o.err.Some?
    ensures o.err.None? ==> o.saved.Some? && o.saved.value.lastModified == env.now && o.saved.value.filePath == path
  {
    match open
    case Failure(e) => Outcome(None, Some(Wrapped("error applying changes", Wrapped("error opening original file", e))))
    case Success(d) =>
      var w := ApplyWrites(d, faults, delta);
      if w.failure.Some? then Outcome(None, Some(Wrapped("error applying changes", w.failure.value)))
      else
        match SignaturePkg.Generate(Reopened(path, w.disk.content, env.restat), env.stamp)
        case Failure(e) => Outcome(Some(EmptySignature), Some(Wrapped("error generating signature", e)))
        case Success(sig) => Outcome(Some(sig.(lastModified := env.now)), None)
  }

  /** How `Changes` as written ends: it returns an outcome, or it
      dereferences a nil `*os.File`. */
  datatype Ending = Returned(outcome: Outcome) | NilHandlePanic

  /** `Changes` as written. Inside the goroutine `original, err :=`
      declares a second `original`; the function's own `original` stays
      nil, so once the writes succeed, `original.Name()` in the log line
      after `g.Wait()` dereferences nil before anything is regenerated. */
  function ChangesAsWritten(delta: Delta, path: string, open: Result<Disk>, faults: Faults): (e: Ending)
    ensures e.Returned? ==> e.outcome.saved.None? && e.outcome.err.Some?
  {
    match open
    case Failure(err) => Returned(Outcome(None, Some(Wrapped("error applying changes", Wrapped("error opening original file", err)))))
    case Success(d) =>
      var w := ApplyWrites(d, faults, delta);
      if w.failure.Some? then Returned(Outcome(None, Some(Wrapped("error applying changes", w.failure.value))))
      else NilHandlePanic
  }

  /** As written, `Changes` never returns a signature: it either fails
      before regenerating, as the corrected `ChangesSpec` does, or panics
      exactly where `ChangesSpec` goes on to regenerate. */
  lemma ChangesAsWrittenNeverRegenerates(delta: Delta, path: string, open: Result<Disk>, faults: Faults, env: Env)
    ensures ChangesAsWritten(delta, path, open, faults).NilHandlePanic? <==>
      ChangesSpec(delta, path, open, faults, env).saved.Some?
    ensures ChangesAsWritten(delta, path, open, faults).Returned? ==>
      ChangesAsWritten(delta, path, open, faults).outcome == ChangesSpec(delta, path, open, faults, env)
  {
  }

  /** The smallest case: an empty delta on a file that opened writes
      nothing and fails nothing, so as written `Changes` panics, where the
      corrected one regenerates and returns the file's signature. */
  lemma EmptyDeltaPanics(path: string, d: Disk, faults: Faults, env: Env)
    ensures ChangesAsWritten(Delta([], [], map[]), path, Success(d), faults) == NilHandlePanic
    ensures ChangesSpec(Delta([], [], map[]), path, Success(d), faults, env).saved.Some?
  {
    assert Chunks.Placed([]) == [];
  }

  /** The store after `Changes`: the new signature inserted under its own
      ID when everything succeeded, otherwise untouched. */
  function StoreAfter(m: map<Uuid, Signature>, o: Outcome): map<Uuid, Signature>
  {
    if o.err.None? && o.saved.Some? then m[o.saved.value.id := o.saved.value] else m
  }

  /** `for _, chunk := range chunks { f.Write(chunk.Data) }`, stopping at
      the first error. */
  method WriteAll(f: OsFile, chunks: seq<Chunk>) returns (err: Option<Error>)
    modifies f
    ensures Written(f.State(), err) == WriteEach(old(f.State()), old(f.faults), Chunks.Placed(chunks))
    ensures f.faults == old(f.faults)
  {
    ghost var d0 := f.State();
    var patches := Chunks.Placed(chunks);
    for i := 0 to |chunks|
      invariant f.faults == old(f.faults)
      invariant Written(f.State(), None) == WriteEach(d0, f.faults, patches[..i])
    {
      assert patches[..i + 1][..i] == patches[..i];
      err := f.Write(chunks[i].data);
      if err.Some? {
        WriteEachStopsAtFailure(d0, f.faults, patches, i + 1);
        return;
      }
    }
    assert patches[..|chunks|] == patches;
    return None;
  }

  /** `for _, chunk := range chunks { f.WriteAt(chunk.Data, chunk.Offset) }`,
      stopping at the first error. */
  method WriteAtAll(f: OsFile, chunks: seq<Chunk>) returns (err: Option<Error>)
    modifies f
    ensures Written(f.State(), err) == WriteAtEach(old(f.State()), old(f.faults), Chunks.Placed(chunks))
    ensures f.faults == old(f.faults)
  {
    ghost var d0 := f.State();
    var patches := Chunks.Placed(chunks);
    for i := 0 to |chunks|
      invariant f.faults == old(f.faults)
      invariant Written(f.State(), None) == WriteAtEach(d0, f.faults, patches[..i])
    {
      assert patches[..i + 1][..i] == patches[..i];
      err := f.WriteAt(chunks[i].data, chunks[i].offset);
      if err.Some? {
        WriteAtEachStopsAtFailure(d0, f.faults, patches, i + 1);
        return;
      }
    }
    assert patches[..|chunks|] == patches;
    return None;
  }

  /** `apply.Apply`: the delta to apply and the store to record the
      result in. */
  class Applier {
    const delta: Delta
    const storage: Memory.Storage

    /** `apply.New`. */
    constructor New(delta: Delta, storage: Memory.Storage)
      ensures this.delta == delta && this.storage == storage
    {
      this.delta := delta;
      this.storage := storage;
    }

    /** `(*Apply).Changes`. `handle` is what `fileio.OpenFile` gave for
        the original signature's path. */
    method Changes(originalSig: Signature, handle: Result<OsFile>, env: Env) returns (saved: Option<Signature>, err: Option<Error>)
      modifies storage, (if handle.Success? then {handle.value} else {})
      ensures Outcome(saved, err) == ChangesSpec(delta, originalSig.filePath,
        if handle.Success? then Success(old(handle.value.State())) else Failure(handle.error),
        if handle.Success? then old(handle.value.faults) else map[], env)
      ensures handle.Success? ==>
        handle.value.State() == ApplyWrites(old(handle.value.State()), old(handle.value.faults), delta).disk
      ensures storage.signatures == StoreAfter(old(storage.signatures), Outcome(saved, err))
    {
      if handle.Failure? {
        return None, Some(Wrapped("error applying changes", Wrapped("error opening original file", handle.error)));
      }
      var f := handle.value;
      ghost var d0 := f.State();
      var e := WriteAll(f, delta.added);
      if e.Some? {
        return None, Some(Wrapped("error applying changes", Wrapped(AddedContext, e.value)));
      }
      e := WriteAtAll(f, delta.modified);
      if e.Some? {
        return None, Some(Wrapped("error applying changes", Wrapped(ModifiedContext, e.value)));
      }
      assert f.State() == ApplyWrites(d0, old(f.faults), delta).disk;
      var regenerated := SignaturePkg.Generate(Reopened(originalSig.filePath, f.content, env.restat), env.stamp);
      if regenerated.Failure? {
        return Some(EmptySignature), Some(Wrapped("error generating signature", regenerated.error));
      }
      var s := storage.Update(regenerated.value, env.now);
      return Some(s), None;
    }
  }

  // ---------------------------------------------------------------------
  // Properties

  /** Sequential writes ignore the chunks' Offset: only their Data and
      order matter. */
  lemma {:induction false} WriteEachIgnoresOffsets(d: Disk, faults: Faults, ps: seq<Patch>, qs: seq<Patch>)
    requires |ps| == |qs| && forall k :: 0 <= k < |ps| ==> ps[k].data == qs[k].data
    ensures WriteEach(d, faults, ps) == WriteEach(d, faults, qs)
  {
    if ps != [] {
      WriteEachIgnoresOffsets(d, faults, ps[..|ps| - 1], qs[..|qs| - 1]);
    }
  }

  /** Added chunks land back to back from the cursor whatever their
      Offset says: replacing their offsets changes nothing. */
  lemma AddedOffsetsIgnored(d: Disk, faults: Faults, delta: Delta, offsets: seq<int>)
    requires |offsets| == |delta.added|
    ensures var moved := seq(|offsets|, k requires 0 <= k < |offsets| => delta.added[k].(offset := offsets[k]));
      ApplyWrites(d, faults, delta) == ApplyWrites(d, faults, delta.(added := moved))
  {
    var moved := seq(|offsets|, k requires 0 <= k < |offsets| => delta.added[k].(offset := offsets[k]));
    WriteEachIgnoresOffsets(d, faults, Chunks.Placed(delta.added), Chunks.Placed(moved));
  }

  /** The handle after the Added data have gone in one run from the cursor. */
  function AfterAdded(d: Disk, delta: Delta): Disk
  {
    var joined := Joined(Chunks.Placed(delta.added));
    Disk(WriteAtSpec(d.content, joined, d.cursor), d.cursor + |joined|, d.calls + |delta.added|)
  }

  /** With no injected fault and no negative Offset, every write succeeds:
      the Added data go in one run from the cursor, then each Modified
      chunk at its Offset, and the handle has served one call per chunk. */
  lemma ApplyWritesUnfaulted(d: Disk, faults: Faults, delta: Delta)
    requires NoFaults(faults, d.calls, |delta.added| + |delta.modified|)
    requires forall k :: 0 <= k < |delta.modified| ==> delta.modified[k].offset >= 0
    ensures WriteEach(d, faults, Chunks.Placed(delta.added)) ==
      Written(AfterAdded(d, delta), None)
    ensures ApplyWrites(d, faults, delta) == WriteAtEach(AfterAdded(d, delta), faults, Chunks.Placed(delta.modified))
    ensures ApplyWrites(d, faults, delta).failure.None?
    ensures ApplyWrites(d, faults, delta).disk ==
      AfterAdded(d, delta).(content := ApplyWrites(d, faults, delta).disk.content,
                            calls := d.calls + |delta.added| + |delta.modified|)
    ensures |ApplyWrites(d, faults, delta).disk.content| ==
      MaxEnd(|AfterAdded(d, delta).content|, Chunks.Placed(delta.modified))
  {
    var added := Chunks.Placed(delta.added);
    var modified := Chunks.Placed(delta.modified);
    assert NoFaults(faults, d.calls, |added|);
    WriteEachBackToBack(d, faults, added);
    var d1 := AfterAdded(d, delta);
    assert NoFaults(faults, d1.calls, |modified|);
    WriteAtEachSucceeds(d1, faults, modified);
  }

  /** The first failing Added write ends `Changes`: no later chunk is
      written and its error is returned, wrapped. */
  lemma AddedFailureStops(d: Disk, faults: Faults, delta: Delta, i: nat)
    requires i <= |delta.added|
    requires WriteEach(d, faults, Chunks.Placed(delta.added)[..i]).failure.Some?
    ensures var w := WriteEach(d, faults, Chunks.Placed(delta.added)[..i]);
      ApplyWrites(d, faults, delta) == Written(w.disk, Some(Wrapped(AddedContext, w.failure.value)))
  {
    WriteEachStopsAtFailure(d, faults, Chunks.Placed(delta.added), i);
  }

  /** After the Added writes succeed, the first failing Modified write
      ends `Changes` the same way. */
  lemma ModifiedFailureStops(d: Disk, faults: Faults, delta: Delta, i: nat)
    requires WriteEach(d, faults, Chunks.Placed(delta.added)).failure.None?
    requires i <= |delta.modified|
    requires WriteAtEach(WriteEach(d, faults, Chunks.Placed(delta.added)).disk, faults, Chunks.Placed(delta.modified)[..i]).failure.Some?
    ensures var w := WriteAtEach(WriteEach(d, faults, Chunks.Placed(delta.added)).disk, faults, Chunks.Placed(delta.modified)[..i]);
      ApplyWrites(d, faults, delta) == Written(w.disk, Some(Wrapped(ModifiedContext, w.failure.value)))
  {
    WriteAtEachStopsAtFailure(WriteEach(d, faults, Chunks.Placed(delta.added)).disk, faults, Chunks.Placed(delta.modified), i);
  }

  lemma {:induction false} WriteEachNeverShrinks(d: Disk, faults: Faults, ps: seq<Patch>)
    ensures |WriteEach(d, faults, ps).disk.content| >= |d.content|
  {
    if ps != [] {
      WriteEachNeverShrinks(d, faults, ps[..|ps| - 1]);
    }
  }

  lemma {:induction false} WriteAtEachNeverShrinks(d: Disk, faults: Faults, ps: seq<Patch>)
    ensures |WriteAtEach(d, faults, ps).disk.content| >= |d.content|
  {
    if ps != [] {
      WriteAtEachNeverShrinks(d, faults, ps[..|ps| - 1]);
    }
  }

  /** The original file is opened, not truncated: `Changes` never makes it
      shorter, so a delta for a shorter file leaves the old tail behind. */
  lemma ChangesNeverShrinks(d: Disk, faults: Faults, delta: Delta)
    ensures |ApplyWrites(d, faults, delta).disk.content| >= |d.content|
  {
    var wa := WriteEach(d, faults, Chunks.Placed(delta.added));
    WriteEachNeverShrinks(d, faults, Chunks.Placed(delta.added));
    WriteAtEachNeverShrinks(wa.disk, faults, Chunks.Placed(delta.modified));
  }

  /** A successful `Changes` returns the signature of the bytes it wrote,
      cut by the chunker as written: path as opened, size the file's
      length, ceil(N/8192) chunks, all but the last of 8192 bytes, chunk k
      hashing the bytes from 8192·k up to its Offset, which is where it
      ends; ID from the regeneration, and LastModified stamped by
      `Update`. */
  lemma ChangesRecordsWrittenContent(delta: Delta, path: string, d: Disk, faults: Faults, env: Env)
    requires ChangesSpec(delta, path, Success(d), faults, env).err.None?
    ensures env.restat.Success?
    ensures var c := ApplyWrites(d, faults, delta).disk.content;
      var sig := ChangesSpec(delta, path, Success(d), faults, env).saved.value;
      ApplyWrites(d, faults, delta).failure.None? &&
      sig.id == env.stamp.id && sig.createdAt == env.stamp.at && sig.lastModified == env.now &&
      sig.filePath == path && sig.fileSize == |c| &&
      |sig.chunks| == (|c| + ChunkSize - 1) / ChunkSize &&
      (forall k :: 0 <= k < |sig.chunks| - 1 ==> sig.chunks[k].length == ChunkSize) &&
      forall k :: 0 <= k < |sig.chunks| ==>
        sig.chunks[k].offset == ChunkSize * k + sig.chunks[k].length &&
        sig.chunks[k].offset <= |c| &&
        sig.chunks[k].hash as int == Rolling.HashSpec(c[ChunkSize * k..sig.chunks[k].offset])
  {
    var c := ApplyWrites(d, faults, delta).disk.content;
    SignaturePkg.GenerateRegularFile(path, c, env.restat.value, env.stamp);
  }

  /** Every failure is wrapped: write and open failures as "error applying
      changes" with no signature, a regeneration failure as "error
      generating signature" with the empty signature. */
  lemma ChangesErrorsAreWrapped(delta: Delta, path: string, open: Result<Disk>, faults: Faults, env: Env)
    requires ChangesSpec(delta, path, open, faults, env).err.Some?
    ensures var o := ChangesSpec(delta, path, open, faults, env);
      o.err.value.Wrapped? &&
      (o.err.value.context == "error applying changes" <==> o.saved.None?) &&
      (o.err.value.context == "error generating signature" <==> o.saved == Some(EmptySignature))
  {
  }
}
