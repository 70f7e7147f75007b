/** internal/logic `Handle`: a known path is fetched, regenerated, diffed
    and rewritten with the delta; an unknown path has its signature
    generated and saved. */
module Logic {
  import opened Common
  import opened Models
  import opened Streams
  import opened Files
  import SignaturePkg
  import Chunks
  import Diff
  import Memory
  import Apply

  /** What `Handle` returns, the store it leaves, and the state of the
      original file's handle afterwards (the state `fileio.OpenFile`
      gave, or its error). */
  datatype Handled = Handled(result: Result<Option<Delta>>, store: map<Uuid, Signature>, disk: Result<Disk>)

  /** `Handle` for a path with no stored signature: generate, then `Save`
      under the fresh `id` at `now`; the delta is `nil`. */
  function HandleUnknown(m: map<Uuid, Signature>, file: FileView, stamp: SignaturePkg.Stamp,
                         id: Uuid, now: Timestamp, open: Result<Disk>): (h: Handled)
    requires ValidReads(file.results)
    ensures h.disk == open
  {
    match SignaturePkg.Generate(file, stamp)
    case Failure(e) => Handled(Failure(Wrapped("error generating signature", e)), m, open)
    case Success(sig) => Handled(Success(None), m[id := sig.(id := id, createdAt := now)], open)
  }

  /** `Handle` for a path whose stored signature is `original`: generate
      the file's signature, `Compare`, and apply the delta with
      `Changes`; the delta is returned. A file that did not open is never
      written and never recorded, and returns no delta. The delta is
      applied by the corrected `Apply.ChangesSpec`: as written, once the
      file opens and the writes succeed, `Changes` dereferences a nil
      handle (`Apply.ChangesAsWritten`) and no delta is returned. */
  function HandleKnown(m: map<Uuid, Signature>, original: Signature, file: FileView, stamp: SignaturePkg.Stamp,
                       open: Result<Disk>, faults: Faults, env: Apply.Env): (h: Handled)
    requires ValidReads(file.results)
    ensures h.disk.Success? <==> open.Success?
    ensures open.Failure? ==> h.result.Failure? && h.store == m && h.disk == open
  {
    match SignaturePkg.Generate(file, stamp)
    case Failure(e) => Handled(Failure(Wrapped("error generating signature", e)), m, open)
    case Success(updated) =>
      var delta := Diff.CompareSpec(original, updated);
      var o := Apply.ChangesSpec(delta, original.filePath, open, faults, env);
      var disk := if open.Success? then Success(Apply.ApplyWrites(open.value, faults, delta).disk) else open;
      if o.err.Some? then Handled(Failure(Wrapped("error applying changes", o.err.value)), m, disk)
      else Handled(Success(Some(delta)), Apply.StoreAfter(m, o), disk)
  }

  /** `logic.Logic`: the store it works against. */
  class Logic {
    const storage: Memory.Storage

    /** `logic.New`. */
    constructor New(storage: Memory.Storage)
      ensures this.storage == storage
    {
      this.storage := storage;
    }

    /** `(*Logic).Handle` on the file `file`. `stamp` is what
        `signature.Generate` draws, `id` and `now` what `Save` draws, and
        `handle` and `env` what `Changes` meets. Which stored signature a
        known path is compared with is whichever the store's scan finds. */
    method Handle(file: FileView, stamp: SignaturePkg.Stamp, id: Uuid, now: Timestamp,
                  handle: Result<OsFile>, env: Apply.Env) returns (r: Result<Option<Delta>>)
      requires ValidReads(file.results)
      modifies storage, (if handle.Success? then {handle.value} else {})
      ensures var m := old(storage.signatures);
        var open := if handle.Success? then Success(old(handle.value.State())) else Failure(handle.error);
        var faults := if handle.Success? then old(handle.value.faults) else map[];
        var after := Handled(r, storage.signatures, if handle.Success? then Success(handle.value.State()) else open);
        (!Memory.HasPath(m, file.name) ==> after == HandleUnknown(m, file, stamp, id, now, open)) &&
        (Memory.HasPath(m, file.name) ==>
          exists k :: k in m && m[k].filePath == file.name && after == HandleKnown(m, m[k], file, stamp, open, faults, env))
    {
      ghost var m := storage.signatures;
      ghost var open := if handle.Success? then Success(handle.value.State()) else Failure(handle.error);
      ghost var faults := if handle.Success? then handle.value.faults else map[];
      var known := storage.FileExists(file.name);
      if known {
        var original := storage.GetSignatureForFilename(file.name);
        ghost var k :| k in m && m[k] == original.value;
        var updated := SignaturePkg.Generate(file, stamp);
        if updated.Failure? {
          return Failure(Wrapped("error generating signature", updated.error));
        }
        var delta := Diff.Compare(original.value, updated.value);
        var applier := new Apply.Applier.New(delta.value, storage);
        var saved, err := applier.Changes(original.value, handle, env);
        if err.Some? {
          return Failure(Wrapped("error applying changes", err.value));
        }
        assert HandleKnown(m, m[k], file, stamp, open, faults, env).result == Success(Some(delta.value));
        return Success(Some(delta.value));
      }
      var updated := SignaturePkg.Generate(file, stamp);
      if updated.Failure? {
        return Failure(Wrapped("error generating signature", updated.error));
      }
      var saved := storage.Save(updated.value, id, now);
      return Success(None);
    }
  }

  // ---------------------------------------------------------------------
  // Properties

  /** An unknown path yields a `nil` delta and, once saved under a fresh
      ID, the store holds one entry more and knows the path, so the next
      `Handle` of the same file takes the known-path branch. */
  lemma UnknownPathIsSaved(m: map<Uuid, Signature>, file: FileView, stamp: SignaturePkg.Stamp,
                           id: Uuid, now: Timestamp, open: Result<Disk>)
    requires ValidReads(file.results) && id !in m
    ensures var h := HandleUnknown(m, file, stamp, id, now, open);
      (h.result.Success? <==> SignaturePkg.Generate(file, stamp).Success?) &&
      (h.result.Success? ==> h.result.value.None? && |h.store| == |m| + 1 && Memory.HasPath(h.store, file.name)) &&
      (h.result.Failure? ==> h.store == m)
  {
    var h := HandleUnknown(m, file, stamp, id, now, open);
    if h.result.Success? {
      var sig := SignaturePkg.Generate(file, stamp).value.(id := id, createdAt := now);
      Memory.SaveUnderFreshId(m, id, sig, file.name);
    }
  }

  /** The known-path branch never calls `Save`: the store changes only by
      the `Update` inside `Changes`, which records the regenerated
      signature of the original path stamped with `env.now`. */
  lemma KnownPathOnlyUpdates(m: map<Uuid, Signature>, original: Signature, file: FileView, stamp: SignaturePkg.Stamp,
                             open: Result<Disk>, faults: Faults, env: Apply.Env)
    requires ValidReads(file.results)
    ensures var h := HandleKnown(m, original, file, stamp, open, faults, env);
      h.store == m ||
      exists sig: Signature :: h.store == m[sig.id := sig] && sig.lastModified == env.now && sig.filePath == original.filePath
  {
    var h := HandleKnown(m, original, file, stamp, open, faults, env);
    if h.store != m {
      var updated := SignaturePkg.Generate(file, stamp).value;
      var o := Apply.ChangesSpec(Diff.CompareSpec(original, updated), original.filePath, open, faults, env);
      assert h.store == m[o.saved.value.id := o.saved.value];
    }
  }

  /** A successful known-path `Handle` returns the delta `Compare` gives
      between the stored and the freshly generated signature: no Added
      chunks and no Metadata. */
  lemma KnownPathReturnsCompare(m: map<Uuid, Signature>, original: Signature, file: FileView, stamp: SignaturePkg.Stamp,
                                open: Result<Disk>, faults: Faults, env: Apply.Env)
    requires ValidReads(file.results)
    requires HandleKnown(m, original, file, stamp, open, faults, env).result.Success?
    ensures SignaturePkg.Generate(file, stamp).Success?
    ensures var d := HandleKnown(m, original, file, stamp, open, faults, env).result.value;
      d == Some(Diff.CompareSpec(original, SignaturePkg.Generate(file, stamp).value)) &&
      d.value.added == [] && d.value.metadata == map[]
  {
  }

  /** Every failing step aborts with a wrapped error and a `nil` delta. */
  lemma FailuresAreWrapped(m: map<Uuid, Signature>, original: Signature, file: FileView, stamp: SignaturePkg.Stamp,
                           id: Uuid, now: Timestamp, open: Result<Disk>, faults: Faults, env: Apply.Env)
    requires ValidReads(file.results)
    ensures var h := HandleUnknown(m, file, stamp, id, now, open);
      h.result.Failure? ==> h.result.error.Wrapped? && h.result.error.context == "error generating signature"
    ensures var h := HandleKnown(m, original, file, stamp, open, faults, env);
      h.result.Failure? ==>
        h.result.error.Wrapped? &&
        (h.result.error.context == "error generating signature" || h.result.error.context == "error applying changes")
  {
  }

  /** A file whose bytes match the stored signature's chunks gives an empty
      Modified list: a stored signature generated from the same reads
      differs from the new one only in ID and creation time. */
  lemma UnchangedFileGivesEmptyDelta(file: FileView, s0: SignaturePkg.Stamp, stamp: SignaturePkg.Stamp)
    requires ValidReads(file.results)
    requires SignaturePkg.Generate(file, s0).Success?
    ensures SignaturePkg.Generate(file, stamp).Success?
    ensures Diff.CompareSpec(SignaturePkg.Generate(file, s0).value, SignaturePkg.Generate(file, stamp).value) ==
      Delta([], [], map[])
  {
    SignaturePkg.RegenerationDiffersInStamp(file, s0, stamp);
    Diff.CompareWithItselfIsEmpty(SignaturePkg.Generate(file, s0).value);
    assert SignaturePkg.Generate(file, stamp).value.chunks == SignaturePkg.Generate(file, s0).value.chunks;
  }

  /** What the shared buffer costs `Handle`: a file of two full blocks
      x·z rewritten as y·z gives, as written, two signatures whose chunks
      both hold z, so `Compare` reports no change although the first block
      differs; with the corrected chunker it reports that block. */
  lemma AliasingHidesChange(x: seq<byte>, y: seq<byte>, z: seq<byte>, name: string, t: Timestamp,
                            s1: SignaturePkg.Stamp, s2: SignaturePkg.Stamp)
    requires |x| == ChunkSize && |y| == ChunkSize && |z| == ChunkSize && x != y
    ensures var before, after := RegularFile(name, x + z, t), RegularFile(name, y + z, t);
      SignaturePkg.Generate(before, s1).Success? && SignaturePkg.Generate(after, s2).Success? &&
      Diff.CompareSpec(SignaturePkg.Generate(before, s1).value, SignaturePkg.Generate(after, s2).value).modified == []
    ensures var before, after := RegularFile(name, x + z, t), RegularFile(name, y + z, t);
      SignaturePkg.GenerateFixed(before, s1).Success? && SignaturePkg.GenerateFixed(after, s2).Success? &&
      Diff.CompareSpec(SignaturePkg.GenerateFixed(before, s1).value, SignaturePkg.GenerateFixed(after, s2).value).modified ==
        [SignaturePkg.GenerateFixed(after, s2).value.chunks[0]]
  {
    Chunks.TwoFullBlocks(x, z);
    Chunks.TwoFullBlocks(y, z);
    var before, after := RegularFile(name, x + z, t), RegularFile(name, y + z, t);
    var a1, a2 := SignaturePkg.Generate(before, s1).value.chunks, SignaturePkg.Generate(after, s2).value.chunks;
    assert Diff.ChangedUpTo(a1, a2, 1) == [];
    var c1, c2 := SignaturePkg.GenerateFixed(before, s1).value.chunks, SignaturePkg.GenerateFixed(after, s2).value.chunks;
    assert c1[0].data == x && c2[0].data == y && c1[1].data == c2[1].data;
    assert Diff.ChangedUpTo(c1, c2, 1) == [c2[0]];
  }
}
