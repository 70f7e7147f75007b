/** apply.go `Apply`: create (or truncate) the file at the path, write
    every Modified chunk and then every Added chunk at its Start, and
    stop at the first failing call. */
module LegacyApply {
  import opened Common
  import opened Files
  import opened LegacyModels

  /** Each chunk as a positional write of its Data at its Start. */
  function Placed(cs: seq<Chunk>): (ps: seq<Patch>)
    ensures |ps| == |cs|
    ensures forall k :: 0 <= k < |cs| ==> ps[k] == Patch(cs[k].start, cs[k].data)
  {
    seq(|cs|, k requires 0 <= k < |cs| => Patch(cs[k].start, cs[k].data))
  }

  /** The error `Apply` returns, if any, and the bytes the file at the
      path holds afterwards. */
  datatype Applied = Applied(err: Option<Error>, content: seq<byte>)

  /** `Apply` on a file that held `previous`, where `os.Create` gave a
      handle whose write calls meet `faults`, or failed: a creation
      failure returns its error and leaves the file alone; otherwise the
      writes start from an empty file and the first failure is returned
      unwrapped. */
  function ApplySpec(previous: seq<byte>, create: Result<Faults>, delta: Delta): (a: Applied)
    ensures create.Failure? ==> a == Applied(Some(create.error), previous)
    ensures a.err.None? ==> create.Success?
  {
    match create
    case Failure(e) => Applied(Some(e), previous)
    case Success(faults) =>
      var wm := WriteAtEach(Disk([], 0, 0), faults, Placed(delta.modified));
      if wm.failure.Some? then Applied(wm.failure, wm.disk.content)
      else
        var wa := WriteAtEach(wm.disk, faults, Placed(delta.added));
        Applied(wa.failure, wa.disk.content)
  }

  /** `for _, c := range chunks { if _, err := f.WriteAt(c.Data, c.Start); err != nil { return err } }`. */
  method WriteAtAll(f: OsFile, chunks: seq<Chunk>) returns (err: Option<Error>)
    modifies f
    ensures Written(f.State(), err) == WriteAtEach(old(f.State()), old(f.faults), Placed(chunks))
    ensures f.faults == old(f.faults)
  {
    ghost var d0 := f.State();
    var patches := Placed(chunks);
    for i := 0 to |chunks|
      invariant f.faults == old(f.faults)
      invariant Written(f.State(), None) == WriteAtEach(d0, f.faults, patches[..i])
    {
      assert patches[..i + 1][..i] == patches[..i];
      err := f.WriteAt(chunks[i].data, chunks[i].start);
      if err.Some? {
        WriteAtEachStopsAtFailure(d0, f.faults, patches, i + 1);
        return;
      }
    }
    assert patches[..|chunks|] == patches;
    return None;
  }

  /** `Apply(path, delta)`. The file's bytes afterwards are returned in
      `content`. */
  method Apply(path: string, previous: seq<byte>, create: Result<Faults>, delta: Delta)
    returns (err: Option<Error>, content: seq<byte>)
    ensures Applied(err, content) == ApplySpec(previous, create, delta)
  {
    if create.Failure? {
      return Some(create.error), previous;
    }
    var file := new OsFile.Create(path, create.value);
    err := WriteAtAll(file, delta.modified);
    if err.Some? {
      return err, file.content;
    }
    err := WriteAtAll(file, delta.added);
    return err, file.content;
  }

  // ---------------------------------------------------------------------
  // Properties

  /** Positional writes in two runs are one run over both lists. */
  lemma {:induction false} WriteAtEachAppend(d: Disk, faults: Faults, ps: seq<Patch>, qs: seq<Patch>)
    requires WriteAtEach(d, faults, ps).failure.None?
    ensures WriteAtEach(d, faults, ps + qs) == WriteAtEach(WriteAtEach(d, faults, ps).disk, faults, qs)
    decreases |qs|
  {
    if qs == [] {
      assert ps + qs == ps;
    } else {
      assert (ps + qs)[..|ps + qs| - 1] == ps + qs[..|qs| - 1];
      WriteAtEachAppend(d, faults, ps, qs[..|qs| - 1]);
    }
  }

  /** Once the file is created, `Apply` is one fold of positional writes
      over Modified then Added, starting from the empty file: nothing of
      the previous content survives. */
  lemma ApplyIsOneFold(previous: seq<byte>, faults: Faults, delta: Delta)
    ensures var w := WriteAtEach(Disk([], 0, 0), faults, Placed(delta.modified) + Placed(delta.added));
      ApplySpec(previous, Success(faults), delta) == Applied(w.failure, w.disk.content)
  {
    var wm := WriteAtEach(Disk([], 0, 0), faults, Placed(delta.modified));
    if wm.failure.Some? {
      WriteAtEachStopsAtFailure(Disk([], 0, 0), faults, Placed(delta.modified) + Placed(delta.added), |delta.modified|);
      assert (Placed(delta.modified) + Placed(delta.added))[..|delta.modified|] == Placed(delta.modified);
    } else {
      WriteAtEachAppend(Disk([], 0, 0), faults, Placed(delta.modified), Placed(delta.added));
    }
  }

  /** The previous content never matters once `os.Create` succeeds. */
  lemma TruncationForgetsPrevious(p1: seq<byte>, p2: seq<byte>, faults: Faults, delta: Delta)
    ensures ApplySpec(p1, Success(faults), delta) == ApplySpec(p2, Success(faults), delta)
  {
  }

  /** With no injected fault and no negative Start, `Apply` succeeds, the
      file's length is the largest Start + |Data| over the non-empty
      chunks (0 if there are none), and each byte is that of the last
      chunk covering it, or 0 in a gap: the later write wins. */
  lemma ApplyUnfaulted(faults: Faults, delta: Delta, j: int)
    requires NoFaults(faults, 0, |delta.modified| + |delta.added|)
    requires forall k :: 0 <= k < |delta.modified| ==> delta.modified[k].start >= 0
    requires forall k :: 0 <= k < |delta.added| ==> delta.added[k].start >= 0
    ensures var ps := Placed(delta.modified) + Placed(delta.added);
      var a := ApplySpec([], Success(faults), delta);
      a.err.None? && |a.content| == MaxEnd(0, ps) &&
      (0 <= j < |a.content| ==>
        var k := LastCover(ps, j);
        a.content[j] == if k >= 0 then ps[k].data[j - ps[k].offset] else 0)
  {
    var ps := Placed(delta.modified) + Placed(delta.added);
    ApplyIsOneFold([], faults, delta);
    WriteAtEachSucceeds(Disk([], 0, 0), faults, ps);
    if 0 <= j < |WriteAtEach(Disk([], 0, 0), faults, ps).disk.content| {
      WriteAtEachByte(Disk([], 0, 0), faults, ps, j);
    }
  }

  /** The first failing write is returned as it is, and no later chunk is
      written. */
  lemma FirstFailureStops(previous: seq<byte>, faults: Faults, delta: Delta, i: nat)
    requires i <= |delta.modified| + |delta.added|
    requires WriteAtEach(Disk([], 0, 0), faults, (Placed(delta.modified) + Placed(delta.added))[..i]).failure.Some?
    ensures var w := WriteAtEach(Disk([], 0, 0), faults, (Placed(delta.modified) + Placed(delta.added))[..i]);
      ApplySpec(previous, Success(faults), delta) == Applied(w.failure, w.disk.content)
  {
    ApplyIsOneFold(previous, faults, delta);
    WriteAtEachStopsAtFailure(Disk([], 0, 0), faults, Placed(delta.modified) + Placed(delta.added), i);
  }

  /** end_to_end_test.go: one Modified chunk "updated data" at 0 turns any
      file into exactly "updated data". */
  lemma EndToEndExample(previous: seq<byte>, faults: Faults)
    requires NoFaults(faults, 0, 1)
    ensures ApplySpec(previous, Success(faults), Delta([], [Chunk(0, Ascii("updated data"))])) ==
      Applied(None, Ascii("updated data"))
  {
    var data := Ascii("updated data");
    var ps := Placed([Chunk(0, data)]);
    assert ps == [Patch(0, data)] && ps[..0] == [];
    assert 0 !in faults;
    assert WriteAtSpec([], data, 0) == data;
    assert WriteAtEach(Disk([], 0, 0), faults, ps) == Written(Disk(data, 0, 1), None);
    assert Placed([]) == [];
  }

  /** internal/pkg/apply/apply_test.go: "updated " at 0 and "data" at 8,
      both as Modified and as Added, give exactly "updated data". */
  lemma ApplyTestExample(previous: seq<byte>, faults: Faults)
    requires NoFaults(faults, 0, 4)
    ensures var cs := [Chunk(0, Ascii("updated ")), Chunk(8, Ascii("data"))];
      ApplySpec(previous, Success(faults), Delta(cs, cs)) == Applied(None, Ascii("updated data"))
  {
    var a := Ascii("updated ");
    var b := Ascii("data");
    var cs := [Chunk(0, a), Chunk(8, b)];
    var ps := Placed(cs);
    assert ps == [Patch(0, a), Patch(8, b)];
    assert ps[..1] == [Patch(0, a)] && ps[..1][..0] == [] && ps[..2] == ps;
    assert 0 !in faults && 1 !in faults && 2 !in faults && 3 !in faults;
    assert WriteAtSpec([], a, 0) == a;
    assert WriteAtSpec(a, b, 8) == a + b;
    assert Ascii("updated data") == a + b;
    WriteAtSameBytes(a + b, 0, 8);
    assert (a + b)[0..8] == a;
    WriteAtSameBytes(a + b, 8, 4);
    assert (a + b)[8..12] == b;
    assert WriteAtEach(Disk([], 0, 0), faults, ps[..1]) == Written(Disk(a, 0, 1), None);
    assert WriteAtEach(Disk([], 0, 0), faults, ps) == Written(Disk(a + b, 0, 2), None);
    assert WriteAtEach(Disk(a + b, 0, 2), faults, ps[..1]) == Written(Disk(a + b, 0, 3), None);
    assert WriteAtEach(Disk(a + b, 0, 2), faults, ps) == Written(Disk(a + b, 0, 4), None);
  }
}
