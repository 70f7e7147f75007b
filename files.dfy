/** The writing side of an `*os.File`: `Write` at the handle's cursor,
    `WriteAt` at an explicit offset, and `os.Create`'s truncation. A write
    past the end of the file extends it, filling the gap with zero bytes. */
module Files {
  import opened Common

  /** The content after writing `data` at `off`: bytes in [off, off+|data|)
      are replaced, the rest is kept, and a gap past the old end reads as 0.
      Writing no bytes changes nothing, wherever the offset. */
  function WriteAtSpec(content: seq<byte>, data: seq<byte>, off: nat): (r: seq<byte>)
    ensures |r| == if data == [] then |content| else Max(|content|, off + |data|)
    ensures forall j :: 0 <= j < |r| ==>
      r[j] == (if off <= j < off + |data| then data[j - off] else if j < |content| then content[j] else 0)
  {
    if data == [] then content
    else if off + |data| <= |content| then content[..off] + data + content[off + |data|..]
    else if off <= |content| then content[..off] + data
    else content + seq(off - |content|, _ => 0) + data
  }

  /** Writing `a` and then `b` right after it is writing `a + b`. */
  lemma WriteAtConcat(content: seq<byte>, a: seq<byte>, b: seq<byte>, off: nat)
    ensures WriteAtSpec(WriteAtSpec(content, a, off), b, off + |a|) == WriteAtSpec(content, a + b, off)
  {
    var lhs := WriteAtSpec(WriteAtSpec(content, a, off), b, off + |a|);
    var rhs := WriteAtSpec(content, a + b, off);
    assert |lhs| == |rhs|;
    forall j | 0 <= j < |lhs|
      ensures lhs[j] == rhs[j]
    {
      if off <= j < off + |a| {
        assert (a + b)[j - off] == a[j - off];
      } else if off + |a| <= j < off + |a| + |b| {
        assert (a + b)[j - off] == b[j - off - |a|];
      }
    }
  }

  /** Writing the same bytes a file already holds leaves it unchanged. */
  lemma WriteAtSameBytes(content: seq<byte>, off: nat, len: nat)
    requires off + len <= |content|
    ensures WriteAtSpec(content, content[off..off + len], off) == content
  {
    var r := WriteAtSpec(content, content[off..off + len], off);
    assert forall j :: 0 <= j < |r| ==> r[j] == content[j];
  }

  /** The state of an open handle: the file's bytes, the handle's cursor,
      and how many write calls it has served. */
  datatype Disk = Disk(content: seq<byte>, cursor: nat, calls: nat)

  /** A write call's outcome: the new state, and the error if it failed. */
  datatype Written = Written(disk: Disk, failure: Option<Error>)

  /** Environment: `faults[n]` is the error the n-th write call on the
      handle reports; a failing call writes nothing. */
  type Faults = map<nat, Error>

  /** `f.Write(data)`: writes at the cursor and advances it by |data|. */
  function WriteStep(d: Disk, faults: Faults, data: seq<byte>): (w: Written)
    ensures w.disk.calls == d.calls + 1
  {
    if d.calls in faults then Written(d.(calls := d.calls + 1), Some(faults[d.calls]))
    else Written(Disk(WriteAtSpec(d.content, data, d.cursor), d.cursor + |data|, d.calls + 1), None)
  }

  /** The error `os.File.WriteAt` reports for a negative offset. */
  const NegativeOffset: Error := Fault("negative offset")

  /** `f.WriteAt(data, off)`: a negative offset fails before writing;
      otherwise writes at `off` and leaves the cursor alone. */
  function WriteAtStep(d: Disk, faults: Faults, data: seq<byte>, off: int): (w: Written)
    ensures w.disk.calls == d.calls + 1
    ensures w.disk.cursor == d.cursor
  {
    if off < 0 then Written(d.(calls := d.calls + 1), Some(NegativeOffset))
    else if d.calls in faults then Written(d.(calls := d.calls + 1), Some(faults[d.calls]))
    else Written(d.(content := WriteAtSpec(d.content, data, off), calls := d.calls + 1), None)
  }

  /** A positional write of `data` at `offset`. */
  datatype Patch = Patch(offset: int, data: seq<byte>)

  /** `for _, p := range ps { if _, err := f.Write(p.data); err != nil { return err } }`. */
  function WriteEach(d: Disk, faults: Faults, ps: seq<Patch>): (w: Written)
  {
    if ps == [] then Written(d, None)
    else
      var w0 := WriteEach(d, faults, ps[..|ps| - 1]);
      if w0.failure.Some? then w0 else WriteStep(w0.disk, faults, ps[|ps| - 1].data)
  }

  /** `for _, p := range ps { if _, err := f.WriteAt(p.data, p.offset); err != nil { return err } }`. */
  function WriteAtEach(d: Disk, faults: Faults, ps: seq<Patch>): (w: Written)
  {
    if ps == [] then Written(d, None)
    else
      var w0 := WriteAtEach(d, faults, ps[..|ps| - 1]);
      if w0.failure.Some? then w0 else WriteAtStep(w0.disk, faults, ps[|ps| - 1].data, ps[|ps| - 1].offset)
  }

  /** No write call numbered from `from` to `from + count` fails. */
  predicate NoFaults(faults: Faults, from: nat, count: nat)
  {
    forall n :: from <= n < from + count ==> n !in faults
  }

  /** The data of the patches, laid end to end. */
  function Joined(ps: seq<Patch>): seq<byte>
  {
    if ps == [] then [] else Joined(ps[..|ps| - 1]) + ps[|ps| - 1].data
  }

  /** Sequential writes land back to back from the cursor, whatever the
      patches' offsets say. */
  lemma {:induction false} WriteEachBackToBack(d: Disk, faults: Faults, ps: seq<Patch>)
    requires NoFaults(faults, d.calls, |ps|)
    ensures WriteEach(d, faults, ps) ==
      Written(Disk(WriteAtSpec(d.content, Joined(ps), d.cursor), d.cursor + |Joined(ps)|, d.calls + |ps|), None)
  {
    if ps == [] {
      assert WriteAtSpec(d.content, [], d.cursor) == d.content;
    } else {
      var init, last := ps[..|ps| - 1], ps[|ps| - 1];
      WriteEachBackToBack(d, faults, init);
      var d0 := WriteEach(d, faults, init).disk;
      assert d0 == Disk(WriteAtSpec(d.content, Joined(init), d.cursor), d.cursor + |Joined(init)|, d.calls + |init|);
      assert d0.calls !in faults;
      assert WriteEach(d, faults, ps) == WriteStep(d0, faults, last.data);
      assert Joined(ps) == Joined(init) + last.data;
      WriteAtConcat(d.content, Joined(init), last.data, d.cursor);
      assert WriteAtSpec(d0.content, last.data, d0.cursor) == WriteAtSpec(d.content, Joined(ps), d.cursor);
    }
  }

  /** Once a write has failed, the later patches change nothing. */
  lemma {:induction false} WriteEachStopsAtFailure(d: Disk, faults: Faults, ps: seq<Patch>, i: nat)
    requires i <= |ps| && WriteEach(d, faults, ps[..i]).failure.Some?
    ensures WriteEach(d, faults, ps) == WriteEach(d, faults, ps[..i])
    decreases |ps|
  {
    if i < |ps| {
      var init := ps[..|ps| - 1];
      assert init[..i] == ps[..i];
      WriteEachStopsAtFailure(d, faults, init, i);
    } else {
      assert ps[..i] == ps;
    }
  }

  lemma {:induction false} WriteAtEachStopsAtFailure(d: Disk, faults: Faults, ps: seq<Patch>, i: nat)
    requires i <= |ps| && WriteAtEach(d, faults, ps[..i]).failure.Some?
    ensures WriteAtEach(d, faults, ps) == WriteAtEach(d, faults, ps[..i])
    decreases |ps|
  {
    if i < |ps| {
      var init := ps[..|ps| - 1];
      assert init[..i] == ps[..i];
      WriteAtEachStopsAtFailure(d, faults, init, i);
    } else {
      assert ps[..i] == ps;
    }
  }

  /** The largest end offset of the non-empty patches, or `floor` if that is larger. */
  function MaxEnd(floor: int, ps: seq<Patch>): int
  {
    if ps == [] then floor
    else
      var prev := MaxEnd(floor, ps[..|ps| - 1]);
      var last := ps[|ps| - 1];
      if last.data == [] then prev else Max(prev, last.offset + |last.data|)
  }

  /** The patch that last covers position j, if any. */
  function LastCover(ps: seq<Patch>, j: int): (k: int)
    ensures -1 <= k < |ps|
    ensures k >= 0 ==> ps[k].offset <= j < ps[k].offset + |ps[k].data|
    ensures forall m :: k < m < |ps| ==> !(ps[m].offset <= j < ps[m].offset + |ps[m].data|)
  {
    if ps == [] then -1
    else
      var last := ps[|ps| - 1];
      if last.offset <= j < last.offset + |last.data| then |ps| - 1 else LastCover(ps[..|ps| - 1], j)
  }

  /** Positional writes at non-negative offsets with no injected fault all
      succeed, and the file grows to the largest end offset. */
  lemma {:induction false} WriteAtEachSucceeds(d: Disk, faults: Faults, ps: seq<Patch>)
    requires NoFaults(faults, d.calls, |ps|)
    requires forall k :: 0 <= k < |ps| ==> ps[k].offset >= 0
    ensures WriteAtEach(d, faults, ps).failure.None?
    ensures WriteAtEach(d, faults, ps).disk == d.(content := WriteAtEach(d, faults, ps).disk.content, calls := d.calls + |ps|)
    ensures |WriteAtEach(d, faults, ps).disk.content| == MaxEnd(|d.content|, ps)
  {
    if ps != [] {
      WriteAtEachSucceeds(d, faults, ps[..|ps| - 1]);
    }
  }

  /** After positional writes that all succeed, each byte is that of the
      last patch covering it, or the old byte, or 0 in a gap: on
      overlapping ranges the later write wins. */
  lemma {:induction false} WriteAtEachByte(d: Disk, faults: Faults, ps: seq<Patch>, j: int)
    requires NoFaults(faults, d.calls, |ps|)
    requires forall k :: 0 <= k < |ps| ==> ps[k].offset >= 0
    requires 0 <= j < |WriteAtEach(d, faults, ps).disk.content|
    ensures var k := LastCover(ps, j);
      WriteAtEach(d, faults, ps).disk.content[j] ==
        (if k >= 0 then ps[k].data[j - ps[k].offset] else if j < |d.content| then d.content[j] else 0)
  {
    if ps != [] {
      var init := ps[..|ps| - 1];
      var last := ps[|ps| - 1];
      var c0 := WriteAtEachLast(d, faults, ps);
      var c := WriteAtEach(d, faults, ps).disk.content;
      if last.offset <= j < last.offset + |last.data| {
        assert c[j] == last.data[j - last.offset];
      } else {
        assert c[j] == if j < |c0| then c0[j] else 0;
        assert LastCover(ps, j) == LastCover(init, j);
        if j < |c0| {
          WriteAtEachByte(d, faults, init, j);
        } else {
          LastCoverBeyondEnd(d, init, j);
        }
      }
    }
  }

  /** Without faults, the last positional write applies to what the
      earlier ones left. */
  lemma WriteAtEachLast(d: Disk, faults: Faults, ps: seq<Patch>) returns (c0: seq<byte>)
    requires ps != [] && NoFaults(faults, d.calls, |ps|)
    requires forall k :: 0 <= k < |ps| ==> ps[k].offset >= 0
    ensures c0 == WriteAtEach(d, faults, ps[..|ps| - 1]).disk.content
    ensures |c0| == MaxEnd(|d.content|, ps[..|ps| - 1])
    ensures WriteAtEach(d, faults, ps).disk.content == WriteAtSpec(c0, ps[|ps| - 1].data, ps[|ps| - 1].offset)
  {
    var init := ps[..|ps| - 1];
    WriteAtEachSucceeds(d, faults, init);
    c0 := WriteAtEach(d, faults, init).disk.content;
  }

  /** A position past every patch's end and the old content is covered by none. */
  lemma {:induction false} LastCoverBeyondEnd(d: Disk, ps: seq<Patch>, j: int)
    requires MaxEnd(|d.content|, ps) <= j
    ensures LastCover(ps, j) == -1 && j >= |d.content|
  {
    if ps != [] {
      LastCoverBeyondEnd(d, ps[..|ps| - 1], j);
    }
  }

  /** An open `*os.File` handle: its name, the file's bytes, the cursor,
      the write calls served so far, and the faults the environment will
      inject into later write calls. */
  class OsFile {
    const name: string
    var content: seq<byte>
    var cursor: nat
    var calls: nat
    var faults: Faults

    /** The handle's state as a value. */
    function State(): Disk
      reads this
    {
      Disk(content, cursor, calls)
    }

    /** A handle on a file with this content, freshly opened (cursor 0). */
    constructor Open(name: string, content: seq<byte>, faults: Faults)
      ensures this.name == name && State() == Disk(content, 0, 0) && this.faults == faults
    {
      this.name := name;
      this.content := content;
      this.cursor := 0;
      this.calls := 0;
      this.faults := faults;
    }

    /** `os.Create` on an existing file: the same file, emptied, with a fresh handle. */
    constructor Create(name: string, faults: Faults)
      ensures this.name == name && State() == Disk([], 0, 0) && this.faults == faults
    {
      this.name := name;
      this.content := [];
      this.cursor := 0;
      this.calls := 0;
      this.faults := faults;
    }

    /** `f.Write(data)`. */
    method Write(data: seq<byte>) returns (err: Option<Error>)
      modifies this
      ensures Written(State(), err) == WriteStep(old(State()), faults, data)
      ensures faults == old(faults)
    {
      if calls in faults {
        err := Some(faults[calls]);
      } else {
        content := WriteAtSpec(content, data, cursor);
        cursor := cursor + |data|;
        err := None;
      }
      calls := calls + 1;
    }

    /** `f.WriteAt(data, off)`. */
    method WriteAt(data: seq<byte>, off: int) returns (err: Option<Error>)
      modifies this
      ensures Written(State(), err) == WriteAtStep(old(State()), faults, data, off)
      ensures faults == old(faults)
    {
      if off < 0 {
        err := Some(NegativeOffset);
      } else if calls in faults {
        err := Some(faults[calls]);
      } else {
        content := WriteAtSpec(content, data, off);
        err := None;
      }
      calls := calls + 1;
    }
  }
}
