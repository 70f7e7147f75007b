/** internal/pkg/diff `Compare`: the chunks of the updated signature that
    the delta writer must put in place of the original's. */
module Diff {
  import opened Common
  import opened Models

  /** The chunks among the first n whose Data differ from the original's
      at the same index, in index order. */
  function ChangedUpTo(original: seq<Chunk>, updated: seq<Chunk>, n: nat): (m: seq<Chunk>)
    requires n <= |original| == |updated|
    ensures |m| <= n
  {
    if n == 0 then []
    else
      ChangedUpTo(original, updated, n - 1) +
      (if original[n - 1].data != updated[n - 1].data then [updated[n - 1]] else [])
  }

  /** What `Compare` returns: no Added chunks, no Metadata, and as Modified
      either every updated chunk (when the counts differ) or the updated
      chunks whose Data differ from the original's at the same index. */
  function CompareSpec(original: Signature, updated: Signature): (d: Delta)
    ensures d.added == [] && d.metadata == map[]
    ensures |original.chunks| != |updated.chunks| ==> d.modified == updated.chunks
    ensures |d.modified| <= |updated.chunks|
  {
    if |original.chunks| != |updated.chunks| then Delta([], updated.chunks, map[])
    else Delta([], ChangedUpTo(original.chunks, updated.chunks, |updated.chunks|), map[])
  }

  /** `diff.Compare`: the index loop with `bytes.Compare` and `append`. */
  method Compare(original: Signature, updated: Signature) returns (r: Result<Delta>)
    ensures r == Success(CompareSpec(original, updated))
  {
    var delta := Delta([], [], map[]);
    if |original.chunks| != |updated.chunks| {
      delta := delta.(modified := updated.chunks);
      return Success(delta);
    }
    for i := 0 to |original.chunks|
      invariant delta == Delta([], ChangedUpTo(original.chunks, updated.chunks, i), map[])
    {
      if original.chunks[i].data != updated.chunks[i].data {
        delta := delta.(modified := delta.modified + [updated.chunks[i]]);
      }
    }
    return Success(delta);
  }

  // ---------------------------------------------------------------------
  // Properties

  /** The indices below n at which the Data differ, in increasing order. */
  function DifferingIndices(original: seq<Chunk>, updated: seq<Chunk>, n: nat): (idx: seq<nat>)
    requires n <= |original| == |updated|
    ensures forall k :: 0 <= k < |idx| ==> idx[k] < n
  {
    if n == 0 then []
    else
      DifferingIndices(original, updated, n - 1) +
      (if original[n - 1].data != updated[n - 1].data then [n - 1] else [])
  }

  /** An index is listed iff the Data at that index differ. */
  lemma {:induction false} DifferingIndicesMembership(original: seq<Chunk>, updated: seq<Chunk>, n: nat)
    requires n <= |original| == |updated|
    ensures forall i :: 0 <= i < n ==>
      (i in DifferingIndices(original, updated, n) <==> original[i].data != updated[i].data)
  {
    if n > 0 {
      DifferingIndicesMembership(original, updated, n - 1);
    }
  }

  predicate StrictlyIncreasing(s: seq<nat>)
  {
    forall k, j :: 0 <= k < j < |s| ==> s[k] < s[j]
  }

  /** The listed indices strictly increase. */
  lemma {:induction false} DifferingIndicesIncrease(original: seq<Chunk>, updated: seq<Chunk>, n: nat)
    requires n <= |original| == |updated|
    ensures StrictlyIncreasing(DifferingIndices(original, updated, n))
  {
    if n > 0 {
      DifferingIndicesIncrease(original, updated, n - 1);
      var prev := DifferingIndices(original, updated, n - 1);
      var idx := DifferingIndices(original, updated, n);
      assert StrictlyIncreasing(prev);
      forall k, j | 0 <= k < j < |idx|
        ensures idx[k] < idx[j]
      {
        if j < |prev| {
          assert idx[k] == prev[k] && idx[j] == prev[j];
        } else {
          assert idx[k] == prev[k] && idx[j] == n - 1;
        }
      }
    }
  }

  /** Modified picks the updated chunk at each differing index, in order. */
  lemma {:induction false} ChangedFollowsIndices(original: seq<Chunk>, updated: seq<Chunk>, n: nat)
    requires n <= |original| == |updated|
    ensures var idx := DifferingIndices(original, updated, n);
      var m := ChangedUpTo(original, updated, n);
      |m| == |idx| && forall k :: 0 <= k < |m| ==> m[k] == updated[idx[k]]
  {
    if n > 0 {
      ChangedFollowsIndices(original, updated, n - 1);
    }
  }

  /** With equal counts, Modified lists the updated chunks at exactly the
      indices whose Data differ, each once and in increasing index order;
      chunks with equal Data are left out even when Hash or Offset differ. */
  lemma ModifiedIffDataDiffer(original: Signature, updated: Signature)
    requires |original.chunks| == |updated.chunks|
    ensures var idx := DifferingIndices(original.chunks, updated.chunks, |updated.chunks|);
      var m := CompareSpec(original, updated).modified;
      |m| == |idx| &&
      (forall k :: 0 <= k < |m| ==> m[k] == updated.chunks[idx[k]]) &&
      StrictlyIncreasing(idx) &&
      (forall i :: 0 <= i < |updated.chunks| ==> (i in idx <==> original.chunks[i].data != updated.chunks[i].data))
  {
    var n := |updated.chunks|;
    ChangedFollowsIndices(original.chunks, updated.chunks, n);
    DifferingIndicesIncrease(original.chunks, updated.chunks, n);
    DifferingIndicesMembership(original.chunks, updated.chunks, n);
  }

  /** Nothing is reported between a signature and itself. */
  lemma {:induction false} CompareWithItselfIsEmpty(s: Signature)
    ensures CompareSpec(s, s).modified == []
  {
    NothingChangedBelow(s.chunks, |s.chunks|);
  }

  lemma {:induction false} NothingChangedBelow(cs: seq<Chunk>, n: nat)
    requires n <= |cs|
    ensures ChangedUpTo(cs, cs, n) == []
  {
    if n > 0 {
      NothingChangedBelow(cs, n - 1);
    }
  }

  /** The example of internal/pkg/diff/diff_test.go: of three chunks only
      the middle one differs, so only it is reported. */
  lemma MiddleChunkExample()
    ensures var original := Signature(0, 100, "", 0, 0, [
        Chunk(Ascii("chunk 1"), 0, 0, 7), Chunk(Ascii("chunk 2"), 0, 8, 7), Chunk(Ascii("chunk 3"), 0, 16, 7)]);
      var updated := Signature(0, 100, "", 0, 0, [
        Chunk(Ascii("chunk 1"), 0, 0, 7), Chunk(Ascii("chunk 2 modified"), 0, 8, 16), Chunk(Ascii("chunk 3"), 0, 16, 7)]);
      CompareSpec(original, updated) == Delta([], [Chunk(Ascii("chunk 2 modified"), 0, 8, 16)], map[])
  {
    var o := [Chunk(Ascii("chunk 1"), 0, 0, 7), Chunk(Ascii("chunk 2"), 0, 8, 7), Chunk(Ascii("chunk 3"), 0, 16, 7)];
    var u := [Chunk(Ascii("chunk 1"), 0, 0, 7), Chunk(Ascii("chunk 2 modified"), 0, 8, 16), Chunk(Ascii("chunk 3"), 0, 16, 7)];
    assert o[1].data != u[1].data by {
      assert |o[1].data| != |u[1].data|;
    }
    assert ChangedUpTo(o, u, 1) == [];
    assert ChangedUpTo(o, u, 2) == [u[1]];
    assert ChangedUpTo(o, u, 3) == [u[1]];
  }

  /** Equal Data at every index means an empty delta whatever the Hash,
      Offset and Length fields hold. */
  lemma {:induction false} EqualDataIsNoChange(original: seq<Chunk>, updated: seq<Chunk>, n: nat)
    requires n <= |original| == |updated|
    requires forall i :: 0 <= i < n ==> original[i].data == updated[i].data
    ensures ChangedUpTo(original, updated, n) == []
  {
    if n > 0 {
      EqualDataIsNoChange(original, updated, n - 1);
    }
  }
}
