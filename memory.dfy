/** internal/store/memory: the in-memory signature store, a map from
    signature ID to signature with insert, lookup and linear-scan queries.
    Go's map iteration order is unspecified, so a scan that returns "the
    first match" returns some matching entry. */
module Memory {
  import opened Common
  import opened Models

  /** Some stored signature has this FilePath. */
  predicate HasPath(m: map<Uuid, Signature>, path: string)
  {
    exists id :: id in m && m[id].filePath == path
  }

  /** Some chunk of the signature has exactly these Data bytes. */
  predicate HoldsData(sig: Signature, data: seq<byte>)
  {
    exists k :: 0 <= k < |sig.chunks| && sig.chunks[k].data == data
  }

  /** Some chunk of some stored signature has exactly these Data bytes. */
  predicate HasData(m: map<Uuid, Signature>, data: seq<byte>)
  {
    exists id :: id in m && HoldsData(m[id], data)
  }

  /** The inner `for _, c := range sig.Chunks` scan with `bytes.Equal`. */
  method ScanChunks(sig: Signature, data: seq<byte>) returns (found: bool)
    ensures found <==> HoldsData(sig, data)
  {
    for k := 0 to |sig.chunks|
      invariant forall j :: 0 <= j < k ==> sig.chunks[j].data != data
    {
      if sig.chunks[k].data == data {
        return true;
      }
    }
    return false;
  }

  /** Saving under a fresh ID adds one entry and keeps every earlier one,
      so repeated saves of one path coexist. */
  lemma SaveUnderFreshId(m: map<Uuid, Signature>, id: Uuid, sig: Signature, path: string)
    requires id !in m
    ensures |m[id := sig]| == |m| + 1
    ensures forall k :: k in m ==> k in m[id := sig] && m[id := sig][k] == m[k]
    ensures HasPath(m[id := sig], path) <==> HasPath(m, path) || sig.filePath == path
  {
    assert m[id := sig].Keys == m.Keys + {id};
    if HasPath(m[id := sig], path) && sig.filePath != path {
      var k :| k in m[id := sig] && m[id := sig][k].filePath == path;
      assert k in m && m[k].filePath == path;
    }
    if HasPath(m, path) {
      var k :| k in m && m[k].filePath == path;
      assert k in m[id := sig] && m[id := sig][k].filePath == path;
    }
  }

  /** Inserting under an ID keeps the chunk Data that earlier entries
      under other IDs held, and adds the inserted signature's. */
  lemma InsertKeepsOtherData(m: map<Uuid, Signature>, id: Uuid, sig: Signature, data: seq<byte>)
    requires id !in m
    ensures HasData(m[id := sig], data) <==> HasData(m, data) || HoldsData(sig, data)
  {
    if HasData(m[id := sig], data) && !HoldsData(sig, data) {
      var k :| k in m[id := sig] && HoldsData(m[id := sig][k], data);
      assert k in m && HoldsData(m[k], data);
    }
    if HasData(m, data) {
      var k :| k in m && HoldsData(m[k], data);
      assert k in m[id := sig] && HoldsData(m[id := sig][k], data);
    }
    if HoldsData(sig, data) {
      assert id in m[id := sig] && HoldsData(m[id := sig][id], data);
    }
  }

  /** `memory.Storage`: the map held by value. The mutex, logger and
      tracer play no part in a sequential model. */
  class Storage {
    var signatures: map<Uuid, Signature>

    /** `memory.New`: an empty, initialised map. */
    constructor New()
      ensures signatures == map[]
    {
      signatures := map[];
    }

    /** `Save`: gives the signature the fresh ID `id` and creation time
        `now`, which `uuid.New()` and `time.Now()` draw, and inserts it
        under that ID. It never fails. */
    method Save(sig: Signature, id: Uuid, now: Timestamp) returns (saved: Signature)
      modifies this
      ensures saved == sig.(id := id, createdAt := now)
      ensures signatures == old(signatures)[id := saved]
    {
      saved := sig.(id := id, createdAt := now);
      signatures := signatures[id := saved];
    }

    /** `Get`: the signature stored under `id`, or "signature not found". */
    method Get(id: Uuid) returns (r: Result<Signature>)
      ensures id in signatures ==> r == Success(signatures[id])
      ensures id !in signatures ==> r == Failure(NotFound)
    {
      if id in signatures {
        r := Success(signatures[id]);
      } else {
        r := Failure(NotFound);
      }
    }

    /** `Update`: stamps LastModified with `now` and inserts or replaces
        the entry under the signature's own ID. It never fails. */
    method Update(sig: Signature, now: Timestamp) returns (saved: Signature)
      modifies this
      ensures saved == sig.(lastModified := now)
      ensures signatures == old(signatures)[sig.id := saved]
    {
      saved := sig.(lastModified := now);
      signatures := signatures[sig.id := saved];
    }

    /** `ChunkExists`: whether some stored chunk has the argument's Data;
        Hash, Offset and Length are not compared. It never fails. */
    method ChunkExists(chunk: Chunk) returns (found: bool)
      ensures found <==> HasData(signatures, chunk.data)
    {
      var unseen := signatures.Keys;
      while unseen != {}
        invariant unseen <= signatures.Keys
        invariant forall id :: id in signatures && id !in unseen ==> !HoldsData(signatures[id], chunk.data)
        decreases |unseen|
      {
        var id :| id in unseen;
        found := ScanChunks(signatures[id], chunk.data);
        if found {
          return;
        }
        unseen := unseen - {id};
      }
      found := false;
    }

    /** `GetSignatureForChunk`: some stored signature holding a chunk with
        the argument's Data, or "signature not found" when none does. */
    method GetSignatureForChunk(chunk: Chunk) returns (r: Result<Signature>)
      ensures r.Success? ==> exists id :: id in signatures && signatures[id] == r.value
      ensures r.Success? ==> HoldsData(r.value, chunk.data)
      ensures r.Failure? <==> !HasData(signatures, chunk.data)
      ensures r.Failure? ==> r.error == NotFound
    {
      var unseen := signatures.Keys;
      while unseen != {}
        invariant unseen <= signatures.Keys
        invariant forall id :: id in signatures && id !in unseen ==> !HoldsData(signatures[id], chunk.data)
        decreases |unseen|
      {
        var id :| id in unseen;
        var found := ScanChunks(signatures[id], chunk.data);
        if found {
          return Success(signatures[id]);
        }
        unseen := unseen - {id};
      }
      r := Failure(NotFound);
    }

    /** `FileExists`: whether some stored signature has this FilePath. It
        never fails. */
    method FileExists(filename: string) returns (found: bool)
      ensures found <==> HasPath(signatures, filename)
    {
      var unseen := signatures.Keys;
      while unseen != {}
        invariant unseen <= signatures.Keys
        invariant forall id :: id in signatures && id !in unseen ==> signatures[id].filePath != filename
        decreases |unseen|
      {
        var id :| id in unseen;
        if signatures[id].filePath == filename {
          return true;
        }
        unseen := unseen - {id};
      }
      found := false;
    }

    /** `GetSignatureForFilename`: some stored signature with this
        FilePath, or "signature not found" when none has it. */
    method GetSignatureForFilename(filename: string) returns (r: Result<Signature>)
      ensures r.Success? ==> exists id :: id in signatures && signatures[id] == r.value
      ensures r.Success? ==> r.value.filePath == filename
      ensures r.Failure? <==> !HasPath(signatures, filename)
      ensures r.Failure? ==> r.error == NotFound
    {
      var unseen := signatures.Keys;
      while unseen != {}
        invariant unseen <= signatures.Keys
        invariant forall id :: id in signatures && id !in unseen ==> signatures[id].filePath != filename
        decreases |unseen|
      {
        var id :| id in unseen;
        if signatures[id].filePath == filename {
          return Success(signatures[id]);
        }
        unseen := unseen - {id};
      }
      r := Failure(NotFound);
    }
  }
}
