/** storage.go `MemoryStorage`: the older in-memory store. Unlike
    internal/store/memory it stores a signature under the ID it already
    has and leaves it unaltered, offers no Update or lookup by filename,
    and has no constructor: the zero value's map is nil, which reads as
    empty but panics on a write. */
module LegacyStorage {
  import opened Common
  import opened LegacyModels
  import Streams
  import LegacySignature

  // HasPath, HoldsData, HasData and ScanChunks say what Memory's do, over
  // the older Signature and Chunk records of LegacyModels.

  /** Some stored signature has this FilePath. */
  predicate HasPath(m: map<Uuid, Signature>, path: string)
  {
    exists id :: id in m && m[id].filePath == path
  }

  /** Some chunk of the signature has exactly these Data bytes. */
  predicate HoldsData(sig: Signature, data: seq<byte>)
  {
    exists k :: 0 <= k < |sig.chunks| && sig.chunks[k].data == data
  }

  /** Some chunk of some stored signature has exactly these Data bytes. */
  predicate HasData(m: map<Uuid, Signature>, data: seq<byte>)
  {
    exists id :: id in m && HoldsData(m[id], data)
  }

  /** The inner `for _, c := range sig.Chunks` scan with `bytes.Equal`. */
  method ScanChunks(sig: Signature, data: seq<byte>) returns (found: bool)
    ensures found <==> HoldsData(sig, data)
  {
    for k := 0 to |sig.chunks|
      invariant forall j :: 0 <= j < k ==> sig.chunks[j].data != data
    {
      if sig.chunks[k].data == data {
        return true;
      }
    }
    return false;
  }

  /** Saving a signature whose ID is already stored replaces that entry:
      the store keeps its size and the old signature's chunks are no
      longer found through that ID. */
  lemma SaveSameIdReplaces(m: map<Uuid, Signature>, sig: Signature)
    requires sig.id in m
    ensures |m[sig.id := sig]| == |m|
    ensures m[sig.id := sig][sig.id] == sig
  {
    assert m[sig.id := sig].Keys == m.Keys;
  }

  /** `GenerateSignature` leaves FilePath empty, so a store filled only
      with generated signatures never reports a non-empty path as known. */
  lemma GeneratedPathsAreEmpty(m: map<Uuid, Signature>, file: Streams.FileView, id: Uuid, now: Timestamp, path: string)
    requires Streams.ValidReads(file.results)
    requires LegacySignature.GenerateSpec(file, id, now).Success?
    requires path != "" && !HasPath(m, path)
    ensures var sig := LegacySignature.GenerateSpec(file, id, now).value;
      !HasPath(m[sig.id := sig], path)
  {
  }

  /** `MemoryStorage`. `initialised` says whether the map has been made;
      the mutex plays no part in a sequential model. */
  class MemoryStorage {
    var signatures: map<Uuid, Signature>
    var initialised: bool

    /** `MemoryStorage{}`: a nil map. */
    constructor Zero()
      ensures signatures == map[] && !initialised
    {
      signatures := map[];
      initialised := false;
    }

    /** `MemoryStorage{signatures: make(map[uuid.UUID]*Signature)}`. */
    constructor Made()
      ensures signatures == map[] && initialised
    {
      signatures := map[];
      initialised := true;
    }

    /** `Save`: stores the signature as it is under its own ID, replacing
        any entry with that ID. It never returns an error; on the nil map
        it would panic, which callers must rule out. */
    method Save(sig: Signature) returns (err: Option<Error>)
      requires initialised
      modifies this
      ensures err == None && initialised
      ensures signatures == old(signatures)[sig.id := sig]
    {
      signatures := signatures[sig.id := sig];
      err := None;
    }

    /** `Get`: the signature stored under `id`, or "signature not found". */
    method Get(id: Uuid) returns (r: Result<Signature>)
      ensures id in signatures ==> r == Success(signatures[id])
      ensures id !in signatures ==> r == Failure(NotFound)
    {
      if id in signatures {
        r := Success(signatures[id]);
      } else {
        r := Failure(NotFound);
      }
    }

    /** `ChunkExists`: whether some stored chunk has the argument's Data;
        Start is not compared. It never fails. */
    method ChunkExists(chunk: Chunk) returns (found: bool)
      ensures found <==> HasData(signatures, chunk.data)
    {
      var unseen := signatures.Keys;
      while unseen != {}
        invariant unseen <= signatures.Keys
        invariant forall id :: id in signatures && id !in unseen ==> !HoldsData(signatures[id], chunk.data)
        decreases |unseen|
      {
        var id :| id in unseen;
        found := ScanChunks(signatures[id], chunk.data);
        if found {
          return;
        }
        unseen := unseen - {id};
      }
      found := false;
    }

    /** `GetSignatureForChunk`: some stored signature holding a chunk with
        the argument's Data, or "signature not found" when none does. */
    method GetSignatureForChunk(chunk: Chunk) returns (r: Result<Signature>)
      ensures r.Success? ==> exists id :: id in signatures && signatures[id] == r.value
      ensures r.Success? ==> HoldsData(r.value, chunk.data)
      ensures r.Failure? <==> !HasData(signatures, chunk.data)
      ensures r.Failure? ==> r.error == NotFound
    {
      var unseen := signatures.Keys;
      while unseen != {}
        invariant unseen <= signatures.Keys
        invariant forall id :: id in signatures && id !in unseen ==> !HoldsData(signatures[id], chunk.data)
        decreases |unseen|
      {
        var id :| id in unseen;
        var found := ScanChunks(signatures[id], chunk.data);
        if found {
          return Success(signatures[id]);
        }
        unseen := unseen - {id};
      }
      r := Failure(NotFound);
    }

    /** `FileExists`: whether some stored signature has this FilePath. It
        never fails. */
    method FileExists(filename: string) returns (found: bool)
      ensures found <==> HasPath(signatures, filename)
    {
      var unseen := signatures.Keys;
      while unseen != {}
        invariant unseen <= signatures.Keys
        invariant forall id :: id in signatures && id !in unseen ==> signatures[id].filePath != filename
        decreases |unseen|
      {
        var id :| id in unseen;
        if signatures[id].filePath == filename {
          return true;
        }
        unseen := unseen - {id};
      }
      found := false;
    }
  }
}
