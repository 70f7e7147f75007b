/** The records of internal/shared/models: a chunk of a file, the
    signature of a file, and the delta between two signatures, with the
    structural equality checks `ValidateChunk` and `ValidateSignature`. */
module Models {
  import opened Common

  /** `models.Chunk`: `Offset` is documented as the chunk's starting
      position; the chunker of internal/pkg/chunks stores its end instead
      (see Chunks). */
  datatype Chunk = Chunk(data: seq<byte>, hash: u64, offset: int, length: int)

  /** `models.Signature`. */
  datatype Signature = Signature(
    id: Uuid,
    fileSize: int,
    filePath: string,
    lastModified: Timestamp,
    createdAt: Timestamp,
    chunks: seq<Chunk>)

  /** The zero `models.Signature{}`. */
  const EmptySignature: Signature := Signature(0, 0, "", 0, 0, [])

  /** `models.Delta`: chunks to append, chunks to overwrite, and metadata. */
  datatype Delta = Delta(added: seq<Chunk>, modified: seq<Chunk>, metadata: map<string, string>)

  /** `(*Chunk).ValidateChunk`: Length, then Offset, then Hash, then the
      Data bytes; the first difference answers false. */
  function ValidateChunk(c: Chunk, other: Chunk): (ok: bool)
    ensures ok <==> c == other
  {
    if c.length != other.length then false
    else if c.offset != other.offset then false
    else if c.hash != other.hash then false
    else if c.data != other.data then false
    else true
  }

  /** `ValidateChunk` is an equivalence: reflexive, symmetric and transitive. */
  lemma ValidateChunkIsEquivalence(a: Chunk, b: Chunk, c: Chunk)
    ensures ValidateChunk(a, a)
    ensures ValidateChunk(a, b) ==> ValidateChunk(b, a)
    ensures ValidateChunk(a, b) && ValidateChunk(b, c) ==> ValidateChunk(a, c)
  {
  }

  /** `(*Signature).ValidateSignature`: FileSize, LastModified, CreatedAt
      and the chunk count agree, and then the chunks agree pairwise. ID and
      FilePath are not compared: it holds exactly when the signatures are
      equal once ID and FilePath are disregarded. */
  predicate ValidateSignature(s: Signature, other: Signature): (ok: bool)
    ensures ok <==> s.(id := other.id, filePath := other.filePath) == other
  {
    if s.fileSize == other.fileSize && s.lastModified == other.lastModified &&
       s.createdAt == other.createdAt && |s.chunks| == |other.chunks| &&
       forall i :: 0 <= i < |s.chunks| ==> ValidateChunk(s.chunks[i], other.chunks[i])
    then
      assert s.chunks == other.chunks;
      true
    else false
  }

  /** Changing ID and FilePath on either side never changes the verdict. */
  lemma ValidateSignatureIgnoresIdAndPath(s: Signature, other: Signature, id: Uuid, path: string)
    ensures ValidateSignature(s.(id := id, filePath := path), other) == ValidateSignature(s, other)
    ensures ValidateSignature(s, other.(id := id, filePath := path)) == ValidateSignature(s, other)
  {
  }

  /** Signatures with different chunk counts are never equal, whatever the chunks hold. */
  lemma ValidateSignatureNeedsSameCount(s: Signature, other: Signature)
    requires |s.chunks| != |other.chunks|
    ensures !ValidateSignature(s, other)
  {
  }

  /** `ValidateSignature` is an equivalence. */
  lemma ValidateSignatureIsEquivalence(a: Signature, b: Signature, c: Signature)
    ensures ValidateSignature(a, a)
    ensures ValidateSignature(a, b) ==> ValidateSignature(b, a)
    ensures ValidateSignature(a, b) && ValidateSignature(b, c) ==> ValidateSignature(a, c)
  {
  }
}
