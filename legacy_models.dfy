/** The records of the older root package: a chunk is a start position
    and its bytes (chunk.go), and a signature has the same fields as in
    internal/shared/models (signature.go). The root `Delta` is used by
    apply.go but declared in no file of this model; its Added and
    Modified chunk lists are taken from its uses. */
module LegacyModels {
  import opened Common

  /** `main.Chunk`. */
  datatype Chunk = Chunk(start: int, data: seq<byte>)

  /** `main.Signature`. */
  datatype Signature = Signature(
    id: Uuid,
    fileSize: int,
    filePath: string,
    lastModified: Timestamp,
    createdAt: Timestamp,
    chunks: seq<Chunk>)

  /** `main.Delta`, as apply.go reads it. */
  datatype Delta = Delta(added: seq<Chunk>, modified: seq<Chunk>)
}
