/** internal/shared/models/signature.go `NewGeneratedSignature`: the same
    assembly as internal/pkg/signature `Generate`, over the package's own
    `generateChunks`, whose loop is the chunker of internal/pkg/chunks as
    written (`Chunks.Generate`): shared-buffer Data and end offsets. */
module ModelsSignature {
  import opened Common
  import opened Streams
  import opened Models
  import Chunks
  import SignaturePkg

  /** `models.NewGeneratedSignature`. */
  function NewGeneratedSignature(file: FileView, stamp: SignaturePkg.Stamp): (r: Result<Signature>)
    requires ValidReads(file.results)
    ensures r.Success? <==> file.stat.Success? && ReadLoop(file.results).Done?
    ensures r.Success? ==> r.value.chunks == Chunks.AsWritten(file.results).value
  {
    SignaturePkg.Assemble(file, stamp, Chunks.AsWritten(file.results))
  }

  /** The two constructors build the same signature: the same `Stat`
      handling, the same chunker loop, the same assembly. */
  lemma AgreesWithGenerate(file: FileView, stamp: SignaturePkg.Stamp)
    requires ValidReads(file.results)
    ensures NewGeneratedSignature(file, stamp) == SignaturePkg.Generate(file, stamp)
  {
  }
}
