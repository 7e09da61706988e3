/** The two data types the chunker and the retriever share (types.ts). */
module Types {

  /** A span of document text and its position in a chunking run's output. */
  datatype Chunk = Chunk(id: nat, text: string)

  /** Which chunker the dispatcher runs. */
  datatype ChunkingStrategy = Fixed | Recursive
}
