/** Semantic Kernel's abstract memory types, reduced to the fields the Azure
    Cognitive Search record adapter reads and writes.  Embedding elements are
    an opaque type `F`: the adapter copies vectors and never inspects them. */
module Memory {

  /** `MemoryRecordMetadata`: everything about a memory except its vector. */
  datatype MemoryRecordMetadata = MemoryRecordMetadata(
    isReference: bool,
    externalSourceName: string,
    id: string,
    description: string,
    text: string,
    additionalMetadata: string)

  /** `MemoryRecord`: metadata, the embedding (empty when absent) and the
      storage key. */
  datatype MemoryRecord<F> = MemoryRecord(
    metadata: MemoryRecordMetadata,
    embedding: seq<F>,
    key: string)
}
