/** The plain records the store passes around. */
module DataStructures {
  import opened Bytes

  /**
   * One entry: its store-assigned id, its collection, its text as UTF-8 bytes
   * and its embedding before quantization (float elements modelled as integers).
   */
  datatype VectorEntry = VectorEntry(id: int64, collectionName: string, content: seq<byte>, embedding: seq<int>)

  /** The in-memory header: id high-water mark, dimensionality and the two write offsets. */
  datatype StoreHeader = StoreHeader(
    embeddingSize: int32,
    totalEntityCount: int64,
    embeddingCurrentPosition: int64,
    contentCurrentPosition: int64)

  /** A value of the id-keyed position index: `(contentposition, embeddingsposition, size)`. */
  datatype Pos = Pos(contentPosition: int64, embeddingPosition: int64, size: int64)

  /** A value of a collection's position index: `(contentposition, embeddingsposition, dimensions, size)`. */
  datatype CollectionPos = CollectionPos(contentPosition: int64, embeddingPosition: int64, dimensions: int32, size: int64)
}
