# Jigen store core in Dafny

Jigen is a small embedded vector store. It keeps three append-only files:

- a **content file**: an 8-byte header, then `[id][UTF-8 text]` records;
- an **embeddings file**: a 20-byte header, then `[id][content position][quantized vector]` records;
- an **index file**: 32-byte records, each `[id][content position][embedding position][content size]`, all little-endian `long`s.

On open the store creates missing files with their headers. It replays the index file into the id-keyed `PositionIndex`, the last record for an id winning. It then derives the header: the id high-water mark is the largest indexed id, and the write offsets are the file lengths.

`AppendContent` stamps the next id on an entry and queues it in a fixed-size circular queue. The writer appends a content record, an embedding record and an index record. `ReadContent` checks the stored id and returns the trimmed text. `Search` scores every vector of a collection against a query with a blocked ("SIMD") dot product. The model reads each vector 16 bytes into its record, where the writer put it; this is a correction, since the source reads it 8 bytes in (see Findings). It orders the scores from high to low, keeps the best `top`, and resolves their content. `VectorCollection` is a named view that registers and edits one collection's index.

The model has eight modules, one per concern:

| module | file | what it holds |
|---|---|---|
| `Wrappers` | `wrappers.dfy` | `Option`, `Result`, `Outcome` and the .NET exceptions the core throws |
| `Bytes` | `bytes.dfy` | bytes, 32- and 64-bit integers and their little-endian two's-complement encodings |
| `CircularQueue` | `circular_queue.dfy` | `CircularMemoryQueue<T>` as a class over an `array`, with a ghost FIFO view |
| `DataStructures` | `data_structures.dfy` | `VectorEntry`, `StoreHeader` and the index values |
| `LogFormat` | `log_format.dfy` | byte layouts of the three files and the pure readers over them (index replay, `ReadContent`, `ReadNextVectorEmbedding`) |
| `Jigen` | `store.dfy` | the `Store` class: opening, appending, rewriting the index |
| `Search` | `search.dfy` | the dot product, scoring, ranking and `Search` |
| `Collections` | `vector_collection.dfy` | the `VectorCollection` facade |

**Files as values.** The files are `seq<byte>` fields of the store; appends concatenate. A missing file is `None` at construction. `Store.Valid()` ties the in-memory header offsets to the file lengths. It also requires the index file to hold whole records and `positionIndex` to equal the replay of that file.

**The queue.** The queue keeps the source's two monotone counters and its `bufferSize` slots. A free-permit counter stands for the semaphore. Ghost `Contents` and `Enqueued` state what is pending and what was ever queued.

## Model

| member | source | states |
|---|---|---|
| `Bytes.EncodeInt64` | src/Jigen/Jigen/Extensions/StoreWritingExtensions.cs:50-55 | a `long` is written as exactly 8 bytes |
| `Bytes.EncodeInt32` | src/Jigen/Jigen/Extensions/StoreWritingExtensions.cs:43-48 | an `int` is written as exactly 4 bytes |
| `Bytes.Int64RoundTrip` | src/Jigen/Jigen/Extensions/StoreReadingExtensions.cs:43-46 | reading back 8 written bytes as a `long` gives the value that was written, negative values included |
| `Bytes.Int64Canonical` | src/Jigen/Jigen/Extensions/StoreReadingExtensions.cs:43-46 | every 8-byte string read as a `long` is the encoding of the value read, so decoding loses nothing |
| `Bytes.DecodeInt32` | src/Jigen/Jigen/Store.cs:135 | the 4-byte dimensionality of the embeddings header read as an `int`; `Bytes.Int32RoundTrip` states that it gives back the value written |
| `Bytes.Int32RoundTrip` | src/Jigen/Jigen/Store.cs:135 | the 4-byte dimensionality in the embeddings header reads back as written |
| `CircularQueue.CircularMemoryQueue.constructor` | src/Jigen/Jigen/PerformancePrimitives/CircularMemoryQueue.cs:13-18 | a new queue has the given size, both counters at 0, every permit free, nothing pending and every slot at the default |
| `CircularQueue.CircularMemoryQueue.IsEmpty` | src/Jigen/Jigen/PerformancePrimitives/CircularMemoryQueue.cs:21-24 | true exactly when nothing is pending, and exactly when every permit is free |
| `CircularQueue.CircularMemoryQueue.IsFull` | src/Jigen/Jigen/PerformancePrimitives/CircularMemoryQueue.cs:26-29 | corrected: true exactly when `bufferSize` items are pending, and exactly when no permit is left |
| `CircularQueue.CircularMemoryQueue.Count` | src/Jigen/Jigen/PerformancePrimitives/CircularMemoryQueue.cs:31-34 | corrected: the number of pending items, which with the free permits makes `bufferSize` |
| `CircularQueue.CircularMemoryQueue.Enqueue` | src/Jigen/Jigen/PerformancePrimitives/CircularMemoryQueue.cs:36-41 | with a free permit, takes it and puts the item at the back of the pending items; the items before it are unchanged |
| `CircularQueue.CircularMemoryQueue.TakeOldest` | src/Jigen/Jigen/PerformancePrimitives/CircularMemoryQueue.cs:47-51 | on a non-empty queue, returns the oldest pending item, clears its slot, drops it from the pending items and frees one permit |
| `CircularQueue.CircularMemoryQueue.Dequeue` | src/Jigen/Jigen/PerformancePrimitives/CircularMemoryQueue.cs:43-53 | on an empty queue, gives the default and changes nothing; otherwise gives the oldest item and removes it (first in, first out) |
| `CircularQueue.CircularMemoryQueue.TryDequeue` | src/Jigen/Jigen/PerformancePrimitives/CircularMemoryQueue.cs:55-66 | false with the default and no change when empty; otherwise true with the oldest item, which is removed |
| `CircularQueue.CircularMemoryQueue.Peek` | src/Jigen/Jigen/PerformancePrimitives/CircularMemoryQueue.cs:68-72 | the item the next dequeue would return (the default when empty), without changing the queue |
| `CircularQueue.FifoScenario` | src/Jigen/Jigen/PerformancePrimitives/CircularMemoryQueue.cs:36-66 | three items through a two-slot queue come back in the order they went in, `Peek` shows the next one, and a dequeue on the emptied queue fails with the default |
| `CircularQueue.IsFullAsWritten` | src/Jigen/Jigen/PerformancePrimitives/CircularMemoryQueue.cs:26-29 | as written: throws `DivideByZeroException` exactly when the read counter is 0, and can only report "full" when the read counter exceeds `bufferSize` |
| `CircularQueue.CountAsWritten` | src/Jigen/Jigen/PerformancePrimitives/CircularMemoryQueue.cs:31-34 | as written: throws `DivideByZeroException` exactly when the read counter is 0, is always below the read counter, and equals the write counter while that is below the read counter |
| `CircularQueue.FullQueueCounterexample` | src/Jigen/Jigen/PerformancePrimitives/CircularMemoryQueue.cs:26-34 | the as-written `IsFull` and `Count` divide by the read counter, and after one dequeue they disagree with the queue's real state |
| `LogFormat.IndexRecord` | src/Jigen/Jigen/Extensions/StoreWritingExtensions.cs:92-96 | each index append writes exactly 32 bytes |
| `LogFormat.IndexRecordRoundTrip` | src/Jigen/Jigen/Extensions/StoreReadingExtensions.cs:41-48 | the four `long`s read from a record are the id and positions the record was written with |
| `LogFormat.Replay` | src/Jigen/Jigen/Extensions/StoreReadingExtensions.cs:41-49 | loading never removes an id already in the map, and after loading a file of at least one whole record its first record's id is indexed |
| `LogFormat.ReplayConcat` | src/Jigen/Jigen/Extensions/StoreReadingExtensions.cs:41-49 | loading a file of whole records followed by more bytes is loading the first part, then the rest on top of that map |
| `LogFormat.ReplayAppendRecord` | src/Jigen/Jigen/Extensions/StoreWritingExtensions.cs:88-96 | reloading an aligned index after one `AppendIndex` gives the old reload with that id set to the appended positions, which is the in-memory update `AppendIndex` makes |
| `LogFormat.ReplayIgnoresTornTail` | src/Jigen/Jigen/Extensions/StoreReadingExtensions.cs:41 | fewer than 32 trailing bytes are ignored by the load |
| `LogFormat.WholeRecords` | src/Jigen/Jigen/Extensions/StoreReadingExtensions.cs:41 | the longest prefix of whole records has a length divisible by 32, leaves fewer than 32 bytes and loads to the same index |
| `LogFormat.AppendAfterTornTail` | src/Jigen/Jigen/Extensions/StoreWritingExtensions.cs:92-96 | as written: after a file of one record plus a stray zero byte, an appended record for an id not divisible by 256 is lost on reload, although the loader accepted the file |
| `LogFormat.AppendAfterTrim` | src/Jigen/Jigen/Extensions/StoreReadingExtensions.cs:41-49 | corrected: when the torn tail is cut before appending, the reload equals the old index with the appended id set |
| `LogFormat.ReplayUntouchedKey` | src/Jigen/Jigen/Extensions/StoreReadingExtensions.cs:48 | an id that no record carries keeps the entry it had before the load |
| `LogFormat.ReplayLastWriteWins` | src/Jigen/Jigen/Extensions/StoreReadingExtensions.cs:48 | after the load, an id maps to the positions of the last record carrying it |
| `LogFormat.IndexLog` | src/Jigen/Jigen/Extensions/StoreWritingExtensions.cs:92-96 | a run of `n` appends leaves `32 * n` bytes, whole records only |
| `LogFormat.ReplayIndexLog` | src/Jigen/Jigen/Extensions/StoreReadingExtensions.cs:41-49 | loading what any run of `AppendIndex` calls wrote rebuilds the map those calls built in memory |
| `LogFormat.TrimStart` | src/Jigen/Jigen/Extensions/StoreReadingExtensions.cs:64 | the result is a suffix of the input with no leading white space, and nothing but white space was dropped |
| `LogFormat.TrimEnd` | src/Jigen/Jigen/Extensions/StoreReadingExtensions.cs:64 | the result is a prefix of the input with no trailing white space, and nothing but white space was dropped |
| `LogFormat.Trim` | src/Jigen/Jigen/Extensions/StoreReadingExtensions.cs:64 | the result has no white space at either end, is no longer than the input, and is a slice of the input such that every byte dropped before it and after it is white space; an already trimmed string is returned unchanged |
| `LogFormat.ReadPadded` | src/Jigen/Jigen/Extensions/StoreReadingExtensions.cs:62-63 | a read of `size` bytes yields exactly `size` bytes: the stored bytes where the view has them, zeros past its end |
| `LogFormat.ReadRecordAt` | src/Jigen/Jigen/Extensions/StoreReadingExtensions.cs:59-64 | a successful read starts inside the view and yields trimmed text of at most the indexed size; when the 8-byte id lies inside the view it throws the content-id mismatch exactly when the stored id differs; a position outside the view, fewer than 8 bytes for the id, a negative size and a text position at the view's end throw as the .NET accessor and array allocation do |
| `LogFormat.ReadContent` | src/Jigen/Jigen/Extensions/StoreReadingExtensions.cs:53-65 | returns null exactly when the id is not indexed; any text it returns is trimmed and no longer than the indexed size |
| `LogFormat.ReadCollectionContent` | src/Jigen/Jigen/Extensions/SIMDSearchExtensions.cs:56 | returns null exactly when the collection or the id within it is not indexed; any text it returns is trimmed and no longer than the indexed size |
| `LogFormat.ReadContentDetectsCorruption` | src/Jigen/Jigen/Extensions/StoreReadingExtensions.cs:59-60 | for an indexed id inside the view, the read throws the content-id mismatch exactly when the stored id differs |
| `LogFormat.ReadRecordAfterAppend` | src/Jigen/Jigen/Extensions/StoreReadingExtensions.cs:59-64 | reading a non-empty content record at the position it was appended gives back the trimmed text; an empty record appended at the end of the file throws `ArgumentOutOfRangeException`, because its text position is the end of the view |
| `LogFormat.ReadAfterAppend` | src/Jigen/Jigen/Extensions/StoreReadingExtensions.cs:53-65 | after the writer appends a non-empty content record and indexes it, `ReadContent` of that id returns its trimmed text, and the text itself when it has no outer white space; for an empty text it throws `ArgumentOutOfRangeException` |
| `LogFormat.ReadContentStableUnderAppend` | src/Jigen/Jigen/Extensions/StoreReadingExtensions.cs:53-65 | for an index whose records lie inside the content file, appended bytes do not change a read that succeeded before, nor any read whose text starts before the old end of the file; only an empty record at the very end, which threw before, can read differently |
| `LogFormat.ReadNextVectorEmbedding` | src/Jigen/Jigen/Extensions/StoreReadingExtensions.cs:67-83 | a negative vector size throws `OverflowException`; otherwise the read succeeds exactly when 16 + `4 * vectorSize` bytes remain, else throws `EndOfStreamException`; on success the id and position are the `long`s encoded by the first 16 bytes, the vector is the next `4 * vectorSize` bytes and the offset moves past them |
| `LogFormat.EmbeddingRecordRoundTrip` | src/Jigen/Jigen/Extensions/StoreReadingExtensions.cs:67-83 | reading an embedding record written by the append path gives its id, content position and vector bytes, with the offset just after it |
| `Jigen.MaxKeyExists` | src/Jigen/Jigen/Extensions/StoreReadingExtensions.cs:19 | a non-empty set of ids has a largest member, so the high-water mark is defined |
| `Jigen.IndexImage` | src/Jigen/Jigen/Extensions/StoreWritingExtensions.cs:72-78 | writing every index entry once gives 32 bytes per entry, and loading the result rebuilds exactly that index |
| `Jigen.Store.constructor` | src/Jigen/Jigen/Store.cs:53-66 | creates missing files with their headers, loads the index, keeps only its whole records (corrected: the source keeps a torn tail, see Findings) and derives a header whose count bounds every indexed id; a store opened on no files is empty with offsets 20 and 8 |
| `Jigen.Store.EnsureFileCreated` | src/Jigen/Jigen/Store.cs:125-165 | a missing embeddings file gets count, dimensionality and 20; a missing content file gets 8; a missing index file is empty; existing files are kept |
| `Jigen.Store.LoadIndex` | src/Jigen/Jigen/Extensions/StoreReadingExtensions.cs:32-50 | the index becomes the replay of the index file over the old index; an empty file changes nothing |
| `Jigen.Store.TrimTornIndexTail` | src/Jigen/Jigen/Extensions/StoreReadingExtensions.cs:41 | corrected: cuts the index file to whole records without changing what it loads to |
| `Jigen.Store.ReadHeader` | src/Jigen/Jigen/Extensions/StoreReadingExtensions.cs:14-29 | the count is 0 on an empty index and otherwise the largest indexed id; the write offsets are the file lengths; the dimensionality is the configured one |
| `Jigen.Store.AppendIndex` | src/Jigen/Jigen/Extensions/StoreWritingExtensions.cs:83-99 | sets the id's positions in memory, appends one 32-byte record and keeps the file a faithful image of the index |
| `Jigen.Store.AppendContentBytes` | src/Jigen/Jigen/Extensions/StoreWritingExtensions.cs:118-148 | appends `[id][text]` to the content file and `[id][content position][vector]` to the embeddings file; earlier bytes are kept; records the three positions and the size and returns them |
| `Jigen.Store.AppendContentQuantized` | src/Jigen/Jigen/Extensions/StoreWritingExtensions.cs:111-116 | the same append, with the vector produced by the configured quantization function |
| `Jigen.Store.AppendContent` | src/Jigen/Jigen/Extensions/StoreWritingExtensions.cs:102-109 | the entry gets the next id (one more than the count, wrapping at the largest `long` as `Interlocked.Increment` does), the header count becomes that id and the stamped entry is queued behind everything queued before |
| `Jigen.Store.RewriteIndex` | src/Jigen/Jigen/Extensions/StoreWritingExtensions.cs:63-81 | the rewritten file holds one record per index entry and still loads to the same index |
| `Jigen.FreshStoreScenario` | src/Jigen/Jigen/WriterThread.cs:44-48 | a fresh store hands out ids 1 and 2; the writer's drain loop dequeues the first entry, stamped with id 1, and writes it through the quantizing append right after the 8- and 20-byte headers; reading id 1 then gives back that entry's own content when it is non-empty and trimmed, and throws `ArgumentOutOfRangeException` when it is empty |
| `Search.SumOfZeros` | src/Jigen/Jigen/Extensions/SIMDSearchExtensions.cs:64 | the accumulator vector starts at a horizontal sum of 0 |
| `Search.LaneStep` | src/Jigen/Jigen/Extensions/SIMDSearchExtensions.cs:67-73 | one block step adds the products of that block to the sum over the lanes |
| `Search.DotProductSimd` | src/Jigen/Jigen/Extensions/SIMDSearchExtensions.cs:61-82 | for any block width, the blocked loop, the horizontal sum and the tail loop together give the plain dot product of the first `length` elements (0 when `length` is not positive) |
| `Search.StoredVector` | src/Jigen/Jigen/Extensions/SIMDSearchExtensions.cs:35-37 | corrected: the `Dims` elements read 16 bytes into an embedding record, one per byte; `Search.StoredVectorRoundTrip` states that they are the vector the writer stored |
| `Search.StoredVectorRoundTrip` | src/Jigen/Jigen/Extensions/StoreWritingExtensions.cs:139-142 | corrected: reading the vector 16 bytes into an embedding record gives back the bytes the writer stored, as signed elements |
| `Search.StoredVectorAsWritten` | src/Jigen/Jigen/Extensions/SIMDSearchExtensions.cs:35-37 | as written: the elements read 8 bytes into the record; `Search.StoredVectorAsWrittenShifted` states that the first eight are the content position's bytes |
| `Search.StoredVectorAsWrittenReadsContentPosition` | src/Jigen/Jigen/Extensions/SIMDSearchExtensions.cs:37 | as written: reading the vector 8 bytes in scores the content position, not the vector |
| `Search.StoredVectorAsWrittenShifted` | src/Jigen/Jigen/Extensions/SIMDSearchExtensions.cs:37 | as written, for every record the writer appended: the first eight elements scored are the bytes of the content position, and every later element is the stored vector shifted by eight |
| `Search.Score` | src/Jigen/Jigen/Extensions/SIMDSearchExtensions.cs:33-43 | the pair one entry contributes: the id at the record start and the dot product of the query with `Search.StoredVector`; `Search.ScoreOne` states that the blocked scan body computes it |
| `Search.ScoreOne` | src/Jigen/Jigen/Extensions/SIMDSearchExtensions.cs:33-43 | the scan body for one entry gives the id stored at the record start and the blocked dot product of the query with the vector 16 bytes in (corrected, see Findings): exactly that entry's pair |
| `Search.ScoreAll` | src/Jigen/Jigen/Extensions/SIMDSearchExtensions.cs:31-45 | visits every indexed record exactly once, in some order, giving each its stored id and its dot product with the query: one pair per entry, every entry's pair present, and no pair that is not some entry's |
| `Search.EnumerationScores` | src/Jigen/Jigen/Extensions/SIMDSearchExtensions.cs:31-45 | whatever order the parallel scan takes, the bag has one pair per entry, holds every entry's pair and nothing else |
| `Search.Insert` | src/Jigen/Jigen/Extensions/SIMDSearchExtensions.cs:53 | insertion adds exactly one element and loses none |
| `Search.InsertSorted` | src/Jigen/Jigen/Extensions/SIMDSearchExtensions.cs:53 | inserting into a list ordered from high to low score keeps it ordered |
| `Search.SortByScore` | src/Jigen/Jigen/Extensions/SIMDSearchExtensions.cs:53 | the result is a permutation of the scores, ordered from high to low |
| `Search.SortedSplit` | src/Jigen/Jigen/Extensions/SIMDSearchExtensions.cs:53 | in a list ordered by score, every score in a prefix is at least every score after it |
| `Search.Rank` | src/Jigen/Jigen/Extensions/SIMDSearchExtensions.cs:53 | keeps `min(top, n)` scores (none when `top` is not positive), ordered from high to low, drawn from the input, each at least every score left out |
| `Search.Resolve` | src/Jigen/Jigen/Extensions/SIMDSearchExtensions.cs:54-57 | keeps ids, scores and order, each hit carrying its `ReadContent` result; it fails exactly when some read throws, with the exception of the first read that throws, every read before it having succeeded |
| `Search.Search` | src/Jigen/Jigen/Extensions/SIMDSearchExtensions.cs:13-59 | a null query throws; `top <= 0` or an unknown collection gives an empty list; otherwise the result is the resolution of the best `top` scores of the collection, ordered from high to low, each vector read 16 bytes into its record (corrected: the source reads it 8 bytes in, see Findings) |
| `Collections.VectorCollection.New` | src/Jigen/Jigen/VectorCollection.cs:14-24 | a null, empty or over-256-character name throws `ArgumentException`; a null store throws `ArgumentNullException`; a taken name throws `ArgumentException`; otherwise it registers an empty index under the name, and nothing else in the store changes |
| `Collections.VectorCollection.Contains` | src/Jigen/Jigen/VectorCollection.cs:51-58 | true exactly when the item is non-null, the collection exists and the item's id is in its index; in particular false for an empty collection |
| `Collections.VectorCollection.Count` | src/Jigen/Jigen/VectorCollection.cs:71 | 0 exactly when the collection is missing or empty |
| `Collections.VectorCollection.Add` | src/Jigen/Jigen/VectorCollection.cs:36-43 | a null item is ignored and a size mismatch throws `InvalidOperationException`, both leaving the header and the queue unchanged; otherwise the item, stamped with the collection name and the next id, is queued behind the pending items, one permit is taken and the header count becomes that id |
| `Collections.VectorCollection.Clear` | src/Jigen/Jigen/VectorCollection.cs:45-49 | the collection becomes empty and contains nothing; other collections are untouched |
| `Collections.VectorCollection.Remove` | src/Jigen/Jigen/VectorCollection.cs:65-69 | true exactly when the item was contained; afterwards it is not, the count drops by one, and nothing else changes |
| `Collections.CollectionScenario` | src/Jigen/Jigen/VectorCollection.cs:14-43 | a collection on a fresh store is created, a second one of the same name is refused, it starts empty, a null item is ignored and a wrongly sized one is refused |

## Left out

- The background writer thread that drains the ingestion queue into the files is not part of the model (src/Jigen/Jigen/WriterThread.cs:44-48). Drain order is given by the queue's FIFO contracts and the append path by `Jigen.Store.AppendContentBytes`; the thread, its signal and its scheduling are left out.
- Concurrency is left out: `Interlocked`, the semaphore's blocking wait, `Parallel.ForEach` and the `ConcurrentBag`. Every operation runs atomically. `Enqueue` requires a free permit instead of waiting for one. `Search` states its result for some order of the scan rather than a particular one.
- Memory-mapped views, file streams, seeking, flushing, `EnableReading` and `EnableWriting` are modelled as the byte sequences they expose, with the exceptions in the next three lines.
- An existing but empty content or embeddings file is not modelled as unmapped. `EnableReading` maps only a file longer than 0 bytes (src/Jigen/Jigen/Store.cs:80-86), so the source's `ReadContent` throws `NullReferenceException` for every id, even an unindexed one (src/Jigen/Jigen/Extensions/StoreReadingExtensions.cs:55). Its `Search` throws `NullReferenceException` for every collection once `top > 0`, even an unknown one (src/Jigen/Jigen/Extensions/SIMDSearchExtensions.cs:21). A store opened with `contentFile := Some([])` instead gives `Success(None)` from `LogFormat.ReadContent` for an unindexed id, and `Success([])` from `Search.Search` for an unknown collection.
- Reads see the live files. The source reads the views mapped at the last `EnableReading` (src/Jigen/Jigen/Store.cs:60, src/Jigen/Jigen/WriterThread.cs:58), so it does not see appends made since then.
- Page rounding of mapped views is left out: a view's capacity is the file's length. So `LogFormat.ReadRecordAt` throws `ArgumentOutOfRangeException` for an empty record at the very end of the file, where the source's rounded view would usually read an empty text.
- `SaveHeader`, `VerifyFileSize` and the store options type are not part of this model.
- Floating point is left out. Embeddings are integers, and a quantized vector is one signed byte per element (`SByte`) rather than a 4-byte `float`. The dot product is exact, and the hardware SIMD width is a parameter.
- `ReadNextVectorEmbedding` returns the raw `4 * VectorSize` bytes it reads, not reinterpreted as floats.
- UTF-8 encoding and decoding are left out. Content is bytes. `Trim` removes ASCII white space only, not every Unicode white-space character.
- `LogFormat.ReadPadded`: the `(int)size` truncation of `ReadArray` is not modelled. A size is read in full, or padded with the zeros of a fresh buffer.
- Null embeddings and null content strings are not modelled. Entries always carry both.
- `Collections.VectorCollection`: the collection-keyed index holds `long` ids. The source declares `byte[]` keys with a byte-array comparer, but looks them up with the entry's `long` id. The model follows the lookups.
- The writer fills only the id-keyed index, so in the model, as in the source, a collection's own index is never filled by `Add`.
- `Search.Search` requires every record of the collection to lie inside the embeddings file. The source reads unmanaged memory there, and what it does past the mapped view is undefined.
- `Search.Search` also requires every record's dimensionality to be at most the query's length. The source never checks this (src/Jigen/Jigen/Extensions/SIMDSearchExtensions.cs:39-42, 79); a shorter query makes it read unmanaged memory past the query array.
- `Jigen.Store.AppendContent` returns the stamped entry as a new value. The source sets `entry.Id` on the caller's object (src/Jigen/Jigen/Extensions/StoreWritingExtensions.cs:105); that aliasing is not modelled.
- `Collections.VectorCollection.Add` returns only its outcome. The source sets `item.CollectionName` on the caller's object (src/Jigen/Jigen/VectorCollection.cs:41); the stamped item is visible only in the queue's contents.
- `Collections.VectorCollection.New` measures a name's length in characters of `string`. C#'s `name.Length` counts UTF-16 code units (src/Jigen/Jigen/VectorCollection.cs:17), so a name with characters outside the basic plane can differ.
- `LogFormat.ReadCollectionContent`: the `ReadContent(collection, id)` overload that `Search` calls (src/Jigen/Jigen/Extensions/SIMDSearchExtensions.cs:56) is not part of this model. It is modelled by analogy with `ReadContent(id)`, reading through the collection-keyed index.
- `CircularQueue.CircularMemoryQueue`: the read and write counters are `long`s in the source and unbounded naturals here. Wrap-around after 2^63 operations is not modelled.
- `Bytes.DecodeInt64` has no contract of its own. Its properties are the lemmas `Bytes.Int64RoundTrip` and `Bytes.Int64Canonical`; stating the round trip on the function itself makes unrelated proofs much more expensive.
- `GetEnumerator`, `CopyTo` and `IsReadOnly` are left out: the first two throw `NotImplementedException`, and the last is a constant.
- `Search.SortByScore`: the sort is stable (equal scores keep their scan order), but no lemma states this. `OrderByDescending` promises it; here it matters only for ties.
- File sizes beyond the largest `long` are excluded by preconditions on the constructor and the append methods; a .NET stream cannot reach them.

## Findings

| source | as written | input that shows it | evidently intended | confidence | as-written member | corrected member |
|---|---|---|---|---|---|---|
| src/Jigen/Jigen/PerformancePrimitives/CircularMemoryQueue.cs:28 | `IsFull` is `WritingPosition % ReadingPosition == bufferSize` | a one-slot queue holding one item (reading position still 0) divides by zero; after a dequeue and a second enqueue it is `2 % 1 == 0`: not full although no permit is left (`CircularQueue.FullQueueCounterexample`) | `WritingPosition - ReadingPosition == bufferSize` | not executed; high | `CircularQueue.IsFullAsWritten` | `CircularQueue.CircularMemoryQueue.IsFull` |
| src/Jigen/Jigen/PerformancePrimitives/CircularMemoryQueue.cs:33 | `Count` is `WritingPosition % ReadingPosition` | the same one-slot queue: `Count` is 0 while one item is pending (`CircularQueue.FullQueueCounterexample`) | `WritingPosition - ReadingPosition` | not executed; high | `CircularQueue.CountAsWritten` | `CircularQueue.CircularMemoryQueue.Count` |
| src/Jigen/Jigen/Extensions/SIMDSearchExtensions.cs:37 | the vector is read `sizeof(long)` past the record start (`Search.StoredVectorAsWritten`), but the writer puts the content position there (src/Jigen/Jigen/Extensions/StoreWritingExtensions.cs:139-142) | any record: its first eight elements are read from the content position; an embedding record for id 1, content position 8 and vector `[1]` reads as the vector `[8]` (`Search.StoredVectorAsWrittenReadsContentPosition`) | read the vector `2 * sizeof(long)` past the record start, as `ReadNextVectorEmbedding` does | not executed; high | `Search.StoredVectorAsWrittenShifted` | `Search.StoredVectorRoundTrip` |
| src/Jigen/Jigen/Extensions/StoreWritingExtensions.cs:92 | `AppendIndex` appends at the end of the index file even when `LoadIndex` stopped before a torn last record (src/Jigen/Jigen/Extensions/StoreReadingExtensions.cs:41) | an index file holding the record for id 1 and one stray zero byte, then an append for id 2: on reload the bytes are read one out of step, and id 2 is missing | cut the file to whole records when opening, so appends stay aligned (`Jigen.Store.TrimTornIndexTail`, called by the constructor) | not executed; medium (needs a torn write) | `LogFormat.AppendAfterTornTail` | `LogFormat.AppendAfterTrim` |
