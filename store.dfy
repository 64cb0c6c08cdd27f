/**
 * The store: three append-only files (content, embeddings, index) modelled as
 * byte sequences, the in-memory position indexes, the header and the ingestion
 * queue. Reading and writing extension methods are methods of the class.
 */
module Jigen {
  import opened Bytes
  import opened Wrappers
  import opened DataStructures
  import opened LogFormat
  import opened CircularQueue

  const CircularWritingBufferSize: nat := 1_000_000

  /** `2 * sizeof(long) + sizeof(int)`: the header of a new embeddings file. */
  const EmbeddingHeaderSize: int64 := 20

  /** `sizeof(long)`: the header of a new content file. */
  const ContentHeaderSize: int64 := 8

  /** `Interlocked.Increment` on a `long`: the maximum wraps to the minimum. */
  function NextId(count: int64): (r: int64)
  {
    if count == MaxInt64 then MinInt64 else count + 1
  }

  /** The bytes `EnsureFileCreated` writes into a new embeddings file. */
  function EmbeddingsFileHeader(totalEntityCount: int64, embeddingSize: int32): (r: seq<byte>)
  {
    EncodeInt64(totalEntityCount) + EncodeInt32(embeddingSize) + EncodeInt64(EmbeddingHeaderSize)
  }

  /** `ReadHeader`'s id high-water mark: 0 for an empty index, else the largest id. */
  ghost predicate HighWaterMark(count: int64, index: map<int64, Pos>)
  {
    && (index == map[] ==> count == 0)
    && (index != map[] ==> count in index && forall k :: k in index ==> k <= count)
  }

  predicate IsUpperBound(top: int64, s: set<int64>)
  {
    forall j :: j in s ==> j <= top
  }

  lemma {:induction false} MaxKeyExists(s: set<int64>)
    requires s != {}
    ensures exists top :: top in s && IsUpperBound(top, s)
    decreases s
  {
    var x :| x in s;
    var rest := s - {x};
    if rest == {} {
      forall j | j in s
        ensures j == x
      {
        assert j !in rest;
      }
      assert IsUpperBound(x, s);
    } else {
      MaxKeyExists(rest);
      var k :| k in rest && IsUpperBound(k, rest);
      var top := if x > k then x else k;
      forall j | j in s
        ensures j <= top
      {
        if j != x {
          assert j in rest;
        }
      }
      assert IsUpperBound(top, s);
    }
  }

  /** The keys already written, each with its value from the index. */
  ghost predicate WrittenPrefix(index: map<int64, Pos>, entries: seq<(int64, Pos)>, written: set<int64>)
  {
    && (forall j :: j in Assign(map[], entries) <==> j in written)
    && (forall j :: j in written ==> j in index && Assign(map[], entries)[j] == index[j])
  }

  lemma WrittenPrefixStep(index: map<int64, Pos>, entries: seq<(int64, Pos)>, written: set<int64>, k: int64)
    requires WrittenPrefix(index, entries, written) && k in index
    ensures WrittenPrefix(index, entries + [(k, index[k])], written + {k})
    ensures IndexLog(entries + [(k, index[k])]) == IndexLog(entries) + IndexRecord(k, index[k])
  {
    var e := entries + [(k, index[k])];
    assert e[..|entries|] == entries;
    assert Assign(map[], e) == Assign(map[], entries)[k := index[k]];
  }

  lemma WrittenAll(index: map<int64, Pos>, entries: seq<(int64, Pos)>, written: set<int64>)
    requires WrittenPrefix(index, entries, written) && written == index.Keys
    ensures Assign(map[], entries) == index && |written| == |index|
  {
  }

  /** The state of the rewrite loop: `written` went out as `entries`, `remaining` is still to go. */
  ghost predicate Progress(index: map<int64, Pos>, remaining: set<int64>, written: set<int64>,
                           entries: seq<(int64, Pos)>, log: seq<byte>)
  {
    && remaining !! written && remaining + written == index.Keys
    && log == IndexLog(entries) && |entries| == |written|
    && WrittenPrefix(index, entries, written)
  }

  lemma ProgressStep(index: map<int64, Pos>, remaining: set<int64>, written: set<int64>,
                     entries: seq<(int64, Pos)>, log: seq<byte>, k: int64)
    requires Progress(index, remaining, written, entries, log) && k in remaining
    ensures Progress(index, remaining - {k}, written + {k}, entries + [(k, index[k])], log + IndexRecord(k, index[k]))
  {
    WrittenPrefixStep(index, entries, written, k);
  }

  lemma ProgressDone(index: map<int64, Pos>, written: set<int64>, entries: seq<(int64, Pos)>, log: seq<byte>)
    requires Progress(index, {}, written, entries, log)
    ensures |log| == IndexEntrySize * |index| && Replay(map[], log) == index
  {
    WrittenAll(index, entries, written);
    ReplayIndexLog(map[], entries);
  }

  /**
   * The index image `RewriteIndex` writes: one 32-byte record per entry of the
   * position index, in the order the keys are visited; replaying it gives back
   * the index.
   */
  method IndexImage(index: map<int64, Pos>) returns (log: seq<byte>)
    ensures |log| == IndexEntrySize * |index| && |log| % IndexEntrySize == 0
    ensures Replay(map[], log) == index
  {
    log := [];
    var remaining := index.Keys;
    ghost var entries: seq<(int64, Pos)> := [];
    ghost var written: set<int64> := {};
    while remaining != {}
      invariant Progress(index, remaining, written, entries, log)
      decreases |remaining|
    {
      var k :| k in remaining;
      ProgressStep(index, remaining, written, entries, log, k);
      log := log + IndexRecord(k, index[k]);
      entries := entries + [(k, index[k])];
      remaining := remaining - {k};
      written := written + {k};
    }
    ProgressDone(index, written, entries, log);
  }

  class Store {
    /** `Options.VectorSize`. */
    const vectorSize: int32
    /** `Options.QuantizationFunction` followed by the byte image of its result. */
    const quantize: seq<int> -> seq<byte>
    const ingestionQueue: CircularMemoryQueue<Option<VectorEntry>>

    /** The content, embeddings and index files. */
    var content: seq<byte>
    var embeddings: seq<byte>
    var indexFile: seq<byte>

    /** The id-keyed `PositionIndex` the writer and `LoadIndex` maintain. */
    var positionIndex: map<int64, Pos>
    /** The collection-keyed `PositionIndex` that collections and search use. */
    var collectionIndex: map<string, map<int64, CollectionPos>>

    var header: StoreHeader

    ghost predicate Valid()
      reads this, ingestionQueue, ingestionQueue.buffer
    {
      && ingestionQueue.Valid() && ingestionQueue.Default == None
      && header.embeddingSize == vectorSize
      && header.contentCurrentPosition == |content|
      && header.embeddingCurrentPosition == |embeddings|
      && |indexFile| % IndexEntrySize == 0
      && positionIndex == Replay(map[], indexFile)
    }

    /**
     * `new Store(options)` over files that may already exist (`None`: absent):
     * create missing files, replay the index, derive the header.
     */
    constructor (vectorSize: int32, quantize: seq<int> -> seq<byte>,
                 embeddingsFile: Option<seq<byte>>, indexFile: Option<seq<byte>>, contentFile: Option<seq<byte>>)
      requires embeddingsFile.Some? ==> |embeddingsFile.value| <= MaxInt64
      requires contentFile.Some? ==> |contentFile.value| <= MaxInt64
      ensures Valid() && fresh(ingestionQueue) && fresh(ingestionQueue.buffer)
      ensures this.vectorSize == vectorSize && this.quantize == quantize
      ensures ingestionQueue.bufferSize == CircularWritingBufferSize && ingestionQueue.Enqueued == []
      ensures embeddings == if embeddingsFile.None? then EmbeddingsFileHeader(0, vectorSize) else embeddingsFile.value
      ensures content == if contentFile.None? then EncodeInt64(ContentHeaderSize) else contentFile.value
      ensures this.indexFile == WholeRecords(if indexFile.None? then [] else indexFile.value)
      ensures positionIndex == Replay(map[], if indexFile.None? then [] else indexFile.value)
      ensures collectionIndex == map[]
      ensures HighWaterMark(header.totalEntityCount, positionIndex)
      ensures embeddingsFile.None? ==> header.embeddingCurrentPosition == EmbeddingHeaderSize
      ensures contentFile.None? ==> header.contentCurrentPosition == ContentHeaderSize
      ensures embeddingsFile.None? && indexFile.None? && contentFile.None? ==>
        positionIndex == map[] && header == StoreHeader(vectorSize, 0, EmbeddingHeaderSize, ContentHeaderSize)
    {
      this.vectorSize := vectorSize;
      this.quantize := quantize;
      ingestionQueue := new CircularMemoryQueue<Option<VectorEntry>>(CircularWritingBufferSize, None);
      content, embeddings, this.indexFile := [], [], [];
      positionIndex, collectionIndex := map[], map[];
      header := StoreHeader(vectorSize, 0, 0, 0);
      new;
      EnsureFileCreated(embeddingsFile, indexFile, contentFile);
      LoadIndex();
      TrimTornIndexTail();
      ReadHeader();
      assert Replay(map[], this.indexFile) == positionIndex;
    }

    /**
     * Creates each missing file with its header: the embeddings file gets the id
     * count, the dimensionality and the value 20; the content file the value 8;
     * the index file nothing. An existing file is kept as it is.
     */
    method EnsureFileCreated(embeddingsFile: Option<seq<byte>>, indexFile: Option<seq<byte>>, contentFile: Option<seq<byte>>)
      modifies this`embeddings, this`indexFile, this`content, this`header
      ensures embeddings == if embeddingsFile.None? then EmbeddingsFileHeader(old(header.totalEntityCount), old(header.embeddingSize))
                            else embeddingsFile.value
      ensures this.indexFile == if indexFile.None? then [] else indexFile.value
      ensures content == if contentFile.None? then EncodeInt64(ContentHeaderSize) else contentFile.value
      ensures header.embeddingSize == old(header.embeddingSize) && header.totalEntityCount == old(header.totalEntityCount)
      ensures header.embeddingCurrentPosition ==
        if embeddingsFile.None? then EmbeddingHeaderSize else old(header.embeddingCurrentPosition)
      ensures header.contentCurrentPosition ==
        if contentFile.None? then ContentHeaderSize else old(header.contentCurrentPosition)
    {
      if embeddingsFile.None? {
        header := header.(embeddingCurrentPosition := EmbeddingHeaderSize);
        embeddings := EncodeInt64(header.totalEntityCount) + EncodeInt32(header.embeddingSize)
          + EncodeInt64(header.embeddingCurrentPosition);
      } else {
        embeddings := embeddingsFile.value;
      }
      this.indexFile := if indexFile.None? then [] else indexFile.value;
      if contentFile.None? {
        header := header.(contentCurrentPosition := ContentHeaderSize);
        content := EncodeInt64(header.contentCurrentPosition);
      } else {
        content := contentFile.value;
      }
    }

    /** `LoadIndex`: replays the index file into `PositionIndex`, record by record. */
    method LoadIndex()
      modifies this`positionIndex
      ensures positionIndex == Replay(old(positionIndex), indexFile)
      ensures indexFile == [] ==> positionIndex == old(positionIndex)
    {
      if |indexFile| == 0 {
        return;
      }
      var position := 0;
      while position + IndexEntrySize <= |indexFile|
        invariant 0 <= position <= |indexFile|
        invariant Replay(positionIndex, indexFile[position..]) == Replay(old(positionIndex), indexFile)
        decreases |indexFile| - position
      {
        ghost var rest := indexFile[position..];
        var id := DecodeInt64(indexFile[position..position + 8]);
        var contentPosition := DecodeInt64(indexFile[position + 8..position + 16]);
        var embeddingsPosition := DecodeInt64(indexFile[position + 16..position + 24]);
        var size := DecodeInt64(indexFile[position + 24..position + 32]);
        assert rest[0..8] == indexFile[position..position + 8];
        assert rest[8..16] == indexFile[position + 8..position + 16];
        assert rest[16..24] == indexFile[position + 16..position + 24];
        assert rest[24..32] == indexFile[position + 24..position + 32];
        assert rest[IndexEntrySize..] == indexFile[position + IndexEntrySize..];
        positionIndex := positionIndex[id := Pos(contentPosition, embeddingsPosition, size)];
        position := position + IndexEntrySize;
      }
    }

    /**
     * Drops a trailing partial record left by an interrupted append, so that
     * the records appended after it start on a record boundary.
     */
    method TrimTornIndexTail()
      modifies this`indexFile
      ensures indexFile == WholeRecords(old(indexFile))
      ensures |indexFile| % IndexEntrySize == 0
      ensures Replay(map[], indexFile) == Replay(map[], old(indexFile))
    {
      indexFile := WholeRecords(indexFile);
    }

    /** `ReadHeader`: the id high-water mark from the index, the write offsets from the file lengths. */
    method ReadHeader()
      requires |embeddings| <= MaxInt64 && |content| <= MaxInt64
      modifies this`header
      ensures header.embeddingSize == vectorSize
      ensures HighWaterMark(header.totalEntityCount, positionIndex)
      ensures forall k :: k in positionIndex ==> k <= header.totalEntityCount
      ensures header.embeddingCurrentPosition == |embeddings| && header.contentCurrentPosition == |content|
    {
      var count: int64 := 0;
      if |positionIndex| != 0 {
        MaxKeyExists(positionIndex.Keys);
        count :| count in positionIndex.Keys && IsUpperBound(count, positionIndex.Keys);
      }
      header := StoreHeader(vectorSize, count, |embeddings|, |content|);
    }

    /** `AppendIndex`: records the positions under the id and appends one 32-byte record. */
    method AppendIndex(id: int64, contentPosition: int64, embeddingPosition: int64, contentSize: int64)
      requires Valid()
      modifies this`positionIndex, this`indexFile
      ensures Valid()
      ensures positionIndex == old(positionIndex)[id := Pos(contentPosition, embeddingPosition, contentSize)]
      ensures indexFile == old(indexFile) + IndexRecord(id, Pos(contentPosition, embeddingPosition, contentSize))
      ensures |indexFile| == old(|indexFile|) + IndexEntrySize
    {
      var p := Pos(contentPosition, embeddingPosition, contentSize);
      var record := IndexRecord(id, p);
      ReplayAppendRecord(map[], indexFile, id, p);
      AlignedAfterRecord(|indexFile|);
      positionIndex := positionIndex[id := p];
      indexFile := indexFile + record;
    }

    /**
     * The private `AppendContent` over an already quantized vector: a content
     * record at the end of the content file, an embedding record at the end of
     * the embeddings file, then the index record.
     */
    method AppendContentBytes(id: int64, text: seq<byte>, vector: seq<byte>)
      returns (rid: int64, position: int64, embeddingPosition: int64, size: int64)
      requires Valid()
      requires |content| + 8 + |text| <= MaxInt64 && |embeddings| + 16 + |vector| <= MaxInt64
      modifies this`content, this`embeddings, this`header, this`positionIndex, this`indexFile
      ensures Valid()
      ensures rid == id && position == old(|content|) && embeddingPosition == old(|embeddings|) && size == |text|
      ensures content == old(content) + ContentRecord(id, text)
      ensures embeddings == old(embeddings) + EmbeddingRecord(id, position, vector)
      ensures header == old(header).(contentCurrentPosition := position + 8 + size,
                                     embeddingCurrentPosition := |embeddings|)
      ensures positionIndex == old(positionIndex)[id := Pos(position, embeddingPosition, size)]
      ensures indexFile == old(indexFile) + IndexRecord(id, Pos(position, embeddingPosition, size))
    {
      position, embeddingPosition, size := |content|, |embeddings|, |text|;
      var contentRecord := ContentRecord(id, text);
      var embeddingRecord := EmbeddingRecord(id, position, vector);
      assert |contentRecord| == 8 + size && |embeddingRecord| == 16 + |vector|;

      content := content + contentRecord;
      embeddings := embeddings + embeddingRecord;
      header := header.(contentCurrentPosition := |content|, embeddingCurrentPosition := |embeddings|);
      AppendIndex(id, position, embeddingPosition, size);
      rid := id;
    }

    /** The internal `AppendContent` over the logical vector: quantize, then append. */
    method AppendContentQuantized(id: int64, text: seq<byte>, embedding: seq<int>)
      returns (rid: int64, position: int64, embeddingPosition: int64, size: int64)
      requires Valid()
      requires |content| + 8 + |text| <= MaxInt64 && |embeddings| + 16 + |quantize(embedding)| <= MaxInt64
      modifies this`content, this`embeddings, this`header, this`positionIndex, this`indexFile
      ensures Valid()
      ensures rid == id && position == old(|content|) && embeddingPosition == old(|embeddings|) && size == |text|
      ensures content == old(content) + ContentRecord(id, text)
      ensures embeddings == old(embeddings) + EmbeddingRecord(id, position, quantize(embedding))
      ensures header == old(header).(contentCurrentPosition := |content|, embeddingCurrentPosition := |embeddings|)
      ensures positionIndex == old(positionIndex)[id := Pos(position, embeddingPosition, size)]
      ensures indexFile == old(indexFile) + IndexRecord(id, Pos(position, embeddingPosition, size))
    {
      rid, position, embeddingPosition, size := AppendContentBytes(id, text, quantize(embedding));
    }

    /**
     * The public `AppendContent`: takes the next id, stamps it on the entry and
     * queues the entry for the writer. An enqueue that would wait for a free
     * slot is excluded by the precondition.
     */
    method AppendContent(entry: VectorEntry) returns (r: VectorEntry)
      requires Valid() && ingestionQueue.availablePermits > 0
      modifies this`header, ingestionQueue, ingestionQueue.buffer
      ensures Valid()
      ensures r == entry.(id := NextId(old(header.totalEntityCount)))
      ensures old(header.totalEntityCount) < MaxInt64 ==> r.id == old(header.totalEntityCount) + 1
      ensures header == old(header).(totalEntityCount := r.id)
      ensures ingestionQueue.Enqueued == old(ingestionQueue.Enqueued) + [Some(r)]
      ensures ingestionQueue.Contents == old(ingestionQueue.Contents) + [Some(r)]
      ensures ingestionQueue.availablePermits == old(ingestionQueue.availablePermits) - 1
    {
      header := header.(totalEntityCount := NextId(header.totalEntityCount));
      r := entry.(id := header.totalEntityCount);
      ingestionQueue.Enqueue(Some(r));
    }

    /** `RewriteIndex`: truncate the index file, then write one record per `PositionIndex` entry. */
    method RewriteIndex()
      requires Valid()
      modifies this`indexFile
      ensures Valid()
      ensures |indexFile| == IndexEntrySize * |positionIndex|
    {
      indexFile := IndexImage(positionIndex);
    }
  }

  /** A whole number of index records stays whole after one more record. */
  lemma AlignedAfterRecord(n: nat)
    requires n % IndexEntrySize == 0
    ensures (n + IndexEntrySize) % IndexEntrySize == 0
  {
  }

  /**
   * A fresh store hands out ids 1, 2, ...; the writer's drain loop (`TryDequeue`,
   * then the internal `AppendContent`) writes the oldest queued entry right after
   * the 8-byte content header and the 20-byte embeddings header, and reading that
   * id gives back the entry's own content.
   */
  method FreshStoreScenario(quantize: seq<int> -> seq<byte>, first: VectorEntry, second: VectorEntry)
    returns (firstId: int64, secondId: int64, drained: Option<VectorEntry>,
             contentPosition: int64, embeddingPosition: int64,
             read: Result<Option<seq<byte>>, Exception>)
    requires |first.content| <= 0x1_0000 && |quantize(first.embedding)| <= 0x1_0000 && IsTrimmed(first.content)
    ensures firstId == 1 && secondId == 2
    ensures drained == Some(first.(id := 1))
    ensures contentPosition == ContentHeaderSize && embeddingPosition == EmbeddingHeaderSize
    ensures first.content != [] ==> read == Success(Some(first.content))
    ensures first.content == [] ==> read == Failure(ArgumentOutOfRangeException)
  {
    var store := new Store(1024, quantize, None, None, None);
    var r1 := store.AppendContent(first);
    var r2 := store.AppendContent(second);
    firstId, secondId := r1.id, r2.id;
    var ok;
    ok, drained := store.ingestionQueue.TryDequeue();
    var entry := drained.value;
    ghost var before, index := store.content, store.positionIndex;
    var _, p, e, _ := store.AppendContentQuantized(entry.id, entry.content, entry.embedding);
    ReadAfterAppend(before, index, entry.id, entry.content, e);
    contentPosition, embeddingPosition := p, e;
    read := ReadContent(store.content, store.positionIndex, entry.id);
  }
}
