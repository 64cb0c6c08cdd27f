/**
 * The byte layout of the three log files and the pure readers over it:
 * index records and their replay, content records and their lookup, and
 * embedding records.
 */
module LogFormat {
  import opened Bytes
  import opened Wrappers
  import opened DataStructures

  /** `sizeof(long) * 4`: id, content offset, embedding offset, content size. */
  const IndexEntrySize: nat := 32

  // ---------------------------------------------------------------- index log

  function IndexRecord(id: int64, p: Pos): (r: seq<byte>)
    ensures |r| == IndexEntrySize
  {
    EncodeInt64(id) + EncodeInt64(p.contentPosition) + EncodeInt64(p.embeddingPosition) + EncodeInt64(p.size)
  }

  /** The id field of the record that starts a byte string. */
  function RecordId(log: seq<byte>): (r: int64)
    requires |log| >= IndexEntrySize
  {
    DecodeInt64(log[0..8])
  }

  /** The position fields of the record that starts a byte string. */
  function RecordPos(log: seq<byte>): (r: Pos)
    requires |log| >= IndexEntrySize
  {
    Pos(DecodeInt64(log[8..16]), DecodeInt64(log[16..24]), DecodeInt64(log[24..32]))
  }

  lemma IndexRecordRoundTrip(id: int64, p: Pos)
    ensures RecordId(IndexRecord(id, p)) == id
    ensures RecordPos(IndexRecord(id, p)) == p
  {
    var r := IndexRecord(id, p);
    assert r[0..8] == EncodeInt64(id);
    assert r[8..16] == EncodeInt64(p.contentPosition);
    assert r[16..24] == EncodeInt64(p.embeddingPosition);
    assert r[24..32] == EncodeInt64(p.size);
    Int64RoundTrip(id);
    Int64RoundTrip(p.contentPosition);
    Int64RoundTrip(p.embeddingPosition);
    Int64RoundTrip(p.size);
  }

  /** The k-th whole record of an index log. */
  function RecordAt(log: seq<byte>, k: nat): (r: seq<byte>)
    requires k < |log| / IndexEntrySize
  {
    log[IndexEntrySize * k .. IndexEntrySize * k + IndexEntrySize]
  }

  /**
   * The effect of `LoadIndex` on a map: every whole 32-byte record, in file
   * order, overwrites the entry of its id; fewer than 32 remaining bytes end it.
   */
  function Replay(m: map<int64, Pos>, log: seq<byte>): (r: map<int64, Pos>)
    ensures m.Keys <= r.Keys
    ensures |log| >= IndexEntrySize ==> RecordId(log) in r
    decreases |log|
  {
    if |log| < IndexEntrySize then m
    else Replay(m[RecordId(log) := RecordPos(log)], log[IndexEntrySize..])
  }

  lemma {:induction false} ReplayConcat(m: map<int64, Pos>, a: seq<byte>, b: seq<byte>)
    requires |a| % IndexEntrySize == 0
    ensures Replay(m, a + b) == Replay(Replay(m, a), b)
    decreases |a|
  {
    if |a| == 0 {
      assert a + b == b;
    } else {
      var ab := a + b;
      assert ab[0..8] == a[0..8] && ab[8..16] == a[8..16] && ab[16..24] == a[16..24] && ab[24..32] == a[24..32];
      assert ab[IndexEntrySize..] == a[IndexEntrySize..] + b;
      ReplayConcat(m[RecordId(a) := RecordPos(a)], a[IndexEntrySize..], b);
    }
  }

  /** Replaying the bytes `AppendIndex` adds is the map update `AppendIndex` makes. */
  lemma ReplayAppendRecord(m: map<int64, Pos>, log: seq<byte>, id: int64, p: Pos)
    requires |log| % IndexEntrySize == 0
    ensures Replay(m, log + IndexRecord(id, p)) == Replay(m, log)[id := p]
  {
    var rec := IndexRecord(id, p);
    ReplayConcat(m, log, rec);
    IndexRecordRoundTrip(id, p);
    assert rec[IndexEntrySize..] == [];
  }

  /** A trailing partial record is ignored. */
  lemma ReplayIgnoresTornTail(m: map<int64, Pos>, log: seq<byte>, tail: seq<byte>)
    requires |log| % IndexEntrySize == 0 && |tail| < IndexEntrySize
    ensures Replay(m, log + tail) == Replay(m, log)
  {
    ReplayConcat(m, log, tail);
  }

  /** The longest prefix of an index log made of whole records. */
  function WholeRecords(log: seq<byte>): (r: seq<byte>)
    ensures |r| % IndexEntrySize == 0 && |log| - |r| < IndexEntrySize
    ensures Replay(map[], r) == Replay(map[], log)
  {
    var r := log[..|log| - |log| % IndexEntrySize];
    assert log == r + log[|r|..];
    ReplayIgnoresTornTail(map[], r, log[|r|..]);
    r
  }

  /** A record whose first byte is zero carries an id that is a multiple of 256. */
  lemma ZeroLowByte(s: seq<byte>)
    requires |s| == 8 && s[0] == 0
    ensures DecodeInt64(s) % 256 == 0
  {
    var d := DecodeInt64(s);
    Int64Canonical(s);
    var u: nat := if d < 0 then d as int + 0x1_0000_0000_0000_0000 else d;
    assert LittleEndian(u, 8)[0] == u % 256;
    assert u % 256 == 0;
  }

  /**
   * Appending at the end of an index file that ends in a torn record, as
   * `AppendIndex` does: the loader accepts the file, but the appended record
   * is read back one byte out of step, so after a reload its id is missing.
   */
  lemma AppendAfterTornTail(a: int64, p: Pos, b: int64, q: Pos)
    requires a != b && b % 256 != 0
    ensures Replay(map[], IndexRecord(a, p) + [0]) == map[a := p]
    ensures b !in Replay(map[], IndexRecord(a, p) + [0] + IndexRecord(b, q))
  {
    var first := IndexRecord(a, p);
    assert Replay(map[], first) == map[a := p] by {
      ReplayAppendRecord(map[], [], a, p);
      assert [] + first == first;
    }
    ReplayIgnoresTornTail(map[], first, [0]);
    var rest := [0] + IndexRecord(b, q);
    assert first + [0] + IndexRecord(b, q) == first + rest;
    ReplayConcat(map[], first, rest);
    assert RecordId(rest) != b by {
      ZeroLowByte(rest[0..8]);
    }
    assert Replay(map[a := p], rest) == map[a := p][RecordId(rest) := RecordPos(rest)] by {
      assert |rest[IndexEntrySize..]| < IndexEntrySize;
    }
  }

  /** Cutting the torn tail before appending keeps a reload equal to the in-memory update. */
  lemma AppendAfterTrim(log: seq<byte>, id: int64, p: Pos)
    ensures Replay(map[], WholeRecords(log) + IndexRecord(id, p)) == Replay(map[], log)[id := p]
  {
    ReplayAppendRecord(map[], WholeRecords(log), id, p);
  }

  lemma {:induction false} ReplayUntouchedKey(m: map<int64, Pos>, log: seq<byte>, id: int64)
    requires forall k :: 0 <= k < |log| / IndexEntrySize ==> RecordId(RecordAt(log, k)) != id
    ensures id in Replay(m, log) <==> id in m
    ensures id in m ==> Replay(m, log)[id] == m[id]
    decreases |log|
  {
    if |log| >= IndexEntrySize {
      var rest := log[IndexEntrySize..];
      assert RecordAt(log, 0) == log[0..IndexEntrySize];
      assert RecordAt(log, 0)[0..8] == log[0..8];
      forall k | 0 <= k < |rest| / IndexEntrySize
        ensures RecordId(RecordAt(rest, k)) != id
      {
        assert RecordAt(rest, k) == RecordAt(log, k + 1);
      }
      ReplayUntouchedKey(m[RecordId(log) := RecordPos(log)], rest, id);
    }
  }

  /** The fields of the record that starts a log are those of its first 32 bytes. */
  lemma RecordOfHead(log: seq<byte>)
    requires |log| >= IndexEntrySize
    ensures RecordId(log[..IndexEntrySize]) == RecordId(log)
    ensures RecordPos(log[..IndexEntrySize]) == RecordPos(log)
  {
    var h := log[..IndexEntrySize];
    assert h[0..8] == log[0..8] && h[8..16] == log[8..16];
    assert h[16..24] == log[16..24] && h[24..32] == log[24..32];
  }

  /** Dropping the first j + 1 records renumbers the records after them. */
  lemma RecordAtShift(log: seq<byte>, j: nat, k: nat)
    requires j + 1 + k < |log| / IndexEntrySize
    ensures k < |log[IndexEntrySize * (j + 1)..]| / IndexEntrySize
    ensures RecordAt(log[IndexEntrySize * (j + 1)..], k) == RecordAt(log, j + 1 + k)
  {
    var start := IndexEntrySize * (j + 1);
    assert start + IndexEntrySize * k == IndexEntrySize * (j + 1 + k);
    assert |log[start..]| == |log| - start;
    assert (|log| - start) / IndexEntrySize == |log| / IndexEntrySize - (j + 1);
  }

  /** Replaying a log is replaying the records before record j, then record j, then the rest. */
  lemma ReplayAtRecord(m: map<int64, Pos>, log: seq<byte>, j: nat)
    requires j < |log| / IndexEntrySize
    ensures Replay(m, log) == Replay(Replay(m, log[..IndexEntrySize * j])[RecordId(RecordAt(log, j)) := RecordPos(RecordAt(log, j))],
                                     log[IndexEntrySize * (j + 1)..])
  {
    var rec := RecordAt(log, j);
    var start := IndexEntrySize * j;
    var a, rest := log[..start], log[start..];
    assert log == a + rest;
    assert |a| % IndexEntrySize == 0;
    ReplayConcat(m, a, rest);
    assert rest[..IndexEntrySize] == rec;
    RecordOfHead(rest);
    assert rest[IndexEntrySize..] == log[IndexEntrySize * (j + 1)..];
  }

  /** When no later record carries record j's id, no record after it does in the remaining log. */
  lemma LaterRecordsAvoid(log: seq<byte>, j: nat, after: seq<byte>)
    requires j < |log| / IndexEntrySize && after == log[IndexEntrySize * (j + 1)..]
    requires forall k :: j < k < |log| / IndexEntrySize ==>
      RecordId(RecordAt(log, k)) != RecordId(RecordAt(log, j))
    ensures forall k :: 0 <= k < |after| / IndexEntrySize ==> RecordId(RecordAt(after, k)) != RecordId(RecordAt(log, j))
  {
    assert |after| / IndexEntrySize == |log| / IndexEntrySize - (j + 1);
    forall k | 0 <= k < |after| / IndexEntrySize
      ensures RecordId(RecordAt(after, k)) != RecordId(RecordAt(log, j))
    {
      RecordAtShift(log, j, k);
    }
  }

  /** Last write wins: an id's entry comes from the last record that carries it. */
  lemma ReplayLastWriteWins(m: map<int64, Pos>, log: seq<byte>, j: nat)
    requires j < |log| / IndexEntrySize
    requires forall k :: j < k < |log| / IndexEntrySize ==>
      RecordId(RecordAt(log, k)) != RecordId(RecordAt(log, j))
    ensures RecordId(RecordAt(log, j)) in Replay(m, log)
    ensures Replay(m, log)[RecordId(RecordAt(log, j))] == RecordPos(RecordAt(log, j))
  {
    var rec, after := RecordAt(log, j), log[IndexEntrySize * (j + 1)..];
    ReplayAtRecord(m, log, j);
    LaterRecordsAvoid(log, j, after);
    ReplayUntouchedKey(Replay(m, log[..IndexEntrySize * j])[RecordId(rec) := RecordPos(rec)], after, RecordId(rec));
  }

  /** The bytes a sequence of `AppendIndex` calls leaves in an empty index log. */
  function IndexLog(entries: seq<(int64, Pos)>): (r: seq<byte>)
    ensures |r| == IndexEntrySize * |entries| && |r| % IndexEntrySize == 0
  {
    if entries == [] then []
    else
      var last := entries[|entries| - 1];
      IndexLog(entries[..|entries| - 1]) + IndexRecord(last.0, last.1)
  }

  /** The map a sequence of `PositionIndex[id] = ...` assignments builds. */
  function Assign(m: map<int64, Pos>, entries: seq<(int64, Pos)>): (r: map<int64, Pos>)
  {
    if entries == [] then m
    else
      var last := entries[|entries| - 1];
      Assign(m, entries[..|entries| - 1])[last.0 := last.1]
  }

  /** Replaying what a sequence of appends wrote rebuilds the map those appends built. */
  lemma {:induction false} ReplayIndexLog(m: map<int64, Pos>, entries: seq<(int64, Pos)>)
    ensures Replay(m, IndexLog(entries)) == Assign(m, entries)
  {
    if entries != [] {
      var init, last := entries[..|entries| - 1], entries[|entries| - 1];
      ReplayIndexLog(m, init);
      ReplayAppendRecord(m, IndexLog(init), last.0, last.1);
    }
  }

  // -------------------------------------------------------------- content log

  /** A content record: `[id:i64][utf8 bytes]`; its length lives only in the index. */
  function ContentRecord(id: int64, text: seq<byte>): (r: seq<byte>)
  {
    EncodeInt64(id) + text
  }

  /** The white-space bytes `string.Trim` removes (the ASCII subset). */
  predicate IsWhiteSpace(b: byte)
  {
    b == 32 || 9 <= b <= 13
  }

  predicate IsTrimmed(s: seq<byte>)
  {
    s == [] || (!IsWhiteSpace(s[0]) && !IsWhiteSpace(s[|s| - 1]))
  }

  function TrimStart(s: seq<byte>): (r: seq<byte>)
    ensures |r| <= |s| && r == s[|s| - |r|..]
    ensures forall i :: 0 <= i < |s| - |r| ==> IsWhiteSpace(s[i])
    ensures r == [] || !IsWhiteSpace(r[0])
  {
    if s != [] && IsWhiteSpace(s[0]) then TrimStart(s[1..]) else s
  }

  function TrimEnd(s: seq<byte>): (r: seq<byte>)
    ensures |r| <= |s| && r == s[..|r|]
    ensures forall i :: |r| <= i < |s| ==> IsWhiteSpace(s[i])
    ensures r == [] || !IsWhiteSpace(r[|r| - 1])
  {
    if s != [] && IsWhiteSpace(s[|s| - 1]) then TrimEnd(s[..|s| - 1]) else s
  }

  /** `r` is `s` with `i` bytes dropped in front and the rest after it, all of them white space. */
  predicate DropsOnlyWhiteSpace(s: seq<byte>, r: seq<byte>, i: nat)
  {
    && i + |r| <= |s| && r == s[i..i + |r|]
    && (forall k :: 0 <= k < i ==> IsWhiteSpace(s[k]))
    && (forall k :: i + |r| <= k < |s| ==> IsWhiteSpace(s[k]))
  }

  /** Dropping a white-space prefix and then a white-space suffix drops only white space. */
  lemma DropBothEnds(s: seq<byte>, t: seq<byte>, r: seq<byte>)
    requires |t| <= |s| && t == s[|s| - |t|..]
    requires forall k :: 0 <= k < |s| - |t| ==> IsWhiteSpace(s[k])
    requires |r| <= |t| && r == t[..|r|]
    requires forall k :: |r| <= k < |t| ==> IsWhiteSpace(t[k])
    ensures DropsOnlyWhiteSpace(s, r, |s| - |t|)
  {
    var i := |s| - |t|;
    assert r == s[i..i + |r|];
    forall k | i + |r| <= k < |s|
      ensures IsWhiteSpace(s[k])
    {
      assert s[k] == t[k - i];
    }
  }

  lemma TrimBothEnds(s: seq<byte>)
    ensures DropsOnlyWhiteSpace(s, TrimEnd(TrimStart(s)), |s| - |TrimStart(s)|)
  {
    DropBothEnds(s, TrimStart(s), TrimEnd(TrimStart(s)));
  }

  /** `string.Trim`: the text between the leading and the trailing white space. */
  function Trim(s: seq<byte>): (r: seq<byte>)
    ensures IsTrimmed(r)
    ensures |r| <= |s|
    ensures exists i :: DropsOnlyWhiteSpace(s, r, i)
    ensures IsTrimmed(s) ==> r == s
  {
    TrimBothEnds(s);
    TrimEnd(TrimStart(s))
  }

  /** `size` bytes read from a view starting at `start`; bytes past the view's end read as 0. */
  function ReadPadded(view: seq<byte>, start: nat, size: nat): (r: seq<byte>)
    requires start <= |view|
    ensures |r| == size
    ensures start + size <= |view| ==> r == view[start..start + size]
    ensures forall k :: 0 <= k < size && start + k < |view| ==> r[k] == view[start + k]
    ensures forall k :: 0 <= k < size && |view| <= start + k ==> r[k] == 0
  {
    seq(size, k requires 0 <= k < size => if start + k < |view| then view[start + k] else 0)
  }

  /**
   * Reads the content record that the index places at `contentPosition`
   * through a view accessor: `ReadInt64` refuses a negative position or one at
   * or past the end (`ArgumentOutOfRangeException`) and fewer than 8 bytes left
   * (`ArgumentException`); the id prefix must equal `id`; `new byte[size]`
   * refuses a negative size; `ReadArray` refuses a start at or past the end,
   * even for no bytes, and otherwise reads what the view holds. The bytes are
   * decoded and trimmed.
   */
  function ReadRecordAt(view: seq<byte>, id: int64, contentPosition: int64, size: int64)
    : (r: Result<Option<seq<byte>>, Exception>)
    ensures r.Success? ==> r.value.Some? && IsTrimmed(r.value.value) && |r.value.value| <= size
    ensures r.Success? ==> 0 <= contentPosition && contentPosition + 8 < |view|
    ensures 0 <= contentPosition && contentPosition + 8 <= |view| ==>
      (r == Failure(InvalidConstraintException) <==> DecodeInt64(view[contentPosition..contentPosition + 8]) != id)
    ensures r.Success? <==>
      && 0 <= contentPosition && contentPosition + 8 < |view| && 0 <= size
      && DecodeInt64(view[contentPosition..contentPosition + 8]) == id
    ensures contentPosition < 0 || |view| <= contentPosition ==> r == Failure(ArgumentOutOfRangeException)
    ensures 0 <= contentPosition < |view| < contentPosition + 8 ==> r == Failure(ArgumentException)
    ensures (0 <= contentPosition && contentPosition + 8 <= |view| && size < 0 &&
             DecodeInt64(view[contentPosition..contentPosition + 8]) == id) ==> r == Failure(OverflowException)
    ensures (0 <= size && 0 <= contentPosition && contentPosition + 8 == |view| &&
             DecodeInt64(view[contentPosition..contentPosition + 8]) == id) ==> r == Failure(ArgumentOutOfRangeException)
  {
    if contentPosition < 0 || contentPosition >= |view| then Failure(ArgumentOutOfRangeException)
    else if contentPosition + 8 > |view| then Failure(ArgumentException)
    else if DecodeInt64(view[contentPosition..contentPosition + 8]) != id then Failure(InvalidConstraintException)
    else if size < 0 then Failure(OverflowException)
    else if contentPosition + 8 >= |view| then Failure(ArgumentOutOfRangeException)
    else Success(Some(Trim(ReadPadded(view, contentPosition + 8, size))))
  }

  /** `ReadContent(id)` over the id-keyed index: `None` is C#'s `null` for an unknown id. */
  function ReadContent(view: seq<byte>, index: map<int64, Pos>, id: int64): (r: Result<Option<seq<byte>>, Exception>)
    ensures r == Success(None) <==> id !in index
    ensures r.Success? && r.value.Some? ==> IsTrimmed(r.value.value) && |r.value.value| <= index[id].size
  {
    if id !in index then Success(None)
    else ReadRecordAt(view, id, index[id].contentPosition, index[id].size)
  }

  /**
   * The `ReadContent(collection, id)` that `Search` calls, reading through the
   * collection-keyed index as `ReadContent(id)` reads through the id-keyed one.
   */
  function ReadCollectionContent(view: seq<byte>, index: map<string, map<int64, CollectionPos>>, collection: string, id: int64)
    : (r: Result<Option<seq<byte>>, Exception>)
    ensures r == Success(None) <==> collection !in index || id !in index[collection]
    ensures r.Success? && r.value.Some? ==> IsTrimmed(r.value.value) && |r.value.value| <= index[collection][id].size
  {
    if collection !in index || id !in index[collection] then Success(None)
    else ReadRecordAt(view, id, index[collection][id].contentPosition, index[collection][id].size)
  }

  /** A prefix that is not the encoding of the id is reported as corruption, and only then. */
  lemma ReadContentDetectsCorruption(view: seq<byte>, index: map<int64, Pos>, id: int64)
    requires id in index
    requires 0 <= index[id].contentPosition && index[id].contentPosition + 8 <= |view|
    ensures var p := index[id].contentPosition;
      ReadContent(view, index, id) == Failure(InvalidConstraintException) <==> view[p..p + 8] != EncodeInt64(id)
  {
    var p := index[id].contentPosition;
    Int64Canonical(view[p..p + 8]);
    Int64RoundTrip(id);
  }

  lemma ReadRecordAfterAppend(view: seq<byte>, id: int64, text: seq<byte>)
    requires |view| + 8 + |text| <= MaxInt64
    ensures text != [] ==> ReadRecordAt(view + ContentRecord(id, text), id, |view|, |text|) == Success(Some(Trim(text)))
    ensures text == [] ==> ReadRecordAt(view + ContentRecord(id, text), id, |view|, |text|) == Failure(ArgumentOutOfRangeException)
  {
    var v := view + ContentRecord(id, text);
    assert |v| == |view| + 8 + |text|;
    assert v[|view|..|view| + 8] == EncodeInt64(id) by {
      assert v == (view + EncodeInt64(id)) + text;
    }
    Int64RoundTrip(id);
    if text != [] {
      assert ReadPadded(v, |view| + 8, |text|) == text by {
        assert v[|view| + 8..|view| + 8 + |text|] == text;
      }
    }
  }

  /** What the append path writes and records for an id reads back as the trimmed text. */
  lemma ReadAfterAppend(view: seq<byte>, index: map<int64, Pos>, id: int64, text: seq<byte>, embeddingPosition: int64)
    requires |view| + 8 + |text| <= MaxInt64
    ensures text != [] ==>
      ReadContent(view + ContentRecord(id, text), index[id := Pos(|view|, embeddingPosition, |text|)], id)
      == Success(Some(Trim(text)))
    ensures text != [] && IsTrimmed(text) ==>
      ReadContent(view + ContentRecord(id, text), index[id := Pos(|view|, embeddingPosition, |text|)], id)
      == Success(Some(text))
    ensures text == [] ==>
      ReadContent(view + ContentRecord(id, text), index[id := Pos(|view|, embeddingPosition, |text|)], id)
      == Failure(ArgumentOutOfRangeException)
  {
    ReadRecordAfterAppend(view, id, text);
  }

  /**
   * Appending bytes to the content log does not change a read whose record was
   * already complete, unless the record is empty and sits at the very end.
   */
  lemma ReadContentStableUnderAppend(view: seq<byte>, extra: seq<byte>, index: map<int64, Pos>, id: int64)
    requires id in index ==> 0 <= index[id].size && index[id].contentPosition + 8 + index[id].size <= |view|
    ensures (id in index ==> index[id].contentPosition + 8 < |view|) ==>
      ReadContent(view + extra, index, id) == ReadContent(view, index, id)
    ensures ReadContent(view, index, id).Success? ==> ReadContent(view + extra, index, id) == ReadContent(view, index, id)
  {
    if id in index {
      var p: int, n: int := index[id].contentPosition, index[id].size;
      if 0 <= p {
        assert (view + extra)[p..p + 8] == view[p..p + 8];
        assert ReadPadded(view + extra, p + 8, n) == ReadPadded(view, p + 8, n) by {
          assert (view + extra)[p + 8..p + 8 + n] == view[p + 8..p + 8 + n];
        }
      }
    }
  }

  // ------------------------------------------------------------ embedding log

  /** An embedding record: `[id:i64][contentPosition:i64][quantized vector bytes]`. */
  function EmbeddingRecord(id: int64, contentPosition: int64, vector: seq<byte>): (r: seq<byte>)
  {
    EncodeInt64(id) + EncodeInt64(contentPosition) + vector
  }

  /** What `ReadNextVectorEmbedding` returns: the raw bytes of the `float[VectorSize]` it fills. */
  datatype VectorEmbeddings = VectorEmbeddings(id: int64, position: int64, embeddings: seq<byte>)

  /**
   * `ReadNextVectorEmbedding` at stream offset `offset`: allocate `float[vectorSize]`,
   * read the id, the content position and `4 * vectorSize` bytes; yields the record and
   * the offset after it.
   */
  function ReadNextVectorEmbedding(stream: seq<byte>, offset: nat, vectorSize: int32)
    : (r: Result<(VectorEmbeddings, nat), Exception>)
    ensures vectorSize < 0 ==> r == Failure(OverflowException)
    ensures 0 <= vectorSize ==> (r.Success? <==> offset + 16 + 4 * vectorSize <= |stream|)
    ensures r.Failure? && 0 <= vectorSize ==> r.error == EndOfStreamException
    ensures r.Success? ==>
      && r.value.1 == offset + 16 + 4 * vectorSize <= |stream|
      && EncodeInt64(r.value.0.id) == stream[offset..offset + 8]
      && EncodeInt64(r.value.0.position) == stream[offset + 8..offset + 16]
      && r.value.0.embeddings == stream[offset + 16..r.value.1]
  {
    if vectorSize < 0 then Failure(OverflowException)
    else if offset + 16 + 4 * vectorSize > |stream| then Failure(EndOfStreamException)
    else
      var end := offset + 16 + 4 * vectorSize;
      Int64Canonical(stream[offset..offset + 8]);
      Int64Canonical(stream[offset + 8..offset + 16]);
      Success((VectorEmbeddings(DecodeInt64(stream[offset..offset + 8]), DecodeInt64(stream[offset + 8..offset + 16]),
                                stream[offset + 16..end]), end))
  }

  /** The embedding reader recovers what the append path wrote, when the vector has `VectorSize` floats. */
  lemma EmbeddingRecordRoundTrip(before: seq<byte>, id: int64, contentPosition: int64, vector: seq<byte>,
                                 after: seq<byte>, vectorSize: int32)
    requires vectorSize >= 0 && |vector| == 4 * vectorSize
    ensures ReadNextVectorEmbedding(before + EmbeddingRecord(id, contentPosition, vector) + after, |before|, vectorSize)
      == Success((VectorEmbeddings(id, contentPosition, vector), |before| + 16 + |vector|))
  {
    var s := before + EmbeddingRecord(id, contentPosition, vector) + after;
    var o := |before|;
    var head := before + EncodeInt64(id) + EncodeInt64(contentPosition);
    assert s == head + vector + after;
    assert s[o..o + 8] == EncodeInt64(id);
    assert s[o + 8..o + 16] == EncodeInt64(contentPosition);
    assert s[o + 16..o + 16 + |vector|] == vector;
    Int64RoundTrip(id);
    Int64RoundTrip(contentPosition);
  }
}
