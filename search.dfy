/**
 * Similarity search over one collection: score every entry of the collection's
 * index against the query with a chunked dot product, rank by score, keep the
 * best `top`, and resolve each kept id's content.
 */
module Search {
  import opened Bytes
  import opened Wrappers
  import opened DataStructures
  import opened LogFormat
  import opened Jigen

  // ------------------------------------------------------------- dot product

  /** The plain dot product of the first n elements. */
  function Dot(left: seq<int>, right: seq<int>, n: nat): (r: int)
    requires n <= |left| && n <= |right|
  {
    if n == 0 then 0 else Dot(left, right, n - 1) + left[n - 1] * right[n - 1]
  }

  /** `Vector.Sum`: the sum of all lanes. */
  function Sum(s: seq<int>): (r: int)
  {
    if s == [] then 0 else Sum(s[..|s| - 1]) + s[|s| - 1]
  }

  lemma {:induction false} SumOfZeros(w: nat)
    ensures Sum(seq(w, _ => 0)) == 0
  {
    if w > 0 {
      assert seq(w, _ => 0)[..w - 1] == seq(w - 1, _ => 0);
      SumOfZeros(w - 1);
    }
  }

  /** Adding one block of products lane-wise adds that block's share of the dot product. */
  lemma {:induction false} LaneStep(acc: seq<int>, left: seq<int>, right: seq<int>, i: nat, w: nat)
    requires w <= |acc| && i + w <= |left| && i + w <= |right|
    ensures Sum(seq(w, k requires 0 <= k < w => acc[k] + left[i + k] * right[i + k]))
         == Sum(acc[..w]) + Dot(left, right, i + w) - Dot(left, right, i)
    decreases w
  {
    if w > 0 {
      LaneStep(acc, left, right, i, w - 1);
      var s := seq(w, k requires 0 <= k < w => acc[k] + left[i + k] * right[i + k]);
      assert s[..w - 1] == seq(w - 1, k requires 0 <= k < w - 1 => acc[k] + left[i + k] * right[i + k]);
      assert acc[..w][..w - 1] == acc[..w - 1];
    }
  }

  /**
   * `DotProductSimdUnsafe`: accumulate `simdWidth`-wide blocks lane by lane,
   * sum the lanes, then add the products of the remaining tail one by one.
   * Whatever the width, the result is the plain dot product of `length`
   * elements (none when `length` is negative).
   */
  method DotProductSimd(left: seq<int>, right: seq<int>, length: int, simdWidth: nat) returns (result: int)
    requires simdWidth > 0
    requires length <= |left| && length <= |right|
    ensures result == Dot(left, right, if length < 0 then 0 else length)
  {
    var n: nat := if length < 0 then 0 else length;
    var sumVector := seq(simdWidth, _ => 0);
    SumOfZeros(simdWidth);
    var i := 0;
    while i <= length - simdWidth
      invariant 0 <= i <= n
      invariant |sumVector| == simdWidth
      invariant Sum(sumVector) == Dot(left, right, i)
      decreases n - i
    {
      var v1, v2 := left[i..i + simdWidth], right[i..i + simdWidth];
      var acc := sumVector;
      sumVector := seq(simdWidth, k requires 0 <= k < simdWidth => acc[k] + v1[k] * v2[k]);
      LaneStep(acc, left, right, i, simdWidth);
      assert sumVector == seq(simdWidth, k requires 0 <= k < simdWidth => acc[k] + left[i + k] * right[i + k]);
      assert acc[..simdWidth] == acc;
      i := i + simdWidth;
    }
    result := Sum(sumVector);
    while i < length
      invariant 0 <= i <= n
      invariant result == Dot(left, right, i)
      decreases n - i
    {
      result := result + left[i] * right[i];
      i := i + 1;
    }
  }

  // ---------------------------------------------------------- stored vectors

  /** The number of elements a collection entry's vector holds. */
  function Dims(p: CollectionPos): (r: nat)
  {
    if p.dimensions < 0 then 0 else p.dimensions
  }

  /** An entry's embedding record lies inside the embeddings file and the query covers its vector. */
  predicate RecordInBounds(embeddings: seq<byte>, p: CollectionPos, queryLength: nat)
  {
    0 <= p.embeddingPosition && p.embeddingPosition + 16 + Dims(p) <= |embeddings| && Dims(p) <= queryLength
  }

  /**
   * The vector of the embedding record at `offset`, following the writer's
   * layout `[id][contentPosition][vector]`: the elements start 16 bytes in;
   * each stored element is one signed byte.
   */
  function StoredVector(embeddings: seq<byte>, offset: nat, n: nat): (r: seq<int>)
    requires offset + 16 + n <= |embeddings|
    ensures |r| == n
  {
    seq(n, k requires 0 <= k < n => SByte(embeddings[offset + 16 + k]))
  }

  /** The vector `Search` reads as written: 8 bytes past the record start. */
  function StoredVectorAsWritten(embeddings: seq<byte>, offset: nat, n: nat): (r: seq<int>)
    requires offset + 8 + n <= |embeddings|
    ensures |r| == n
  {
    seq(n, k requires 0 <= k < n => SByte(embeddings[offset + 8 + k]))
  }

  /** Reading a record the writer appended gives back the vector it was given. */
  lemma StoredVectorRoundTrip(before: seq<byte>, id: int64, contentPosition: int64, vector: seq<byte>, after: seq<byte>)
    ensures |before| + 16 + |vector| <= |before + EmbeddingRecord(id, contentPosition, vector) + after|
    ensures StoredVector(before + EmbeddingRecord(id, contentPosition, vector) + after, |before|, |vector|)
         == seq(|vector|, k requires 0 <= k < |vector| => SByte(vector[k]))
  {
    var s := before + EmbeddingRecord(id, contentPosition, vector) + after;
    var head := before + EncodeInt64(id) + EncodeInt64(contentPosition);
    assert s == head + vector + after;
    forall k | 0 <= k < |vector|
      ensures s[|before| + 16 + k] == vector[k]
    {
      assert s[|head| + k] == vector[k];
    }
  }

  /**
   * As written, on every record the writer appended, the first eight elements
   * `Search` scores are the bytes of the content position and the rest is the
   * stored vector shifted by eight.
   */
  lemma StoredVectorAsWrittenShifted(before: seq<byte>, id: int64, contentPosition: int64, vector: seq<byte>,
                                     after: seq<byte>, n: nat)
    requires n <= 8 + |vector|
    ensures |before| + 8 + n <= |before + EmbeddingRecord(id, contentPosition, vector) + after|
    ensures forall k :: 0 <= k < n && k < 8 ==>
      StoredVectorAsWritten(before + EmbeddingRecord(id, contentPosition, vector) + after, |before|, n)[k]
      == SByte(EncodeInt64(contentPosition)[k])
    ensures forall j :: 0 <= j < n - 8 ==>
      StoredVectorAsWritten(before + EmbeddingRecord(id, contentPosition, vector) + after, |before|, n)[8 + j]
      == SByte(vector[j])
  {
    var s := before + EmbeddingRecord(id, contentPosition, vector) + after;
    var position := EncodeInt64(contentPosition);
    var head := before + EncodeInt64(id);
    assert s == head + position + vector + after;
    forall k | 0 <= k < n && k < 8
      ensures s[|before| + 8 + k] == position[k]
    {
      assert s[|head| + k] == position[k];
    }
    forall j | 0 <= j < n - 8
      ensures s[|before| + 16 + j] == vector[j]
    {
      assert s[|head| + 8 + j] == vector[j];
    }
  }

  /**
   * As written, the first element of every vector is read from the low byte
   * of the record's content position: the record of id 1 for content at
   * offset 8 holding the vector [1] is scored as the vector [8].
   */
  lemma StoredVectorAsWrittenReadsContentPosition()
    ensures 16 + 1 <= |EmbeddingRecord(1, 8, [1])|
    ensures StoredVectorAsWritten(EmbeddingRecord(1, 8, [1]), 0, 1) == [8]
    ensures StoredVector(EmbeddingRecord(1, 8, [1]), 0, 1) == [1]
  {
    var s := EmbeddingRecord(1, 8, [1]);
    var id, position := EncodeInt64(1), EncodeInt64(8);
    assert position == [8] + LittleEndian(0, 7);
    assert s == id + position + [1];
    assert s[8] == position[0] == 8;
    assert s[16] == 1;
    assert StoredVectorAsWritten(s, 0, 1)[0] == SByte(s[8]);
    assert StoredVector(s, 0, 1)[0] == SByte(s[16]);
  }

  // ----------------------------------------------------------------- scoring

  /** One entry of the intermediate bag: the id read from the record and its similarity. */
  datatype Scored = Scored(id: int64, score: int)

  /** The pair one index entry contributes: the id at the record start and the dot product with the query. */
  function Score(embeddings: seq<byte>, p: CollectionPos, query: seq<int>): (r: Scored)
    requires RecordInBounds(embeddings, p, |query|)
  {
    var offset := p.embeddingPosition;
    Scored(DecodeInt64(embeddings[offset..offset + 8]),
           Dot(query, StoredVector(embeddings, offset, Dims(p)), Dims(p)))
  }

  /** `order` visits every key of the index exactly once. */
  predicate IsEnumeration(order: seq<int64>, index: map<int64, CollectionPos>)
  {
    && |order| == |index|
    && (forall j :: 0 <= j < |order| ==> order[j] in index)
    && (forall k :: k in index ==> k in order)
    && (forall i, j :: 0 <= i < j < |order| ==> order[i] != order[j])
  }

  predicate AllInBounds(embeddings: seq<byte>, index: map<int64, CollectionPos>, query: seq<int>)
  {
    forall k :: k in index ==> RecordInBounds(embeddings, index[k], |query|)
  }

  /** The pairs the scan produces when it visits the entries in `order`. */
  function Scores(embeddings: seq<byte>, index: map<int64, CollectionPos>, order: seq<int64>, query: seq<int>): (r: seq<Scored>)
    requires AllInBounds(embeddings, index, query)
    requires forall j :: 0 <= j < |order| ==> order[j] in index
    ensures |r| == |order|
  {
    seq(|order|, j requires 0 <= j < |order| => Score(embeddings, index[order[j]], query))
  }

  /** Scan progress: `order` holds the visited keys once each, `remaining` the others. */
  predicate Visited(order: seq<int64>, remaining: set<int64>, index: map<int64, CollectionPos>)
  {
    && remaining <= index.Keys
    && |order| + |remaining| == |index|
    && (forall k :: k in index ==> (k in remaining <==> k !in order))
    && (forall j :: 0 <= j < |order| ==> order[j] in index)
    && (forall i, j :: 0 <= i < j < |order| ==> order[i] != order[j])
  }

  lemma VisitStep(order: seq<int64>, remaining: set<int64>, index: map<int64, CollectionPos>, k: int64)
    requires Visited(order, remaining, index) && k in remaining
    ensures Visited(order + [k], remaining - {k}, index)
  {
    var o := order + [k];
    assert o[|order|] == k;
    forall key | key in index && key in o
      ensures key !in remaining - {k}
    {
      if key != k {
        var j :| 0 <= j < |o| && o[j] == key;
        assert order[j] == key;
      }
    }
  }

  /** A scan with nothing left has visited every key exactly once. */
  lemma VisitedAll(order: seq<int64>, index: map<int64, CollectionPos>)
    requires Visited(order, {}, index)
    ensures IsEnumeration(order, index)
  {
  }

  /** Scoring one more entry appends its pair. */
  lemma ScoresStep(embeddings: seq<byte>, index: map<int64, CollectionPos>, order: seq<int64>, query: seq<int>, k: int64)
    requires AllInBounds(embeddings, index, query)
    requires (forall j :: 0 <= j < |order| ==> order[j] in index) && k in index
    ensures Scores(embeddings, index, order + [k], query)
      == Scores(embeddings, index, order, query) + [Score(embeddings, index[k], query)]
  {
    var o := order + [k];
    assert forall j :: 0 <= j < |order| ==> o[j] == order[j];
    assert o[|order|] == k;
  }

  /** Whatever the scan order, every entry is scored and every score comes from an entry. */
  lemma EnumerationScores(embeddings: seq<byte>, index: map<int64, CollectionPos>, order: seq<int64>, query: seq<int>)
    requires AllInBounds(embeddings, index, query) && IsEnumeration(order, index)
    ensures |Scores(embeddings, index, order, query)| == |index|
    ensures forall k :: k in index ==> Score(embeddings, index[k], query) in Scores(embeddings, index, order, query)
    ensures forall s :: s in Scores(embeddings, index, order, query) ==>
      exists k :: k in index && s == Score(embeddings, index[k], query)
  {
    var r := Scores(embeddings, index, order, query);
    forall k | k in index
      ensures Score(embeddings, index[k], query) in r
    {
      var j :| 0 <= j < |order| && order[j] == k;
      assert r[j] == Score(embeddings, index[k], query);
    }
    forall s | s in r
      ensures exists k :: k in index && s == Score(embeddings, index[k], query)
    {
      var j :| 0 <= j < |r| && r[j] == s;
      assert order[j] in index && s == Score(embeddings, index[order[j]], query);
    }
  }

  /** The body of the parallel scan for one entry: the id at the record start and the blocked dot product. */
  method ScoreOne(embeddings: seq<byte>, p: CollectionPos, query: seq<int>, simdWidth: nat) returns (pair: Scored)
    requires simdWidth > 0
    requires RecordInBounds(embeddings, p, |query|)
    ensures pair == Score(embeddings, p, query)
  {
    var offset := p.embeddingPosition;
    var id := DecodeInt64(embeddings[offset..offset + 8]);
    var vector := StoredVector(embeddings, offset, Dims(p));
    var similarity := DotProductSimd(query, vector, p.dimensions, simdWidth);
    pair := Scored(id, similarity);
  }

  /**
   * The scoring loop: every entry of the collection's index contributes exactly
   * one pair, in an unspecified order (the source scores entries in parallel
   * into an unordered bag).
   */
  method ScoreAll(embeddings: seq<byte>, index: map<int64, CollectionPos>, query: seq<int>, simdWidth: nat)
    returns (scored: seq<Scored>, ghost order: seq<int64>)
    requires simdWidth > 0
    requires AllInBounds(embeddings, index, query)
    ensures IsEnumeration(order, index)
    ensures scored == Scores(embeddings, index, order, query)
    ensures |scored| == |index|
    ensures forall k :: k in index ==> Score(embeddings, index[k], query) in scored
    ensures forall s :: s in scored ==> exists k :: k in index && s == Score(embeddings, index[k], query)
  {
    scored, order := [], [];
    var remaining := index.Keys;
    while remaining != {}
      invariant Visited(order, remaining, index)
      invariant scored == Scores(embeddings, index, order, query)
      decreases |remaining|
    {
      var k :| k in remaining;
      VisitStep(order, remaining, index, k);
      var pair := ScoreOne(embeddings, index[k], query, simdWidth);
      ScoresStep(embeddings, index, order, query, k);
      scored := scored + [pair];
      order := order + [k];
      remaining := remaining - {k};
    }
    VisitedAll(order, index);
    EnumerationScores(embeddings, index, order, query);
  }

  // ----------------------------------------------------------------- ranking

  predicate SortedByScore(s: seq<Scored>)
  {
    forall i, j :: 0 <= i < j < |s| ==> s[i].score >= s[j].score
  }

  /** Inserts after every element scoring at least as high, which keeps the sort stable. */
  function Insert(x: Scored, s: seq<Scored>): (r: seq<Scored>)
    ensures |r| == |s| + 1
    ensures multiset(r) == multiset(s) + multiset{x}
  {
    if s == [] then [x]
    else if s[0].score >= x.score then
      assert s == [s[0]] + s[1..];
      [s[0]] + Insert(x, s[1..])
    else [x] + s
  }

  /** No element of s scores above b. */
  predicate AllAtMost(s: seq<Scored>, b: int)
  {
    forall i :: 0 <= i < |s| ==> s[i].score <= b
  }

  lemma SortedCons(h: Scored, rest: seq<Scored>)
    requires AllAtMost(rest, h.score) && SortedByScore(rest)
    ensures SortedByScore([h] + rest)
  {
    var r := [h] + rest;
    forall i, j | 0 <= i < j < |r|
      ensures r[i].score >= r[j].score
    {
      assert r[j] == rest[j - 1];
      if i > 0 {
        assert r[i] == rest[i - 1];
      }
    }
  }

  lemma {:induction false} InsertAtMost(x: Scored, s: seq<Scored>, b: int)
    requires AllAtMost(s, b) && x.score <= b
    ensures AllAtMost(Insert(x, s), b)
  {
    if s != [] && s[0].score >= x.score {
      assert AllAtMost(s[1..], b) by {
        forall i | 0 <= i < |s| - 1
          ensures s[1..][i].score <= b
        {
          assert s[1..][i] == s[i + 1];
        }
      }
      InsertAtMost(x, s[1..], b);
      var r := Insert(x, s);
      forall i | 0 <= i < |r|
        ensures r[i].score <= b
      {
        if i > 0 {
          assert r[i] == Insert(x, s[1..])[i - 1];
        }
      }
    }
  }

  lemma {:induction false} InsertSorted(x: Scored, s: seq<Scored>)
    requires SortedByScore(s)
    ensures SortedByScore(Insert(x, s))
  {
    if s == [] {
    } else if s[0].score >= x.score {
      assert SortedByScore(s[1..]) && AllAtMost(s[1..], s[0].score) by {
        forall i | 0 <= i < |s| - 1
          ensures s[1..][i] == s[i + 1]
        {
        }
      }
      InsertSorted(x, s[1..]);
      InsertAtMost(x, s[1..], s[0].score);
      SortedCons(s[0], Insert(x, s[1..]));
    } else {
      SortedCons(x, s);
    }
  }

  /** `OrderByDescending(r => r.Score)`: a stable sort, highest score first. */
  function SortByScore(s: seq<Scored>): (r: seq<Scored>)
    ensures |r| == |s|
    ensures multiset(r) == multiset(s)
    ensures SortedByScore(r)
  {
    if s == [] then []
    else
      assert s == s[..|s| - 1] + [s[|s| - 1]];
      var sorted := SortByScore(s[..|s| - 1]);
      InsertSorted(s[|s| - 1], sorted);
      Insert(s[|s| - 1], sorted)
  }

  lemma MultisetSplit(s: seq<Scored>, m: nat)
    requires m <= |s|
    ensures multiset(s[..m]) <= multiset(s)
    ensures multiset(s) - multiset(s[..m]) == multiset(s[m..])
  {
    assert s == s[..m] + s[m..];
  }

  /** Everything before position m of a sorted sequence scores at least as high as everything after it. */
  lemma SortedSplit(s: seq<Scored>, m: nat)
    requires SortedByScore(s) && m <= |s|
    ensures SortedByScore(s[..m])
    ensures multiset(s[..m]) <= multiset(s)
    ensures forall q, p :: q in s[..m] && p in multiset(s) - multiset(s[..m]) ==> q.score >= p.score
  {
    MultisetSplit(s, m);
    forall q, p | q in s[..m] && p in s[m..]
      ensures q.score >= p.score
    {
      var i :| 0 <= i < m && s[..m][i] == q;
      var j :| 0 <= j < |s| - m && s[m..][j] == p;
      assert s[i] == q && s[m + j] == p;
    }
  }

  /**
   * `OrderByDescending(r => r.Score).Take(top)`: the best `top` pairs, highest
   * first; every pair left out scores no higher than every pair kept.
   */
  function Rank(scored: seq<Scored>, top: int): (r: seq<Scored>)
    ensures |r| == if top <= 0 then 0 else if top < |scored| then top else |scored|
    ensures SortedByScore(r)
    ensures multiset(r) <= multiset(scored)
    ensures forall q, p :: q in r && p in multiset(scored) - multiset(r) ==> q.score >= p.score
  {
    var sorted := SortByScore(scored);
    var m := if top <= 0 then 0 else if top < |sorted| then top else |sorted|;
    SortedSplit(sorted, m);
    sorted[..m]
  }

  // ------------------------------------------------------------- resolution

  /** One search result: the `VectorEntry` holding only `Id` and `Content`, with its score. */
  datatype Hit = Hit(id: int64, content: Option<seq<byte>>, score: int)

  /**
   * The `Select` step: each ranked pair becomes a hit whose content is read
   * through the collection's index; the first read that throws ends the search.
   */
  function Resolve(view: seq<byte>, index: map<string, map<int64, CollectionPos>>, collection: string, ranked: seq<Scored>)
    : (r: Result<seq<Hit>, Exception>)
    ensures r.Success? <==> forall i :: 0 <= i < |ranked| ==> ReadCollectionContent(view, index, collection, ranked[i].id).Success?
    ensures r.Success? ==> |r.value| == |ranked|
    ensures r.Success? ==> forall i :: 0 <= i < |ranked| ==>
      && r.value[i].id == ranked[i].id && r.value[i].score == ranked[i].score
      && ReadCollectionContent(view, index, collection, ranked[i].id) == Success(r.value[i].content)
    ensures r.Failure? ==>
      (exists i :: 0 <= i < |ranked| && ReadCollectionContent(view, index, collection, ranked[i].id) == Failure(r.error) &&
         forall j :: 0 <= j < i ==> ReadCollectionContent(view, index, collection, ranked[j].id).Success?)
  {
    if ranked == [] then Success([])
    else
      match ReadCollectionContent(view, index, collection, ranked[0].id)
      case Failure(e) => Failure(e)
      case Success(content) =>
        match Resolve(view, index, collection, ranked[1..])
        case Failure(e) => Failure(e)
        case Success(hits) => Success([Hit(ranked[0].id, content, ranked[0].score)] + hits)
  }

  // ------------------------------------------------------------------ search

  /**
   * `Search`: a missing query throws, `top <= 0` and an unknown collection give
   * no results; otherwise the hits are the resolved best `top` of one score per
   * entry of the collection. Reading past the embeddings file is excluded by
   * the precondition.
   */
  method Search(store: Store, collection: string, query: Option<seq<int>>, top: int, simdWidth: nat)
    returns (r: Result<seq<Hit>, Exception>)
    requires simdWidth > 0
    requires query.Some? && top > 0 && collection in store.collectionIndex ==>
      AllInBounds(store.embeddings, store.collectionIndex[collection], query.value)
    ensures query.None? ==> r == Failure(ArgumentNullException)
    ensures query.Some? && top <= 0 ==> r == Success([])
    ensures query.Some? && top > 0 && collection !in store.collectionIndex ==> r == Success([])
    ensures query.Some? && top > 0 && collection in store.collectionIndex ==>
      (exists order :: IsEnumeration(order, store.collectionIndex[collection]) &&
        r == Resolve(store.content, store.collectionIndex, collection,
                     Rank(Scores(store.embeddings, store.collectionIndex[collection], order, query.value), top)))
    ensures query.Some? && top > 0 && collection in store.collectionIndex && r.Success? ==>
      |r.value| == if top < |store.collectionIndex[collection]| then top else |store.collectionIndex[collection]|
    ensures r.Success? ==> forall i, j :: 0 <= i < j < |r.value| ==> r.value[i].score >= r.value[j].score
  {
    if query.None? {
      return Failure(ArgumentNullException);
    }
    if top <= 0 {
      return Success([]);
    }
    if collection !in store.collectionIndex {
      return Success([]);
    }
    var index := store.collectionIndex[collection];
    var scored, order := ScoreAll(store.embeddings, index, query.value, simdWidth);
    var ranked := Rank(scored, top);
    r := Resolve(store.content, store.collectionIndex, collection, ranked);
    assert IsEnumeration(order, index);
  }
}
