/**
 * The collection facade: a named, fixed-dimension view over one entry of the
 * store's collection-keyed position index.
 */
module Collections {
  import opened Bytes
  import opened Wrappers
  import opened DataStructures
  import opened Jigen

  const MaxNameLength: nat := 256

  /** The defaults of the constructor's optional parameters. */
  const DefaultDimensions: int32 := 1536
  const DefaultName: string := "VectorCollection"

  class VectorCollection {
    const store: Store
    const dimensions: int32
    const name: string

    constructor Init(store: Store, dimensions: int32, name: string)
      ensures this.store == store && this.dimensions == dimensions && this.name == name
    {
      this.store := store;
      this.dimensions := dimensions;
      this.name := name;
    }

    /**
     * `new VectorCollection(store, dimensions, name)`: a null or empty name, a
     * name over 256 characters or a null store throw; otherwise an empty index
     * is registered under the name, which throws when the name is taken.
     */
    static method New(store: Store?, dimensions: int32, name: Option<string>)
      returns (r: Result<VectorCollection, Exception>)
      modifies store
      ensures name.None? || name.value == [] || |name.value| > MaxNameLength ==> r == Failure(ArgumentException)
      ensures name.Some? && 0 < |name.value| <= MaxNameLength && store == null ==> r == Failure(ArgumentNullException)
      ensures store != null && name.Some? && name.value in old(store.collectionIndex) ==> r == Failure(ArgumentException)
      ensures r.Failure? ==> store == null || store.collectionIndex == old(store.collectionIndex)
      ensures r.Success? <==>
        store != null && name.Some? && 0 < |name.value| <= MaxNameLength && name.value !in old(store.collectionIndex)
      ensures r.Success? ==>
        && fresh(r.value)
        && r.value.store == store && r.value.dimensions == dimensions && r.value.name == name.value
        && store.collectionIndex == old(store.collectionIndex)[name.value := map[]]
      ensures store != null ==> unchanged(store`content, store`embeddings, store`indexFile, store`positionIndex, store`header)
    {
      if name.None? || name.value == [] {
        return Failure(ArgumentException);
      }
      if |name.value| > MaxNameLength {
        return Failure(ArgumentException);
      }
      if store == null {
        return Failure(ArgumentNullException);
      }
      var c := new VectorCollection.Init(store, dimensions, name.value);
      if name.value in store.collectionIndex {
        return Failure(ArgumentException);
      }
      store.collectionIndex := store.collectionIndex[name.value := map[]];
      r := Success(c);
    }

    /** `Contains`: false for a null item or a missing collection, else whether the id is indexed. */
    function Contains(item: Option<VectorEntry>): (r: bool)
      reads store
      ensures r ==> item.Some? && name in store.collectionIndex && item.value.id in store.collectionIndex[name]
      ensures r ==> Count() > 0
      ensures item.Some? && name in store.collectionIndex && store.collectionIndex[name] == map[] ==> !r
    {
      item.Some? && name in store.collectionIndex && item.value.id in store.collectionIndex[name]
    }

    /** `Count`: 0 for a missing collection, else the size of its index. */
    function Count(): (r: nat)
      reads store
      ensures name !in store.collectionIndex ==> r == 0
      ensures r == 0 <==> name !in store.collectionIndex || store.collectionIndex[name] == map[]
    {
      if name in store.collectionIndex then |store.collectionIndex[name]| else 0
    }

    /**
     * `Add`: a null item is ignored; an embedding whose length differs from
     * the collection's dimensions throws; otherwise the item is stamped with
     * the collection's name and handed to the store's public append.
     */
    method Add(item: Option<VectorEntry>) returns (r: Outcome<Exception>)
      requires store.Valid()
      requires item.Some? && |item.value.embedding| == dimensions ==> store.ingestionQueue.availablePermits > 0
      modifies store`header, store.ingestionQueue, store.ingestionQueue.buffer
      ensures store.Valid()
      ensures item.None? ==> r == Pass
      ensures item.Some? && |item.value.embedding| != dimensions ==> r == Fail(InvalidOperationException)
      ensures r.Fail? || item.None? ==>
        && store.header == old(store.header)
        && unchanged(store.ingestionQueue) && unchanged(store.ingestionQueue.buffer)
      ensures item.Some? && |item.value.embedding| == dimensions ==> r == Pass
      ensures item.Some? && |item.value.embedding| == dimensions ==>
        store.ingestionQueue.Enqueued == old(store.ingestionQueue.Enqueued)
          + [Some(item.value.(collectionName := name, id := NextId(old(store.header.totalEntityCount))))]
      ensures item.Some? && |item.value.embedding| == dimensions ==>
        store.ingestionQueue.Contents == old(store.ingestionQueue.Contents)
          + [Some(item.value.(collectionName := name, id := NextId(old(store.header.totalEntityCount))))]
      ensures item.Some? && |item.value.embedding| == dimensions ==>
        store.ingestionQueue.availablePermits == old(store.ingestionQueue.availablePermits) - 1
      ensures item.Some? && |item.value.embedding| == dimensions ==>
        store.header == old(store.header).(totalEntityCount := NextId(old(store.header.totalEntityCount)))
    {
      if item.None? {
        return Pass;
      }
      if dimensions != |item.value.embedding| {
        return Fail(InvalidOperationException);
      }
      var stamped := item.value.(collectionName := name);
      var _ := store.AppendContent(stamped);
      r := Pass;
    }

    /** `Clear`: empties this collection's index; every other collection is untouched. */
    method Clear()
      modifies store`collectionIndex
      ensures Count() == 0
      ensures forall item :: !Contains(item)
      ensures name in old(store.collectionIndex) ==> store.collectionIndex == old(store.collectionIndex)[name := map[]]
      ensures name !in old(store.collectionIndex) ==> store.collectionIndex == old(store.collectionIndex)
    {
      if name in store.collectionIndex {
        store.collectionIndex := store.collectionIndex[name := map[]];
      }
    }

    /** `Remove`: true exactly when the id was indexed; removes that key and nothing else. */
    method Remove(item: Option<VectorEntry>) returns (r: bool)
      modifies store`collectionIndex
      ensures r == old(Contains(item))
      ensures !Contains(item)
      ensures r ==> Count() == old(Count()) - 1
      ensures r ==> store.collectionIndex == old(store.collectionIndex)[name := old(store.collectionIndex)[name] - {item.value.id}]
      ensures !r ==> store.collectionIndex == old(store.collectionIndex)
    {
      if item.None? {
        return false;
      }
      if name in store.collectionIndex && item.value.id in store.collectionIndex[name] {
        store.collectionIndex := store.collectionIndex[name := store.collectionIndex[name] - {item.value.id}];
        return true;
      }
      return false;
    }
  }

  /**
   * Registering a collection on a fresh store: a second collection of the same
   * name is refused, a new collection is empty, a null item is ignored and a
   * wrongly sized one is refused.
   */
  method CollectionScenario(quantize: seq<int> -> seq<byte>, item: VectorEntry)
    returns (created: bool, duplicate: Result<VectorCollection, Exception>, count: nat, contained: bool,
             addNull: Outcome<Exception>, addWrongSize: Outcome<Exception>, removed: bool)
    requires |item.embedding| != DefaultDimensions as int
    ensures created && duplicate == Failure(ArgumentException)
    ensures count == 0 && !contained && !removed
    ensures addNull == Pass && addWrongSize == Fail(InvalidOperationException)
  {
    var store := new Store(DefaultDimensions, quantize, None, None, None);
    var first := VectorCollection.New(store, DefaultDimensions, Some(DefaultName));
    created := first.Success?;
    duplicate := VectorCollection.New(store, DefaultDimensions, Some(DefaultName));
    var c := first.value;
    count := c.Count();
    contained := c.Contains(Some(item));
    addNull := c.Add(None);
    addWrongSize := c.Add(Some(item));
    removed := c.Remove(Some(item));
  }
}
