/** The in-memory result registry of backend/src/services/storage.ts. */
module Storage {
  import opened Common

  /** What the registry keeps about one converted file; createdAt is in ms since the epoch. */
  datatype ConversionResult = ConversionResult(
    filePath: string,
    originalName: string,
    convertedName: string,
    mimeType: string,
    createdAt: int)

  type Registry = map<string, ConversionResult>

  /** Map.prototype.set adds a key exactly when it was absent. */
  lemma SizeAfterSet(m: Registry, id: string, r: ConversionResult)
    ensures |m[id := r].Keys| == |m.Keys| + (if id in m then 0 else 1)
  {
    if id in m {
      assert m[id := r].Keys == m.Keys;
    } else {
      assert m[id := r].Keys == m.Keys + {id};
    }
  }

  /** Map.prototype.delete removes a key exactly when it was present. */
  lemma SizeAfterDelete(m: Registry, id: string)
    ensures |(m - {id}).Keys| == |m.Keys| - (if id in m then 1 else 0)
  {
    if id in m {
      assert (m - {id}).Keys == m.Keys - {id};
    } else {
      assert m - {id} == m;
    }
  }

  /** StorageService: a Map from result id to ConversionResult, updated in place. */
  class StorageService {
    var results: Registry

    constructor()
      ensures results == map[]
    {
      results := map[];
    }

    /** get(id): the stored result, or undefined. */
    function Get(id: string): (r: Option<ConversionResult>)
      reads this
      ensures r.Some? <==> id in results
      ensures r.Some? ==> r.value == results[id]
    {
      if id in results then Some(results[id]) else None
    }

    /** has(id) holds exactly when get(id) is defined. */
    function Has(id: string): (b: bool)
      reads this
      ensures b <==> Get(id).Some?
    {
      id in results
    }

    /** size(): the number of distinct ids stored. */
    function Size(): (n: nat)
      reads this
      ensures n == |results.Keys|
    {
      |results|
    }

    /** set(id, result): afterwards get(id) is the result, every other id reads as before,
        and the size grows by one exactly when the id is new. */
    method Set(id: string, result: ConversionResult)
      modifies this
      ensures results == old(results)[id := result]
      ensures Get(id) == Some(result)
      ensures forall k :: k != id ==> Get(k) == old(Get(k))
      ensures Size() == old(Size()) + (if old(Has(id)) then 0 else 1)
    {
      SizeAfterSet(results, id, result);
      results := results[id := result];
    }

    /** delete(id): reports whether the id was present; afterwards it is absent, every other
        id reads as before, and the size drops by one exactly when it was present. */
    method Delete(id: string) returns (existed: bool)
      modifies this
      ensures existed == old(Has(id))
      ensures results == old(results) - {id}
      ensures Get(id) == None && !Has(id)
      ensures forall k :: k != id ==> Get(k) == old(Get(k))
      ensures Size() == old(Size()) - (if existed then 1 else 0)
    {
      existed := id in results;
      SizeAfterDelete(results, id);
      results := results - {id};
    }

    /** clear(): nothing is stored afterwards. */
    method Clear()
      modifies this
      ensures results == map[]
      ensures Size() == 0 && forall k :: !Has(k)
    {
      results := map[];
    }
  }
}
