/**
  HazelcastDataStore: Wicket's page data kept in a distributed map from session id to a
  record of that session's serialized pages, keyed by page id. The map stores records
  serialized, so a read hands out a fresh copy that the store changes and puts back.
 */
module PageStore {
  import opened Wrappers

  /** Java's `int`. */
  newtype Int32 = x: int | -0x8000_0000 <= x < 0x8000_0000

  /** A serialized HazelcastPageData as the map holds it. */
  datatype PageRecord = PageRecord(sessionId: string, dataMap: map<Int32, seq<bv8>>)

  /** The contents of the map "wicket-data-store". */
  type Pages = map<string, PageRecord>

  /** Every record carries the session id it is stored under. */
  predicate Keyed(ps: Pages) {
    forall s :: s in ps ==> ps[s].sessionId == s
  }

  /** getData(sessionId, id): the page bytes, or null for an unknown session or page id. */
  function Fetched(ps: Pages, sessionId: string, id: Int32): (r: Option<seq<bv8>>)
    ensures sessionId !in ps ==> r.None?
    ensures r.Some? <==> sessionId in ps && id in ps[sessionId].dataMap
    ensures r.Some? ==> r.value == ps[sessionId].dataMap[id]
  {
    if sessionId in ps && id in ps[sessionId].dataMap then Some(ps[sessionId].dataMap[id]) else None
  }

  /**
    The map after storeData(sessionId, id, data): the session's record, a new one for an
    unknown session, with `data` under `id`.
   */
  function Stored(ps: Pages, sessionId: string, id: Int32, data: seq<bv8>): (r: Pages)
    ensures Fetched(r, sessionId, id) == Some(data)
    ensures forall s, i :: s != sessionId || i != id ==> Fetched(r, s, i) == Fetched(ps, s, i)
    ensures forall s :: s != sessionId ==> (s in r <==> s in ps) && (s in ps ==> r[s] == ps[s])
    ensures sessionId in r
    ensures sessionId !in ps ==> r[sessionId] == PageRecord(sessionId, map[id := data])
    ensures sessionId in ps ==> r[sessionId].sessionId == ps[sessionId].sessionId
    ensures Keyed(ps) ==> Keyed(r)
  {
    var record := if sessionId in ps then ps[sessionId] else PageRecord(sessionId, map[]);
    ps[sessionId := PageRecord(record.sessionId, record.dataMap[id := data])]
  }

  /** The map after removeData(sessionId, id): that page gone, and no record made for an unknown session. */
  function FragmentRemoved(ps: Pages, sessionId: string, id: Int32): (r: Pages)
    ensures sessionId !in ps ==> r == ps
    ensures Fetched(r, sessionId, id).None?
    ensures forall s, i :: s != sessionId || i != id ==> Fetched(r, s, i) == Fetched(ps, s, i)
    ensures forall s :: s in r <==> s in ps
    ensures Keyed(ps) ==> Keyed(r)
  {
    if sessionId in ps then
      var record := ps[sessionId];
      ps[sessionId := PageRecord(record.sessionId, record.dataMap - {id})]
    else
      ps
  }

  /** The map after removeData(sessionId): nothing is left for it, and every other session is kept. */
  function SessionRemoved(ps: Pages, sessionId: string): (r: Pages)
    ensures sessionId !in r
    ensures forall i :: Fetched(r, sessionId, i).None?
    ensures forall s :: s != sessionId ==> (s in r <==> s in ps) && (s in ps ==> r[s] == ps[s])
    ensures Keyed(ps) ==> Keyed(r)
  {
    ps - {sessionId}
  }

  /** Storing the same page twice keeps only the second value. */
  lemma StoreOverwrites(ps: Pages, sessionId: string, id: Int32, d1: seq<bv8>, d2: seq<bv8>)
    ensures Stored(Stored(ps, sessionId, id, d1), sessionId, id, d2) == Stored(ps, sessionId, id, d2)
  {
    var a := Stored(Stored(ps, sessionId, id, d1), sessionId, id, d2);
    var b := Stored(ps, sessionId, id, d2);
    assert a[sessionId].dataMap == b[sessionId].dataMap;
  }

  /** Removing a page just stored into an existing record gives the record back without that page. */
  lemma StoreThenRemove(ps: Pages, sessionId: string, id: Int32, data: seq<bv8>)
    requires sessionId in ps
    ensures FragmentRemoved(Stored(ps, sessionId, id, data), sessionId, id) == FragmentRemoved(ps, sessionId, id)
  {
    var a := FragmentRemoved(Stored(ps, sessionId, id, data), sessionId, id);
    var b := FragmentRemoved(ps, sessionId, id);
    assert a[sessionId].dataMap == b[sessionId].dataMap;
  }

  /** A HazelcastPageData object: a copy read from the map, changed in place. */
  class HazelcastPageData {
    const sessionId: string
    var dataMap: map<Int32, seq<bv8>>

    constructor (sessionId: string)
      ensures this.sessionId == sessionId && dataMap == map[]
    {
      this.sessionId := sessionId;
      dataMap := map[];
    }

    /** The copy a read of the map hands out. */
    constructor Copy(record: PageRecord)
      ensures Record() == record
    {
      sessionId := record.sessionId;
      dataMap := record.dataMap;
    }

    /** The record a write of this object into the map stores. */
    function Record(): PageRecord
      reads this
    {
      PageRecord(sessionId, dataMap)
    }

    method PutData(id: Int32, data: seq<bv8>)
      modifies this
      ensures dataMap == old(dataMap)[id := data]
    {
      dataMap := dataMap[id := data];
    }

    method RemoveData(id: Int32)
      modifies this
      ensures dataMap == old(dataMap) - {id}
    {
      dataMap := dataMap - {id};
    }
  }

  class HazelcastDataStore {
    var pageStore: Pages

    /** The store over the map as it already is on the cluster. */
    constructor (existing: Pages)
      ensures pageStore == existing
    {
      pageStore := existing;
    }

    /** pageStore.get: a fresh copy of the record, or null. */
    method Get(sessionId: string) returns (pageData: HazelcastPageData?)
      ensures pageData == null <==> sessionId !in pageStore
      ensures pageData != null ==> fresh(pageData) && pageData.Record() == pageStore[sessionId]
    {
      pageData := null;
      if sessionId in pageStore {
        pageData := new HazelcastPageData.Copy(pageStore[sessionId]);
      }
    }

    method GetData(sessionId: string, id: Int32) returns (data: Option<seq<bv8>>)
      ensures data == Fetched(pageStore, sessionId, id)
    {
      var pageData := Get(sessionId);
      data := None;
      if pageData != null {
        if id in pageData.dataMap {
          data := Some(pageData.dataMap[id]);
        }
      }
    }

    method RemoveData(sessionId: string, id: Int32)
      modifies this
      ensures pageStore == FragmentRemoved(old(pageStore), sessionId, id)
    {
      var pageData := Get(sessionId);
      if pageData != null {
        pageData.RemoveData(id);
        pageStore := pageStore[sessionId := pageData.Record()];
      }
    }

    method RemoveSession(sessionId: string)
      modifies this
      ensures pageStore == SessionRemoved(old(pageStore), sessionId)
    {
      pageStore := pageStore - {sessionId};
    }

    method StoreData(sessionId: string, id: Int32, data: seq<bv8>)
      modifies this
      ensures pageStore == Stored(old(pageStore), sessionId, id, data)
    {
      var pageData := Get(sessionId);
      if pageData == null {
        pageData := new HazelcastPageData(sessionId);
      }
      pageData.PutData(id, data);
      pageStore := pageStore[sessionId := pageData.Record()];
    }

    /** destroy: the map is cleared; clear is modelled as never failing. */
    method Destroy()
      modifies this
      ensures pageStore == map[]
      ensures forall s, i :: Fetched(pageStore, s, i).None?
    {
      pageStore := map[];
    }

    method IsReplicated() returns (r: bool)
      ensures !r
    {
      r := false;
    }

    method CanBeAsynchronous() returns (r: bool)
      ensures !r
    {
      r := false;
    }
  }
}
