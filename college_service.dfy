/** The college service: the colleges collection of the document store and
    a read-through cache in front of it. Reads look in the cache first and
    on a miss compute the answer and store it with an expiry; mutations
    write the collection and then delete two cache keys by their exact
    names: the changed college's detail key and the literal key
    "colleges:list*". Because the cache deletes by exact name, that second
    deletion removes no list page, and no mutation removes a search. */
module Colleges {
  import opened Values
  import opened CacheKeys
  import opened DocumentStore
  import opened CursorPaging
  import opened OffsetPaging
  import opened CollegeSearch
  import opened Crud

  /** What a cache entry holds: a college record, a list page or a search
      result. */
  datatype Cached =
    | Detail(record: Doc)
    | List(page: CursorPage)
    | Search(result: SearchPage)

  /** A cache entry with the expiry it was stored with, in seconds. */
  datatype Entry = Entry(value: Cached, ttl: nat)

  /** `orderBy('instituteCode')` */
  const COLLEGE_ORDER: Order := ByField("instituteCode", Ascending)

  const COLLEGE_DELETED: string := "College deleted successfully"

  /** Each read stores its own kind of answer in its own namespace. */
  predicate Fits(k: string, e: Entry)
  {
    && (IsListKey(k) ==> e.value.List?)
    && (IsDetailKey(k) ==> e.value.Detail?)
    && (IsSearchKey(k) ==> e.value.Search?)
  }

  predicate CacheValid(cache: map<string, Entry>)
  {
    forall k :: k in cache ==> Fits(k, cache[k])
  }

  /** Every cached college record is what a read of the collection answers
      now, and no record is cached for a college that does not exist. */
  ghost predicate Coherent(docs: map<Id, Doc>, cache: map<string, Entry>)
  {
    forall k :: k in cache && IsDetailKey(k) ==> RecordOf(docs, k[|COLLEGE_DETAIL|..], cache[k])
  }

  /** The entry holds the current record of the college id. */
  ghost predicate RecordOf(docs: map<Id, Doc>, id: Id, e: Entry)
  {
    id in docs && e.value == Detail(WithId(id, docs[id]))
  }

  /** The two deletions of updateCollege and deleteCollege. */
  function Invalidate(cache: map<string, Entry>, id: Id): (r: map<string, Entry>)
    ensures DetailKey(id) !in r && LIST_INVALIDATION_KEY !in r
    ensures forall k :: k in cache && k != DetailKey(id) && k != LIST_INVALIDATION_KEY ==>
              k in r && r[k] == cache[k]
    ensures r.Keys <= cache.Keys
  {
    cache - {DetailKey(id), LIST_INVALIDATION_KEY}
  }

  class CollegeService {
    /** The colleges collection, by document id. */
    var docs: map<Id, Doc>
    /** The cache, by key. */
    var cache: map<string, Entry>

    ghost predicate Valid()
      reads this
    {
      StoreValid(docs) && CacheValid(cache)
    }

    /** The cached college records agree with the collection. */
    ghost predicate DetailsCoherent()
      reads this
    {
      Coherent(docs, cache)
    }

    /** The service over the collection's and the cache's current contents. */
    constructor(initialDocs: map<Id, Doc>, initialCache: map<string, Entry>)
      requires StoreValid(initialDocs) && CacheValid(initialCache)
      ensures docs == initialDocs && cache == initialCache
      ensures Valid()
      ensures DetailsCoherent() <==> Coherent(initialDocs, initialCache)
    {
      docs := initialDocs;
      cache := initialCache;
    }

    /** addCollege: `set` under a truthy data.id, otherwise `add` under the
        id the store generates (autoId); the cache is not touched. */
    method AddCollege(data: Doc, autoId: Id) returns (r: Result<Doc>)
      requires Valid()
      requires autoId != "" && autoId !in docs
      modifies this
      ensures Valid()
      ensures cache == old(cache)
      ensures match AddTarget(data, autoId)
              case Err(e) => r == Err(e) && docs == old(docs)
              case Ok(t) => r == Ok(WithId(t, data)) && docs == old(docs)[t := data]
      ensures (old(DetailsCoherent()) && AddTarget(data, autoId).Ok? &&
               AddTarget(data, autoId).value !in old(docs)) ==> DetailsCoherent()
    {
      if Truthy(Field(data, "id")) {
        if !data["id"].Str? {
          return Err(InvalidDocumentId);
        }
        var id := data["id"].s;
        docs := docs[id := data];
        r := Ok(WithId(id, data));
      } else {
        docs := docs[autoId := data];
        r := Ok(WithId(autoId, data));
      }
      AddThenRead(old(docs), data, autoId, CollegeNotFound);
    }

    /** getAllColleges: the cached page under the list key, or one page of
        the collection by instituteCode, cached for a day when it succeeds. */
    method GetAllColleges(page: int, limit: nat, lastDocId: Option<Id>) returns (r: Result<CursorPage>)
      requires Valid()
      modifies this
      ensures Valid()
      ensures docs == old(docs)
      ensures var key := ListKey(page, limit, lastDocId);
              if key in old(cache) then
                r == Ok(old(cache)[key].value.page) && cache == old(cache)
              else
                && ListOutcome(docs, COLLEGE_ORDER, page, limit, lastDocId, r)
                && cache == if r.Ok? then old(cache)[key := Entry(List(r.value), ONE_DAY)] else old(cache)
      ensures old(DetailsCoherent()) ==> DetailsCoherent()
    {
      var key := ListKey(page, limit, lastDocId);
      if key in cache {
        NamespacesDisjoint(key);
        return Ok(cache[key].value.page);
      }
      r := ListPage(docs, COLLEGE_ORDER, page, limit, lastDocId);
      if r.Ok? {
        var entry := Entry(List(r.value), ONE_DAY);
        NamespacesDisjoint(key);
        PutKeepsCacheValid(cache, key, entry);
        if DetailsCoherent() {
          PutOutsideDetailsKeepsCoherence(docs, cache, key, entry);
        }
        cache := cache[key := entry];
      }
    }

    /** getCollegeById: the cached record under the detail key, or the
        record read from the collection, cached for an hour. */
    method GetCollegeById(id: Id) returns (r: Result<Doc>)
      requires Valid()
      modifies this
      ensures Valid()
      ensures docs == old(docs)
      ensures DetailKey(id) in old(cache) ==>
                r == Ok(old(cache)[DetailKey(id)].value.record) && cache == old(cache)
      ensures DetailKey(id) !in old(cache) ==>
                && r == ReadRecord(docs, id, CollegeNotFound)
                && cache == if r.Ok? then old(cache)[DetailKey(id) := Entry(Detail(r.value), ONE_HOUR)]
                            else old(cache)
      ensures old(DetailsCoherent()) ==> DetailsCoherent() && r == ReadRecord(docs, id, CollegeNotFound)
    {
      var key := DetailKey(id);
      if key in cache {
        return Ok(cache[key].value.record);
      }
      if id == "" {
        return Err(InvalidDocumentId);
      }
      if id !in docs {
        return Err(CollegeNotFound);
      }
      var record := WithId(id, docs[id]);
      var entry := Entry(Detail(record), ONE_HOUR);
      NamespacesDisjoint(key);
      PutKeepsCacheValid(cache, key, entry);
      if DetailsCoherent() {
        FillKeepsCoherence(docs, cache, id);
      }
      cache := cache[key := entry];
      r := Ok(record);
    }

    /** updateCollege: merge the patch into an existing college, answer the
        re-read record, then delete the detail key and "colleges:list*". */
    method UpdateCollege(id: Id, patch: Doc) returns (r: Result<Doc>)
      requires Valid()
      modifies this
      ensures Valid()
      ensures UpdateCheck(old(docs), id, patch, CollegeNotFound).Some? ==>
                && r == Err(UpdateCheck(old(docs), id, patch, CollegeNotFound).value)
                && docs == old(docs) && cache == old(cache)
      ensures UpdateCheck(old(docs), id, patch, CollegeNotFound).None? ==>
                && docs == old(docs)[id := Merge(old(docs)[id], patch)]
                && r == Ok(WithId(id, docs[id]))
                && cache == Invalidate(old(cache), id)
      ensures old(DetailsCoherent()) ==> DetailsCoherent()
    {
      if id == "" {
        return Err(InvalidDocumentId);
      }
      if id !in docs {
        return Err(CollegeNotFound);
      }
      if patch == map[] {
        return Err(EmptyUpdate);
      }
      if DetailsCoherent() {
        UpdateKeepsCoherence(docs, cache, id, patch);
      }
      docs := docs[id := Merge(docs[id], patch)];
      r := Ok(WithId(id, docs[id]));
      RemoveKeepsCacheValid(cache, {DetailKey(id), LIST_INVALIDATION_KEY});
      TwoDeletesInvalidate(cache, id);
      cache := cache - {DetailKey(id)};
      cache := cache - {LIST_INVALIDATION_KEY};
    }

    /** deleteCollege: remove an existing college, then delete the detail
        key and "colleges:list*". */
    method DeleteCollege(id: Id) returns (r: Result<Deleted>)
      requires Valid()
      modifies this
      ensures Valid()
      ensures DeleteCheck(old(docs), id, CollegeNotFound).Some? ==>
                && r == Err(DeleteCheck(old(docs), id, CollegeNotFound).value)
                && docs == old(docs) && cache == old(cache)
      ensures DeleteCheck(old(docs), id, CollegeNotFound).None? ==>
                && docs == old(docs) - {id}
                && r == Ok(Deleted(id, COLLEGE_DELETED))
                && cache == Invalidate(old(cache), id)
      ensures old(DetailsCoherent()) ==> DetailsCoherent()
    {
      if id == "" {
        return Err(InvalidDocumentId);
      }
      if id !in docs {
        return Err(CollegeNotFound);
      }
      if DetailsCoherent() {
        DeleteKeepsCoherence(docs, cache, id);
      }
      docs := docs - {id};
      r := Ok(Deleted(id, COLLEGE_DELETED));
      RemoveKeepsCacheValid(cache, {DetailKey(id), LIST_INVALIDATION_KEY});
      TwoDeletesInvalidate(cache, id);
      cache := cache - {DetailKey(id)};
      cache := cache - {LIST_INVALIDATION_KEY};
    }

    /** searchColleges: the cached result under the search key, or the
        search computed from the collection, cached for a day when it
        succeeds. */
    method SearchColleges(criteria: Criteria) returns (r: Result<SearchPage>)
      requires Valid()
      modifies this
      ensures Valid()
      ensures docs == old(docs)
      ensures var key := SearchKey(criteria);
              if key in old(cache) then
                r == Ok(old(cache)[key].value.result) && cache == old(cache)
              else
                && SearchOutcome(docs, criteria, r)
                && cache == if r.Ok? then old(cache)[key := Entry(Search(r.value), ONE_DAY)] else old(cache)
      ensures old(DetailsCoherent()) ==> DetailsCoherent()
    {
      var key := SearchKey(criteria);
      if key in cache {
        NamespacesDisjoint(key);
        return Ok(cache[key].value.result);
      }
      r := ComputeSearch(docs, criteria);
      if r.Ok? {
        var entry := Entry(Search(r.value), ONE_DAY);
        NamespacesDisjoint(key);
        PutKeepsCacheValid(cache, key, entry);
        if DetailsCoherent() {
          PutOutsideDetailsKeepsCoherence(docs, cache, key, entry);
        }
        cache := cache[key := entry];
      }
    }
  }

  // ------------------------------------------------------------ properties

  /** Storing an answer in its own namespace keeps every entry in its own. */
  lemma PutKeepsCacheValid(cache: map<string, Entry>, k: string, e: Entry)
    requires CacheValid(cache) && Fits(k, e)
    ensures CacheValid(cache[k := e])
  {
  }

  /** Deleting keys keeps every remaining entry in its own namespace. */
  /** The two `del` calls remove exactly the keys Invalidate removes. */
  lemma TwoDeletesInvalidate(cache: map<string, Entry>, id: Id)
    ensures cache - {DetailKey(id)} - {LIST_INVALIDATION_KEY} == Invalidate(cache, id)
  {
  }

  lemma RemoveKeepsCacheValid(cache: map<string, Entry>, keys: set<string>)
    requires CacheValid(cache)
    ensures CacheValid(cache - keys)
  {
  }

  /** Storing a list page or a search result leaves the cached records
      agreeing with the collection. */
  lemma PutOutsideDetailsKeepsCoherence(docs: map<Id, Doc>, cache: map<string, Entry>, k: string, e: Entry)
    requires Coherent(docs, cache) && !IsDetailKey(k)
    ensures Coherent(docs, cache[k := e])
  {
  }

  /** Caching the record just read keeps the cached records agreeing with
      the collection. */
  lemma FillKeepsCoherence(docs: map<Id, Doc>, cache: map<string, Entry>, id: Id)
    requires Coherent(docs, cache) && id in docs
    ensures Coherent(docs, cache[DetailKey(id) := Entry(Detail(WithId(id, docs[id])), ONE_HOUR)])
  {
    var key := DetailKey(id);
    assert RecordOf(docs, key[|COLLEGE_DETAIL|..], Entry(Detail(WithId(id, docs[id])), ONE_HOUR));
  }

  /** An update followed by its two deletions keeps the cached records
      agreeing with the collection: the changed college's record is gone,
      the others are untouched. */
  lemma UpdateKeepsCoherence(docs: map<Id, Doc>, cache: map<string, Entry>, id: Id, patch: Doc)
    requires Coherent(docs, cache) && id in docs
    ensures Coherent(docs[id := Merge(docs[id], patch)], Invalidate(cache, id))
  {
    var after := docs[id := Merge(docs[id], patch)];
    var left := Invalidate(cache, id);
    forall k | k in left && IsDetailKey(k)
      ensures RecordOf(after, k[|COLLEGE_DETAIL|..], left[k])
    {
      DetailKeyOf(k, id);
    }
  }

  /** A delete followed by its two deletions keeps the cached records
      agreeing with the collection. */
  lemma DeleteKeepsCoherence(docs: map<Id, Doc>, cache: map<string, Entry>, id: Id)
    requires Coherent(docs, cache) && id in docs
    ensures Coherent(docs - {id}, Invalidate(cache, id))
  {
    var left := Invalidate(cache, id);
    forall k | k in left && IsDetailKey(k)
      ensures RecordOf(docs - {id}, k[|COLLEGE_DETAIL|..], left[k])
    {
      DetailKeyOf(k, id);
    }
  }

  /** A detail key other than the detail key of id names another college. */
  lemma DetailKeyOf(k: string, id: Id)
    requires IsDetailKey(k) && k != DetailKey(id)
    ensures k[|COLLEGE_DETAIL|..] != id
  {
  }

  /** What the two deletions leave: every list page and every search
      result, unchanged, and no record of the changed college. */
  lemma InvalidateSparesPagesAndSearches(cache: map<string, Entry>, id: Id)
    ensures DetailKey(id) !in Invalidate(cache, id)
    ensures forall k :: k in cache && (IsListKey(k) || IsSearchKey(k)) ==>
              k in Invalidate(cache, id) && Invalidate(cache, id)[k] == cache[k]
    ensures forall k :: k in Invalidate(cache, id) ==> k in cache && Invalidate(cache, id)[k] == cache[k]
  {
    forall k | k in cache && (IsListKey(k) || IsSearchKey(k))
      ensures k in Invalidate(cache, id)
    {
      InvalidationSparesListsAndSearches(id, k);
    }
  }

  /** An add under an id that already exists overwrites the document but
      not its cached record: while that entry lives, a read answers the
      record from before the add. */
  lemma AddOverCachedRecordGoesStale(docs: map<Id, Doc>, cache: map<string, Entry>, data: Doc, autoId: Id)
    requires Coherent(docs, cache)
    requires AddTarget(data, autoId).Ok?
    requires var t := AddTarget(data, autoId).value;
             t in docs && DetailKey(t) in cache && WithId(t, docs[t]) != WithId(t, data)
    ensures var t := AddTarget(data, autoId).value;
            && cache[DetailKey(t)].value.record != WithId(t, data)
            && !Coherent(docs[t := data], cache)
  {
    var t := AddTarget(data, autoId).value;
    assert DetailKey(t)[|COLLEGE_DETAIL|..] == t;
  }
}
