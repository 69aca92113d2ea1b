/** The cutoff service: the cutoffs collection of the document store, with
    no cache. Its list is ordered by year, newest first, and its search is
    a plain conjunction of equality filters answered in document id order,
    without paging. */
module Cutoffs {
  import opened Values
  import opened DocumentStore
  import opened CursorPaging
  import opened EqualityFilters
  import opened Crud

  /** `orderBy('year', 'desc')` */
  const CUTOFF_ORDER: Order := ByField("year", Descending)

  /** The criteria that become equality filters, in order. */
  const CUTOFF_SEARCH_FIELDS: seq<string> := ["collegeId", "year", "round", "category"]

  const CUTOFF_DELETED: string := "Cutoff deleted successfully"

  /** What searchCutoffs answers: the records of the store's answer to the
      equality filters. */
  ghost predicate CutoffSearchOutcome(docs: map<Id, Doc>, criteria: Criteria, r: seq<Doc>)
  {
    exists ids :: IsResult(docs, SearchQuery(criteria, CUTOFF_SEARCH_FIELDS), ids) &&
                  r == Records(docs, ids)
  }

  /** The where clauses of searchCutoffs, one per truthy criterion, in the
      order the source adds them. */
  method BuildCutoffFilters(criteria: Criteria) returns (filters: seq<(string, Value)>)
    ensures filters == Supplied(criteria, CUTOFF_SEARCH_FIELDS)
  {
    ghost var fields := CUTOFF_SEARCH_FIELDS;
    assert fields[0..] == fields;
    filters := [];
    filters := AddClause(criteria, fields, 0, "collegeId", filters);
    filters := AddClause(criteria, fields, 1, "year", filters);
    filters := AddClause(criteria, fields, 2, "round", filters);
    filters := AddClause(criteria, fields, 3, "category", filters);
    ClausesDone(criteria, fields, filters);
  }

  class CutoffService {
    /** The cutoffs collection, by document id. */
    var docs: map<Id, Doc>

    ghost predicate Valid()
      reads this
    {
      StoreValid(docs)
    }

    /** The service over the collection's current contents. */
    constructor(initialDocs: map<Id, Doc>)
      requires StoreValid(initialDocs)
      ensures docs == initialDocs && Valid()
    {
      docs := initialDocs;
    }

    /** addCutoff: `set` under a truthy data.id, otherwise `add` under the
        id the store generates (autoId). */
    method AddCutoff(data: Doc, autoId: Id) returns (r: Result<Doc>)
      requires Valid()
      requires autoId != "" && autoId !in docs
      modifies this
      ensures Valid()
      ensures match AddTarget(data, autoId)
              case Err(e) => r == Err(e) && docs == old(docs)
              case Ok(t) => r == Ok(WithId(t, data)) && docs == old(docs)[t := data]
    {
      if Truthy(Field(data, "id")) {
        if !data["id"].Str? {
          return Err(InvalidDocumentId);
        }
        var id := data["id"].s;
        docs := docs[id := data];
        r := Ok(WithId(id, data));
      } else {
        docs := docs[autoId := data];
        r := Ok(WithId(autoId, data));
      }
      AddThenRead(old(docs), data, autoId, CutoffNotFound);
    }

    /** getAllCutoffs: one page of the collection by year, newest first. */
    method GetAllCutoffs(page: int, limit: nat, lastDocId: Option<Id>) returns (r: Result<CursorPage>)
      ensures ListOutcome(docs, CUTOFF_ORDER, page, limit, lastDocId, r)
    {
      r := ListPage(docs, CUTOFF_ORDER, page, limit, lastDocId);
    }

    /** getCutoffById: the record of an existing cutoff. */
    method GetCutoffById(id: Id) returns (r: Result<Doc>)
      ensures r == ReadRecord(docs, id, CutoffNotFound)
      ensures r.Ok? <==> id != "" && id in docs
      ensures r.Ok? ==> forall k :: k in docs[id] ==> r.value[k] == docs[id][k]
    {
      if id == "" {
        return Err(InvalidDocumentId);
      }
      if id !in docs {
        return Err(CutoffNotFound);
      }
      r := Ok(WithId(id, docs[id]));
    }

    /** updateCutoff: merge the patch into an existing cutoff and answer
        the re-read record. */
    method UpdateCutoff(id: Id, patch: Doc) returns (r: Result<Doc>)
      requires Valid()
      modifies this
      ensures Valid()
      ensures UpdateCheck(old(docs), id, patch, CutoffNotFound).Some? ==>
                r == Err(UpdateCheck(old(docs), id, patch, CutoffNotFound).value) && docs == old(docs)
      ensures UpdateCheck(old(docs), id, patch, CutoffNotFound).None? ==>
                && docs == old(docs)[id := Merge(old(docs)[id], patch)]
                && r == Ok(WithId(id, docs[id]))
    {
      if id == "" {
        return Err(InvalidDocumentId);
      }
      if id !in docs {
        return Err(CutoffNotFound);
      }
      if patch == map[] {
        return Err(EmptyUpdate);
      }
      docs := docs[id := Merge(docs[id], patch)];
      r := Ok(WithId(id, docs[id]));
    }

    /** deleteCutoff: remove an existing cutoff. */
    method DeleteCutoff(id: Id) returns (r: Result<Deleted>)
      requires Valid()
      modifies this
      ensures Valid()
      ensures DeleteCheck(old(docs), id, CutoffNotFound).Some? ==>
                r == Err(DeleteCheck(old(docs), id, CutoffNotFound).value) && docs == old(docs)
      ensures DeleteCheck(old(docs), id, CutoffNotFound).None? ==>
                docs == old(docs) - {id} && r == Ok(Deleted(id, CUTOFF_DELETED))
    {
      if id == "" {
        return Err(InvalidDocumentId);
      }
      if id !in docs {
        return Err(CutoffNotFound);
      }
      docs := docs - {id};
      r := Ok(Deleted(id, CUTOFF_DELETED));
    }

    /** searchCutoffs: the records of the cutoffs equal to every truthy
        criterion among collegeId, year, round and category. */
    method SearchCutoffs(criteria: Criteria) returns (r: seq<Doc>)
      ensures CutoffSearchOutcome(docs, criteria, r)
    {
      var filters := BuildCutoffFilters(criteria);
      var ids := RunQuery(docs, Query(filters, ByDocumentId, None, None));
      r := Records(docs, ids);
    }
  }

  // ------------------------------------------------------------ properties

  /** A cutoff search answers, in ascending id order, the record of every
      cutoff that equals each supplied criterion, and no other. */
  lemma CutoffSearchResult(docs: map<Id, Doc>, criteria: Criteria, r: seq<Doc>)
    requires CutoffSearchOutcome(docs, criteria, r)
    ensures exists ids: seq<Id> ::
              && (forall i :: 0 <= i < |ids| ==> ids[i] in docs)
              && (forall i, j :: 0 <= i < j < |ids| ==> Ordering.StrLess(ids[i], ids[j]))
              && (forall id :: id in ids <==> id in docs && MeetsCriteria(docs[id], criteria, CUTOFF_SEARCH_FIELDS))
              && r == Records(docs, ids)
  {
    var ids :| IsResult(docs, SearchQuery(criteria, CUTOFF_SEARCH_FIELDS), ids) && r == Records(docs, ids);
    SearchQueryAnswer(docs, criteria, CUTOFF_SEARCH_FIELDS, ids);
  }

  /** Without any supplied criterion the search answers every cutoff. */
  lemma NoCriteriaListsEverything(docs: map<Id, Doc>, r: seq<Doc>)
    requires CutoffSearchOutcome(docs, [], r)
    ensures |r| == |docs|
  {
    var ids :| IsResult(docs, SearchQuery([], CUTOFF_SEARCH_FIELDS), ids) && r == Records(docs, ids);
    var q := SearchQuery([], CUTOFF_SEARCH_FIELDS);
    ResultSize(docs, q, ids);
    assert SelectedSet(docs, q) == docs.Keys;
  }
}
