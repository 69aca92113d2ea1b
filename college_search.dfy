/** The computation behind a college search on a cache miss: equality
    filters in the store, the text filter in memory, then offset paging. */
module CollegeSearch {
  import opened Values
  import opened Text
  import opened DocumentStore
  import opened EqualityFilters
  import opened TextFilter
  import opened OffsetPaging

  /** The criteria that become store-side equality filters, in order. */
  const COLLEGE_SEARCH_FIELDS: seq<string> := ["year", "instituteCode", "category", "branchName", "city"]

  const DEFAULT_PAGE: int := 1
  const DEFAULT_LIMIT: int := 10

  /** `parseInt(criteria.page) || 1` */
  function SearchPageNumber(criteria: Criteria): (p: int)
    ensures p != 0
  {
    ParseIntOr(Lookup(criteria, "page"), DEFAULT_PAGE)
  }

  /** `parseInt(criteria.limit) || 10` */
  function SearchPageSize(criteria: Criteria): (l: int)
    ensures l != 0
  {
    ParseIntOr(Lookup(criteria, "limit"), DEFAULT_LIMIT)
  }

  /** Everything after the store query: the name filter when an
      instituteName is supplied, then the page of the survivors. */
  function SearchFrom(records: seq<Doc>, criteria: Criteria): (r: Result<SearchPage>)
    ensures r.Err? <==> Truthy(Lookup(criteria, "instituteName")) &&
                        (!Lookup(criteria, "instituteName").value.Str? ||
                         FilterRecords(records, Lookup(criteria, "instituteName").value.s).Err?)
    ensures r.Err? ==> r.error == SearchTypeError
    ensures !Truthy(Lookup(criteria, "instituteName")) ==>
              r == Ok(Paginate(records, SearchPageNumber(criteria), SearchPageSize(criteria)))
  {
    var name := Lookup(criteria, "instituteName");
    if !Truthy(name) then
      Ok(Paginate(records, SearchPageNumber(criteria), SearchPageSize(criteria)))
    else if !name.value.Str? then
      Err(SearchTypeError)
    else
      match FilterRecords(records, name.value.s)
      case Err(e) => Err(e)
      case Ok(kept) => Ok(Paginate(kept, SearchPageNumber(criteria), SearchPageSize(criteria)))
  }

  /** What a search computes from the store on a cache miss. */
  ghost predicate SearchOutcome(docs: map<Id, Doc>, criteria: Criteria, r: Result<SearchPage>)
  {
    exists ids :: IsResult(docs, SearchQuery(criteria, COLLEGE_SEARCH_FIELDS), ids) &&
                  r == SearchFrom(Records(docs, ids), criteria)
  }

  /** The where clauses of searchColleges, one per truthy criterion, in
      the order the source adds them. */
  method BuildFilters(criteria: Criteria) returns (filters: seq<(string, Value)>)
    ensures filters == Supplied(criteria, COLLEGE_SEARCH_FIELDS)
  {
    ghost var fields := COLLEGE_SEARCH_FIELDS;
    assert fields[0..] == fields;
    filters := [];
    filters := AddClause(criteria, fields, 0, "year", filters);
    filters := AddClause(criteria, fields, 1, "instituteCode", filters);
    filters := AddClause(criteria, fields, 2, "category", filters);
    filters := AddClause(criteria, fields, 3, "branchName", filters);
    filters := AddClause(criteria, fields, 4, "city", filters);
    ClausesDone(criteria, fields, filters);
  }

  /** The miss path of searchColleges: build the where clauses, run the
      query, map the documents to records, filter them by name when asked,
      and cut out the page. */
  method ComputeSearch(docs: map<Id, Doc>, criteria: Criteria) returns (r: Result<SearchPage>)
    ensures SearchOutcome(docs, criteria, r)
  {
    var page := ParseIntOr(Lookup(criteria, "page"), DEFAULT_PAGE);
    var limit := ParseIntOr(Lookup(criteria, "limit"), DEFAULT_LIMIT);
    var filters := BuildFilters(criteria);
    var query := Query(filters, ByDocumentId, None, None);
    var ids := RunQuery(docs, query);
    var results := Records(docs, ids);
    var name := Lookup(criteria, "instituteName");
    if Truthy(name) {
      if !name.value.Str? {
        r := Err(SearchTypeError);
      } else {
        var kept := FilterRecords(results, name.value.s);
        if kept.Err? {
          r := Err(kept.error);
        } else {
          r := Ok(Paginate(kept.value, page, limit));
        }
      }
    } else {
      r := Ok(Paginate(results, page, limit));
    }
    assert r == SearchFrom(results, criteria);
  }

  // ------------------------------------------------------------ properties

  /** The ids among ids whose records the name filter wants. */
  ghost function KeptIds(docs: map<Id, Doc>, ids: seq<Id>, query: string): (kept: seq<Id>)
    requires forall i :: 0 <= i < |ids| ==> ids[i] in docs
    ensures forall i :: 0 <= i < |kept| ==> kept[i] in docs
  {
    if ids == [] then []
    else
      (if Wanted(WithId(ids[0], docs[ids[0]]), query) then [ids[0]] else []) +
      KeptIds(docs, ids[1..], query)
  }

  /** The kept ids are exactly the wanted ones among ids. */
  lemma {:induction false} KeptIdsMembers(docs: map<Id, Doc>, ids: seq<Id>, query: string)
    requires forall i :: 0 <= i < |ids| ==> ids[i] in docs
    ensures forall id :: id in KeptIds(docs, ids, query) <==>
              id in ids && Wanted(WithId(id, docs[id]), query)
  {
    if ids != [] {
      KeptIdsMembers(docs, ids[1..], query);
      assert forall id :: id in ids <==> id == ids[0] || id in ids[1..];
    }
  }

  /** Every id kept from the tail of ascending ids comes after the head. */
  lemma KeptAfterHead(docs: map<Id, Doc>, ids: seq<Id>, query: string)
    requires ids != []
    requires forall i :: 0 <= i < |ids| ==> ids[i] in docs
    requires forall i, j :: 0 <= i < j < |ids| ==> Ordering.StrLess(ids[i], ids[j])
    ensures forall k :: 0 <= k < |KeptIds(docs, ids[1..], query)| ==>
              Ordering.StrLess(ids[0], KeptIds(docs, ids[1..], query)[k])
  {
    var tail := ids[1..];
    KeptIdsMembers(docs, tail, query);
    var rest := KeptIds(docs, tail, query);
    forall k | 0 <= k < |rest|
      ensures Ordering.StrLess(ids[0], rest[k])
    {
      assert rest[k] in rest;
      var m :| 0 <= m < |tail| && tail[m] == rest[k];
      assert tail[m] == ids[m + 1];
    }
  }

  /** Keeping some of ascending ids leaves them ascending. */
  lemma {:induction false} KeptIdsAscending(docs: map<Id, Doc>, ids: seq<Id>, query: string)
    requires forall i :: 0 <= i < |ids| ==> ids[i] in docs
    requires forall i, j :: 0 <= i < j < |ids| ==> Ordering.StrLess(ids[i], ids[j])
    ensures forall i, j :: 0 <= i < j < |KeptIds(docs, ids, query)| ==>
              Ordering.StrLess(KeptIds(docs, ids, query)[i], KeptIds(docs, ids, query)[j])
    decreases |ids|
  {
    if ids != [] {
      var tail := ids[1..];
      assert forall i :: 0 <= i < |tail| ==> tail[i] == ids[i + 1];
      KeptIdsAscending(docs, tail, query);
      KeptAfterHead(docs, ids, query);
      var rest := KeptIds(docs, tail, query);
      var kept := KeptIds(docs, ids, query);
      if Wanted(WithId(ids[0], docs[ids[0]]), query) {
        assert kept == [ids[0]] + rest;
        forall i, j | 0 <= i < j < |kept|
          ensures Ordering.StrLess(kept[i], kept[j])
        {
          assert kept[j] == rest[j - 1];
          if i > 0 {
            assert kept[i] == rest[i - 1];
          }
        }
      } else {
        assert kept == rest;
      }
    }
  }

  lemma RecordsCons(docs: map<Id, Doc>, id: Id, ids: seq<Id>)
    requires id in docs && forall i :: 0 <= i < |ids| ==> ids[i] in docs
    ensures Records(docs, [id] + ids) == [WithId(id, docs[id])] + Records(docs, ids)
  {
  }

  lemma RecordsTail(docs: map<Id, Doc>, ids: seq<Id>)
    requires ids != [] && forall i :: 0 <= i < |ids| ==> ids[i] in docs
    ensures Records(docs, ids) == [WithId(ids[0], docs[ids[0]])] + Records(docs, ids[1..])
  {
    assert ids == [ids[0]] + ids[1..];
    RecordsCons(docs, ids[0], ids[1..]);
  }

  /** Filtering the records of ids keeps the records of the kept ids. */
  lemma {:induction false} FilterByIds(docs: map<Id, Doc>, ids: seq<Id>, query: string)
    requires forall i :: 0 <= i < |ids| ==> ids[i] in docs
    requires FilterRecords(Records(docs, ids), query).Ok?
    ensures FilterRecords(Records(docs, ids), query) == Ok(Records(docs, KeptIds(docs, ids, query)))
  {
    if ids != [] {
      var first := WithId(ids[0], docs[ids[0]]);
      var records := Records(docs, ids);
      var later := Records(docs, ids[1..]);
      RecordsTail(docs, ids);
      assert records[0] == first && records[1..] == later;
      var head := RecordMatch(first, query);
      assert head.Ok?;
      assert FilterRecords(later, query).Ok?;
      FilterByIds(docs, ids[1..], query);
      var rest := KeptIds(docs, ids[1..], query);
      var kept := KeptIds(docs, ids, query);
      if head.value {
        assert Wanted(first, query);
        assert kept == [ids[0]] + rest;
        RecordsCons(docs, ids[0], rest);
        assert FilterRecords(records, query) == Ok([first] + FilterRecords(later, query).value);
      } else {
        assert !Wanted(first, query);
        assert kept == rest;
        assert FilterRecords(records, query) == FilterRecords(later, query);
      }
    }
  }

  /** A search fails exactly when an instituteName is supplied and either
      it is not a string, or some document meeting the equality criteria
      has a record the text filter cannot read. */
  lemma SearchFailure(docs: map<Id, Doc>, criteria: Criteria, r: Result<SearchPage>)
    requires SearchOutcome(docs, criteria, r)
    ensures var name := Lookup(criteria, "instituteName");
            r.Err? <==>
              Truthy(name) &&
              (!name.value.Str? ||
               exists id :: id in docs && MeetsCriteria(docs[id], criteria, COLLEGE_SEARCH_FIELDS) &&
                            RecordMatch(WithId(id, docs[id]), name.value.s).Err?)
    ensures r.Err? ==> r.error == SearchTypeError
  {
    var ids :| IsResult(docs, SearchQuery(criteria, COLLEGE_SEARCH_FIELDS), ids) &&
               r == SearchFrom(Records(docs, ids), criteria);
    SearchQueryAnswer(docs, criteria, COLLEGE_SEARCH_FIELDS, ids);
    var name := Lookup(criteria, "instituteName");
    if Truthy(name) && name.value.Str? {
      FilterFailsOnUnreadable(docs, criteria, ids, name.value.s);
    }
  }

  /** A matching document whose record the text filter cannot read. */
  ghost predicate SomeUnreadable(docs: map<Id, Doc>, criteria: Criteria, query: string)
  {
    exists id :: id in docs && MeetsCriteria(docs[id], criteria, COLLEGE_SEARCH_FIELDS) &&
                 RecordMatch(WithId(id, docs[id]), query).Err?
  }

  lemma FilterErrShowsUnreadable(docs: map<Id, Doc>, criteria: Criteria, ids: seq<Id>, query: string)
    requires forall i :: 0 <= i < |ids| ==> ids[i] in docs
    requires forall i :: 0 <= i < |ids| ==> MeetsCriteria(docs[ids[i]], criteria, COLLEGE_SEARCH_FIELDS)
    requires FilterRecords(Records(docs, ids), query).Err?
    ensures SomeUnreadable(docs, criteria, query)
  {
    var records := Records(docs, ids);
    var i :| 0 <= i < |records| && RecordMatch(records[i], query).Err?;
    assert records[i] == WithId(ids[i], docs[ids[i]]);
  }

  lemma UnreadableMakesFilterErr(docs: map<Id, Doc>, criteria: Criteria, ids: seq<Id>, query: string)
    requires forall i :: 0 <= i < |ids| ==> ids[i] in docs
    requires forall id :: id in docs && MeetsCriteria(docs[id], criteria, COLLEGE_SEARCH_FIELDS) ==> id in ids
    requires SomeUnreadable(docs, criteria, query)
    ensures FilterRecords(Records(docs, ids), query).Err?
  {
    var id :| id in docs && MeetsCriteria(docs[id], criteria, COLLEGE_SEARCH_FIELDS) &&
              RecordMatch(WithId(id, docs[id]), query).Err?;
    var i :| 0 <= i < |ids| && ids[i] == id;
    assert Records(docs, ids)[i] == WithId(id, docs[id]);
  }

  /** The text filter over the records of a search query's answer fails
      exactly when one of the matching documents has a record it cannot
      read. */
  lemma FilterFailsOnUnreadable(docs: map<Id, Doc>, criteria: Criteria, ids: seq<Id>, query: string)
    requires forall id :: id in ids <==> id in docs && MeetsCriteria(docs[id], criteria, COLLEGE_SEARCH_FIELDS)
    ensures forall i :: 0 <= i < |ids| ==> ids[i] in docs
    ensures FilterRecords(Records(docs, ids), query).Err? <==>
              exists id :: id in docs && MeetsCriteria(docs[id], criteria, COLLEGE_SEARCH_FIELDS) &&
                           RecordMatch(WithId(id, docs[id]), query).Err?
  {
    forall i | 0 <= i < |ids|
      ensures ids[i] in docs && MeetsCriteria(docs[ids[i]], criteria, COLLEGE_SEARCH_FIELDS)
    {
      assert ids[i] in ids;
    }
    if FilterRecords(Records(docs, ids), query).Err? {
      FilterErrShowsUnreadable(docs, criteria, ids, query);
    }
    if SomeUnreadable(docs, criteria, query) {
      UnreadableMakesFilterErr(docs, criteria, ids, query);
    }
  }

  /** matched lists, in ascending id order, exactly the documents that meet
      the equality criteria and, when an instituteName is supplied, the text
      filter. */
  ghost predicate SearchMatches(docs: map<Id, Doc>, criteria: Criteria, matched: seq<Id>)
  {
    && (forall i :: 0 <= i < |matched| ==> matched[i] in docs)
    && (forall i, j :: 0 <= i < j < |matched| ==> Ordering.StrLess(matched[i], matched[j]))
    && (forall id :: id in matched <==>
          && id in docs && MeetsCriteria(docs[id], criteria, COLLEGE_SEARCH_FIELDS)
          && (Truthy(Lookup(criteria, "instituteName")) && Lookup(criteria, "instituteName").value.Str? ==>
                Wanted(WithId(id, docs[id]), Lookup(criteria, "instituteName").value.s)))
  }

  /** A successful search answers the page, cut by the defaulted page and
      limit, of the records of the matching documents. */
  lemma SearchResult(docs: map<Id, Doc>, criteria: Criteria, p: SearchPage)
    requires SearchOutcome(docs, criteria, Ok(p))
    ensures exists matched :: SearchMatches(docs, criteria, matched) &&
              p == Paginate(Records(docs, matched), SearchPageNumber(criteria), SearchPageSize(criteria))
  {
    var ids :| IsResult(docs, SearchQuery(criteria, COLLEGE_SEARCH_FIELDS), ids) &&
               Ok(p) == SearchFrom(Records(docs, ids), criteria);
    SearchQueryAnswer(docs, criteria, COLLEGE_SEARCH_FIELDS, ids);
    assert forall i :: 0 <= i < |ids| ==> ids[i] in docs by {
      forall i | 0 <= i < |ids| ensures ids[i] in docs { assert ids[i] in ids; }
    }
    var name := Lookup(criteria, "instituteName");
    var matched;
    if Truthy(name) {
      assert name.value.Str?;
      var records := Records(docs, ids);
      assert FilterRecords(records, name.value.s).Ok?;
      FilterByIds(docs, ids, name.value.s);
      KeptIdsMembers(docs, ids, name.value.s);
      KeptIdsAscending(docs, ids, name.value.s);
      matched := KeptIds(docs, ids, name.value.s);
      assert p == Paginate(Records(docs, matched), SearchPageNumber(criteria), SearchPageSize(criteria));
    } else {
      matched := ids;
      assert p == Paginate(Records(docs, ids), SearchPageNumber(criteria), SearchPageSize(criteria));
    }
    assert SearchMatches(docs, criteria, matched);
  }
}
