/** The cursor pagination shared by the college and the cutoff lists: an
    orderBy on one field, a limit, and startAfter the document named by
    the cursor id; the page reports the last id as the next cursor. */
module CursorPaging {
  import opened Values
  import opened DocumentStore

  datatype CursorPage = CursorPage(
    items: seq<Doc>,
    nextPageId: Option<Id>,
    currentPage: int,
    pageSize: nat,
    hasMore: bool)

  /** `if (lastDocId)`: a cursor is used when it is a non-empty id. */
  predicate CursorGiven(lastDocId: Option<Id>)
  {
    lastDocId.Some? && lastDocId.value != ""
  }

  /** The query a list page runs, or the error the store raises when the
      cursor document is missing or lacks the order field. */
  function ListQuery(docs: map<Id, Doc>, order: Order, limit: nat, lastDocId: Option<Id>): (r: Result<Query>)
    requires order.ByField?
    ensures r.Ok? ==> r.value.filters == [] && r.value.order == order && r.value.limit == Some(limit)
    ensures r.Ok? <==> !CursorGiven(lastDocId) ||
                       (lastDocId.value in docs && order.field in docs[lastDocId.value])
    ensures r.Ok? && CursorGiven(lastDocId) ==>
              r.value.after == Some(Pos(docs, order, lastDocId.value))
    ensures r.Ok? && !CursorGiven(lastDocId) ==> r.value.after == None
  {
    if !CursorGiven(lastDocId) then Ok(Query([], order, Some(limit), None))
    else if lastDocId.value !in docs then Err(CursorNotFound)
    else if order.field !in docs[lastDocId.value] then Err(CursorMissingOrderField)
    else Ok(Query([], order, Some(limit), Some(Pos(docs, order, lastDocId.value))))
  }

  /** The page envelope built from the ids the query returned. */
  function Envelope(docs: map<Id, Doc>, ids: seq<Id>, page: int, limit: nat): CursorPage
    requires forall i :: 0 <= i < |ids| ==> ids[i] in docs
  {
    CursorPage(
      Records(docs, ids),
      if ids == [] then None else Some(ids[|ids| - 1]),
      page,
      limit,
      |ids| == limit)
  }

  /** What a list call answers: the cursor error, or the envelope of the
      store's answer to the page query. */
  ghost predicate ListOutcome(docs: map<Id, Doc>, order: Order, page: int, limit: nat,
                              lastDocId: Option<Id>, r: Result<CursorPage>)
    requires order.ByField?
  {
    match ListQuery(docs, order, limit, lastDocId)
    case Err(e) => r == Err(e)
    case Ok(q) => exists ids :: IsResult(docs, q, ids) && r == Ok(Envelope(docs, ids, page, limit))
  }

  /** One page of the list: resolve the cursor, run the query, wrap it. */
  method ListPage(docs: map<Id, Doc>, order: Order, page: int, limit: nat, lastDocId: Option<Id>)
    returns (r: Result<CursorPage>)
    requires order.ByField?
    ensures ListOutcome(docs, order, page, limit, lastDocId, r)
  {
    var after: Option<Position> := None;
    if lastDocId.Some? && lastDocId.value != "" {
      var cursor := lastDocId.value;
      if cursor !in docs {
        return Err(CursorNotFound);
      }
      if order.field !in docs[cursor] {
        return Err(CursorMissingOrderField);
      }
      after := Some(Position(docs[cursor][order.field], cursor));
    }
    var ids := RunQuery(docs, Query([], order, Some(limit), after));
    r := Ok(Envelope(docs, ids, page, limit));
  }

  // ------------------------------------------------------------ properties

  /** The answer depends on the store, order, limit and cursor only; the
      page number is echoed in currentPage and selects nothing. */
  lemma PageNumberOnlyEchoed(docs: map<Id, Doc>, order: Order, p1: int, p2: int, limit: nat,
                             lastDocId: Option<Id>, r1: Result<CursorPage>, r2: Result<CursorPage>)
    requires order.ByField?
    requires ListOutcome(docs, order, p1, limit, lastDocId, r1)
    requires ListOutcome(docs, order, p2, limit, lastDocId, r2)
    ensures r1.Err? <==> r2.Err?
    ensures r1.Err? ==> r1 == r2
    ensures r1.Ok? ==> r2 == Ok(r1.value.(currentPage := p2))
  {
    var lq := ListQuery(docs, order, limit, lastDocId);
    if lq.Ok? {
      var q := lq.value;
      var a :| IsResult(docs, q, a) && r1 == Ok(Envelope(docs, a, p1, limit));
      var b :| IsResult(docs, q, b) && r2 == Ok(Envelope(docs, b, p2, limit));
      ResultUnique(docs, q, a, b);
      EnvelopeEchoesPage(docs, a, p1, p2, limit);
    }
  }

  /** A successful page: at most limit records of documents that have the
      order field, strictly in the order, after the cursor document; the
      next cursor is the last record's id; hasMore says the page is full. */
  lemma ListPageShape(docs: map<Id, Doc>, order: Order, page: int, limit: nat,
                      lastDocId: Option<Id>, p: CursorPage)
    requires order.ByField?
    requires ListOutcome(docs, order, page, limit, lastDocId, Ok(p))
    ensures |p.items| <= limit
    ensures p.hasMore <==> |p.items| == limit
    ensures p.currentPage == page && p.pageSize == limit
    ensures (p.nextPageId == None) <==> p.items == []
    ensures p.nextPageId.Some? ==>
              && p.nextPageId.value in docs
              && p.items[|p.items| - 1] == WithId(p.nextPageId.value, docs[p.nextPageId.value])
    ensures forall i :: 0 <= i < |p.items| ==> order.field in p.items[i]
    ensures forall i, j :: 0 <= i < j < |p.items| ==>
              !ValueLessInOrder(order, p.items[j][order.field], p.items[i][order.field])
  {
    var q := ListQuery(docs, order, limit, lastDocId).value;
    var ids := OutcomeIds(docs, order, page, limit, lastDocId, Ok(p));
    EnvelopeShape(docs, ids, page, limit);
    RecordsKeepOrder(docs, q, ids);
  }

  /** The records of an ordered result carry the order field and are
      sorted by it. */
  lemma RecordsKeepOrder(docs: map<Id, Doc>, q: Query, ids: seq<Id>)
    requires q.order.ByField? && InOrder(docs, q, ids)
    ensures forall i :: 0 <= i < |ids| ==> q.order.field in Records(docs, ids)[i]
    ensures forall i, j :: 0 <= i < j < |ids| ==>
              !ValueLessInOrder(q.order, Records(docs, ids)[j][q.order.field],
                                Records(docs, ids)[i][q.order.field])
  {
    var r := Records(docs, ids);
    forall i, j | 0 <= i < j < |ids|
      ensures !ValueLessInOrder(q.order, r[j][q.order.field], r[i][q.order.field])
    {
      var a, b := Pos(docs, q.order, ids[i]), Pos(docs, q.order, ids[j]);
      assert Precedes(q.order, a, b);
      assert a.key == r[i][q.order.field] && b.key == r[j][q.order.field];
      PrecedesKeys(q.order, a, b);
    }
  }

  /** The envelope holds one record per id, echoes the page number and
      limit, reports a full page as hasMore, and names the last record's id
      as the next cursor (none for an empty page). */
  lemma EnvelopeShape(docs: map<Id, Doc>, ids: seq<Id>, page: int, limit: nat)
    requires forall i :: 0 <= i < |ids| ==> ids[i] in docs
    ensures var p := Envelope(docs, ids, page, limit);
            && |p.items| == |ids| && p.currentPage == page && p.pageSize == limit
            && (p.hasMore <==> |ids| == limit)
            && (p.nextPageId.None? <==> ids == [])
            && (p.nextPageId.Some? ==>
                  && p.nextPageId.value == ids[|ids| - 1]
                  && p.items[|ids| - 1] == WithId(ids[|ids| - 1], docs[ids[|ids| - 1]]))
  {
  }

  /** The page number only fills in currentPage. */
  lemma EnvelopeEchoesPage(docs: map<Id, Doc>, ids: seq<Id>, p1: int, p2: int, limit: nat)
    requires forall i :: 0 <= i < |ids| ==> ids[i] in docs
    ensures Envelope(docs, ids, p2, limit) == Envelope(docs, ids, p1, limit).(currentPage := p2)
  {
  }

  /** The cursor decides the query; the limit only fills in its limit. */
  lemma ListQueryLimit(docs: map<Id, Doc>, order: Order, n: nat, k: nat, lastDocId: Option<Id>)
    requires order.ByField? && ListQuery(docs, order, n, lastDocId).Ok?
    ensures ListQuery(docs, order, k, lastDocId)
            == Ok(ListQuery(docs, order, n, lastDocId).value.(limit := Some(k)))
  {
  }

  /** The ids behind a list outcome whose cursor resolves. */
  lemma OutcomeIds(docs: map<Id, Doc>, order: Order, page: int, limit: nat,
                   lastDocId: Option<Id>, r: Result<CursorPage>) returns (ids: seq<Id>)
    requires order.ByField? && ListOutcome(docs, order, page, limit, lastDocId, r)
    requires ListQuery(docs, order, limit, lastDocId).Ok?
    ensures IsResult(docs, ListQuery(docs, order, limit, lastDocId).value, ids)
    ensures r == Ok(Envelope(docs, ids, page, limit))
  {
    ids :| IsResult(docs, ListQuery(docs, order, limit, lastDocId).value, ids)
           && r == Ok(Envelope(docs, ids, page, limit));
  }

  /** The items of two consecutive envelopes are the items of the
      envelope over both id lists. */
  lemma EnvelopesAppend(docs: map<Id, Doc>, a: seq<Id>, b: seq<Id>, pa: int, pb: int, n: nat, m: nat)
    requires forall i :: 0 <= i < |a| ==> a[i] in docs
    requires forall i :: 0 <= i < |b| ==> b[i] in docs
    ensures forall i :: 0 <= i < |a + b| ==> (a + b)[i] in docs
    ensures Envelope(docs, a + b, pa, n + m).items
            == Envelope(docs, a, pa, n).items + Envelope(docs, b, pb, m).items
  {
    RecordsAppend(docs, a, b);
  }

  lemma RecordsAppend(docs: map<Id, Doc>, a: seq<Id>, b: seq<Id>)
    requires forall i :: 0 <= i < |a| ==> a[i] in docs
    requires forall i :: 0 <= i < |b| ==> b[i] in docs
    ensures Records(docs, a + b) == Records(docs, a) + Records(docs, b)
  {
  }

  /** Following nextPageId from a non-empty page never fails; after a full
      page the two pages together are the page of both limits from the
      first cursor, with no record lost or repeated, and after a short page
      the next page is empty. Document ids are non-empty, as the store's are. */
  lemma FollowNextPageId(docs: map<Id, Doc>, order: Order, page: int, n: nat, m: nat,
                         lastDocId: Option<Id>, p1: CursorPage, page2: int, r2: Result<CursorPage>,
                         r: Result<CursorPage>)
    requires order.ByField? && "" !in docs
    requires ListOutcome(docs, order, page, n, lastDocId, Ok(p1))
    requires p1.nextPageId.Some?
    requires ListOutcome(docs, order, page2, m, p1.nextPageId, r2)
    requires ListOutcome(docs, order, page, n + m, lastDocId, r)
    ensures r2.Ok? && r.Ok?
    ensures p1.hasMore ==> r.value.items == p1.items + r2.value.items
    ensures !p1.hasMore ==> r2.value.items == []
  {
    var q1 := ListQuery(docs, order, n, lastDocId).value;
    var ids1 := OutcomeIds(docs, order, page, n, lastDocId, Ok(p1));
    assert q1 == Query([], order, Some(n), q1.after);
    var last := ids1[|ids1| - 1];
    assert p1.nextPageId.value == last && last in docs && order.field in docs[last];
    var q2 := ListQuery(docs, order, m, p1.nextPageId).value;
    assert q2 == Query([], order, Some(m), Some(Pos(docs, order, last)));
    var ids2 := OutcomeIds(docs, order, page2, m, p1.nextPageId, r2);
    ListQueryLimit(docs, order, n, n + m, lastDocId);
    var ids := OutcomeIds(docs, order, page, n + m, lastDocId, r);
    FollowIds(docs, order, q1.after, n, m, ids1, ids2, ids, page, page2);
  }

  /** FollowNextPageId on the id lists the three queries return. */
  lemma FollowIds(docs: map<Id, Doc>, order: Order, after: Option<Position>, n: nat, m: nat,
                  ids1: seq<Id>, ids2: seq<Id>, ids: seq<Id>, page: int, page2: int)
    requires IsResult(docs, Query([], order, Some(n), after), ids1) && ids1 != []
    requires IsResult(docs, Query([], order, Some(m), Some(Pos(docs, order, ids1[|ids1| - 1]))), ids2)
    requires IsResult(docs, Query([], order, Some(n + m), after), ids)
    ensures |ids1| == n ==>
              Envelope(docs, ids, page, n + m).items
              == Envelope(docs, ids1, page, n).items + Envelope(docs, ids2, page2, m).items
    ensures |ids1| < n ==> ids2 == []
  {
    FollowCursor(docs, [], order, after, n, m, ids1, ids2);
    if |ids1| == n {
      ResultUnique(docs, Query([], order, Some(n + m), after), ids, ids1 + ids2);
      EnvelopesAppend(docs, ids1, ids2, page, page2, n, m);
    }
  }

  /** A page holds min(limit, documents remaining after the cursor)
      records. hasMore only says the page is full: when exactly limit
      documents remain, hasMore is true and the next page is empty. */
  lemma PageSizeAndExactLastPage(docs: map<Id, Doc>, order: Order, page: int, n: nat, m: nat,
                                 lastDocId: Option<Id>, p1: CursorPage, page2: int, r2: Result<CursorPage>)
    requires order.ByField? && "" !in docs
    requires ListOutcome(docs, order, page, n, lastDocId, Ok(p1))
    requires ListOutcome(docs, order, page2, m, p1.nextPageId, r2)
    ensures var remaining := |SelectedSet(docs, ListQuery(docs, order, n, lastDocId).value)|;
            |p1.items| == if n < remaining then n else remaining
    ensures |SelectedSet(docs, ListQuery(docs, order, n, lastDocId).value)| == n > 0 ==>
              p1.hasMore && r2 == Ok(CursorPage([], None, page2, m, m == 0))
  {
    var q1 := ListQuery(docs, order, n, lastDocId).value;
    var ids1 :| IsResult(docs, q1, ids1) && Ok(p1) == Ok(Envelope(docs, ids1, page, n));
    ResultSize(docs, q1, ids1);
    if |SelectedSet(docs, q1)| == n > 0 {
      var q2 := ListQuery(docs, order, m, p1.nextPageId).value;
      var ids2 :| IsResult(docs, q2, ids2) && r2 == Ok(Envelope(docs, ids2, page2, m));
      assert q1 == Query([], order, Some(n), q1.after);
      forall id | Selected(docs, q1, id)
        ensures id in ids1
      {
        assert id in SelectedSet(docs, q1);
      }
      NothingAfterExhaustedPage(docs, [], order, q1.after, n, m, ids1, ids2);
    }
  }

  /** b's key comes strictly before a's in the order's direction. */
  predicate ValueLessInOrder(order: Order, a: Value, b: Value)
    requires order.ByField?
  {
    if order.dir == Ascending then Ordering.ValueLess(a, b) else Ordering.ValueLess(b, a)
  }

  lemma PrecedesKeys(order: Order, a: Position, b: Position)
    requires order.ByField? && Precedes(order, a, b)
    ensures !ValueLessInOrder(order, b.key, a.key)
  {
    Ordering.ValueLessIrreflexive(a.key);
    if Ordering.ValueLess(a.key, b.key) && Ordering.ValueLess(b.key, a.key) {
      Ordering.ValueLessTransitive(a.key, b.key, a.key);
    }
  }
}
