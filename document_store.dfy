/** The document store's query semantics, as the services use them: a
    conjunction of equality filters, an optional orderBy on one field, a
    limit and a startAfter position. A query with an orderBy returns only
    documents that have that field, sorted by it, ties broken by document
    id in the same direction; a query without one returns documents by id.
    The store itself is an in-memory map from document id to fields. */
module DocumentStore {
  import opened Values
  import opened Ordering

  datatype Direction = Ascending | Descending
  datatype Order = ByDocumentId | ByField(field: string, dir: Direction)

  /** Where a document sits in an ordering: its sort value and its id. */
  datatype Position = Position(key: Value, id: Id)

  datatype Query = Query(
    filters: seq<(string, Value)>,
    order: Order,
    limit: Option<nat>,
    after: Option<Position>)

  /** The bare collection: no filter, id order, no limit, no cursor. */
  function Collection(): Query
  {
    Query([], ByDocumentId, None, None)
  }

  predicate PositionLess(a: Position, b: Position)
  {
    ValueLess(a.key, b.key) || (a.key == b.key && StrLess(a.id, b.id))
  }

  /** a comes strictly before b in the given order. */
  predicate Precedes(order: Order, a: Position, b: Position)
  {
    if order.ByField? && order.dir == Descending then PositionLess(b, a) else PositionLess(a, b)
  }

  predicate HasOrderField(order: Order, doc: Doc)
  {
    order.ByField? ==> order.field in doc
  }

  function PositionOf(order: Order, id: Id, doc: Doc): Position
    requires HasOrderField(order, doc)
  {
    Position(if order.ByField? then doc[order.field] else Null, id)
  }

  /** Position of a stored document. */
  function Pos(docs: map<Id, Doc>, order: Order, id: Id): Position
    requires id in docs && HasOrderField(order, docs[id])
  {
    PositionOf(order, id, docs[id])
  }

  predicate MatchesFilters(doc: Doc, filters: seq<(string, Value)>)
  {
    forall i :: 0 <= i < |filters| ==> filters[i].0 in doc && doc[filters[i].0] == filters[i].1
  }

  /** The document with this id passes every clause of q except the limit. */
  predicate Selected(docs: map<Id, Doc>, q: Query, id: Id)
  {
    && id in docs
    && MatchesFilters(docs[id], q.filters)
    && HasOrderField(q.order, docs[id])
    && (q.after.Some? ==> Precedes(q.order, q.after.value, PositionOf(q.order, id, docs[id])))
  }

  /** Every listed id is selected, and the list is strictly in q's order. */
  predicate InOrder(docs: map<Id, Doc>, q: Query, ids: seq<Id>)
  {
    && (forall i :: 0 <= i < |ids| ==> Selected(docs, q, ids[i]))
    && (forall i, j :: 0 <= i < j < |ids| ==>
          Precedes(q.order, Pos(docs, q.order, ids[i]), Pos(docs, q.order, ids[j])))
  }

  /** ids is what the store answers to q: the selected documents in order,
      at most limit of them, and no selected document left out unless the
      limit is reached and it comes after every returned one. */
  ghost predicate IsResult(docs: map<Id, Doc>, q: Query, ids: seq<Id>)
  {
    && InOrder(docs, q, ids)
    && (q.limit.Some? ==> |ids| <= q.limit.value)
    && (forall id :: Selected(docs, q, id) && id !in ids ==>
          && q.limit.Some? && |ids| == q.limit.value
          && forall i :: 0 <= i < |ids| ==>
               Precedes(q.order, Pos(docs, q.order, ids[i]), Pos(docs, q.order, id)))
  }

  /** `snapshot.docs.map(doc => ({ id: doc.id, ...doc.data() }))` */
  function Records(docs: map<Id, Doc>, ids: seq<Id>): (r: seq<Doc>)
    requires forall i :: 0 <= i < |ids| ==> ids[i] in docs
    ensures |r| == |ids|
  {
    seq(|ids|, i requires 0 <= i < |ids| => WithId(ids[i], docs[ids[i]]))
  }

  // ------------------------------------------------------------ the order

  lemma PrecedesIrreflexive(order: Order, a: Position)
    ensures !Precedes(order, a, a)
  {
    ValueLessIrreflexive(a.key);
    StrLessIrreflexive(a.id);
  }

  lemma PositionLessTransitive(a: Position, b: Position, c: Position)
    requires PositionLess(a, b) && PositionLess(b, c)
    ensures PositionLess(a, c)
  {
    if ValueLess(a.key, b.key) && ValueLess(b.key, c.key) {
      ValueLessTransitive(a.key, b.key, c.key);
    } else if a.key == b.key && b.key == c.key {
      StrLessTransitive(a.id, b.id, c.id);
    }
  }

  lemma PrecedesTransitive(order: Order, a: Position, b: Position, c: Position)
    requires Precedes(order, a, b) && Precedes(order, b, c)
    ensures Precedes(order, a, c)
  {
    if order.ByField? && order.dir == Descending {
      PositionLessTransitive(c, b, a);
    } else {
      PositionLessTransitive(a, b, c);
    }
  }

  lemma PrecedesAsymmetric(order: Order, a: Position, b: Position)
    ensures !(Precedes(order, a, b) && Precedes(order, b, a))
  {
    PrecedesIrreflexive(order, a);
    if Precedes(order, a, b) && Precedes(order, b, a) {
      PrecedesTransitive(order, a, b, a);
    }
  }

  /** Positions of different documents are always ordered one way or the
      other: the id tiebreak makes the order total. */
  lemma PrecedesTotal(order: Order, a: Position, b: Position)
    requires a.id != b.id
    ensures Precedes(order, a, b) || Precedes(order, b, a)
  {
    if a.key != b.key {
      ValueLessTotal(a.key, b.key);
    } else {
      StrLessTotal(a.id, b.id);
    }
  }

  // ------------------------------------------------------------ evaluation

  /** The document of s that comes first in the order. */
  method PickFirst(docs: map<Id, Doc>, order: Order, s: set<Id>) returns (m: Id)
    requires s != {}
    requires forall id :: id in s ==> id in docs && HasOrderField(order, docs[id])
    ensures m in s
    ensures forall x :: x in s && x != m ==> Precedes(order, Pos(docs, order, m), Pos(docs, order, x))
  {
    m :| m in s;
    var rest := s - {m};
    while rest != {}
      invariant rest <= s && m in s && m !in rest
      invariant forall x :: x in s && x !in rest && x != m ==>
                  Precedes(order, Pos(docs, order, m), Pos(docs, order, x))
      decreases rest
    {
      var x :| x in rest;
      PrecedesTotal(order, Pos(docs, order, x), Pos(docs, order, m));
      if Precedes(order, Pos(docs, order, x), Pos(docs, order, m)) {
        forall y | y in s && y !in rest && y != m
          ensures Precedes(order, Pos(docs, order, x), Pos(docs, order, y))
        {
          PrecedesTransitive(order, Pos(docs, order, x), Pos(docs, order, m), Pos(docs, order, y));
        }
        m := x;
      }
      rest := rest - {x};
    }
  }

  /** `query.get()`: picks the selected documents one by one, each time the
      first of those not yet taken, until none is left or the limit is met. */
  method RunQuery(docs: map<Id, Doc>, q: Query) returns (ids: seq<Id>)
    ensures IsResult(docs, q, ids)
  {
    var remaining := set id | id in docs.Keys && Selected(docs, q, id);
    ids := [];
    while remaining != {} && (q.limit.None? || |ids| < q.limit.value)
      invariant forall id :: id in remaining ==> Selected(docs, q, id)
      invariant InOrder(docs, q, ids)
      invariant forall i :: 0 <= i < |ids| ==> ids[i] !in remaining
      invariant forall id :: Selected(docs, q, id) ==> id in remaining || id in ids
      invariant forall id, i :: id in remaining && 0 <= i < |ids| ==>
                  Precedes(q.order, Pos(docs, q.order, ids[i]), Pos(docs, q.order, id))
      invariant q.limit.Some? ==> |ids| <= q.limit.value
      decreases remaining
    {
      var m := PickFirst(docs, q.order, remaining);
      ids := ids + [m];
      remaining := remaining - {m};
    }
  }

  // ------------------------------------------------------------ properties

  /** In a result, the entry at k comes before every selected document that
      is not among the entries before it. */
  lemma ResultEntryIsFirstOfRest(docs: map<Id, Doc>, q: Query, ids: seq<Id>, k: nat)
    requires IsResult(docs, q, ids) && k < |ids|
    ensures forall id :: Selected(docs, q, id) && id !in ids[..k] && id != ids[k] ==>
              Precedes(q.order, Pos(docs, q.order, ids[k]), Pos(docs, q.order, id))
  {
    assert forall j :: 0 <= j < k ==> ids[..k][j] == ids[j];
  }

  /** Two answers to the same query agree on their common length. */
  lemma {:induction false} ResultsAgreeUpTo(docs: map<Id, Doc>, q: Query, a: seq<Id>, b: seq<Id>, k: nat)
    requires IsResult(docs, q, a) && IsResult(docs, q, b)
    requires k <= |a| && k <= |b|
    ensures a[..k] == b[..k]
    decreases k
  {
    if k > 0 {
      ResultsAgreeUpTo(docs, q, a, b, k - 1);
      ResultPrefixStep(docs, q, a, b, k - 1);
      assert a[..k] == a[..k - 1] + [a[k - 1]];
      assert b[..k] == b[..k - 1] + [b[k - 1]];
    }
  }

  /** The store's answer to a query is unique: the characterization leaves
      no freedom in the result. */
  lemma ResultUnique(docs: map<Id, Doc>, q: Query, a: seq<Id>, b: seq<Id>)
    requires IsResult(docs, q, a) && IsResult(docs, q, b)
    ensures a == b
  {
    var k := if |a| <= |b| then |a| else |b|;
    ResultsAgreeUpTo(docs, q, a, b, k);
    ResultLengthsAgree(docs, q, a, b, k);
  }

  lemma ResultPrefixStep(docs: map<Id, Doc>, q: Query, a: seq<Id>, b: seq<Id>, k: nat)
    requires IsResult(docs, q, a) && IsResult(docs, q, b)
    requires k < |a| && k < |b| && a[..k] == b[..k]
    ensures a[k] == b[k]
  {
    var x, y := a[k], b[k];
    ResultEntryIsFirstOfRest(docs, q, a, k);
    ResultEntryIsFirstOfRest(docs, q, b, k);
    NotAmongEarlier(docs, q, a, k);
    NotAmongEarlier(docs, q, b, k);
    PrecedesAsymmetric(q.order, Pos(docs, q.order, x), Pos(docs, q.order, y));
  }

  /** An entry of a result does not occur earlier in it. */
  lemma NotAmongEarlier(docs: map<Id, Doc>, q: Query, a: seq<Id>, k: nat)
    requires InOrder(docs, q, a) && k < |a|
    ensures a[k] !in a[..k]
  {
    PrecedesIrreflexive(q.order, Pos(docs, q.order, a[k]));
    forall j | 0 <= j < k
      ensures a[j] != a[k]
    {
      assert Precedes(q.order, Pos(docs, q.order, a[j]), Pos(docs, q.order, a[k]));
    }
  }

  lemma ResultLengthsAgree(docs: map<Id, Doc>, q: Query, a: seq<Id>, b: seq<Id>, k: nat)
    requires IsResult(docs, q, a) && IsResult(docs, q, b)
    requires k <= |a| && k <= |b| && a[..k] == b[..k]
    requires k == |a| || k == |b|
    ensures a == b
  {
    // the longer one's entry at k would be a selected document the shorter
    // one leaves out, which the shorter one allows only at its limit
    assert k == |a| ==> a == b[..k];
    assert k == |b| ==> b == a[..k];
    if k < |b| {
      NotAmongEarlier(docs, q, b, k);
      assert false;
    }
    if k < |a| {
      NotAmongEarlier(docs, q, a, k);
      assert false;
    }
  }

  /** The page after the last entry of p1 holds only documents that p1's
      query selects, all after every entry of p1. */
  lemma NextPageEntries(docs: map<Id, Doc>, filters: seq<(string, Value)>, order: Order,
                        after: Option<Position>, n: nat, m: nat, p1: seq<Id>, p2: seq<Id>)
    requires IsResult(docs, Query(filters, order, Some(n), after), p1)
    requires p1 != []
    requires IsResult(docs, Query(filters, order, Some(m), Some(Pos(docs, order, p1[|p1| - 1]))), p2)
    ensures forall i, j :: 0 <= i < |p1| && 0 <= j < |p2| ==>
              Precedes(order, Pos(docs, order, p1[i]), Pos(docs, order, p2[j]))
    ensures forall j :: 0 <= j < |p2| ==>
              Selected(docs, Query(filters, order, Some(n), after), p2[j]) && p2[j] !in p1
    ensures p2 != [] ==> Selected(docs, Query(filters, order, Some(n), after), p2[0]) && p2[0] !in p1
  {
    var q1 := Query(filters, order, Some(n), after);
    var last := Pos(docs, order, p1[|p1| - 1]);
    forall i, j | 0 <= i < |p1| && 0 <= j < |p2|
      ensures Precedes(order, Pos(docs, order, p1[i]), Pos(docs, order, p2[j]))
    {
      if i < |p1| - 1 {
        PrecedesTransitive(order, Pos(docs, order, p1[i]), last, Pos(docs, order, p2[j]));
      }
    }
    forall j | 0 <= j < |p2|
      ensures Selected(docs, q1, p2[j]) && p2[j] !in p1
    {
      if after.Some? {
        PrecedesTransitive(order, after.value, last, Pos(docs, order, p2[j]));
      }
      forall i | 0 <= i < |p1|
        ensures p1[i] != p2[j]
      {
        PrecedesIrreflexive(order, Pos(docs, order, p2[j]));
      }
    }
  }

  /** Following the cursor: the page after the last entry of a full page
      continues it without gap or repeat, and nothing follows a page that
      came back short. */
  lemma FollowCursor(docs: map<Id, Doc>, filters: seq<(string, Value)>, order: Order,
                     after: Option<Position>, n: nat, m: nat, p1: seq<Id>, p2: seq<Id>)
    requires IsResult(docs, Query(filters, order, Some(n), after), p1)
    requires p1 != []
    requires IsResult(docs, Query(filters, order, Some(m), Some(Pos(docs, order, p1[|p1| - 1]))), p2)
    ensures |p1| == n ==> IsResult(docs, Query(filters, order, Some(n + m), after), p1 + p2)
    ensures |p1| < n ==> p2 == []
  {
    var q1 := Query(filters, order, Some(n), after);
    var last := Pos(docs, order, p1[|p1| - 1]);
    var q2 := Query(filters, order, Some(m), Some(last));
    var q := Query(filters, order, Some(n + m), after);
    NextPageEntries(docs, filters, order, after, n, m, p1, p2);
    if |p1| == n {
      var r := p1 + p2;
      forall id | Selected(docs, q, id) && id !in r
        ensures |r| == n + m
        ensures forall i :: 0 <= i < |r| ==> Precedes(order, Pos(docs, order, r[i]), Pos(docs, order, id))
      {
        assert Selected(docs, q1, id);
        assert Selected(docs, q2, id);
      }
      forall i | 0 <= i < |r|
        ensures Selected(docs, q, r[i])
      {
        if i >= |p1| {
          assert r[i] == p2[i - |p1|];
        }
      }
      forall i, j | 0 <= i < j < |r|
        ensures Precedes(order, Pos(docs, order, r[i]), Pos(docs, order, r[j]))
      {
        if j < |p1| {
        } else if i >= |p1| {
          assert r[i] == p2[i - |p1|] && r[j] == p2[j - |p1|];
        } else {
          assert r[j] == p2[j - |p1|];
        }
      }
    }
  }

  /** When a page holds every document after its cursor, the page after it is
      empty, even when the page is exactly full. */
  lemma NothingAfterExhaustedPage(docs: map<Id, Doc>, filters: seq<(string, Value)>, order: Order,
                                  after: Option<Position>, n: nat, m: nat, p1: seq<Id>, p2: seq<Id>)
    requires IsResult(docs, Query(filters, order, Some(n), after), p1)
    requires p1 != []
    requires forall id :: Selected(docs, Query(filters, order, Some(n), after), id) ==> id in p1
    requires IsResult(docs, Query(filters, order, Some(m), Some(Pos(docs, order, p1[|p1| - 1]))), p2)
    ensures p2 == []
  {
    NextPageEntries(docs, filters, order, after, n, m, p1, p2);
  }

  /** The ids of every document the query selects, ignoring the limit. */
  ghost function SelectedSet(docs: map<Id, Doc>, q: Query): set<Id>
  {
    set id | id in docs && Selected(docs, q, id)
  }

  lemma SubsetCard(a: set<Id>, b: set<Id>)
    requires a <= b
    ensures |a| <= |b|
    ensures |a| == |b| ==> a == b
    decreases |b|
  {
    if a != b {
      var x :| x in b && x !in a;
      SubsetCard(a, b - {x});
    }
  }

  lemma {:induction false} DistinctCard(docs: map<Id, Doc>, q: Query, ids: seq<Id>)
    requires InOrder(docs, q, ids)
    ensures |set id | id in ids| == |ids|
  {
    if ids != [] {
      var rest := ids[1..];
      assert InOrder(docs, q, rest) by {
        forall i | 0 <= i < |rest|
          ensures Selected(docs, q, rest[i])
        {
          assert rest[i] == ids[i + 1];
        }
        forall i, j | 0 <= i < j < |rest|
          ensures Precedes(q.order, Pos(docs, q.order, rest[i]), Pos(docs, q.order, rest[j]))
        {
          assert rest[i] == ids[i + 1] && rest[j] == ids[j + 1];
        }
      }
      DistinctCard(docs, q, rest);
      forall i | 0 <= i < |rest|
        ensures rest[i] != ids[0]
      {
        assert rest[i] == ids[i + 1];
        PrecedesIrreflexive(q.order, Pos(docs, q.order, ids[0]));
      }
      assert (set id | id in ids) == {ids[0]} + (set id | id in rest);
    }
  }

  /** A result holds min(limit, number of selected documents) entries, and
      when it is shorter than the limit it holds every selected document. */
  lemma ResultSize(docs: map<Id, Doc>, q: Query, ids: seq<Id>)
    requires IsResult(docs, q, ids)
    ensures q.limit.Some? && q.limit.value < |SelectedSet(docs, q)| ==> |ids| == q.limit.value
    ensures q.limit.None? || q.limit.value >= |SelectedSet(docs, q)| ==>
              |ids| == |SelectedSet(docs, q)| && (set id | id in ids) == SelectedSet(docs, q)
  {
    var found := set id | id in ids;
    var all := SelectedSet(docs, q);
    DistinctCard(docs, q, ids);
    SubsetCard(found, all);
    if found != all {
      var x :| x in all && x !in found;
      assert Selected(docs, q, x) && x !in ids;
    }
  }
}
