/** The store-side stage of both searches: one equality `where` per
    criterion that is supplied with a truthy value, on a fixed list of
    fields. */
module EqualityFilters {
  import opened Values
  import opened DocumentStore

  /** The where clauses, in the order of the fields. */
  function Supplied(criteria: Criteria, fields: seq<string>): seq<(string, Value)>
  {
    if fields == [] then []
    else
      var head := Lookup(criteria, fields[0]);
      var rest := Supplied(criteria, fields[1..]);
      if Truthy(head) then [(fields[0], head.value)] + rest else rest
  }

  /** c is the where clause of a truthy criterion on one of the fields. */
  predicate ClauseOf(criteria: Criteria, fields: seq<string>, c: (string, Value))
  {
    c.0 in fields && Lookup(criteria, c.0) == Some(c.1) && Truthy(Some(c.1))
  }

  /** Each clause is a truthy criterion on a listed field. */
  lemma {:induction false} SuppliedSound(criteria: Criteria, fields: seq<string>)
    ensures forall i :: 0 <= i < |Supplied(criteria, fields)| ==>
              ClauseOf(criteria, fields, Supplied(criteria, fields)[i])
  {
    if fields != [] {
      SuppliedSound(criteria, fields[1..]);
      var f, rest := Supplied(criteria, fields), Supplied(criteria, fields[1..]);
      var head := Lookup(criteria, fields[0]);
      assert forall name :: name in fields[1..] ==> name in fields;
      if Truthy(head) {
        assert f == [(fields[0], head.value)] + rest;
        forall i | 0 <= i < |f|
          ensures ClauseOf(criteria, fields, f[i])
        {
          if i > 0 {
            assert f[i] == rest[i - 1];
          } else {
            assert f[i] == (fields[0], head.value);
          }
        }
      } else {
        assert f == rest;
      }
    }
  }

  /** Each truthy criterion on a listed field has its clause. */
  lemma {:induction false} SuppliedComplete(criteria: Criteria, fields: seq<string>)
    ensures var f := Supplied(criteria, fields);
            forall name :: name in fields && Truthy(Lookup(criteria, name)) ==>
              (name, Lookup(criteria, name).value) in f
  {
    if fields != [] {
      SuppliedComplete(criteria, fields[1..]);
      var f, rest := Supplied(criteria, fields), Supplied(criteria, fields[1..]);
      var head := Lookup(criteria, fields[0]);
      forall name | name in fields && Truthy(Lookup(criteria, name))
        ensures (name, Lookup(criteria, name).value) in f
      {
        if name == fields[0] {
          assert f[0] == (name, head.value);
        } else {
          assert name in fields[1..];
          assert (name, Lookup(criteria, name).value) in rest;
        }
      }
    }
  }

  /** Each clause is a truthy criterion on a listed field, and each truthy
      criterion on a listed field has its clause. */
  lemma SuppliedClauses(criteria: Criteria, fields: seq<string>)
    ensures var f := Supplied(criteria, fields);
            forall i :: 0 <= i < |f| ==>
              f[i].0 in fields && Lookup(criteria, f[i].0) == Some(f[i].1) && Truthy(Some(f[i].1))
    ensures var f := Supplied(criteria, fields);
            forall name :: name in fields && Truthy(Lookup(criteria, name)) ==>
              (name, Lookup(criteria, name).value) in f
  {
    SuppliedSound(criteria, fields);
    SuppliedComplete(criteria, fields);
  }

  /** The document equals every truthy criterion on the listed fields. */
  predicate MeetsCriteria(doc: Doc, criteria: Criteria, fields: seq<string>)
  {
    forall name :: name in fields && Truthy(Lookup(criteria, name)) ==>
      name in doc && doc[name] == Lookup(criteria, name).value
  }

  /** The where clauses select exactly the documents meeting the criteria;
      criteria that are absent or falsy do not filter. */
  lemma SuppliedMeaning(doc: Doc, criteria: Criteria, fields: seq<string>)
    ensures MatchesFilters(doc, Supplied(criteria, fields)) <==> MeetsCriteria(doc, criteria, fields)
  {
    var f := Supplied(criteria, fields);
    SuppliedClauses(criteria, fields);
    if MeetsCriteria(doc, criteria, fields) {
      forall i | 0 <= i < |f|
        ensures f[i].0 in doc && doc[f[i].0] == f[i].1
      {
        assert f[i].0 in fields && Truthy(Lookup(criteria, f[i].0));
      }
    }
    if MatchesFilters(doc, f) {
      forall name | name in fields && Truthy(Lookup(criteria, name))
        ensures name in doc && doc[name] == Lookup(criteria, name).value
      {
        var i :| 0 <= i < |f| && f[i] == (name, Lookup(criteria, name).value);
        assert f[i].0 == name;
      }
    }
  }

  /** The query of a search: the where clauses and the store's id order. */
  function SearchQuery(criteria: Criteria, fields: seq<string>): Query
  {
    Query(Supplied(criteria, fields), ByDocumentId, None, None)
  }

  /** A search query answers every document meeting the criteria, each
      once, in ascending id order. */
  lemma SearchQueryAnswer(docs: map<Id, Doc>, criteria: Criteria, fields: seq<string>, ids: seq<Id>)
    requires IsResult(docs, SearchQuery(criteria, fields), ids)
    ensures forall id :: id in ids <==> id in docs && MeetsCriteria(docs[id], criteria, fields)
    ensures forall i, j :: 0 <= i < j < |ids| ==> Ordering.StrLess(ids[i], ids[j])
  {
    var q := SearchQuery(criteria, fields);
    forall id | id in docs
      ensures Selected(docs, q, id) <==> MeetsCriteria(docs[id], criteria, fields)
    {
      SuppliedMeaning(docs[id], criteria, fields);
    }
    forall i, j | 0 <= i < j < |ids|
      ensures Ordering.StrLess(ids[i], ids[j])
    {
      assert Precedes(q.order, Pos(docs, q.order, ids[i]), Pos(docs, q.order, ids[j]));
      Ordering.ValueLessIrreflexive(Null);
    }
  }

  /** One `if (criteria.name) query = query.where(name, '==', value)` of a
      search: a truthy criterion adds its clause, the others add nothing. */
  method AddClause(criteria: Criteria, ghost fields: seq<string>, k: nat, name: string,
                   filters: seq<(string, Value)>) returns (more: seq<(string, Value)>)
    requires k < |fields| && fields[k] == name
    requires filters + Supplied(criteria, fields[k..]) == Supplied(criteria, fields)
    ensures more + Supplied(criteria, fields[k + 1..]) == Supplied(criteria, fields)
  {
    var value := Lookup(criteria, name);
    if Truthy(value) {
      more := filters + [(name, value.value)];
    } else {
      more := filters;
    }
    ClauseStep(criteria, fields, k, filters, more);
  }

  /** One more where clause: the clauses built so far followed by those
      of the remaining fields are all of them. */
  lemma ClauseStep(criteria: Criteria, fields: seq<string>, k: nat,
                   before: seq<(string, Value)>, after: seq<(string, Value)>)
    requires k < |fields|
    requires before + Supplied(criteria, fields[k..]) == Supplied(criteria, fields)
    requires after == before + Clause(criteria, fields[k])
    ensures after + Supplied(criteria, fields[k + 1..]) == Supplied(criteria, fields)
  {
    SuppliedStep(criteria, fields[k..]);
    assert fields[k..][1..] == fields[k + 1..];
    var c, rest := Clause(criteria, fields[k]), Supplied(criteria, fields[k + 1..]);
    assert (before + c) + rest == before + (c + rest);
  }

  lemma ClausesDone(criteria: Criteria, fields: seq<string>, built: seq<(string, Value)>)
    requires built + Supplied(criteria, fields[|fields|..]) == Supplied(criteria, fields)
    ensures built == Supplied(criteria, fields)
  {
    assert fields[|fields|..] == [];
    assert built + [] == built;
  }

  lemma SuppliedStep(criteria: Criteria, fields: seq<string>)
    requires fields != []
    ensures Supplied(criteria, fields) == Clause(criteria, fields[0]) + Supplied(criteria, fields[1..])
  {
  }

  function Clause(criteria: Criteria, name: string): seq<(string, Value)>
  {
    if Truthy(Lookup(criteria, name)) then [(name, Lookup(criteria, name).value)] else []
  }
}
