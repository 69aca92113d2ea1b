/** The in-memory stage of the college search: a record is kept when a
    term of the lower-cased, whitespace-split query occurs in one of its
    lower-cased keywords, or the whole lower-cased query occurs in its
    lower-cased institute name. The JavaScript evaluation order is kept,
    because it decides which records raise a TypeError: the terms are
    tried in order, each against the keywords in order, stopping at the
    first hit, and the name test runs after the keyword test. */
module TextFilter {
  import opened Values
  import opened Text

  /** Reading this keyword finds the term. */
  predicate Hits(keyword: Value, term: string)
  {
    keyword.Str? && Includes(Lower(keyword.s), term)
  }

  /** Reading this keyword neither finds the term nor fails. */
  predicate Passes(keyword: Value, term: string)
  {
    keyword.Str? && !Includes(Lower(keyword.s), term)
  }

  /** Every keyword before index i passes. */
  predicate PassedBefore(keywords: seq<Value>, i: nat, term: string)
    requires i <= |keywords|
  {
    forall j :: 0 <= j < i ==> Passes(keywords[j], term)
  }

  /** Once the first keyword passes, the keywords before index i + 1 pass
      exactly when those of the rest before index i do. */
  lemma PassedBeforeTail(keywords: seq<Value>, term: string)
    requires keywords != [] && Passes(keywords[0], term)
    ensures forall i :: 0 <= i < |keywords| - 1 ==> keywords[1..][i] == keywords[i + 1]
    ensures forall i :: 0 <= i <= |keywords| - 1 ==>
              (PassedBefore(keywords[1..], i, term) <==> PassedBefore(keywords, i + 1, term))
  {
    var rest := keywords[1..];
    forall i | 0 <= i <= |rest|
      ensures PassedBefore(rest, i, term) <==> PassedBefore(keywords, i + 1, term)
    {
      assert forall j :: 0 <= j < i ==> rest[j] == keywords[j + 1];
    }
  }

  /** `keywords.some(keyword => keyword.toLowerCase().includes(term))`;
      a keyword that is not a string has no toLowerCase and raises. */
  function KeywordHit(term: string, keywords: seq<Value>): (r: Result<bool>)
    ensures r == Ok(true) <==>
              exists i :: 0 <= i < |keywords| && Hits(keywords[i], term) && PassedBefore(keywords, i, term)
    ensures r == Ok(false) <==> PassedBefore(keywords, |keywords|, term)
    ensures r.Err? <==>
              exists i :: 0 <= i < |keywords| && !keywords[i].Str? && PassedBefore(keywords, i, term)
    ensures r.Err? ==> r.error == SearchTypeError
  {
    if keywords == [] then Ok(false)
    else if !keywords[0].Str? then
      assert PassedBefore(keywords, 0, term);
      Err(SearchTypeError)
    else if Includes(Lower(keywords[0].s), term) then
      assert PassedBefore(keywords, 0, term);
      Ok(true)
    else
      var rest := keywords[1..];
      var r := KeywordHit(term, rest);
      PassedBeforeTail(keywords, term);
      if r == Ok(true) then
        var i :| 0 <= i < |rest| && Hits(rest[i], term) && PassedBefore(rest, i, term);
        assert Hits(keywords[i + 1], term) && PassedBefore(keywords, i + 1, term);
        r
      else if r.Err? then
        var i :| 0 <= i < |rest| && !rest[i].Str? && PassedBefore(rest, i, term);
        assert !keywords[i + 1].Str? && PassedBefore(keywords, i + 1, term);
        r
      else
        r
  }

  predicate AllStrings(keywords: seq<Value>)
  {
    forall i :: 0 <= i < |keywords| ==> keywords[i].Str?
  }

  /** Some term occurs in some keyword. */
  predicate Mentioned(terms: seq<string>, keywords: seq<Value>)
  {
    exists t, i :: 0 <= t < |terms| && 0 <= i < |keywords| && Hits(keywords[i], terms[t])
  }

  /** `terms.some(term => keywords.some(...))`. */
  function TermHit(terms: seq<string>, keywords: seq<Value>): (r: Result<bool>)
    ensures r.Ok? ==> (r.value <==> Mentioned(terms, keywords))
    ensures AllStrings(keywords) ==> r.Ok?
    ensures r.Err? ==> r.error == SearchTypeError && !AllStrings(keywords)
  {
    if terms == [] then Ok(false)
    else
      var first := KeywordHit(terms[0], keywords);
      if first.Err? then first
      else if first.value then Ok(true)
      else
        var r := TermHit(terms[1..], keywords);
        assert forall t :: 1 <= t < |terms| ==> terms[t] == terms[1..][t - 1];
        assert forall i :: 0 <= i < |keywords| ==> !Hits(keywords[i], terms[0]);
        r
  }

  /** `searchTerms.some(term => college.keywords?.some(...))`: with no
      terms the keywords are never read; an undefined or null keywords
      field gives no match; any other non-array raises. */
  function KeywordMatch(terms: seq<string>, keywords: Option<Value>): (r: Result<bool>)
    ensures r.Ok? ==> (r.value <==> keywords.Some? && keywords.value.Arr? &&
                                     Mentioned(terms, keywords.value.items))
    ensures r.Err? <==> terms != [] && keywords.Some? && keywords.value != Null &&
                        (keywords.value.Arr? ==> TermHit(terms, keywords.value.items).Err?)
    ensures r.Err? ==> r.error == SearchTypeError
  {
    if terms == [] then Ok(false)
    else match keywords
    case None => Ok(false)
    case Some(Null) => Ok(false)
    case Some(Arr(items)) => TermHit(terms, items)
    case Some(_) => Err(SearchTypeError)
  }

  /** `college.instituteName.toLowerCase().includes(query.toLowerCase())`;
      a name that is not a string raises. */
  function NameMatch(name: Option<Value>, query: string): (r: Result<bool>)
    ensures r.Ok? <==> name.Some? && name.value.Str?
    ensures r.Ok? ==> (r.value <==> Includes(Lower(name.value.s), Lower(query)))
    ensures r.Err? ==> r.error == SearchTypeError
  {
    match name
    case Some(Str(n)) => Ok(Includes(Lower(n), Lower(query)))
    case _ => Err(SearchTypeError)
  }

  /** The terms of a query: lower-cased, then split on whitespace runs. */
  function Terms(query: string): seq<string>
  {
    SplitOnSpaces(Lower(query))
  }

  /** A record the filter reads without raising: a string name, and
      keywords absent, null or an array of strings. */
  predicate Readable(record: Doc)
  {
    && Field(record, "instituteName").Some? && Field(record, "instituteName").value.Str?
    && (Field(record, "keywords").Some? && Field(record, "keywords").value != Null ==>
          Field(record, "keywords").value.Arr? && AllStrings(Field(record, "keywords").value.items))
  }

  /** What the filter keeps, stated without the evaluation order. */
  predicate Wanted(record: Doc, query: string)
  {
    || (Field(record, "keywords").Some? && Field(record, "keywords").value.Arr? &&
        Mentioned(Terms(query), Field(record, "keywords").value.items))
    || (Field(record, "instituteName").Some? && Field(record, "instituteName").value.Str? &&
        Includes(Lower(Field(record, "instituteName").value.s), Lower(query)))
  }

  /** The filter's callback on one record: both tests are evaluated, the
      keyword test first, and the record is kept when either holds. */
  function RecordMatch(record: Doc, query: string): (r: Result<bool>)
    ensures r.Ok? ==> (r.value <==> Wanted(record, query))
    ensures Readable(record) ==> r.Ok?
    ensures !Field(record, "instituteName").Some? || !Field(record, "instituteName").value.Str? ==> r.Err?
    ensures r.Err? ==> r.error == SearchTypeError
  {
    var keywordMatch := KeywordMatch(Terms(query), Field(record, "keywords"));
    if keywordMatch.Err? then Err(keywordMatch.error)
    else
      var nameMatch := NameMatch(Field(record, "instituteName"), query);
      if nameMatch.Err? then Err(nameMatch.error)
      else Ok(keywordMatch.value || nameMatch.value)
  }

  /** a lists some of b's elements, in b's order. */
  predicate IsSubsequence(a: seq<Doc>, b: seq<Doc>)
    decreases |b|
  {
    if a == [] then true
    else if b == [] then false
    else if a[0] == b[0] then IsSubsequence(a[1..], b[1..])
    else IsSubsequence(a, b[1..])
  }

  /** Reference filter: the wanted records, in their order, one entry per
      occurrence. */
  ghost function Kept(records: seq<Doc>, query: string): seq<Doc>
  {
    if records == [] then []
    else if Wanted(records[0], query) then [records[0]] + Kept(records[1..], query)
    else Kept(records[1..], query)
  }

  /** The reference keeps every wanted record as often as it occurs, and
      no other record. */
  lemma {:induction false} KeptCounts(records: seq<Doc>, query: string, x: Doc)
    ensures multiset(Kept(records, query))[x] == if Wanted(x, query) then multiset(records)[x] else 0
  {
    if records != [] {
      KeptCounts(records[1..], query, x);
      assert records == [records[0]] + records[1..];
    }
  }

  /** `records.filter(callback)`: the first record whose callback raises
      ends the search with that error. */
  function FilterRecords(records: seq<Doc>, query: string): (r: Result<seq<Doc>>)
    ensures r.Err? <==> exists i :: 0 <= i < |records| && RecordMatch(records[i], query).Err?
    ensures r.Err? ==> r.error == SearchTypeError
    ensures r.Ok? ==> r.value == Kept(records, query)
    ensures r.Ok? ==> IsSubsequence(r.value, records)
    ensures r.Ok? ==> forall x :: x in r.value <==> x in records && Wanted(x, query)
  {
    if records == [] then Ok([])
    else
      var head := RecordMatch(records[0], query);
      if head.Err? then Err(head.error)
      else
        var rest := FilterRecords(records[1..], query);
        assert forall i :: 1 <= i < |records| ==> records[i] == records[1..][i - 1];
        if rest.Err? then rest
        else if head.value then Ok([records[0]] + rest.value)
        else Ok(rest.value)
  }

  /** A query with leading whitespace has an empty first term, which occurs
      in every keyword: any record whose first keyword is a string, and
      whose name is a string, is kept. */
  lemma LeadingSpaceKeepsAnyKeyword(record: Doc, query: string)
    requires query != [] && IsSpace(query[0])
    requires Field(record, "keywords").Some? && Field(record, "keywords").value.Arr?
    requires var ks := Field(record, "keywords").value.items; ks != [] && ks[0].Str?
    requires Field(record, "instituteName").Some? && Field(record, "instituteName").value.Str?
    ensures RecordMatch(record, query) == Ok(true)
  {
    var ks := Field(record, "keywords").value.items;
    assert Lower(query)[0] == query[0];
    LeadingSpaceGivesEmptyTerm(Lower(query));
    EmptyIncludedEverywhere(Lower(ks[0].s));
    assert Hits(ks[0], Terms(query)[0]);
  }

  /** A record without a keywords field is kept exactly when its name
      contains the whole query. */
  lemma NoKeywordsMeansNameOnly(record: Doc, query: string)
    requires "keywords" !in record
    requires Field(record, "instituteName").Some? && Field(record, "instituteName").value.Str?
    ensures RecordMatch(record, query) ==
              Ok(Includes(Lower(Field(record, "instituteName").value.s), Lower(query)))
  {
  }
}
