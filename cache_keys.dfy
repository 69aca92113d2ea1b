/** The cache key layout and the expiry times of src/config/constants.js,
    and the keys the college service derives from them. */
module CacheKeys {
  import opened Values
  import opened Text
  import Json

  const COLLEGE_LIST: string := "colleges:list"
  const COLLEGE_DETAIL: string := "colleges:detail:"
  const COLLEGE_SEARCH: string := "colleges:search:"
  const CUTOFF_LIST: string := "cutoffs:list"
  const CUTOFF_DETAIL: string := "cutoffs:detail:"
  const CUTOFF_SEARCH: string := "cutoffs:search:"
  const COLLEGE_VERSION: string := "colleges:version"
  const COLLEGE_UPDATES: string := "colleges:updates"

  /** Expiry times, in seconds. */
  const ONE_HOUR: nat := 3600
  const ONE_DAY: nat := 86400
  const FIVE_MINUTES: nat := 300

  /** Every list key starts with the list prefix followed by a colon. */
  const LIST_NAMESPACE: string := COLLEGE_LIST + ":"

  /** The key the mutations delete for "all list pages": the cache deletes
      by exact key, so this removes only an entry stored under this very
      string. */
  const LIST_INVALIDATION_KEY: string := COLLEGE_LIST + "*"

  predicate HasPrefix(p: string, k: string)
  {
    |p| <= |k| && k[..|p|] == p
  }

  predicate IsListKey(k: string) { HasPrefix(LIST_NAMESPACE, k) }
  predicate IsDetailKey(k: string) { HasPrefix(COLLEGE_DETAIL, k) }
  predicate IsSearchKey(k: string) { HasPrefix(COLLEGE_SEARCH, k) }

  /** `${lastDocId}` in a template: null renders as the word "null". */
  function CursorText(lastDocId: Option<Id>): string
  {
    match lastDocId
    case None => "null"
    case Some(id) => id
  }

  /** `${COLLEGE_LIST}:${page}:${limit}:${lastDocId}` */
  function ListKey(page: int, limit: int, lastDocId: Option<Id>): (k: string)
    ensures IsListKey(k) && k[|LIST_NAMESPACE|..] == ListKeyTail(page, limit, lastDocId)
  {
    var k := LIST_NAMESPACE + ListKeyTail(page, limit, lastDocId);
    assert k[..|LIST_NAMESPACE|] == LIST_NAMESPACE;
    k
  }

  function ListKeyTail(page: int, limit: int, lastDocId: Option<Id>): string
  {
    DecimalString(page) + ":" + (DecimalString(limit) + ":" + CursorText(lastDocId))
  }

  /** `${COLLEGE_DETAIL}${id}` */
  function DetailKey(id: Id): (k: string)
    ensures IsDetailKey(k) && k[|COLLEGE_DETAIL|..] == id
  {
    var k := COLLEGE_DETAIL + id;
    assert k[..|COLLEGE_DETAIL|] == COLLEGE_DETAIL;
    k
  }

  /** `${COLLEGE_SEARCH}${JSON.stringify(criteria)}` */
  function SearchKey(criteria: Criteria): (k: string)
    ensures IsSearchKey(k) && k[|COLLEGE_SEARCH|..] == Json.StringifyObject(criteria)
  {
    var k := COLLEGE_SEARCH + Json.StringifyObject(criteria);
    assert k[..|COLLEGE_SEARCH|] == COLLEGE_SEARCH;
    k
  }

  lemma TtlRelations()
    ensures ONE_DAY == 24 * ONE_HOUR
    ensures ONE_HOUR == 12 * FIVE_MINUTES
  {
  }

  /** None of the three college prefixes is a prefix of another, and each
      college prefix differs from each cutoff prefix. */
  lemma PrefixesIndependent()
    ensures !HasPrefix(COLLEGE_LIST, COLLEGE_DETAIL) && !HasPrefix(COLLEGE_DETAIL, COLLEGE_LIST)
    ensures !HasPrefix(COLLEGE_LIST, COLLEGE_SEARCH) && !HasPrefix(COLLEGE_SEARCH, COLLEGE_LIST)
    ensures !HasPrefix(COLLEGE_DETAIL, COLLEGE_SEARCH) && !HasPrefix(COLLEGE_SEARCH, COLLEGE_DETAIL)
    ensures forall p, q | p in {COLLEGE_LIST, COLLEGE_DETAIL, COLLEGE_SEARCH, COLLEGE_VERSION, COLLEGE_UPDATES}
                       && q in {CUTOFF_LIST, CUTOFF_DETAIL, CUTOFF_SEARCH} ::
              p != q && !HasPrefix(p, q) && !HasPrefix(q, p)
  {
    assert COLLEGE_LIST[9] == 'l' && COLLEGE_DETAIL[9] == 'd' && COLLEGE_SEARCH[9] == 's';
    forall p, q | p in {COLLEGE_LIST, COLLEGE_DETAIL, COLLEGE_SEARCH, COLLEGE_VERSION, COLLEGE_UPDATES}
                && q in {CUTOFF_LIST, CUTOFF_DETAIL, CUTOFF_SEARCH}
      ensures p != q && !HasPrefix(p, q) && !HasPrefix(q, p)
    {
      assert p[1] == 'o' && q[1] == 'u';
    }
  }

  /** A key lies in at most one of the list, detail and search namespaces,
      so the entries of the three reads can never overwrite one another. */
  lemma NamespacesDisjoint(k: string)
    ensures !(IsListKey(k) && IsDetailKey(k))
    ensures !(IsListKey(k) && IsSearchKey(k))
    ensures !(IsDetailKey(k) && IsSearchKey(k))
  {
    if IsListKey(k) { assert k[9] == LIST_NAMESPACE[9] == 'l'; }
    if IsDetailKey(k) { assert k[9] == COLLEGE_DETAIL[9] == 'd'; }
    if IsSearchKey(k) { assert k[9] == COLLEGE_SEARCH[9] == 's'; }
  }

  /** The literal invalidation key is no key that a read ever writes, and
      neither are the version and update-feed keys. */
  lemma ReservedKeysOutsideNamespaces()
    ensures forall k :: k in {LIST_INVALIDATION_KEY, COLLEGE_VERSION, COLLEGE_UPDATES} ==>
              !IsListKey(k) && !IsDetailKey(k) && !IsSearchKey(k)
  {
    assert LIST_INVALIDATION_KEY[13] == '*' && LIST_NAMESPACE[13] == ':';
    assert COLLEGE_VERSION[9] == 'v' && COLLEGE_UPDATES[9] == 'u';
  }

  /** A list page or search result survives the two deletions that an update
      or a delete of any college performs. */
  lemma InvalidationSparesListsAndSearches(id: Id, k: string)
    requires IsListKey(k) || IsSearchKey(k)
    ensures k != DetailKey(id) && k != LIST_INVALIDATION_KEY
  {
    NamespacesDisjoint(k);
    ReservedKeysOutsideNamespaces();
  }

  predicate NoColon(s: string)
  {
    forall i :: 0 <= i < |s| ==> s[i] != ':'
  }

  /** Index of the first colon in s, or |s| when there is none. */
  function FirstColon(s: string): nat
  {
    if s == [] || s[0] == ':' then 0 else 1 + FirstColon(s[1..])
  }

  lemma {:induction false} FirstColonAfter(a: string, b: string)
    requires NoColon(a)
    ensures FirstColon(a + ":" + b) == |a|
  {
    if a != [] {
      assert (a + ":" + b)[1..] == a[1..] + ":" + b;
      FirstColonAfter(a[1..], b);
    }
  }

  /** A text without a colon, a colon and a rest: the parts are recovered. */
  lemma SplitAtFirstColon(a: string, b: string, c: string, d: string)
    requires NoColon(a) && NoColon(c)
    requires a + ":" + b == c + ":" + d
    ensures a == c && b == d
  {
    var x := a + ":" + b;
    FirstColonAfter(a, b);
    FirstColonAfter(c, d);
    assert a == x[..|a|];
    assert c == (c + ":" + d)[..|c|];
    assert b == x[|a| + 1..];
    assert d == (c + ":" + d)[|c| + 1..];
  }

  /** Two list keys are equal exactly when page and limit are equal and the
      cursors render to the same text. */
  lemma ListKeyInjective(p1: int, l1: int, c1: Option<Id>, p2: int, l2: int, c2: Option<Id>)
    ensures ListKey(p1, l1, c1) == ListKey(p2, l2, c2) <==>
            p1 == p2 && l1 == l2 && CursorText(c1) == CursorText(c2)
  {
    if ListKey(p1, l1, c1) == ListKey(p2, l2, c2) {
      assert ListKeyTail(p1, l1, c1) == ListKeyTail(p2, l2, c2);
      SplitAtFirstColon(DecimalString(p1), DecimalString(l1) + ":" + CursorText(c1),
                        DecimalString(p2), DecimalString(l2) + ":" + CursorText(c2));
      SplitAtFirstColon(DecimalString(l1), CursorText(c1), DecimalString(l2), CursorText(c2));
      ParseDecimalRoundTrip(p1);
      ParseDecimalRoundTrip(p2);
      ParseDecimalRoundTrip(l1);
      ParseDecimalRoundTrip(l2);
    }
  }

  /** A cursor id spelled "null" shares its cache entry with the first page. */
  lemma NullCursorSharesFirstPageKey(page: int, limit: int)
    ensures ListKey(page, limit, Some("null")) == ListKey(page, limit, None)
  {
  }

  lemma DetailKeyInjective(a: Id, b: Id)
    ensures DetailKey(a) == DetailKey(b) <==> a == b
  {
  }

  /** Two objects holding the same criteria, no name given twice, that
      enumerate them in different orders (the same names inserted in
      another order, array-index names aside) use different cache entries:
      the key follows the enumeration order, not the content. */
  lemma ReorderedCriteriaUseAnotherEntry(c1: Criteria, c2: Criteria)
    requires c1 != c2 && multiset(c1) == multiset(c2)
    requires Json.DistinctNames(c1) && Json.DistinctNames(c2)
    requires Json.JsKeyOrder(c1) && Json.JsKeyOrder(c2)
    ensures SearchKey(c1) != SearchKey(c2)
  {
    Json.ReorderedObjectsDiffer(c1, c2);
    assert SearchKey(c1)[|COLLEGE_SEARCH|..] != SearchKey(c2)[|COLLEGE_SEARCH|..];
  }

  /** Criteria named by array indices only share one cache entry whatever
      order the request created them in: JavaScript enumerates such names
      in ascending order. */
  lemma IndexNamedCriteriaShareEntry(c1: Criteria, c2: Criteria)
    requires multiset(c1) == multiset(c2)
    requires Json.JsKeyOrder(c1) && Json.JsKeyOrder(c2)
    requires Json.IndexNamed(c1)
    ensures SearchKey(c1) == SearchKey(c2)
  {
    Json.IndexNamesHaveOneOrder(c1, c2);
  }
}
