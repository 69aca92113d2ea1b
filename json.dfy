/** `JSON.stringify` over the values a request can carry, used to build the
    search cache key. Object members are written in the order given. */
module Json {
  import opened Values
  import opened Text

  function HexDigit(d: nat): (c: char)
    requires d < 16
  {
    if d < 10 then DigitChar(d) else ('a' as int + d - 10) as char
  }

  /** Characters that JSON.stringify writes unchanged inside a string. */
  predicate Plain(c: char)
  {
    c != '"' && c != '\\' && c >= ' '
  }

  function EscapeChar(c: char): (r: string)
    ensures Plain(c) <==> r == [c]
  {
    if c == '"' then "\\\""
    else if c == '\\' then "\\\\"
    else if c == '\U{0008}' then "\\b"
    else if c == '\U{000C}' then "\\f"
    else if c == '\n' then "\\n"
    else if c == '\r' then "\\r"
    else if c == '\t' then "\\t"
    else if c < ' ' then "\\u00" + [HexDigit(c as int / 16), HexDigit(c as int % 16)]
    else [c]
  }

  function Escape(s: string): string
  {
    if s == [] then [] else EscapeChar(s[0]) + Escape(s[1..])
  }

  function Quote(s: string): string
  {
    "\"" + Escape(s) + "\""
  }

  function Stringify(v: Value): string
    decreases v
  {
    match v
    case Null => "null"
    case Bool(b) => if b then "true" else "false"
    case Num(n) => DecimalString(n)
    case Str(s) => Quote(s)
    case Arr(items) => "[" + StringifyItems(items) + "]"
  }

  function StringifyItems(items: seq<Value>): string
    decreases items
  {
    if items == [] then ""
    else if |items| == 1 then Stringify(items[0])
    else Stringify(items[0]) + "," + StringifyItems(items[1..])
  }

  function StringifyMembers(c: Criteria): string
  {
    if c == [] then ""
    else
      var member := Quote(c[0].0) + ":" + Stringify(c[0].1);
      if |c| == 1 then member else member + "," + StringifyMembers(c[1..])
  }

  /** `JSON.stringify` of an object whose members are c, in c's order. */
  function StringifyObject(c: Criteria): (t: string)
    ensures |t| >= 2 && t[0] == '{' && t[|t| - 1] == '}'
    ensures c == [] <==> t == "{}"
  {
    "{" + StringifyMembers(c) + "}"
  }

  /** The third character of a serialized object is the first character of
      its first member's name, when that character needs no escaping. */
  lemma ObjectTextStartsWithFirstName(c: Criteria)
    requires c != [] && c[0].0 != [] && Plain(c[0].0[0])
    ensures |StringifyObject(c)| > 2 && StringifyObject(c)[2] == c[0].0[0]
  {
    var name := c[0].0;
    assert Escape(name) == [name[0]] + Escape(name[1..]);
    var member := Quote(name) + ":" + Stringify(c[0].1);
    assert Quote(name)[1] == name[0];
    assert member[1] == name[0];
    var members := StringifyMembers(c);
    assert members[..|member|] == member;
    assert members[1] == name[0];
  }

  /** Two objects whose first members' names start with different plain
      characters serialize differently, whatever else they hold: the
      serialization follows member order, not content. */
  lemma FirstNameSeparates(c1: Criteria, c2: Criteria)
    requires c1 != [] && c1[0].0 != [] && Plain(c1[0].0[0])
    requires c2 != [] && c2[0].0 != [] && Plain(c2[0].0[0])
    requires c1[0].0[0] != c2[0].0[0]
    ensures StringifyObject(c1) != StringifyObject(c2)
  {
    ObjectTextStartsWithFirstName(c1);
    ObjectTextStartsWithFirstName(c2);
  }

  // ------------------------------------------------ member order shows in the text

  /** Every character is written as a non-empty piece that never starts
      with a quotation mark; the escaped ones start with a backslash and
      have a second character. */
  lemma EscapeCharShape(c: char)
    ensures EscapeChar(c) != [] && EscapeChar(c)[0] != '"'
    ensures !Plain(c) ==> |EscapeChar(c)| >= 2 && EscapeChar(c)[0] == '\\'
  {
  }

  lemma HexDigitInjective(a: nat, b: nat)
    requires a < 16 && b < 16 && HexDigit(a) == HexDigit(b)
    ensures a == b
  {
  }

  /** Distinct characters are escaped into pieces neither of which starts
      the other. */
  lemma EscapeCharPrefixFree(c: char, d: char, x: string, y: string)
    requires EscapeChar(c) + x == EscapeChar(d) + y
    ensures c == d
  {
    var e, f := EscapeChar(c), EscapeChar(d);
    EscapeCharShape(c);
    EscapeCharShape(d);
    assert e[0] == (e + x)[0] == (f + y)[0] == f[0];
    if !Plain(c) && !Plain(d) {
      assert e[1] == (e + x)[1] == (f + y)[1] == f[1];
      if e[1] == 'u' {
        assert c < ' ' && d < ' ';
        assert e[4] == (e + x)[4] == (f + y)[4] == f[4];
        assert e[5] == (e + x)[5] == (f + y)[5] == f[5];
        HexDigitInjective(c as int / 16, d as int / 16);
        HexDigitInjective(c as int % 16, d as int % 16);
      }
    }
  }

  lemma EscapeStart(a: string, z: string)
    requires a != []
    ensures Escape(a) + z == EscapeChar(a[0]) + (Escape(a[1..]) + z)
    ensures (Escape(a) + z)[0] != '"'
  {
    var e, t := EscapeChar(a[0]), Escape(a[1..]);
    assert Escape(a) == e + t;
    assert (e + t) + z == e + (t + z);
    EscapeCharShape(a[0]);
    assert (e + (t + z))[0] == e[0];
  }

  /** The escaped text of a string ends at the first unescaped quotation
      mark, so what follows that mark cannot make two strings look alike. */
  lemma {:induction false} EscapePrefixFree(a: string, b: string, u: string, v: string)
    requires u != [] && u[0] == '"' && v != [] && v[0] == '"'
    requires Escape(a) + u == Escape(b) + v
    ensures a == b
    decreases |a|
  {
    if a != [] {
      EscapeStart(a, u);
    }
    if b != [] {
      EscapeStart(b, v);
    }
    assert a == [] ==> (Escape(a) + u)[0] == '"';
    assert b == [] ==> (Escape(b) + v)[0] == '"';
    if a != [] && b != [] {
      var u', v' := Escape(a[1..]) + u, Escape(b[1..]) + v;
      EscapeCharPrefixFree(a[0], b[0], u', v');
      assert u' == v' by {
        assert u' == (EscapeChar(a[0]) + u')[|EscapeChar(a[0])|..];
        assert v' == (EscapeChar(b[0]) + v')[|EscapeChar(b[0])|..];
      }
      EscapePrefixFree(a[1..], b[1..], u, v);
      assert a == [a[0]] + a[1..] && b == [b[0]] + b[1..];
    }
  }

  /** A quoted string is never a proper start of another quoted string. */
  lemma QuotePrefixFree(a: string, b: string, x: string, y: string)
    requires Quote(a) + x == Quote(b) + y
    ensures a == b
  {
    var u, v := "\"" + x, "\"" + y;
    var p, q := Escape(a) + u, Escape(b) + v;
    assert Quote(a) + x == "\"" + p;
    assert Quote(b) + y == "\"" + q;
    assert p == ("\"" + p)[1..] == ("\"" + q)[1..] == q;
    EscapePrefixFree(a, b, u, v);
  }

  /** The members' text starts with the first member's quoted name. */
  lemma MembersStartWithName(c: Criteria)
    requires c != []
    ensures |Quote(c[0].0)| <= |StringifyMembers(c)|
    ensures StringifyMembers(c)[..|Quote(c[0].0)|] == Quote(c[0].0)
  {
  }

  /** Two member lists that agree before index k and hold members of
      different names at k serialize differently. */
  lemma {:induction false} MembersSeparate(c1: Criteria, c2: Criteria, k: nat)
    requires k < |c1| && k < |c2| && c1[..k] == c2[..k] && c1[k].0 != c2[k].0
    ensures StringifyMembers(c1) != StringifyMembers(c2)
    decreases k
  {
    var s1, s2 := StringifyMembers(c1), StringifyMembers(c2);
    if k == 0 {
      var q1, q2 := Quote(c1[0].0), Quote(c2[0].0);
      MembersStartWithName(c1);
      MembersStartWithName(c2);
      assert q1 + s1[|q1|..] == s1 && q2 + s2[|q2|..] == s2;
      if s1 == s2 {
        QuotePrefixFree(c1[0].0, c2[0].0, s1[|q1|..], s2[|q2|..]);
      }
    } else {
      assert c1[0] == c1[..k][0] == c2[..k][0] == c2[0];
      var d1, d2 := c1[1..], c2[1..];
      assert d1[..k - 1] == c1[1..k] == c2[1..k] == d2[..k - 1];
      MembersSeparate(d1, d2, k - 1);
      var member := Quote(c1[0].0) + ":" + Stringify(c1[0].1);
      var n := |member + ","|;
      assert s1[n..] == StringifyMembers(d1) by {
        assert s1 == member + "," + StringifyMembers(d1);
      }
      assert s2[n..] == StringifyMembers(d2) by {
        assert s2 == member + "," + StringifyMembers(d2);
      }
    }
  }

  /** Two different lists of one length agree up to some index where
      they differ. */
  lemma {:induction false} FirstDifference<T>(c1: seq<T>, c2: seq<T>) returns (k: nat)
    requires |c1| == |c2| && c1 != c2
    ensures k < |c1| && c1[..k] == c2[..k] && c1[k] != c2[k]
    decreases |c1|
  {
    if c1[0] != c2[0] {
      k := 0;
    } else {
      assert c1 == [c1[0]] + c1[1..] && c2 == [c2[0]] + c2[1..];
      var k' := FirstDifference(c1[1..], c2[1..]);
      k := k' + 1;
      assert c1[..k] == [c1[0]] + c1[1..][..k'];
      assert c2[..k] == [c2[0]] + c2[1..][..k'];
    }
  }

  /** A name JavaScript treats as an array index: the canonical decimal
      text of an integer below 2^32 - 1. */
  predicate IsArrayIndex(name: string)
  {
    name != [] &&
    (forall k :: 0 <= k < |name| ==> DigitValue(name[k], 10) >= 0) &&
    (name[0] == '0' ==> |name| == 1) &&
    DigitsValue(name, 10) < 0xFFFF_FFFF
  }

  /** c lists an object's own properties in JavaScript's enumeration order:
      every array-index name comes after array-index names only, each with
      a smaller index; the other names follow in insertion order. */
  predicate JsKeyOrder(c: Criteria)
  {
    forall i, j :: 0 <= i < j < |c| && IsArrayIndex(c[j].0) ==>
      IsArrayIndex(c[i].0) && DigitsValue(c[i].0, 10) < DigitsValue(c[j].0, 10)
  }

  lemma JsKeyOrderTail(c: Criteria)
    requires c != [] && JsKeyOrder(c)
    ensures JsKeyOrder(c[1..])
  {
    assert forall i :: 0 <= i < |c| - 1 ==> c[1..][i] == c[i + 1];
  }

  /** Two enumerations of the same members whose first names are array
      indices start with the same member: the least index. */
  lemma IndexHeadsAgree(c1: Criteria, c2: Criteria)
    requires c1 != [] && multiset(c1) == multiset(c2)
    requires JsKeyOrder(c1) && JsKeyOrder(c2)
    requires IsArrayIndex(c1[0].0)
    ensures c2 != [] && c1[0] == c2[0]
  {
    assert c1[0] in multiset(c2);
    var j :| 0 <= j < |c2| && c2[j] == c1[0];
    assert c2[0] in multiset(c1);
    var i :| 0 <= i < |c1| && c1[i] == c2[0];
  }

  lemma MultisetTails(c1: Criteria, c2: Criteria)
    requires c1 != [] && c2 != [] && c1[0] == c2[0] && multiset(c1) == multiset(c2)
    ensures multiset(c1[1..]) == multiset(c2[1..])
  {
    assert c1 == [c1[0]] + c1[1..] && c2 == [c2[0]] + c2[1..];
    assert multiset(c1[1..]) == multiset(c1) - multiset{c1[0]};
    assert multiset(c2[1..]) == multiset(c2) - multiset{c2[0]};
  }

  /** Every member of c is named by an array index. */
  predicate IndexNamed(c: Criteria)
  {
    forall i :: 0 <= i < |c| ==> IsArrayIndex(c[i].0)
  }

  lemma IndexNamedTail(c: Criteria)
    requires c != [] && IndexNamed(c)
    ensures IsArrayIndex(c[0].0) && IndexNamed(c[1..])
  {
    assert forall i :: 0 <= i < |c| - 1 ==> c[1..][i] == c[i + 1];
  }

  /** Members named by array indices only have one enumeration order,
      whatever order they were created in. */
  lemma {:induction false} IndexNamesHaveOneOrder(c1: Criteria, c2: Criteria)
    requires multiset(c1) == multiset(c2)
    requires JsKeyOrder(c1) && JsKeyOrder(c2)
    requires IndexNamed(c1)
    ensures c1 == c2
    decreases |c1|
  {
    assert |c1| == |multiset(c1)| == |multiset(c2)| == |c2|;
    if c1 != [] {
      IndexNamedTail(c1);
      IndexHeadsAgree(c1, c2);
      MultisetTails(c1, c2);
      JsKeyOrderTail(c1);
      JsKeyOrderTail(c2);
      IndexNamesHaveOneOrder(c1[1..], c2[1..]);
      assert c1 == [c1[0]] + c1[1..] && c2 == [c2[0]] + c2[1..];
    }
  }

  /** No name occurs twice among c's members. */
  predicate DistinctNames(c: Criteria)
  {
    forall i, j :: 0 <= i < j < |c| ==> c[i].0 != c[j].0
  }

  /** The same members with distinct names, listed in another order,
      serialize differently: the text follows member order, not content. */
  lemma ReorderedObjectsDiffer(c1: Criteria, c2: Criteria)
    requires c1 != c2 && multiset(c1) == multiset(c2)
    requires DistinctNames(c1) && DistinctNames(c2)
    ensures StringifyObject(c1) != StringifyObject(c2)
  {
    assert |c1| == |multiset(c1)| == |multiset(c2)| == |c2|;
    var k := FirstDifference(c1, c2);
    assert c1[k] in multiset(c2);
    var j :| 0 <= j < |c2| && c2[j] == c1[k];
    assert j != k;
    MembersSeparate(c1, c2, k);
    var t1, t2 := StringifyObject(c1), StringifyObject(c2);
    assert t1[1..|t1| - 1] == StringifyMembers(c1);
    assert t2[1..|t2| - 1] == StringifyMembers(c2);
  }
}
