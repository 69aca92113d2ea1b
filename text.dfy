/** The JavaScript string operations the services rely on: `toLowerCase`
    (ASCII letters only), `split(/\s+/)`, `includes`, `parseInt` and the
    decimal rendering of an integer. */
module Text {
  import opened Values

  // ---------------------------------------------------------------- lower case

  predicate IsUpper(c: char) { 'A' <= c <= 'Z' }

  function LowerChar(c: char): (r: char)
    ensures IsUpper(c) ==> r as int == c as int + 32
    ensures !IsUpper(c) ==> r == c
  {
    if IsUpper(c) then (c as int + 32) as char else c
  }

  /** `toLowerCase` over ASCII letters. */
  function Lower(s: string): (r: string)
    ensures |r| == |s|
    ensures forall i :: 0 <= i < |s| ==> !IsUpper(r[i])
    ensures forall i :: 0 <= i < |s| && !IsUpper(s[i]) ==> r[i] == s[i]
    ensures forall i :: 0 <= i < |s| && IsUpper(s[i]) ==> r[i] as int == s[i] as int + 32
  {
    seq(|s|, i requires 0 <= i < |s| => LowerChar(s[i]))
  }

  // ---------------------------------------------------------------- whitespace

  /** The characters matched by `\s` in a JavaScript regular expression. */
  predicate IsSpace(c: char)
  {
    c == '\t' || c == '\n' || c == '\U{000B}' || c == '\U{000C}' || c == '\r' || c == ' ' ||
    c == '\U{00A0}' || c == '\U{1680}' || ('\U{2000}' <= c <= '\U{200A}') ||
    c == '\U{2028}' || c == '\U{2029}' || c == '\U{202F}' || c == '\U{205F}' ||
    c == '\U{3000}' || c == '\U{FEFF}'
  }

  predicate NoSpace(s: string)
  {
    forall i :: 0 <= i < |s| ==> !IsSpace(s[i])
  }

  /** Index of the first whitespace character, or |s| when there is none. */
  function FirstSpace(s: string): (i: nat)
    ensures i <= |s| && NoSpace(s[..i])
    ensures i < |s| ==> IsSpace(s[i])
  {
    if s == [] then 0
    else if IsSpace(s[0]) then 0
    else
      var i := 1 + FirstSpace(s[1..]);
      assert forall k :: 1 <= k < i ==> s[..i][k] == s[1..][..i - 1][k - 1];
      i
  }

  /** Length of the run of whitespace that starts s. */
  function SpaceRun(s: string): (j: nat)
    ensures j <= |s|
    ensures forall k :: 0 <= k < j ==> IsSpace(s[k])
    ensures j < |s| ==> !IsSpace(s[j])
  {
    if s == [] || !IsSpace(s[0]) then 0 else 1 + SpaceRun(s[1..])
  }

  /** The characters of s that are not whitespace, in order: the reference
      against which the splitting below is proved. */
  function Unspaced(s: string): string
  {
    if s == [] then []
    else if IsSpace(s[0]) then Unspaced(s[1..])
    else [s[0]] + Unspaced(s[1..])
  }

  /** Concatenation of a list of strings. */
  function Concat(ss: seq<string>): string
  {
    if ss == [] then [] else ss[0] + Concat(ss[1..])
  }

  lemma {:induction false} UnspacedAppend(a: string, b: string)
    ensures Unspaced(a + b) == Unspaced(a) + Unspaced(b)
  {
    if a != [] {
      assert (a + b)[1..] == a[1..] + b;
      UnspacedAppend(a[1..], b);
    } else {
      assert a + b == b;
    }
  }

  lemma {:induction false} UnspacedOfNoSpace(s: string)
    requires NoSpace(s)
    ensures Unspaced(s) == s
  {
    if s != [] {
      UnspacedOfNoSpace(s[1..]);
    }
  }

  lemma {:induction false} UnspacedOfSpaces(s: string)
    requires forall k :: 0 <= k < |s| ==> IsSpace(s[k])
    ensures Unspaced(s) == []
  {
    if s != [] {
      UnspacedOfSpaces(s[1..]);
    }
  }

  lemma {:induction false} UnspacedAroundRun(s: string, i: nat, j: nat)
    requires i <= j <= |s|
    requires NoSpace(s[..i])
    requires forall k :: i <= k < j ==> IsSpace(s[k])
    ensures Unspaced(s) == s[..i] + Unspaced(s[j..])
  {
    var a, b, c := s[..i], s[i..j], s[j..];
    assert a + b == s[..j];
    assert s[..j] + c == s;
    assert forall k :: 0 <= k < |b| ==> b[k] == s[i + k];
    UnspacedAppend(s[..j], c);
    UnspacedAppend(a, b);
    UnspacedOfNoSpace(a);
    UnspacedOfSpaces(b);
  }

  /** `s.split(/\s+/)`: the pieces between maximal runs of whitespace. A
      leading run yields an empty first piece and a trailing run an empty
      last piece; no piece contains whitespace and no inner piece is empty. */
  function SplitOnSpaces(s: string): (terms: seq<string>)
    ensures |terms| >= 1
    ensures forall k :: 0 <= k < |terms| ==> NoSpace(terms[k])
    ensures s != [] && IsSpace(s[0]) ==> terms[0] == ""
    ensures s != [] && !IsSpace(s[0]) ==> terms[0] != ""
    ensures forall k :: 0 < k < |terms| - 1 ==> terms[k] != ""
    decreases |s|
  {
    var i := FirstSpace(s);
    if i == |s| then
      assert s[..i] == s;
      [s]
    else
      var j := i + SpaceRun(s[i..]);
      var rest := SplitOnSpaces(s[j..]);
      var terms := [s[..i]] + rest;
      assert terms[1..] == rest;
      terms
  }

  /** A non-empty run of whitespace. */
  predicate IsSpaceRun(w: string)
  {
    w != [] && forall k :: 0 <= k < |w| ==> IsSpace(w[k])
  }

  /** terms[0] + gaps[0] + terms[1] + ... + gaps[n - 1] + terms[n]. */
  function Weave(terms: seq<string>, gaps: seq<string>): string
    requires |terms| == |gaps| + 1
    decreases |gaps|
  {
    if gaps == [] then terms[0] else terms[0] + gaps[0] + Weave(terms[1..], gaps[1..])
  }

  /** gaps are non-empty whitespace runs that, interleaved with terms,
      give back s. */
  predicate SeparatedBy(s: string, terms: seq<string>, gaps: seq<string>)
  {
    |terms| == |gaps| + 1 &&
    (forall k :: 0 <= k < |gaps| ==> IsSpaceRun(gaps[k])) &&
    Weave(terms, gaps) == s
  }

  lemma SlicesGlue(s: string, i: nat, j: nat)
    requires i <= j <= |s|
    ensures s[..i] + s[i..j] + s[j..] == s
  {
    assert s[..i] + s[i..j] == s[..j];
  }

  lemma SeparatedByCons(a: string, b: string, c: string, rest: seq<string>, more: seq<string>)
    requires IsSpaceRun(b) && SeparatedBy(c, rest, more)
    ensures SeparatedBy(a + b + c, [a] + rest, [b] + more)
  {
    var gaps := [b] + more;
    assert forall k :: 0 < k < |gaps| ==> gaps[k] == more[k - 1];
    assert ([a] + rest)[1..] == rest && gaps[1..] == more;
  }

  /** The pieces are exactly what lies between the whitespace runs: s is
      the pieces interleaved with non-empty runs of whitespace. */
  lemma {:induction false} SplitOnSpacesRebuilds(s: string)
    ensures exists gaps :: SeparatedBy(s, SplitOnSpaces(s), gaps)
    decreases |s|
  {
    var i := FirstSpace(s);
    if i == |s| {
      assert s[..i] == s;
      assert SeparatedBy(s, SplitOnSpaces(s), []);
    } else {
      var j := i + SpaceRun(s[i..]);
      var a, b, c := s[..i], s[i..j], s[j..];
      var rest := SplitOnSpaces(c);
      SplitOnSpacesRebuilds(c);
      var more :| SeparatedBy(c, rest, more);
      assert IsSpaceRun(b) by {
        assert forall k :: 0 <= k < |b| ==> b[k] == s[i..][k];
      }
      assert SeparatedBy(s, [a] + rest, [b] + more) by {
        SeparatedByCons(a, b, c, rest, more);
        SlicesGlue(s, i, j);
      }
      assert SplitOnSpaces(s) == [a] + rest;
    }
  }

  /** Text woven from whitespace-free pieces and whitespace runs ends with
      whitespace exactly when its last piece is empty. */
  lemma {:induction false} WeaveEndsInSpace(s: string, terms: seq<string>, gaps: seq<string>)
    requires SeparatedBy(s, terms, gaps) && s != []
    requires forall k :: 0 <= k < |terms| ==> NoSpace(terms[k])
    ensures IsSpace(s[|s| - 1]) <==> terms[|terms| - 1] == ""
    decreases |gaps|
  {
    if gaps == [] {
      assert s == terms[0];
    } else {
      var w := Weave(terms[1..], gaps[1..]);
      assert s == terms[0] + gaps[0] + w;
      assert SeparatedBy(w, terms[1..], gaps[1..]) by {
        assert forall k :: 0 <= k < |gaps[1..]| ==> gaps[1..][k] == gaps[k + 1];
      }
      if w != [] {
        assert forall k :: 0 <= k < |terms[1..]| ==> terms[1..][k] == terms[k + 1];
        WeaveEndsInSpace(w, terms[1..], gaps[1..]);
        assert s[|s| - 1] == w[|w| - 1];
      } else {
        assert |gaps| == 1;
        assert terms[1] == w;
        assert s[|s| - 1] == gaps[0][|gaps[0]| - 1];
      }
    }
  }

  /** The last piece is empty exactly when s ends with whitespace. */
  lemma TrailingSpaceGivesEmptyTerm(s: string)
    requires s != []
    ensures IsSpace(s[|s| - 1]) <==> SplitOnSpaces(s)[|SplitOnSpaces(s)| - 1] == ""
  {
    SplitOnSpacesRebuilds(s);
    var gaps :| SeparatedBy(s, SplitOnSpaces(s), gaps);
    WeaveEndsInSpace(s, SplitOnSpaces(s), gaps);
  }

  /** Gluing the pieces back together gives s without its whitespace. */
  lemma {:induction false} SplitOnSpacesGlues(s: string)
    ensures Concat(SplitOnSpaces(s)) == Unspaced(s)
    decreases |s|
  {
    var i := FirstSpace(s);
    if i == |s| {
      assert s[..i] == s;
      UnspacedOfNoSpace(s);
      assert Concat([s]) == s + Concat([]);
    } else {
      var j := i + SpaceRun(s[i..]);
      var a, b, c := s[..i], s[i..j], s[j..];
      var rest := SplitOnSpaces(c);
      assert SplitOnSpaces(s) == [a] + rest;
      SplitOnSpacesGlues(c);
      assert Concat([a] + rest) == a + Concat(rest) by {
        assert ([a] + rest)[1..] == rest;
      }
      assert Concat(SplitOnSpaces(s)) == a + Unspaced(c);
      UnspacedAroundRun(s, i, j);
    }
  }

  /** s splits into a single piece exactly when it holds no whitespace. */
  lemma SplitOnSpacesSingle(s: string)
    ensures |SplitOnSpaces(s)| == 1 <==> NoSpace(s)
  {
    var i := FirstSpace(s);
    if i < |s| {
      assert !NoSpace(s);
    }
  }

  lemma LeadingSpaceGivesEmptyTerm(s: string)
    requires s != [] && IsSpace(s[0])
    ensures SplitOnSpaces(s)[0] == ""
  {
  }

  // ---------------------------------------------------------------- includes

  predicate OccursAt(hay: string, needle: string, i: nat)
  {
    i + |needle| <= |hay| && hay[i..i + |needle|] == needle
  }

  /** `hay.includes(needle)`, scanning from the front. */
  predicate Includes(hay: string, needle: string)
    ensures Includes(hay, needle) ==> |needle| <= |hay|
    ensures hay == needle ==> Includes(hay, needle)
    decreases |hay|
  {
    if |needle| > |hay| then false
    else if hay[..|needle|] == needle then true
    else hay != [] && Includes(hay[1..], needle)
  }

  lemma SliceOfTail(hay: string, i: nat, n: nat)
    requires 1 <= i && i + n <= |hay|
    ensures hay[1..][i - 1..i - 1 + n] == hay[i..i + n]
  {
    var a, b := hay[1..][i - 1..i - 1 + n], hay[i..i + n];
    assert forall k :: 0 <= k < n ==> a[k] == b[k];
  }

  /** The scan agrees with the definition "needle occurs at some index". */
  lemma {:induction false} IncludesIff(hay: string, needle: string)
    ensures Includes(hay, needle) <==> exists i: nat :: OccursAt(hay, needle, i)
    decreases |hay|
  {
    if |needle| > |hay| {
    } else if hay[..|needle|] == needle {
      assert OccursAt(hay, needle, 0);
    } else {
      IncludesIff(hay[1..], needle);
      if Includes(hay[1..], needle) {
        var i: nat :| OccursAt(hay[1..], needle, i);
        SliceOfTail(hay, i + 1, |needle|);
        assert OccursAt(hay, needle, i + 1);
      } else {
        forall i: nat | OccursAt(hay, needle, i)
          ensures i > 0 && OccursAt(hay[1..], needle, i - 1)
        {
          if i > 0 {
            SliceOfTail(hay, i, |needle|);
          }
        }
      }
    }
  }

  lemma EmptyIncludedEverywhere(hay: string)
    ensures Includes(hay, "")
  {
    assert OccursAt(hay, "", 0);
    IncludesIff(hay, "");
  }

  // ---------------------------------------------------------------- numbers

  predicate IsDecimalDigit(c: char) { '0' <= c <= '9' }

  /** Value of c as a digit in the given radix (10 or 16), or -1. */
  function DigitValue(c: char, radix: nat): (d: int)
    requires radix == 10 || radix == 16
    ensures -1 <= d < radix
    ensures radix == 10 ==> (d >= 0 <==> IsDecimalDigit(c))
  {
    if '0' <= c <= '9' then c as int - '0' as int
    else if radix == 16 && 'a' <= c <= 'f' then c as int - 'a' as int + 10
    else if radix == 16 && 'A' <= c <= 'F' then c as int - 'A' as int + 10
    else -1
  }

  /** Length of the run of digits that starts s. */
  function DigitRun(s: string, radix: nat): (n: nat)
    requires radix == 10 || radix == 16
    ensures n <= |s|
    ensures forall k :: 0 <= k < n ==> DigitValue(s[k], radix) >= 0
    ensures n < |s| ==> DigitValue(s[n], radix) < 0
  {
    if s == [] || DigitValue(s[0], radix) < 0 then 0 else 1 + DigitRun(s[1..], radix)
  }

  /** The number written by a string of digits, most significant first. */
  function DigitsValue(s: string, radix: nat): nat
    requires radix == 10 || radix == 16
    requires forall k :: 0 <= k < |s| ==> DigitValue(s[k], radix) >= 0
  {
    if s == [] then 0
    else radix * DigitsValue(s[..|s| - 1], radix) + DigitValue(s[|s| - 1], radix)
  }

  /** `parseInt(s)` without a radix: leading whitespace is skipped, then an
      optional sign, then an optional `0x`/`0X` prefix that selects radix 16;
      the longest run of digits that follows is the value, and None stands
      for NaN when there is no digit. */
  function ParseIntText(s: string): (r: Option<int>)
    ensures r.Some? ==> SpaceRun(s) < |s|
    ensures s != [] && !IsSpace(s[0]) ==> r == ParseSigned(s)
  {
    ParseSigned(s[SpaceRun(s)..])
  }

  /** The text after an optional leading sign. */
  function Unsigned(t: string): string
  {
    if t != [] && (t[0] == '-' || t[0] == '+') then t[1..] else t
  }

  function ParseSigned(t: string): Option<int>
  {
    match ParseMagnitude(Unsigned(t))
    case None => None
    case Some(m) => Some(if t != [] && t[0] == '-' then -m else m)
  }

  function ParseMagnitude(u: string): Option<int>
  {
    var hex := |u| >= 2 && u[0] == '0' && (u[1] == 'x' || u[1] == 'X');
    var radix := if hex then 16 else 10;
    var v := if hex then u[2..] else u;
    var n := DigitRun(v, radix);
    if n == 0 then None else Some(DigitsValue(v[..n], radix))
  }

  function DigitChar(d: nat): (c: char)
    requires d < 10
    ensures IsDecimalDigit(c) && DigitValue(c, 10) == d
  {
    ('0' as int + d) as char
  }

  /** Decimal digits of a natural number, without leading zeros. */
  function Digits(n: nat): (s: string)
    ensures s != []
    ensures forall k :: 0 <= k < |s| ==> IsDecimalDigit(s[k])
    ensures s[0] == '0' ==> n == 0 && s == "0"
  {
    if n < 10 then [DigitChar(n)] else Digits(n / 10) + [DigitChar(n % 10)]
  }

  /** `String(n)` for an integer n. */
  function DecimalString(n: int): (s: string)
    ensures s != []
    ensures forall k :: 0 <= k < |s| ==> s[k] != ':' && !IsSpace(s[k])
  {
    if n < 0 then "-" + Digits(-n) else Digits(n)
  }

  lemma {:induction false} DigitsValueOfDigits(n: nat)
    ensures DigitsValue(Digits(n), 10) == n
  {
    if n >= 10 {
      var s := Digits(n);
      assert s[..|s| - 1] == Digits(n / 10);
      DigitsValueOfDigits(n / 10);
    }
  }

  lemma {:induction false} DigitRunOfDigits(d: string)
    requires forall k :: 0 <= k < |d| ==> IsDecimalDigit(d[k])
    ensures DigitRun(d, 10) == |d|
  {
    if d != [] {
      DigitRunOfDigits(d[1..]);
    }
  }

  /** A plain run of decimal digits without a leading zero: what
      `String(n)` writes after its sign. */
  predicate PlainDigits(d: string)
  {
    d != [] && (forall k :: 0 <= k < |d| ==> IsDecimalDigit(d[k])) && (d[0] == '0' ==> |d| == 1)
  }

  lemma ParseMagnitudeOfDigits(d: string)
    requires PlainDigits(d)
    ensures ParseMagnitude(d) == Some(DigitsValue(d, 10))
  {
    DigitRunOfDigits(d);
    assert d[..|d|] == d;
  }

  lemma ParseIntTextUnspaced(t: string)
    requires t != [] && !IsSpace(t[0])
    ensures ParseIntText(t) == ParseSigned(t)
  {
    assert SpaceRun(t) == 0;
    assert t[0..] == t;
  }

  /** Text that starts with a digit parses as its magnitude. */
  lemma ParseUnsigned(u: string, m: int)
    requires u != [] && IsDecimalDigit(u[0])
    requires ParseMagnitude(u) == Some(m)
    ensures ParseIntText(u) == Some(m)
  {
    assert Unsigned(u) == u;
    ParseIntTextUnspaced(u);
  }

  /** A minus sign negates the magnitude that follows it. */
  lemma ParseNegative(u: string, m: int)
    requires ParseMagnitude(u) == Some(m)
    ensures ParseIntText("-" + u) == Some(-m)
  {
    var s := "-" + u;
    assert ParseSigned(s) == Some(-m) by {
      assert s[0] == '-' && Unsigned(s) == u;
    }
    assert !IsSpace(s[0]);
    ParseIntTextUnspaced(s);
  }

  /** `parseInt(String(n)) == n` for every integer n. */
  lemma ParseDecimalRoundTrip(n: int)
    ensures ParseIntText(DecimalString(n)) == Some(n)
  {
    var m: nat := if n < 0 then -n else n;
    DigitsValueOfDigits(m);
    ParseMagnitudeOfDigits(Digits(m));
    if n < 0 {
      ParseNegative(Digits(m), m);
    } else {
      ParseUnsigned(Digits(m), m);
    }
  }

  /** JavaScript `String(v)`, the text that `parseInt` reads from a value. */
  function ToText(v: Value): string
    decreases v
  {
    match v
    case Null => "null"
    case Bool(b) => if b then "true" else "false"
    case Num(n) => DecimalString(n)
    case Str(s) => s
    case Arr(items) => JoinItems(items)
  }

  /** `Array.prototype.join(",")`: null elements become empty strings. */
  function JoinItems(items: seq<Value>): string
    decreases items
  {
    if items == [] then ""
    else
      var head := if items[0] == Null then "" else ToText(items[0]);
      if |items| == 1 then head else head + "," + JoinItems(items[1..])
  }

  /** `parseInt(v)` for a possibly undefined value; undefined reads as NaN. */
  function ParseIntValue(v: Option<Value>): Option<int>
  {
    match v
    case None => None
    case Some(x) => ParseIntText(ToText(x))
  }

  /** `parseInt(v) || d`: NaN and zero fall back to d. */
  function ParseIntOr(v: Option<Value>, d: int): (r: int)
    requires d != 0
    ensures r != 0
    ensures ParseIntValue(v).Some? && ParseIntValue(v).value != 0 ==> r == ParseIntValue(v).value
    ensures ParseIntValue(v).None? || ParseIntValue(v).value == 0 ==> r == d
  {
    match ParseIntValue(v)
    case Some(n) => if n != 0 then n else d
    case None => d
  }
}
