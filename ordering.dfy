/** The order in which the document store sorts values: first by type
    (null < boolean < number < string < array), then within the type; strings
    compare by code point, which for Unicode scalar values is the order of
    their UTF-8 bytes, and arrays compare element by element. */
module Ordering {
  import opened Values

  /** Lexicographic order on strings; a proper prefix comes first. */
  predicate StrLess(a: string, b: string)
  {
    if a == [] then b != []
    else if b == [] then false
    else a[0] < b[0] || (a[0] == b[0] && StrLess(a[1..], b[1..]))
  }

  function TypeRank(v: Value): nat
  {
    match v
    case Null => 0
    case Bool(_) => 1
    case Num(_) => 2
    case Str(_) => 3
    case Arr(_) => 4
  }

  predicate ValueLess(a: Value, b: Value)
    decreases a
  {
    match (a, b)
    case (Bool(x), Bool(y)) => !x && y
    case (Num(x), Num(y)) => x < y
    case (Str(x), Str(y)) => StrLess(x, y)
    case (Arr(x), Arr(y)) => ArrLess(x, y)
    case _ => TypeRank(a) < TypeRank(b)
  }

  predicate ArrLess(x: seq<Value>, y: seq<Value>)
    decreases x
  {
    if x == [] then y != []
    else if y == [] then false
    else ValueLess(x[0], y[0]) || (x[0] == y[0] && ArrLess(x[1..], y[1..]))
  }

  lemma {:induction false} StrLessIrreflexive(a: string)
    ensures !StrLess(a, a)
  {
    if a != [] {
      StrLessIrreflexive(a[1..]);
    }
  }

  lemma {:induction false} StrLessTransitive(a: string, b: string, c: string)
    requires StrLess(a, b) && StrLess(b, c)
    ensures StrLess(a, c)
  {
    if a != [] && a[0] == b[0] && b[0] == c[0] {
      StrLessTransitive(a[1..], b[1..], c[1..]);
    }
  }

  lemma {:induction false} StrLessTotal(a: string, b: string)
    requires a != b
    ensures StrLess(a, b) || StrLess(b, a)
  {
    if a != [] && b != [] && a[0] == b[0] {
      assert a == [a[0]] + a[1..] && b == [b[0]] + b[1..];
      StrLessTotal(a[1..], b[1..]);
    }
  }

  lemma {:induction false} ValueLessIrreflexive(a: Value)
    ensures !ValueLess(a, a)
    decreases a
  {
    match a
    case Str(s) => StrLessIrreflexive(s);
    case Arr(x) => ArrLessIrreflexive(x);
    case _ =>
  }

  lemma {:induction false} ArrLessIrreflexive(x: seq<Value>)
    ensures !ArrLess(x, x)
    decreases x
  {
    if x != [] {
      ValueLessIrreflexive(x[0]);
      ArrLessIrreflexive(x[1..]);
    }
  }

  lemma {:induction false} ValueLessTransitive(a: Value, b: Value, c: Value)
    requires ValueLess(a, b) && ValueLess(b, c)
    ensures ValueLess(a, c)
    decreases a
  {
    match (a, b, c)
    case (Str(x), Str(y), Str(z)) => StrLessTransitive(x, y, z);
    case (Arr(x), Arr(y), Arr(z)) => ArrLessTransitive(x, y, z);
    case _ =>
  }

  lemma {:induction false} ArrLessTransitive(x: seq<Value>, y: seq<Value>, z: seq<Value>)
    requires ArrLess(x, y) && ArrLess(y, z)
    ensures ArrLess(x, z)
    decreases x
  {
    if x != [] {
      if ValueLess(x[0], y[0]) && ValueLess(y[0], z[0]) {
        ValueLessTransitive(x[0], y[0], z[0]);
      } else if x[0] == y[0] && y[0] == z[0] {
        ArrLessTransitive(x[1..], y[1..], z[1..]);
      }
    }
  }

  lemma {:induction false} ValueLessTotal(a: Value, b: Value)
    requires a != b
    ensures ValueLess(a, b) || ValueLess(b, a)
    decreases a
  {
    match (a, b)
    case (Str(x), Str(y)) => StrLessTotal(x, y);
    case (Arr(x), Arr(y)) => ArrLessTotal(x, y);
    case _ =>
  }

  lemma {:induction false} ArrLessTotal(x: seq<Value>, y: seq<Value>)
    requires x != y
    ensures ArrLess(x, y) || ArrLess(y, x)
    decreases x
  {
    if x != [] && y != [] {
      if x[0] == y[0] {
        assert x == [x[0]] + x[1..] && y == [y[0]] + y[1..];
        ArrLessTotal(x[1..], y[1..]);
      } else {
        ValueLessTotal(x[0], y[0]);
      }
    }
  }
}
