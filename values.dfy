/** Dynamically typed cell values and PHP's loose rules for them: conversion
    to number, string and boolean, the loose three-way comparison behind
    `==`, `<`, `>`, and the normalisation PHP applies to a value used as an
    array key (which the group engine relies on). Numbers are integers here. */
module Values {
  import opened Strings

  datatype Value = Null | Bool(b: bool) | Int(i: int) | Str(s: string)

  const PHP_INT_MAX: int := 0x7FFF_FFFF_FFFF_FFFF
  const PHP_INT_MIN: int := -0x8000_0000_0000_0000

  /** floatval, on integers. */
  function ToNumber(v: Value): int
  {
    match v
    case Null => 0
    case Bool(b) => if b then 1 else 0
    case Int(i) => i
    case Str(s) => StrToInt(s)
  }

  /** strval. */
  function ToStr(v: Value): string
  {
    match v
    case Null => ""
    case Bool(b) => if b then "1" else ""
    case Int(i) => IntToString(i)
    case Str(s) => s
  }

  /** (bool) conversion. */
  predicate Truthy(v: Value)
  {
    match v
    case Null => false
    case Bool(b) => b
    case Int(i) => i != 0
    case Str(s) => s != "" && s != "0"
  }

  function Sign(x: int): int
  {
    if x < 0 then -1 else if x > 0 then 1 else 0
  }

  function CompareInts(a: int, b: int): int
  {
    Sign(a - b)
  }

  function CompareBools(a: bool, b: bool): int
  {
    CompareInts(if a then 1 else 0, if b then 1 else 0)
  }

  /** Byte-wise string comparison: the first differing character decides,
      otherwise the shorter string is smaller. */
  function CompareText(a: string, b: string): (r: int)
    ensures -1 <= r <= 1
    ensures r == 0 <==> a == b
  {
    if a == [] && b == [] then 0
    else if a == [] then -1
    else if b == [] then 1
    else if a[0] < b[0] then -1
    else if a[0] > b[0] then 1
    else
      var r := CompareText(a[1..], b[1..]);
      assert a == [a[0]] + a[1..] && b == [b[0]] + b[1..];
      r
  }

  /** Two strings compare as numbers when both are numeric, as text otherwise. */
  function CompareStrings(a: string, b: string): int
  {
    if IsNumeric(a) && IsNumeric(b) then CompareInts(StrToInt(a), StrToInt(b)) else CompareText(a, b)
  }

  /** PHP 7's loose comparison `$a <=> $b` on scalars: -1, 0 or 1.
      Null against a string reads as the empty string; any other comparison
      involving Null or a boolean is a boolean comparison; an integer against
      a string reads the string as a number. */
  function Compare(a: Value, b: Value): (r: int)
    ensures -1 <= r <= 1
  {
    match (a, b)
    case (Str(x), Str(y)) => CompareStrings(x, y)
    case (Null, Str(y)) => CompareStrings("", y)
    case (Str(x), Null) => CompareStrings(x, "")
    case (Int(x), Int(y)) => CompareInts(x, y)
    case (Int(x), Str(y)) => CompareInts(x, StrToInt(y))
    case (Str(x), Int(y)) => CompareInts(StrToInt(x), y)
    case _ => CompareBools(Truthy(a), Truthy(b))
  }

  /** `$a == $b`. */
  predicate LooseEquals(a: Value, b: Value)
  {
    Compare(a, b) == 0
  }

  lemma {:induction false} CompareTextAntisymmetric(a: string, b: string)
    ensures CompareText(a, b) == -CompareText(b, a)
  {
    if a != [] && b != [] && a[0] == b[0] {
      CompareTextAntisymmetric(a[1..], b[1..]);
    }
  }

  /** The loose comparison is antisymmetric and reflexive: swapping the
      operands negates it, and every value equals itself. */
  lemma CompareAntisymmetric(a: Value, b: Value)
    ensures Compare(a, b) == -Compare(b, a)
    ensures Compare(a, a) == 0
  {
    match (a, b)
    case (Str(x), Str(y)) => CompareTextAntisymmetric(x, y);
    case (Null, Str(y)) => CompareTextAntisymmetric("", y);
    case (Str(x), Null) => CompareTextAntisymmetric(x, "");
    case _ =>
  }

  /** The loose order is not transitive in general, but it is on integers. */
  lemma CompareTransitiveOnInts(a: Value, b: Value, c: Value)
    requires a.Int? && b.Int? && c.Int?
    requires Compare(a, b) <= 0 && Compare(b, c) <= 0
    ensures Compare(a, c) <= 0
  {
  }

  lemma {:induction false} CompareTextTransitive(a: string, b: string, c: string)
    requires CompareText(a, b) <= 0 && CompareText(b, c) <= 0
    ensures CompareText(a, c) <= 0
  {
    if a != [] && b != [] && c != [] && a[0] == b[0] && b[0] == c[0] {
      CompareTextTransitive(a[1..], b[1..], c[1..]);
    }
  }

  /** ... and on strings none of which is numeric. */
  lemma CompareTransitiveOnText(a: Value, b: Value, c: Value)
    requires a.Str? && b.Str? && c.Str?
    requires !IsNumeric(a.s) && !IsNumeric(b.s) && !IsNumeric(c.s)
    requires Compare(a, b) <= 0 && Compare(b, c) <= 0
    ensures Compare(a, c) <= 0
  {
    CompareTextTransitive(a.s, b.s, c.s);
  }

  /** A counterexample to transitivity: null == 0 and 0 == "a", yet null < "a". */
  lemma CompareNotTransitive()
    ensures LooseEquals(Null, Int(0)) && LooseEquals(Int(0), Str("a"))
    ensures Compare(Null, Str("a")) == -1
  {
    assert DigitRun("a") == 0;
    assert !IsNumeric("");
  }

  // ---------------------------------------------------------------------
  // Array keys

  /** What a PHP array key can be. */
  datatype Key = IntKey(n: int) | StrKey(s: string)

  /** A string PHP turns into an integer key: "0", or an optional minus and a
      digit string without leading zeros, within the 64-bit range. */
  predicate IsCanonicalInt(s: string)
  {
    && IsNumeric(s)
    && (s[0] != '+')
    && (var body := SignAndBody(s).1;
        (body[0] != '0' || s == "0"))
    && PHP_INT_MIN <= StrToInt(s) <= PHP_INT_MAX
  }

  /** The key `$new[$value]` stores a value under. */
  function KeyOf(v: Value): Key
  {
    match v
    case Null => StrKey("")
    case Bool(b) => IntKey(if b then 1 else 0)
    case Int(i) => IntKey(i)
    case Str(s) => if IsCanonicalInt(s) then IntKey(StrToInt(s)) else StrKey(s)
  }

  /** Whether PHP 7's array_key_exists refuses v as a key: it accepts
      strings, integers and null, and for a boolean warns and answers
      false. */
  predicate RefusedKey(v: Value)
  {
    v.Bool?
  }

  /** The value a `foreach ($new as $key => ...)` hands back for a key. */
  function KeyValue(k: Key): Value
  {
    match k
    case IntKey(n) => Int(n)
    case StrKey(s) => Str(s)
  }

  /** The key written back in place of a value is loosely equal to it, and
      storing it again gives the same key. */
  lemma KeyValueLooselyEqual(v: Value)
    ensures LooseEquals(KeyValue(KeyOf(v)), v)
    ensures KeyOf(KeyValue(KeyOf(v))) == KeyOf(v)
  {
    match v
    case Str(s) =>
      if !IsCanonicalInt(s) {
        CompareAntisymmetric(v, v);
      }
    case _ =>
  }
}
