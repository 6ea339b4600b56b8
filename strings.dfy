/** The string primitives the engine relies on: strtolower, trim(s, "'"),
    the two-part explode('.', name), the integer reading and printing
    that PHP's loose typing performs, and PHP 7's substr and str_ireplace. */
module Strings {
  import opened Wrappers

  /** strtolower on one character: ASCII letters only. */
  function LowerChar(c: char): char
  {
    if 'A' <= c <= 'Z' then (c as int + 32) as char else c
  }

  /** strtolower: the result holds no ASCII capital, and differs from s
      only where s holds one. */
  function Lower(s: string): (r: string)
    ensures |r| == |s| && forall i {:trigger r[i]} :: 0 <= i < |s| ==> r[i] == LowerChar(s[i])
    ensures IsLower(r)
    ensures forall i :: 0 <= i < |s| && !('A' <= s[i] <= 'Z') ==> r[i] == s[i]
  {
    seq(|s|, i requires 0 <= i < |s| => LowerChar(s[i]))
  }

  predicate IsLower(s: string)
  {
    forall i :: 0 <= i < |s| ==> !('A' <= s[i] <= 'Z')
  }

  /** Lowering is idempotent and leaves lower-case text alone. */
  lemma LowerIsLower(s: string)
    ensures IsLower(Lower(s))
    ensures Lower(Lower(s)) == Lower(s)
    ensures IsLower(s) ==> Lower(s) == s
  {
  }

  /** trim(s, "'"): drops every leading and trailing single quote. */
  function TrimQuotes(s: string): (r: string)
    ensures |r| <= |s|
    ensures r == [] || (r[0] != '\'' && r[|r| - 1] != '\'')
    ensures s == [] || (s[0] != '\'' && s[|s| - 1] != '\'') ==> r == s
  {
    var i := QuoteRunEnd(s, 0);
    var j := QuoteRunStart(s, |s|);
    if i < j then s[i..j] else []
  }

  /** First position at or after i that is not a single quote. */
  function QuoteRunEnd(s: string, i: nat): (r: nat)
    requires i <= |s|
    ensures i <= r <= |s| && (r < |s| ==> s[r] != '\'')
    ensures forall k :: i <= k < r ==> s[k] == '\''
    decreases |s| - i
  {
    if i < |s| && s[i] == '\'' then QuoteRunEnd(s, i + 1) else i
  }

  /** Position just after the last character before j that is not a single
      quote. */
  function QuoteRunStart(s: string, j: nat): (r: nat)
    requires j <= |s|
    ensures r <= j && (r > 0 ==> s[r - 1] != '\'')
    ensures forall k :: r <= k < j ==> s[k] == '\''
  {
    if j > 0 && s[j - 1] == '\'' then QuoteRunStart(s, j - 1) else j
  }

  /** A quoted literal loses exactly its quotes. */
  lemma TrimQuotedLiteral(x: string)
    requires x == [] || (x[0] != '\'' && x[|x| - 1] != '\'')
    ensures TrimQuotes("'" + x + "'") == x
  {
    var q := "'" + x + "'";
    assert q[0] == '\'' && q[|q| - 1] == '\'';
    assert QuoteRunEnd(q, 0) == QuoteRunEnd(q, 1);
    assert QuoteRunStart(q, |q|) == QuoteRunStart(q, |q| - 1);
    if x != [] {
      assert q[1] == x[0] && q[|q| - 2] == x[|x| - 1];
      assert q[1..|q| - 1] == x;
    }
  }

  /** Position of the first '.', or |s| when there is none (strpos). */
  function IndexOfDot(s: string): (r: nat)
    ensures r <= |s|
    ensures r < |s| ==> s[r] == '.'
    ensures forall i :: 0 <= i < r ==> s[i] != '.'
  {
    if s == [] then 0 else if s[0] == '.' then 0 else 1 + IndexOfDot(s[1..])
  }

  predicate HasDot(s: string)
  {
    IndexOfDot(s) < |s|
  }

  /** `list($prefix, $col) = explode('.', $name)`: the text before the first
      dot, and the text between the first dot and the next one (or the end).
      Anything after a second dot is dropped. */
  function Prefix(s: string): (r: string)
    ensures !HasDot(r)
  {
    var r := s[..IndexOfDot(s)];
    NoDotMeansIndexAtEnd(r);
    r
  }

  function Short(s: string): (r: string)
    requires HasDot(s)
    ensures !HasDot(r)
  {
    var rest := s[IndexOfDot(s) + 1..];
    var r := rest[..IndexOfDot(rest)];
    assert forall i :: 0 <= i < |r| ==> r[i] != '.';
    NoDotMeansIndexAtEnd(r);
    r
  }

  /** A dot anywhere in the text is enough for it to have one. */
  lemma DotAt(s: string, k: nat)
    requires k < |s| && s[k] == '.'
    ensures HasDot(s)
  {
  }

  lemma NoDotMeansIndexAtEnd(s: string)
    requires forall i :: 0 <= i < |s| ==> s[i] != '.'
    ensures IndexOfDot(s) == |s|
  {
  }

  /** Splitting a qualified name made of a dot-free prefix and a dot-free
      short name gives the two parts back. */
  lemma {:induction false} SplitQualified(p: string, c: string)
    requires !HasDot(p) && !HasDot(c)
    ensures HasDot(p + "." + c)
    ensures Prefix(p + "." + c) == p && Short(p + "." + c) == c
  {
    var s := p + "." + c;
    assert s == p + ("." + c);
    IndexOfDotOfConcat(p, "." + c);
    assert IndexOfDot(s) == |p|;
    assert s[|p| + 1..] == c;
  }

  lemma {:induction false} IndexOfDotOfConcat(p: string, q: string)
    requires !HasDot(p)
    ensures IndexOfDot(p + q) == |p| + IndexOfDot(q)
  {
    if p != [] {
      assert (p + q)[1..] == p[1..] + q;
      assert IndexOfDot(p) == 1 + IndexOfDot(p[1..]);
      IndexOfDotOfConcat(p[1..], q);
    } else {
      assert p + q == q;
    }
  }

  // ---------------------------------------------------------------------
  // Integers in text

  predicate IsDigit(c: char)
  {
    '0' <= c <= '9'
  }

  predicate AllDigits(s: string)
  {
    forall i :: 0 <= i < |s| ==> IsDigit(s[i])
  }

  /** Decimal value of a run of digits. */
  function DigitsValue(s: string): nat
    requires AllDigits(s)
  {
    if s == [] then 0 else 10 * DigitsValue(s[..|s| - 1]) + (s[|s| - 1] as int - '0' as int)
  }

  /** Number of digits at the start of s. */
  function DigitRun(s: string): (r: nat)
    ensures r <= |s| && AllDigits(s[..r])
    ensures r < |s| ==> !IsDigit(s[r])
  {
    if s != [] && IsDigit(s[0]) then
      var r := 1 + DigitRun(s[1..]);
      assert s[..r] == [s[0]] + s[1..][..r - 1];
      r
    else 0
  }

  /** Whether the text starts with a minus sign, and the text after an
      optional sign. */
  function SignAndBody(s: string): (bool, string)
  {
    if s != [] && s[0] == '-' then (true, s[1..])
    else if s != [] && s[0] == '+' then (false, s[1..])
    else (false, s)
  }

  /** The integer PHP reads from the start of a string when it converts it
      to a number: an optional sign, then the leading digits; 0 when there
      are none ("12abc" reads 12, "abc" reads 0). */
  function StrToInt(s: string): int
  {
    var (negative, body) := SignAndBody(s);
    var d: int := DigitsValue(body[..DigitRun(body)]);
    if negative then -d else d
  }

  /** A numeric string: an optional sign followed by one or more digits. */
  predicate IsNumeric(s: string)
  {
    var body := SignAndBody(s).1;
    |body| > 0 && AllDigits(body)
  }

  function DigitChar(d: nat): (c: char)
    requires d < 10
    ensures IsDigit(c) && c as int - '0' as int == d
  {
    ('0' as int + d) as char
  }

  /** strval of a natural number. */
  function NatToString(n: nat): (r: string)
    ensures |r| > 0 && AllDigits(r)
  {
    if n < 10 then [DigitChar(n)] else NatToString(n / 10) + [DigitChar(n % 10)]
  }

  /** strval of an integer. */
  function IntToString(i: int): string
  {
    if i < 0 then "-" + NatToString(-i) else NatToString(i)
  }

  lemma {:induction false} NatToStringRoundTrip(n: nat)
    ensures DigitsValue(NatToString(n)) == n
  {
    if n >= 10 {
      NatToStringRoundTrip(n / 10);
      var s := NatToString(n);
      assert s[..|s| - 1] == NatToString(n / 10);
    }
  }

  /** Printing an integer and reading it back gives the integer, and the
      printed form is numeric. */
  lemma IntToStringRoundTrip(i: int)
    ensures IsNumeric(IntToString(i))
    ensures StrToInt(IntToString(i)) == i
  {
    var digits := NatToString(if i < 0 then -i else i);
    NatToStringRoundTrip(if i < 0 then -i else i);
    assert DigitRun(digits) == |digits|;
    assert digits[..|digits|] == digits;
    if i < 0 {
      assert IntToString(i)[1..] == digits;
    }
  }

  // ---------------------------------------------------------------------
  // substr and str_ireplace

  /** The part of an n-character string that PHP 7's substr(s, f, l)
      returns, as bounds [from, to), or None where it returns false. A
      negative f counts from the end (clipped to the start), a negative l
      stops that many characters before the end (an empty part when that
      is before the start), and a length running past the end is cut
      there. The false cases are PHP's three tests in its own order: a
      negative l longer than the string, f past the end, and, for a
      non-negative f only, a negative l reaching back before f. */
  function SubstrBounds(n: nat, f: int, l: int): (r: Option<(nat, nat)>)
    ensures r.Some? ==> r.value.0 <= r.value.1 <= n
    ensures r.None? <==> f > n || (l < 0 && (if f >= 0 then -l > n - f else -l > n))
  {
    if l < 0 && -l > n then None
    else if f > n then None
    else if l < 0 && f >= 0 && -l > n - f then None
    else
      var from: nat := if f >= 0 then f else if -f > n then 0 else n + f;
      if l < 0 then Some((from, if n + l < from then from else n + l))
      else Some((from, if l > n - from then n else from + l))
  }

  /** substr with integer arguments: the text, or None for false. */
  function Substr(s: string, f: int, l: int): Option<string>
  {
    match SubstrBounds(|s|, f, l)
    case None => None
    case Some((a, b)) => Some(s[a..b])
  }

  /** A start inside the string and a non-negative length take at most
      that many characters from the start on. */
  lemma SubstrForward(s: string, f: int, l: int)
    requires 0 <= f <= |s| && l >= 0
    ensures Substr(s, f, l) == Some(s[f..if f + l > |s| then |s| else f + l])
  {
  }

  /** A negative start counts from the end: with a non-negative length it
      is the same as the start |s| + f, one reaching before the beginning
      is the beginning, and with a negative length the part runs from
      |s| + f to |s| + l, empty when that end lies before the start, and
      false only when -l exceeds the whole string. */
  lemma SubstrFromEnd(s: string, f: int, l: int)
    requires f < 0
    ensures -f <= |s| && l >= 0 ==> Substr(s, f, l) == Substr(s, |s| + f, l)
    ensures -f > |s| ==> Substr(s, f, l) == Substr(s, 0, l)
    ensures -f <= |s| && l < 0 ==>
      Substr(s, f, l) == if -l > |s| then None
                         else Some(s[|s| + f..if |s| + l < |s| + f then |s| + f else |s| + l])
  {
  }

  /** A negative length drops that many characters from the end, and is
      false when fewer than that remain after the start. */
  lemma SubstrDropsFromEnd(s: string, f: int, l: int)
    requires 0 <= f <= |s| && l < 0
    ensures -l <= |s| - f ==> Substr(s, f, l) == Some(s[f..|s| + l])
    ensures -l > |s| - f ==> Substr(s, f, l) == None
  {
  }

  /** Cutting a string at k and taking the two halves with substr gives
      the string back. */
  lemma SubstrSplit(s: string, k: nat)
    requires k <= |s|
    ensures Substr(s, 0, k).Some? && Substr(s, k, |s| - k).Some?
    ensures Substr(s, 0, k).value + Substr(s, k, |s| - k).value == s
  {
    assert s[0..k] + s[k..|s|] == s;
  }

  /** Whether x occurs at position i of s, ignoring ASCII case. */
  predicate MatchesAt(s: string, x: string, i: nat)
  {
    i + |x| <= |s| && Lower(s[i..i + |x|]) == Lower(x)
  }

  /** Every occurrence of a non-empty x in s, ignoring ASCII case, replaced
      by rep, scanning left to right without overlap. */
  function ReplaceAll(s: string, x: string, rep: string): string
    requires x != ""
    decreases |s|
  {
    if |s| < |x| then s
    else if MatchesAt(s, x, 0) then rep + ReplaceAll(s[|x|..], x, rep)
    else [s[0]] + ReplaceAll(s[1..], x, rep)
  }

  /** str_ireplace(x, rep, s) on strings: an empty x leaves s alone. */
  function IReplace(s: string, x: string, rep: string): string
  {
    if x == "" then s else ReplaceAll(s, x, rep)
  }

  /** A string in which x never occurs comes back unchanged. */
  lemma {:induction false} ReplaceWithoutMatch(s: string, x: string, rep: string)
    requires forall i: nat :: i + |x| <= |s| ==> !MatchesAt(s, x, i)
    ensures IReplace(s, x, rep) == s
    decreases |s|
  {
    if x != "" && |s| >= |x| {
      assert !MatchesAt(s, x, 0);
      forall i: nat | i + |x| <= |s[1..]|
        ensures !MatchesAt(s[1..], x, i)
      {
        assert s[1..][i..i + |x|] == s[i + 1..i + 1 + |x|];
        assert !MatchesAt(s, x, i + 1);
      }
      ReplaceWithoutMatch(s[1..], x, rep);
      assert [s[0]] + s[1..] == s;
    }
  }

  /** The search text itself, in any case, is replaced whole. */
  lemma ReplaceWhole(x: string, y: string, rep: string)
    requires x != "" && Lower(y) == Lower(x)
    ensures IReplace(y, x, rep) == rep
  {
    assert |y| == |Lower(y)| == |x|;
    assert y[0..|x|] == y;
    assert MatchesAt(y, x, 0);
    assert y[|x|..] == "";
    assert ReplaceAll(y[|x|..], x, rep) == "";
    assert ReplaceAll(y, x, rep) == rep + ReplaceAll(y[|x|..], x, rep);
  }

  /** The case of the search text does not matter. */
  lemma {:induction false} ReplaceIgnoresCase(s: string, x: string, rep: string)
    ensures IReplace(s, Lower(x), rep) == IReplace(s, x, rep)
    decreases |s|
  {
    LowerIsLower(x);
    if x != "" && |s| >= |x| {
      if MatchesAt(s, x, 0) {
        ReplaceIgnoresCase(s[|x|..], x, rep);
      } else {
        ReplaceIgnoresCase(s[1..], x, rep);
      }
    }
  }

  /** A replacement as long as the search text keeps the length. */
  lemma {:induction false} ReplaceKeepsLength(s: string, x: string, rep: string)
    requires |rep| == |x|
    ensures |IReplace(s, x, rep)| == |s|
    decreases |s|
  {
    if x != "" && |s| >= |x| {
      if MatchesAt(s, x, 0) {
        ReplaceKeepsLength(s[|x|..], x, rep);
      } else {
        ReplaceKeepsLength(s[1..], x, rep);
      }
    }
  }
}
