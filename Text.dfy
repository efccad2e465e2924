/**
 * String helpers shared by the model: the decimal text that C# string interpolation
 * produces for an `int` (with a parser that inverts it), and splitting at a separator
 * character, used to read request paths back.
 */
module Text {
  import opened Wrappers

  predicate IsDigit(c: char) {
    '0' <= c <= '9'
  }

  function DigitChar(d: nat): (c: char)
    requires d < 10
    ensures IsDigit(c)
  {
    "0123456789"[d]
  }

  function DigitValue(c: char): (d: nat)
    requires IsDigit(c)
    ensures d < 10 && DigitChar(d) == c
  {
    (c as int - '0' as int) as nat
  }

  /** Decimal digits of `n`, most significant first, without leading zeros. */
  function NatDigits(n: nat): (s: string)
    ensures |s| > 0
    ensures forall i :: 0 <= i < |s| ==> IsDigit(s[i])
    decreases n
  {
    if n < 10 then [DigitChar(n)] else NatDigits(n / 10) + [DigitChar(n % 10)]
  }

  /** The text `$"{i}"` produces for an integer: an optional minus sign, then the digits of |i|. */
  function IntText(i: int): (s: string)
    ensures |s| > 0
    ensures forall k :: 0 <= k < |s| ==> IsDigit(s[k]) || (k == 0 && s[k] == '-')
  {
    if i < 0 then "-" + NatDigits(-i) else NatDigits(i)
  }

  /** The value of a non-empty run of decimal digits. */
  function DigitsValue(s: string): (n: nat)
    requires forall i :: 0 <= i < |s| ==> IsDigit(s[i])
    decreases |s|
  {
    if |s| == 0 then 0 else 10 * DigitsValue(s[..|s| - 1]) + DigitValue(s[|s| - 1])
  }

  predicate AllDigits(s: string) {
    |s| > 0 && forall i :: 0 <= i < |s| ==> IsDigit(s[i])
  }

  /** Reads an integer written as an optional `-` followed by at least one digit. */
  function ParseInt(s: string): (r: Option<int>)
    ensures r.Some? <==> AllDigits(s) || (|s| > 0 && s[0] == '-' && AllDigits(s[1..]))
  {
    if AllDigits(s) then Some(DigitsValue(s))
    else if |s| > 0 && s[0] == '-' && AllDigits(s[1..]) then Some(-(DigitsValue(s[1..]) as int))
    else None
  }

  lemma {:induction false} NatDigitsRoundTrip(n: nat)
    ensures DigitsValue(NatDigits(n)) == n
    decreases n
  {
    if n >= 10 {
      NatDigitsRoundTrip(n / 10);
      var s := NatDigits(n);
      assert s[..|s| - 1] == NatDigits(n / 10);
    }
  }

  lemma NegativeTextRoundTrip(n: nat)
    requires n > 0
    ensures ParseInt("-" + NatDigits(n)) == Some(-(n as int))
  {
    var s := "-" + NatDigits(n);
    NatDigitsRoundTrip(n);
    assert s[1..] == NatDigits(n);
    assert !AllDigits(s) by { assert s[0] == '-'; }
  }

  /** Reading back the text of an integer yields the integer. */
  lemma IntTextRoundTrip(i: int)
    ensures ParseInt(IntText(i)) == Some(i)
  {
    if i < 0 {
      NegativeTextRoundTrip(-i);
    } else {
      NatDigitsRoundTrip(i);
    }
  }

  /** The text of an integer holds nothing but digits and a leading minus sign. */
  lemma IntTextExcludes(i: int, c: char)
    requires !IsDigit(c) && c != '-'
    ensures c !in IntText(i)
  {
  }

  /** Splits `s` at the first occurrence of `sep`, or `None` when `sep` does not occur. */
  function SplitFirst(s: string, sep: char): (r: Option<(string, string)>)
    ensures r.None? <==> sep !in s
    ensures r.Some? ==> sep !in r.value.0 && s == r.value.0 + [sep] + r.value.1
    decreases |s|
  {
    if |s| == 0 then None
    else if s[0] == sep then Some(([], s[1..]))
    else match SplitFirst(s[1..], sep)
      case None => None
      case Some((a, b)) => Some(([s[0]] + a, b))
  }

  /** The first occurrence of a separator absent from the prefix is right after the prefix. */
  lemma {:induction false} SplitFirstAfter(a: string, sep: char, b: string)
    requires sep !in a
    ensures SplitFirst(a + [sep] + b, sep) == Some((a, b))
    decreases |a|
  {
    if |a| > 0 {
      assert (a + [sep] + b)[1..] == a[1..] + [sep] + b;
      SplitFirstAfter(a[1..], sep, b);
      assert [a[0]] + a[1..] == a;
    }
  }

  /** All the fields of `s` separated by `sep`; always at least one. */
  function SplitAll(s: string, sep: char): (r: seq<string>)
    ensures |r| > 0
    ensures forall i :: 0 <= i < |r| ==> sep !in r[i]
    decreases |s|
  {
    match SplitFirst(s, sep)
    case None => [s]
    case Some((a, b)) => [a] + SplitAll(b, sep)
  }

  /** Joins fields with `sep` between them; `SplitAll` inverts it when no field holds `sep`. */
  function Join(fields: seq<string>, sep: char): string
    requires |fields| > 0
  {
    if |fields| == 1 then fields[0] else fields[0] + [sep] + Join(fields[1..], sep)
  }

  lemma {:induction false} SplitAllJoin(fields: seq<string>, sep: char)
    requires |fields| > 0
    requires forall i :: 0 <= i < |fields| ==> sep !in fields[i]
    ensures SplitAll(Join(fields, sep), sep) == fields
    decreases |fields|
  {
    if |fields| == 1 {
      assert SplitFirst(fields[0], sep) == None;
    } else {
      SplitFirstAfter(fields[0], sep, Join(fields[1..], sep));
      SplitAllJoin(fields[1..], sep);
    }
  }
}
