/** The string operations the monitors rely on: substring search, joining,
    decimal rendering of integers, and the small parsing toolkit used to
    read a rendered report back. */
module Text {
  import opened Common

  /** `p` occurs in `s` starting at index `i`. */
  predicate OccursAt(s: string, p: string, i: int)
  {
    0 <= i && i + |p| <= |s| && s[i..i + |p|] == p
  }

  /** Kotlin's `String.contains`. */
  predicate Contains(s: string, p: string)
  {
    exists i :: 0 <= i <= |s| - |p| && OccursAt(s, p, i)
  }

  /** Kotlin's `joinToString(sep)`: the parts in order, `sep` between neighbours. */
  function Join(sep: string, parts: seq<string>): string
  {
    if |parts| == 0 then ""
    else if |parts| == 1 then parts[0]
    else parts[0] + sep + Join(sep, parts[1..])
  }

  predicate IsDigit(c: char) {
    '0' <= c <= '9'
  }

  predicate AllDigits(s: string) {
    forall i | 0 <= i < |s| :: IsDigit(s[i])
  }

  function DigitChar(d: int): (c: char)
    requires 0 <= d < 10
    ensures IsDigit(c)
  {
    ('0' as int + d) as char
  }

  function DigitValue(c: char): (d: int)
    requires IsDigit(c)
    ensures 0 <= d < 10
  {
    c as int - '0' as int
  }

  /** Decimal digits of `n`, most significant first, no leading zeros. */
  function NatToString(n: nat): (s: string)
    ensures |s| > 0 && AllDigits(s)
    ensures |s| > 1 ==> s[0] != '0'
  {
    if n < 10 then [DigitChar(n)] else NatToString(n / 10) + [DigitChar(n % 10)]
  }

  /** Kotlin's `Long.toString()`: a minus sign for negative numbers, then the digits. */
  function IntToString(n: int): (s: string)
    ensures |s| > 0
    ensures forall i | 0 <= i < |s| :: IsDigit(s[i]) || (i == 0 && s[i] == '-')
    ensures s[0] == '-' <==> n < 0
  {
    if n < 0 then "-" + NatToString(-n) else NatToString(n)
  }

  /** The value of a string of decimal digits. */
  function ParseDigits(s: string): nat
    requires AllDigits(s)
  {
    if |s| == 0 then 0 else 10 * ParseDigits(s[..|s| - 1]) + DigitValue(s[|s| - 1])
  }

  /** Reads an optionally signed decimal integer; `None` for anything else. */
  function ParseInt(s: string): Option<int>
  {
    if |s| > 1 && s[0] == '-' && AllDigits(s[1..]) then Some(0 - ParseDigits(s[1..]) as int)
    else if |s| > 0 && AllDigits(s) then Some(ParseDigits(s))
    else None
  }

  /** Splits `s` at the first occurrence of `c` into the text before and after it. */
  function SplitAt(s: string, c: char): Option<(string, string)>
  {
    if |s| == 0 then None
    else if s[0] == c then Some(([], s[1..]))
    else
      match SplitAt(s[1..], c)
      case None => None
      case Some(parts) => Some(([s[0]] + parts.0, parts.1))
  }

  /** The rest of `s` after the prefix `p`, if `s` starts with `p`. */
  function StripPrefix(s: string, p: string): (r: Option<string>)
    ensures r.Some? <==> p <= s
    ensures r.Some? ==> s == p + r.value
  {
    if p <= s then Some(s[|p|..]) else None
  }

  /** The front of `s` before the suffix `p`, if `s` ends with `p`. */
  function StripSuffix(s: string, p: string): (r: Option<string>)
    ensures r.Some? <==> |p| <= |s| && s[|s| - |p|..] == p
    ensures r.Some? ==> s == r.value + p
  {
    if |p| <= |s| && s[|s| - |p|..] == p then Some(s[..|s| - |p|]) else None
  }

  lemma {:induction false} ParseNatToString(n: nat)
    ensures ParseDigits(NatToString(n)) == n
  {
    if n >= 10 {
      var s := NatToString(n / 10);
      var t := s + [DigitChar(n % 10)];
      assert t[..|t| - 1] == s;
      ParseNatToString(n / 10);
    }
  }

  /** Rendering an integer and reading it back gives the integer. */
  lemma ParseIntToString(n: int)
    ensures ParseInt(IntToString(n)) == Some(n)
  {
    if n < 0 {
      var s := IntToString(n);
      assert s[1..] == NatToString(-n);
      ParseNatToString(-n);
    } else {
      ParseNatToString(n);
    }
  }

  /** A text contains every piece it is built from. */
  lemma ContainsMiddle(a: string, p: string, b: string)
    ensures Contains(a + p + b, p)
  {
    assert OccursAt(a + p + b, p, |a|);
  }

  lemma {:induction false} SplitAtFirst(a: string, c: char, b: string)
    requires c !in a
    ensures SplitAt(a + [c] + b, c) == Some((a, b))
  {
    var s := a + [c] + b;
    if |a| == 0 {
      assert s[1..] == b;
    } else {
      assert s[0] == a[0];
      assert s[1..] == a[1..] + [c] + b;
      SplitAtFirst(a[1..], c, b);
      assert [a[0]] + a[1..] == a;
    }
  }
}
