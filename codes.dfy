/** The human-readable codes `REQ000013` / `AST000007`: a fixed prefix and
    the row number written in decimal, left-padded with '0' to six digits by
    PHP's `str_pad(..., STR_PAD_LEFT)`, which never truncates. */
module Codes {
  import opened Schema

  predicate IsDigit(c: char)
  {
    '0' <= c <= '9'
  }

  predicate AllDigits(s: string)
  {
    forall i :: 0 <= i < |s| ==> IsDigit(s[i])
  }

  function DigitChar(d: nat): (c: char)
    requires d < 10
    ensures IsDigit(c)
  {
    ('0' as int + d) as char
  }

  function DigitValue(c: char): (d: nat)
    requires IsDigit(c)
    ensures d < 10 && DigitChar(d) == c
  {
    c as int - '0' as int
  }

  /** PHP `(string) $n` for a non-negative integer: decimal digits with no
      leading zero. */
  function Decimal(n: nat): (s: string)
    ensures 1 <= |s|
    ensures AllDigits(s)
    ensures |s| > 1 ==> s[0] != '0'
  {
    if n < 10 then [DigitChar(n)] else Decimal(n / 10) + [DigitChar(n % 10)]
  }

  /** The value of a string of decimal digits; leading zeros count for nothing. */
  function ParseDigits(s: string): nat
    requires AllDigits(s)
  {
    if s == [] then 0 else ParseDigits(s[..|s| - 1]) * 10 + DigitValue(s[|s| - 1])
  }

  function Pow10(k: nat): (p: nat)
    ensures p >= 1
  {
    if k == 0 then 1 else 10 * Pow10(k - 1)
  }

  /** `Decimal` and `ParseDigits` are inverse. */
  lemma {:induction false} ParseDecimal(n: nat)
    ensures ParseDigits(Decimal(n)) == n
  {
    if n >= 10 {
      ParseDecimal(n / 10);
      var s := Decimal(n);
      assert s[..|s| - 1] == Decimal(n / 10);
    }
  }

  /** A number has at most `k` digits exactly when it is below 10^k. */
  lemma {:induction false} DecimalLength(n: nat, k: nat)
    requires k >= 1
    ensures |Decimal(n)| <= k <==> n < Pow10(k)
  {
    if n >= 10 {
      if k == 1 {
        assert |Decimal(n)| >= 2 by { assert Decimal(n) == Decimal(n / 10) + [DigitChar(n % 10)]; }
      } else {
        DecimalLength(n / 10, k - 1);
      }
    }
  }

  function Zeros(k: nat): (z: string)
    ensures |z| == k && AllDigits(z)
    ensures forall i :: 0 <= i < k ==> z[i] == '0'
  {
    seq(k, _ => '0')
  }

  lemma {:induction false} ParseZeros(k: nat)
    ensures ParseDigits(Zeros(k)) == 0
  {
    if k > 0 {
      ParseZeros(k - 1);
      assert Zeros(k)[..k - 1] == Zeros(k - 1);
    }
  }

  /** Padding with zeros on the left does not change the value. */
  lemma {:induction false} ParseLeadingZeros(k: nat, s: string)
    requires AllDigits(s)
    ensures AllDigits(Zeros(k) + s)
    ensures ParseDigits(Zeros(k) + s) == ParseDigits(s)
  {
    var z := Zeros(k) + s;
    assert AllDigits(z) by {
      forall i | 0 <= i < |z| ensures IsDigit(z[i]) {
        if i >= k { assert z[i] == s[i - k]; }
      }
    }
    if s == [] {
      assert z == Zeros(k);
      ParseZeros(k);
    } else {
      ParseLeadingZeros(k, s[..|s| - 1]);
      assert z[..|z| - 1] == Zeros(k) + s[..|s| - 1];
    }
  }

  /** PHP `str_pad($s, $width, $pad, STR_PAD_LEFT)` with a one-character pad:
      the string is returned unchanged when it is already `width` long. */
  function PadLeft(s: string, width: nat, pad: char): (r: string)
    ensures |r| == if |s| >= width then |s| else width
    ensures r[|r| - |s|..] == s
    ensures forall i :: 0 <= i < |r| - |s| ==> r[i] == pad
  {
    if |s| >= width then s else seq(width - |s|, _ => pad) + s
  }

  const CodeWidth: nat := 6

  /** `prefix . str_pad((string) $n, 6, '0', STR_PAD_LEFT)`. */
  function Code(prefix: string, n: nat): (code: string)
    ensures |code| >= |prefix| + CodeWidth
    ensures code[..|prefix|] == prefix
    ensures AllDigits(code[|prefix|..])
  {
    var digits := Decimal(n);
    var padded := PadLeft(digits, CodeWidth, '0');
    assert AllDigits(padded) by {
      forall i | 0 <= i < |padded| ensures IsDigit(padded[i]) {
        if i >= |padded| - |digits| {
          assert padded[i] == padded[|padded| - |digits|..][i - (|padded| - |digits|)];
        }
      }
    }
    assert (prefix + padded)[|prefix|..] == padded;
    prefix + padded
  }

  /** Reading a code back: the prefix, then nothing but digits. */
  function ParseCode(prefix: string, code: string): (n: Option<nat>)
    ensures n.Some? ==> |code| > |prefix| && code[..|prefix|] == prefix
  {
    if |code| > |prefix| && code[..|prefix|] == prefix && AllDigits(code[|prefix|..])
    then Some(ParseDigits(code[|prefix|..]))
    else None
  }

  /** Round trip: stripping the prefix and parsing the digits gives back the number. */
  lemma CodeRoundTrip(prefix: string, n: nat)
    ensures ParseCode(prefix, Code(prefix, n)) == Some(n)
  {
    var digits := Decimal(n);
    var padded := PadLeft(digits, CodeWidth, '0');
    var k := |padded| - |digits|;
    assert padded == Zeros(k) + digits;
    assert Code(prefix, n)[|prefix|..] == padded;
    ParseLeadingZeros(k, digits);
    ParseDecimal(n);
  }

  /** Different numbers give different codes. */
  lemma CodeInjective(prefix: string, m: nat, n: nat)
    requires Code(prefix, m) == Code(prefix, n)
    ensures m == n
  {
    CodeRoundTrip(prefix, m);
    CodeRoundTrip(prefix, n);
  }

  /** The code is exactly prefix + 6 digits up to 999999, and longer (never
      truncated) beyond. */
  lemma CodeLength(prefix: string, n: nat)
    ensures n <= 999999 ==> |Code(prefix, n)| == |prefix| + 6
    ensures n > 999999 ==> |Code(prefix, n)| == |prefix| + |Decimal(n)| > |prefix| + 6
  {
    assert Pow10(6) == 1000000;
    DecimalLength(n, 6);
  }

  /** The largest id. */
  function MaxOf(ids: seq<nat>): (m: nat)
    requires ids != []
    ensures m in ids
    ensures forall i :: i in ids ==> i <= m
  {
    if |ids| == 1 then ids[0]
    else
      var rest := MaxOf(ids[1..]);
      assert ids == [ids[0]] + ids[1..];
      if ids[0] >= rest then ids[0] else rest
  }

  /** `orderBy('id', 'desc')->first()` then `id + 1`, or 1 for an empty table. */
  function NextNumber(ids: seq<nat>): (n: nat)
    ensures n >= 1
    ensures ids == [] ==> n == 1
    ensures ids != [] ==> n - 1 in ids
    ensures forall i :: i in ids ==> i < n
  {
    if ids == [] then 1 else MaxOf(ids) + 1
  }
}
