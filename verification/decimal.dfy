/**
 Decimal text of non-negative integers: Python's `str(n)` for an `int n >= 0`,
 `str.zfill`, and the inverse parse used to state round trips.
 */
module Decimal {

  predicate IsDigit(c: char) {
    '0' <= c <= '9'
  }

  predicate AllDigits(s: string) {
    forall i :: 0 <= i < |s| ==> IsDigit(s[i])
  }

  function DigitValue(c: char): (d: nat)
    requires IsDigit(c)
    ensures d < 10
  {
    c as int - '0' as int
  }

  function DigitChar(d: nat): (c: char)
    requires d < 10
    ensures IsDigit(c) && DigitValue(c) == d
  {
    ('0' as int + d) as char
  }

  function Pow10(k: nat): (r: nat)
    ensures r >= 1
  {
    if k == 0 then 1 else 10 * Pow10(k - 1)
  }

  /** Powers of ten order their exponents. */
  lemma {:induction false} Pow10Below(a: nat, b: nat)
    requires Pow10(a) < Pow10(b)
    ensures a < b
  {
    if a > 0 {
      Pow10Below(a - 1, b - 1);
    }
  }

  /** A number below 10^k prints in at most k digits. */
  lemma StrLengthBound(n: nat, k: nat)
    requires 1 <= k && n < Pow10(k)
    ensures |Str(n)| <= k
  {
    var m := |Str(n)|;
    if m > 1 {
      Pow10Below(m - 1, k);
    }
  }

  /** `k` copies of the character '0'. */
  function Zeros(k: nat): (z: string)
    ensures |z| == k
    ensures forall i :: 0 <= i < k ==> z[i] == '0'
  {
    if k == 0 then [] else Zeros(k - 1) + ['0']
  }

  /** Python's `str(n)` for a non-negative integer: no sign, no leading zero. */
  function Str(n: nat): (s: string)
    ensures 1 <= |s| && AllDigits(s)
    ensures |s| > 1 ==> s[0] != '0'
    ensures n < Pow10(|s|)
    ensures |s| > 1 ==> Pow10(|s| - 1) <= n
  {
    if n < 10 then [DigitChar(n)] else Str(n / 10) + [DigitChar(n % 10)]
  }

  /** The value of a string of decimal digits, most significant first. */
  function Parse(s: string): (n: nat)
    requires AllDigits(s)
    ensures n < Pow10(|s|)
  {
    if s == [] then 0 else 10 * Parse(s[..|s| - 1]) + DigitValue(s[|s| - 1])
  }

  /**
   Python's `str.zfill(width)`: pads with '0' on the left up to `width`
   characters, keeping a leading sign in front of the padding; a string
   already `width` long or longer is returned unchanged.
   */
  function ZFill(s: string, width: nat): (r: string)
    ensures |r| == if |s| >= width then |s| else width
    ensures |s| < width && (s == [] || (s[0] != '+' && s[0] != '-')) ==>
              r == Zeros(width - |s|) + s
    ensures |s| >= width ==> r == s
    ensures |s| < width && s != [] && (s[0] == '+' || s[0] == '-') ==>
              r == [s[0]] + Zeros(width - |s|) + s[1..]
    ensures AllDigits(s) ==> AllDigits(r) && Parse(r) == Parse(s)
  {
    if |s| >= width then s
    else if |s| > 0 && (s[0] == '+' || s[0] == '-') then [s[0]] + Zeros(width - |s|) + s[1..]
    else
      assert AllDigits(s) ==> AllDigits(Zeros(width - |s|) + s) && Parse(Zeros(width - |s|) + s) == Parse(s) by {
        if AllDigits(s) {
          ParseLeadingZeros(width - |s|, s);
        }
      }
      Zeros(width - |s|) + s
  }

  /** Parsing inverts printing. */
  lemma {:induction false} ParseStr(n: nat)
    ensures Parse(Str(n)) == n
  {
    var s := Str(n);
    if n >= 10 {
      ParseStr(n / 10);
      assert s[..|s| - 1] == Str(n / 10);
    }
  }

  /** A run of zeros parses to zero. */
  lemma {:induction false} ParseZeros(k: nat)
    ensures AllDigits(Zeros(k)) && Parse(Zeros(k)) == 0
  {
    if k > 0 {
      ParseZeros(k - 1);
      assert Zeros(k)[..k - 1] == Zeros(k - 1);
    }
  }

  /** Leading zeros do not change the parsed value. */
  lemma {:induction false} ParseLeadingZeros(k: nat, s: string)
    requires AllDigits(s)
    ensures AllDigits(Zeros(k) + s)
    ensures Parse(Zeros(k) + s) == Parse(s)
    decreases |s|
  {
    var t := Zeros(k) + s;
    if s == [] {
      assert t == Zeros(k);
      ParseZeros(k);
    } else {
      var init := s[..|s| - 1];
      assert AllDigits(init);
      ParseLeadingZeros(k, init);
      assert t[..|t| - 1] == Zeros(k) + init;
      assert t[|t| - 1] == s[|s| - 1];
      calc {
        Parse(t);
        10 * Parse(Zeros(k) + init) + DigitValue(s[|s| - 1]);
        10 * Parse(init) + DigitValue(s[|s| - 1]);
        Parse(s);
      }
    }
  }

  /** Two digit strings of the same length with the same value are equal. */
  lemma {:induction false} ParseInjective(a: string, b: string)
    requires AllDigits(a) && AllDigits(b) && |a| == |b|
    requires Parse(a) == Parse(b)
    ensures a == b
  {
    if a != [] {
      var n := |a|;
      assert DigitValue(a[n - 1]) == Parse(a) % 10 == DigitValue(b[n - 1]);
      ParseInjective(a[..n - 1], b[..n - 1]);
      assert a == a[..n - 1] + [a[n - 1]];
      assert b == b[..n - 1] + [b[n - 1]];
    }
  }

}
