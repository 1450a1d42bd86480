/** Numerals as text, the way Python renders and parses them: `bin(n)` and
    `hex(n)` without their `0b`/`0x` prefix, `int(s, base)`, `str.upper()`
    and `str.lower()`, and the zero padding the helpers do by hand. */
module Digits {

  /** A byte as an integer in [0, 256). */
  type byte = x: int | 0 <= x < 256

  function Pow(b: nat, k: nat): (p: nat)
  {
    if k == 0 then 1 else b * Pow(b, k - 1)
  }

  lemma {:induction false} PowAdd(b: nat, j: nat, k: nat)
    ensures Pow(b, j + k) == Pow(b, j) * Pow(b, k)
    decreases j
  {
    if j > 0 {
      PowAdd(b, j - 1, k);
      assert Pow(b, j + k) == b * Pow(b, j - 1 + k);
    }
  }

  predicate IsHexChar(c: char)
  {
    '0' <= c <= '9' || 'a' <= c <= 'f' || 'A' <= c <= 'F'
  }

  /** The value of a hexadecimal digit, either case (as `int(c, 16)`). */
  function DigitValue(c: char): (d: nat)
    requires IsHexChar(c)
    ensures d < 16
  {
    if '0' <= c <= '9' then c as int - '0' as int
    else if 'a' <= c <= 'f' then c as int - 'a' as int + 10
    else c as int - 'A' as int + 10
  }

  /** The digit Python prints for d: `hex()` and `bin()` use lower case. */
  function DigitChar(d: nat): (c: char)
    requires d < 16
    ensures IsHexChar(c) && DigitValue(c) == d
    ensures !('A' <= c <= 'Z')
  {
    if d < 10 then ('0' as int + d) as char else ('a' as int + d - 10) as char
  }

  predicate IsDigitOf(c: char, base: nat)
  {
    IsHexChar(c) && DigitValue(c) < base
  }

  /** Every character of s is a digit of the given base. */
  predicate AllDigitsOf(s: string, base: nat)
  {
    forall i :: 0 <= i < |s| ==> IsDigitOf(s[i], base)
  }

  function UpperChar(c: char): (u: char)
  {
    if 'a' <= c <= 'z' then (c as int - 32) as char else c
  }

  function LowerChar(c: char): (l: char)
  {
    if 'A' <= c <= 'Z' then (c as int + 32) as char else c
  }

  /** `s.upper()` on ASCII text. */
  function Upper(s: string): (u: string)
  {
    seq(|s|, i requires 0 <= i < |s| => UpperChar(s[i]))
  }

  /** `s.lower()` on ASCII text. */
  function Lower(s: string): (l: string)
  {
    seq(|s|, i requires 0 <= i < |s| => LowerChar(s[i]))
  }

  /** `int(s, base)` for a string of digits, most significant first.
      Python raises on the empty string; callers never pass one. */
  function Parse(s: string, base: nat): (n: nat)
    requires AllDigitsOf(s, base)
  {
    if s == [] then 0 else Parse(s[..|s| - 1], base) * base + DigitValue(s[|s| - 1])
  }

  /** The digits of `bin(n)` (base 2) or `hex(n)` (base 16) after the
      prefix: no leading zeros, and "0" for zero. */
  function Render(n: nat, base: nat): (s: string)
    requires 2 <= base <= 16
    ensures 1 <= |s|
    ensures AllDigitsOf(s, base)
    ensures |s| > 1 ==> s[0] != '0'
    decreases n
  {
    if n < base then [DigitChar(n)]
    else
      DivMod(n, base);
      var t := Render(n / base, base);
      var c := DigitChar(n % base);
      assert (t + [c])[0] == t[0];
      t + [c]
  }

  /** Reading back the digits Python prints gives the number. */
  lemma {:induction false} RenderParse(n: nat, base: nat)
    requires 2 <= base <= 16
    ensures Parse(Render(n, base), base) == n
    decreases n
  {
    if n >= base {
      DivMod(n, base);
      RenderParse(n / base, base);
      ParseSnoc(Render(n / base, base), DigitChar(n % base), base);
    }
  }

  /** Appending a digit multiplies by the base and adds the digit. */
  lemma ParseSnoc(t: string, c: char, base: nat)
    requires AllDigitsOf(t, base) && IsDigitOf(c, base)
    ensures AllDigitsOf(t + [c], base)
    ensures Parse(t + [c], base) == Parse(t, base) * base + DigitValue(c)
  {
    assert (t + [c])[..|t|] == t;
  }

  lemma DivMod(n: nat, base: nat)
    requires base > 1
    ensures (n / base) * base + n % base == n
    ensures 0 <= n % base < base
    ensures n > 0 ==> n / base < n
  {
    var q := n / base;
    if q > 0 {
      MulMono(q, 2, base);
    }
  }

  lemma MulMono(q: nat, a: nat, b: nat)
    requires a <= b
    ensures q * a <= q * b
  {
  }

  /** k copies of '0'. */
  function Zeros(k: nat): (z: string)
  {
    seq(k, _ => '0')
  }

  /** The source's `for i in range(width - len(s)): s = "0" + s`. */
  function PadLeft(s: string, width: nat): (padded: string)
  {
    if |s| < width then Zeros(width - |s|) + s else s
  }

  /** The two lower-case hex digits of a byte, as `bytes.hex()` prints it. */
  function HexPair(x: byte): (pair: string)
  {
    [DigitChar(x / 16), DigitChar(x % 16)]
  }

  /** The same two digits in upper case, as `str_to_hex` returns them. */
  function UpperHexPair(x: byte): (pair: string)
  {
    Upper(HexPair(x))
  }

  lemma UpperKeepsDigits(s: string, base: nat)
    requires AllDigitsOf(s, base)
    ensures AllDigitsOf(Upper(s), base)
    ensures forall i :: 0 <= i < |s| ==> DigitValue(Upper(s)[i]) == DigitValue(s[i])
  {
  }

  lemma {:induction false} ParseUpper(s: string, base: nat)
    requires AllDigitsOf(s, base)
    ensures AllDigitsOf(Upper(s), base)
    ensures Parse(Upper(s), base) == Parse(s, base)
    decreases |s|
  {
    UpperKeepsDigits(s, base);
    if s != [] {
      var t := s[..|s| - 1];
      assert Upper(s)[..|s| - 1] == Upper(t);
      ParseUpper(t, base);
    }
  }

  lemma {:induction false} ParseAppend(a: string, b: string, base: nat)
    requires AllDigitsOf(a, base) && AllDigitsOf(b, base)
    ensures AllDigitsOf(a + b, base)
    ensures Parse(a + b, base) == Parse(a, base) * Pow(base, |b|) + Parse(b, base)
    decreases |b|
  {
    assert AllDigitsOf(a + b, base) by {
      forall i | 0 <= i < |a + b| ensures IsDigitOf((a + b)[i], base) {
        if i < |a| { assert (a + b)[i] == a[i]; } else { assert (a + b)[i] == b[i - |a|]; }
      }
    }
    if b == [] {
      assert a + b == a;
    } else {
      var b' := b[..|b| - 1];
      var c := b[|b| - 1];
      assert b == b' + [c];
      assert a + b == (a + b') + [c];
      ParseAppend(a, b', base);
      ParseSnoc(a + b', c, base);
      ParseSnoc(b', c, base);
      Regroup(Parse(a, base), Pow(base, |b'|), Parse(b', base), base, DigitValue(c));
    }
  }

  lemma Regroup(x: int, p: int, y: int, b: int, d: int)
    ensures (x * p + y) * b + d == x * (b * p) + (y * b + d)
  {
  }

  lemma {:induction false} ParseBound(s: string, base: nat)
    requires AllDigitsOf(s, base)
    ensures Parse(s, base) < Pow(base, |s|)
    decreases |s|
  {
    if s != [] {
      var t := s[..|s| - 1];
      assert s == t + [s[|s| - 1]];
      ParseBound(t, base);
      ParseSnoc(t, s[|s| - 1], base);
      StepBound(Parse(t, base), DigitValue(s[|s| - 1]), Pow(base, |t|), base);
    }
  }

  lemma StepBound(p: nat, d: nat, m: nat, base: nat)
    requires p < m && d < base
    ensures p * base + d < base * m
  {
    assert (p + 1) * base <= m * base;
  }

  lemma {:induction false} ParseZeros(k: nat, base: nat)
    requires base >= 1
    ensures AllDigitsOf(Zeros(k), base)
    ensures Parse(Zeros(k), base) == 0
  {
    if k > 0 {
      assert Zeros(k)[..k - 1] == Zeros(k - 1);
      ParseZeros(k - 1, base);
    }
  }

  /** Leading zeros do not change the value of a numeral. */
  lemma PadLeftParse(s: string, width: nat, base: nat)
    requires base >= 1 && AllDigitsOf(s, base)
    ensures AllDigitsOf(PadLeft(s, width), base)
    ensures |PadLeft(s, width)| == if |s| < width then width else |s|
    ensures Parse(PadLeft(s, width), base) == Parse(s, base)
  {
    if |s| < width {
      ParseZeros(width - |s|, base);
      ParseAppend(Zeros(width - |s|), s, base);
    }
  }

  lemma MulLess(q: nat, m: nat, base: nat, n: nat)
    requires base >= 1 && base * q <= n < base * m
    ensures q < m
  {
  }

  /** A number below base^k has at most k digits. */
  lemma {:induction false} RenderLength(n: nat, base: nat, k: nat)
    requires 2 <= base <= 16 && 1 <= k && n < Pow(base, k)
    ensures |Render(n, base)| <= k
    decreases k
  {
    if n >= base {
      var q := n / base;
      assert k != 1;
      assert base * q <= n;
      MulLess(q, Pow(base, k - 1), base, n);
      RenderLength(q, base, k - 1);
    }
  }
}
