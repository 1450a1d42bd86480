/** The byte and hex-string helpers of the servo controller class:
    `int_to_hexStr`, `str_to_hex`, `get_low_high_byte` and `strHex_to_int`.
    Each works on text numerals; the model keeps that text and proves what
    number and which bytes it stands for. */
module ByteHelpers {
  import opened Digits
  import opened HexBytes

  /** `int_to_hexStr`: `hex(n)` without its `0x`, padded to two digits
      (the source pads when `len(hex(n)) < 4`). Lower case. */
  function IntToHexStr(n: nat): (r: string)
    ensures 2 <= |r| && AllDigitsOf(r, 16)
    ensures Parse(r, 16) == n
    ensures n < 256 ==> r == HexPair(n)
  {
    var digits := Render(n, 16);
    RenderParse(n, 16);
    RenderByte(n);
    if |digits| < 2 then
      ParseAppend("0", digits, 16);
      "0" + digits
    else
      digits
  }

  /** A byte renders as one hex digit below 16 and as two from 16 on. */
  lemma RenderByte(n: nat)
    ensures n < 16 ==> "0" + Render(n, 16) == HexPair(n)
    ensures 16 <= n < 256 ==> Render(n, 16) == HexPair(n)
  {
    if n < 16 {
      RenderDigit(n);
    } else if n < 256 {
      RenderTwoDigits(n);
    }
  }

  lemma RenderDigit(n: nat)
    requires n < 16
    ensures "0" + Render(n, 16) == HexPair(n)
  {
    var c := DigitChar(n);
    assert Render(n, 16) == [c];
    assert n / 16 == 0 && n % 16 == n;
    assert DigitChar(0) == '0';
    assert HexPair(n) == ['0', c];
  }

  lemma RenderTwoDigits(n: nat)
    requires 16 <= n < 256
    ensures Render(n, 16) == HexPair(n)
  {
    var q := n / 16;
    assert q < 16;
    assert Render(q, 16) == [DigitChar(q)];
  }

  /** `str_to_hex`: `int(bits, 2)` rendered like `int_to_hexStr` and then
      upper-cased. Python's `int` raises on an empty string, hence the
      requirement. */
  function StrToHex(bits: string): (r: string)
    requires 1 <= |bits| && AllDigitsOf(bits, 2)
    ensures 2 <= |r| && AllDigitsOf(r, 16)
    ensures Parse(r, 16) == Parse(bits, 2)
    ensures Parse(bits, 2) < 256 ==> r == UpperHexPair(Parse(bits, 2))
  {
    var lower := IntToHexStr(Parse(bits, 2));
    ParseUpper(lower, 16);
    Upper(lower)
  }

  /** `bin(v)` without its `0b`, zero-padded on the left to 16 characters. */
  function Binary16(v: nat): (s: string)
    ensures 16 <= |s| && AllDigitsOf(s, 2)
    ensures Parse(s, 2) == v
  {
    RenderParse(v, 2);
    PadLeftParse(Render(v, 2), 16, 2);
    PadLeft(Render(v, 2), 16)
  }

  /** A binary numeral of at most 8 digits names one byte. */
  lemma EightBitsFit(s: string)
    requires |s| == 8 && AllDigitsOf(s, 2)
    ensures Parse(s, 2) < 256
  {
    ParseBound(s, 2);
    assert Pow(2, 8) == 256;
  }

  /** `get_low_high_byte`: characters 0..8 of the padded binary string for
      "high", characters 8..16 for anything else, each through `str_to_hex`. */
  function GetLowHighByte(v: nat, which: string): (r: string)
    ensures IsPair(r)
    ensures v < 65536 ==> r == UpperHexPair(if which == "high" then v / 256 else v % 256)
  {
    var binary := Binary16(v);
    var half := if which == "high" then binary[0..8] else binary[8..16];
    EightBitsFit(half);
    UpperHexPairValue(Parse(half, 2));
    Split16(v);
    StrToHex(half)
  }

  /** For a 16-bit value the two halves of the padded binary string are
      exactly the high and the low byte. */
  lemma Split16(v: nat)
    ensures v < 65536 ==> |Binary16(v)| == 16
    ensures v < 65536 ==> Parse(Binary16(v)[0..8], 2) == v / 256
    ensures v < 65536 ==> Parse(Binary16(v)[8..16], 2) == v % 256
  {
    if v < 65536 {
      Split16Within(v);
    }
  }

  lemma Split16Within(v: nat)
    requires v < 65536
    ensures |Binary16(v)| == 16
    ensures Parse(Binary16(v)[0..8], 2) == v / 256
    ensures Parse(Binary16(v)[8..16], 2) == v % 256
  {
    var b := Render(v, 2);
    assert Pow(2, 8) == 256;
    PowAdd(2, 8, 8);
    RenderLength(v, 2, 16);
    PadLeftParse(b, 16, 2);
    var s := Binary16(v);
    var hi, lo := s[0..8], s[8..16];
    assert s == hi + lo;
    ParseAppend(hi, lo, 2);
    EightBitsFit(lo);
    assert Pow(2, 8) == 256;
    DivModUnique(v, Parse(hi, 2), Parse(lo, 2));
  }

  lemma DivModUnique(v: nat, q: nat, r: nat)
    requires r < 256 && v == q * 256 + r
    ensures q == v / 256 && r == v % 256
  {
  }

  /** Every element is a non-empty hex numeral, as `int(s, 16)` demands. */
  predicate HexNumerals(parts: seq<string>)
  {
    forall i :: 0 <= i < |parts| ==> 1 <= |parts[i]| && AllDigitsOf(parts[i], 16)
  }

  /** One iteration of `strHex_to_int`'s loop: `bin(int(p, 16))` without
      `0b`, zero-padded to at least 8 characters. */
  function Group(p: string): (g: string)
    requires 1 <= |p| && AllDigitsOf(p, 16)
    ensures 8 <= |g| && AllDigitsOf(g, 2)
    ensures Parse(g, 2) == Parse(p, 16)
    ensures Parse(p, 16) < 256 ==> |g| == 8
  {
    var b := Render(Parse(p, 16), 2);
    RenderParse(Parse(p, 16), 2);
    ByteBits(Parse(p, 16));
    PadLeftParse(b, 8, 2);
    PadLeft(b, 8)
  }

  lemma ByteBits(n: nat)
    ensures n < 256 ==> |Render(n, 2)| <= 8
  {
    if n < 256 {
      assert Pow(2, 8) == 256;
      RenderLength(n, 2, 8);
    }
  }

  /** `"".join(binary_list)`. */
  function Joined(parts: seq<string>): (s: string)
    requires HexNumerals(parts)
    ensures AllDigitsOf(s, 2)
  {
    if parts == [] then ""
    else
      var front := Joined(parts[..|parts| - 1]);
      var g := Group(parts[|parts| - 1]);
      ParseAppend(front, g, 2);
      front + g
  }

  /** `strHex_to_int`: the concatenated groups read as one binary number.
      The empty list makes Python's `int("", 2)` raise, hence the
      requirement. */
  function StrHexToInt(parts: seq<string>): (r: nat)
    requires 1 <= |parts| && HexNumerals(parts)
    ensures (forall i :: 0 <= i < |parts| ==> Parse(parts[i], 16) < 256) ==> r == Combine(Values(parts))
  {
    JoinedValue(parts);
    Parse(Joined(parts), 2)
  }

  /** The number each hex numeral stands for. */
  function Values(parts: seq<string>): (values: seq<nat>)
    requires HexNumerals(parts)
  {
    seq(|parts|, i requires 0 <= i < |parts| => Parse(parts[i], 16))
  }

  /** Bytes read as one big-endian number: the intended meaning of joining
      8-bit groups. */
  function Combine(bytes: seq<nat>): (n: nat)
  {
    if bytes == [] then 0 else Combine(bytes[..|bytes| - 1]) * 256 + bytes[|bytes| - 1]
  }

  lemma {:induction false} JoinedValue(parts: seq<string>)
    requires HexNumerals(parts)
    ensures (forall i :: 0 <= i < |parts| ==> Parse(parts[i], 16) < 256) ==>
              Parse(Joined(parts), 2) == Combine(Values(parts))
    decreases |parts|
  {
    if parts != [] && forall i :: 0 <= i < |parts| ==> Parse(parts[i], 16) < 256 {
      var front := parts[..|parts| - 1];
      var last := parts[|parts| - 1];
      JoinedValue(front);
      var g := Group(last);
      ParseAppend(Joined(front), g, 2);
      assert Pow(2, 8) == 256;
      assert Values(parts)[..|parts| - 1] == Values(front);
    }
  }

  /** Splitting a 16-bit value with `get_low_high_byte` and joining the
      halves with `strHex_to_int`, high byte first, gives the value back. */
  lemma SplitJoinRoundTrip(v: nat)
    requires v < 65536
    ensures HexNumerals([GetLowHighByte(v, "high"), GetLowHighByte(v, "low")])
    ensures StrHexToInt([GetLowHighByte(v, "high"), GetLowHighByte(v, "low")]) == v
  {
    var hi, lo := GetLowHighByte(v, "high"), GetLowHighByte(v, "low");
    UpperHexPairValue(v / 256);
    UpperHexPairValue(v % 256);
    StrHexToIntPair(hi, lo);
  }

  /** Two hex pairs join to high * 256 + low. */
  lemma StrHexToIntPair(hi: string, lo: string)
    requires IsPair(hi) && IsPair(lo)
    ensures HexNumerals([hi, lo])
    ensures StrHexToInt([hi, lo]) == PairValue(hi) * 256 + PairValue(lo)
  {
    PairParse(hi);
    PairParse(lo);
    var parts := [hi, lo];
    assert Parse(parts[0], 16) < 256 && Parse(parts[1], 16) < 256;
    assert Values(parts) == [PairValue(hi), PairValue(lo)];
    CombinePair(PairValue(hi), PairValue(lo));
  }

  lemma CombinePair(a: nat, b: nat)
    ensures Combine([a, b]) == a * 256 + b
  {
    assert [a, b][..1] == [a];
    assert [a][..0] == [];
    assert Combine([]) == 0;
    assert Combine([a]) == a;
  }

  /** A two-digit pair parses to its byte value. */
  lemma PairParse(p: string)
    requires IsPair(p)
    ensures 1 <= |p| && AllDigitsOf(p, 16)
    ensures Parse(p, 16) == PairValue(p)
  {
    var first := p[..1];
    assert first[..0] == [];
    assert Parse(first, 16) == DigitValue(p[0]);
    assert p[..|p| - 1] == first;
  }
}
