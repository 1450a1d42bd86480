/** Bytes and their hexadecimal text: Python's `bytes.fromhex(s)`, which the
    source uses to put a command string on the wire, and `bytes.hex()`,
    which it uses to look at what came back. */
module HexBytes {
  import opened Wrappers
  import opened Digits

  /** The ASCII whitespace `bytes.fromhex` skips between digit pairs. */
  predicate IsSpace(c: char)
  {
    c == ' ' || c == '\t' || c == '\n' || c == '\r' || c as int == 11 || c as int == 12
  }

  /** `bytes.fromhex(s)`: whitespace is skipped between pairs, each pair of
      hex digits (either case) is one byte, anything else raises, modelled
      as None. */
  function FromHex(s: string): (r: Option<seq<byte>>)
    decreases |s|
  {
    if s == [] then Some([])
    else if IsSpace(s[0]) then FromHex(s[1..])
    else if |s| < 2 || !IsHexChar(s[0]) || !IsHexChar(s[1]) then None
    else
      match FromHex(s[2..])
      case None => None
      case Some(rest) => Some([DigitValue(s[0]) * 16 + DigitValue(s[1])] + rest)
  }

  /** `bytes.fromhex` raises on any character that is neither a hex digit
      nor whitespace. */
  lemma {:induction false} FromHexRejects(s: string, i: nat)
    requires i < |s| && !IsHexChar(s[i]) && !IsSpace(s[i])
    ensures FromHex(s) == None
    decreases |s|
  {
    if i == 0 {
    } else if IsSpace(s[0]) {
      FromHexRejects(s[1..], i - 1);
    } else if |s| >= 2 && IsHexChar(s[0]) && IsHexChar(s[1]) {
      if i == 1 {
      } else {
        FromHexRejects(s[2..], i - 2);
      }
    }
  }

  /** Two hex digits: the text of one byte. */
  predicate IsPair(p: string)
  {
    |p| == 2 && IsHexChar(p[0]) && IsHexChar(p[1])
  }

  /** An even number of hex digits always reads, one byte per pair. */
  lemma {:induction false} FromHexAccepts(s: string)
    requires |s| % 2 == 0 && AllDigitsOf(s, 16)
    ensures FromHex(s).Some? && 2 * |FromHex(s).value| == |s|
    decreases |s|
  {
    if s != [] {
      var t := s[2..];
      assert AllDigitsOf(t, 16) by {
        assert forall i :: 0 <= i < |t| ==> t[i] == s[i + 2];
      }
      FromHexAccepts(t);
      assert IsHexChar(s[0]) && IsHexChar(s[1]) && !IsSpace(s[0]);
    }
  }

  /** The byte a two-digit hex string stands for. */
  function PairValue(p: string): (b: byte)
    requires IsPair(p)
  {
    DigitValue(p[0]) * 16 + DigitValue(p[1])
  }

  /** One step of `bytes.fromhex` on a string that starts with a pair. */
  lemma FromHexStep(p: string, rest: string)
    requires IsPair(p)
    ensures FromHex(p + rest) ==
              match FromHex(rest)
              case None => None
              case Some(y) => Some([PairValue(p)] + y)
  {
    var s := p + rest;
    assert s[0] == p[0] && s[1] == p[1];
    assert s[2..] == rest;
  }

  /** `bytes.hex()`: two lower-case digits per byte, in order. */
  function ToHex(bs: seq<byte>): (r: string)
    ensures |r| == 2 * |bs|
  {
    if bs == [] then "" else HexPair(bs[0]) + ToHex(bs[1..])
  }

  /** `bytes.hex()` prints only hex digits, none of them upper case. */
  lemma {:induction false} ToHexDigits(bs: seq<byte>)
    ensures AllDigitsOf(ToHex(bs), 16)
    ensures forall i :: 0 <= i < |ToHex(bs)| ==> !('A' <= ToHex(bs)[i] <= 'Z')
  {
    if bs != [] {
      ToHexDigits(bs[1..]);
      var rest := ToHex(bs[1..]);
      var r := HexPair(bs[0]) + rest;
      assert forall i :: 2 <= i < |r| ==> r[i] == rest[i - 2];
    }
  }

  lemma ToHexCons(b: byte, rest: seq<byte>)
    ensures ToHex([b] + rest) == HexPair(b) + ToHex(rest)
  {
    assert ([b] + rest)[1..] == rest;
  }

  /** Reading back what `bytes.hex()` printed gives the same bytes. */
  lemma {:induction false} ToHexRoundTrip(bs: seq<byte>)
    ensures FromHex(ToHex(bs)) == Some(bs)
  {
    if bs != [] {
      ToHexRoundTrip(bs[1..]);
      HexPairValue(bs[0]);
      FromHexStep(HexPair(bs[0]), ToHex(bs[1..]));
      assert bs == [bs[0]] + bs[1..];
    }
  }

  lemma FromHexCons(p: string, rest: string, y: seq<byte>)
    requires IsPair(p) && FromHex(rest) == Some(y)
    ensures FromHex(p + rest) == Some([PairValue(p)] + y)
  {
    FromHexStep(p, rest);
  }

  lemma FromHexPair(p: string)
    requires IsPair(p)
    ensures FromHex(p) == Some([PairValue(p)])
  {
    FromHexStep(p, "");
    assert p + "" == p;
    assert FromHex("") == Some([]);
    assert [PairValue(p)] + [] == [PairValue(p)];
  }

  /** A five-byte frame written as five two-digit groups reads back as the
      five group values. */
  lemma FromHexFive(p0: string, p1: string, p2: string, p3: string, p4: string)
    requires IsPair(p0)
    requires IsPair(p1)
    requires IsPair(p2)
    requires IsPair(p3)
    requires IsPair(p4)
    ensures FromHex(p0 + p1 + p2 + p3 + p4)
            == Some([PairValue(p0), PairValue(p1), PairValue(p2), PairValue(p3), PairValue(p4)])
  {
    var y := [PairValue(p1), PairValue(p2), PairValue(p3), PairValue(p4)];
    FromHexFour(p1, p2, p3, p4);
    FromHexCons(p0, p1 + p2 + p3 + p4, y);
    ConsFour(PairValue(p0), y);
    AssocFive(p0, p1, p2, p3, p4);
  }

  lemma ConsFour(b: byte, y: seq<byte>)
    requires |y| == 4
    ensures [b] + y == [b, y[0], y[1], y[2], y[3]]
  {
  }

  lemma AssocFive(a: string, b: string, c: string, d: string, e: string)
    ensures a + (b + c + d + e) == a + b + c + d + e
  {
  }

  lemma AssocFour(a: string, b: string, c: string, d: string)
    ensures a + (b + c + d) == a + b + c + d
  {
  }

  lemma FromHexFour(p1: string, p2: string, p3: string, p4: string)
    requires IsPair(p1) && IsPair(p2) && IsPair(p3) && IsPair(p4)
    ensures FromHex(p1 + p2 + p3 + p4) == Some([PairValue(p1), PairValue(p2), PairValue(p3), PairValue(p4)])
  {
    var y := [PairValue(p2), PairValue(p3), PairValue(p4)];
    FromHexThree(p2, p3, p4);
    FromHexCons(p1, p2 + p3 + p4, y);
    assert [PairValue(p1)] + y == [PairValue(p1), PairValue(p2), PairValue(p3), PairValue(p4)];
    AssocFour(p1, p2, p3, p4);
  }

  lemma FromHexThree(p2: string, p3: string, p4: string)
    requires IsPair(p2) && IsPair(p3) && IsPair(p4)
    ensures FromHex(p2 + p3 + p4) == Some([PairValue(p2), PairValue(p3), PairValue(p4)])
  {
    var y := [PairValue(p4)];
    FromHexPair(p4);
    FromHexCons(p3, p4, y);
    var z := [PairValue(p3)] + y;
    FromHexCons(p2, p3 + p4, z);
    assert [PairValue(p2)] + z == [PairValue(p2), PairValue(p3), PairValue(p4)];
    assert p2 + (p3 + p4) == p2 + p3 + p4;
  }

  lemma HexPairValue(x: byte)
    ensures IsPair(HexPair(x))
    ensures PairValue(HexPair(x)) == x
  {
  }

  lemma UpperHexPairValue(x: byte)
    ensures IsPair(UpperHexPair(x))
    ensures PairValue(UpperHexPair(x)) == x
  {
    UpperKeepsDigits(HexPair(x), 16);
  }

  /** The hex text of a run of bytes is the matching run of the hex text. */
  lemma {:induction false} ToHexSlice(bs: seq<byte>, k: nat, m: nat)
    requires k + m <= |bs|
    ensures ToHex(bs)[2 * k .. 2 * (k + m)] == ToHex(bs[k .. k + m])
    decreases |bs|
  {
    if k > 0 {
      ToHexSlice(bs[1..], k - 1, m);
      assert bs[1..][k - 1 .. k - 1 + m] == bs[k .. k + m];
      assert ToHex(bs) == HexPair(bs[0]) + ToHex(bs[1..]);
      assert ToHex(bs)[2 * k .. 2 * (k + m)] == ToHex(bs[1..])[2 * (k - 1) .. 2 * (k - 1 + m)];
    } else {
      ToHexPrefix(bs, m);
    }
  }

  lemma {:induction false} ToHexPrefix(bs: seq<byte>, m: nat)
    requires m <= |bs|
    ensures ToHex(bs)[.. 2 * m] == ToHex(bs[.. m])
    decreases m
  {
    if m > 0 {
      ToHexPrefix(bs[1..], m - 1);
      assert bs[1..][.. m - 1] == bs[1 .. m];
      assert bs[.. m] == [bs[0]] + bs[1 .. m];
      assert bs[.. m][1..] == bs[1 .. m];
      assert ToHex(bs) == HexPair(bs[0]) + ToHex(bs[1..]);
      assert ToHex(bs[.. m]) == HexPair(bs[0]) + ToHex(bs[1 .. m]);
    }
  }

  /** Different byte strings print differently. */
  lemma ToHexInjective(a: seq<byte>, b: seq<byte>)
    requires ToHex(a) == ToHex(b)
    ensures a == b
  {
    ToHexRoundTrip(a);
    ToHexRoundTrip(b);
  }

  /** Lower-casing the output of `bytes.hex()` changes nothing. */
  lemma LowerToHex(bs: seq<byte>)
    ensures Lower(ToHex(bs)) == ToHex(bs)
  {
    ToHexDigits(bs);
  }
}
