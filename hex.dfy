// The hexadecimal encoding of the binary hash (src/App.js:114-115) and the
// digit parsing used by `hammingDistance` (src/App.js:121): a string of '0'/'1'
// characters is cut into groups of four, each group read as a base-2 number
// (`parseInt(…, 2)`, most significant bit first) and written as one lower-case
// hexadecimal digit (`toString(16)`).

module Hex {

  /** A string of '0' and '1' characters. */
  predicate IsBits(s: string)
  {
    forall i :: 0 <= i < |s| ==> s[i] == '0' || s[i] == '1'
  }

  /** A lower-case hexadecimal digit, as `toString(16)` writes them. */
  predicate IsDigit(c: char)
  {
    '0' <= c <= '9' || 'a' <= c <= 'f'
  }

  /** A string of lower-case hexadecimal digits. */
  predicate IsHex(s: string)
  {
    forall i :: 0 <= i < |s| ==> IsDigit(s[i])
  }

  function Pow2(n: nat): (p: nat)
    ensures p >= 1
  {
    if n == 0 then 1 else 2 * Pow2(n - 1)
  }

  /** `parseInt(s, 2)` of a string of bits: the first character is the most significant. */
  function BitsValue(s: string): (v: nat)
    ensures v < Pow2(|s|)
  {
    if |s| == 0 then 0 else 2 * BitsValue(s[..|s| - 1]) + BitValue(s[|s| - 1])
  }

  /** The value of one bit character. */
  function BitValue(c: char): nat
  {
    if c == '1' then 1 else 0
  }

  /** `v.toString(16)` for a value below 16. */
  function HexDigit(v: nat): (c: char)
    requires v < 16
    ensures IsDigit(c)
  {
    if v < 10 then ('0' as int + v) as char else ('a' as int + v - 10) as char
  }

  /**
   * `parseInt(c, 16)`: the value of a hexadecimal digit, upper or lower case.
   * Any other character parses to NaN, which the XOR of `hammingDistance`
   * converts to 0.
   */
  function HexValue(c: char): (v: nat)
    ensures v < 16
  {
    if '0' <= c <= '9' then c as int - '0' as int
    else if 'a' <= c <= 'f' then c as int - 'a' as int + 10
    else if 'A' <= c <= 'F' then c as int - 'A' as int + 10
    else 0
  }

  /** Writing a value as a digit and parsing it back gives the value. */
  lemma HexValueOfDigit(v: nat)
    requires v < 16
    ensures HexValue(HexDigit(v)) == v
  {
  }

  /** Parsing a lower-case digit and writing the value back gives the digit. */
  lemma DigitOfHexValue(c: char)
    requires IsDigit(c)
    ensures HexDigit(HexValue(c)) == c
  {
  }

  /** The four bits of a value below 16, most significant first. */
  function Nibble(v: nat): (s: string)
    requires v < 16
    ensures |s| == 4 && IsBits(s)
  {
    [if v / 8 % 2 == 1 then '1' else '0', if v / 4 % 2 == 1 then '1' else '0',
     if v / 2 % 2 == 1 then '1' else '0', if v % 2 == 1 then '1' else '0']
  }

  /** The value of four bits, written out. */
  lemma BitsValueOfFour(s: string)
    requires |s| == 4
    ensures BitsValue(s) == 8 * BitValue(s[0]) + 4 * BitValue(s[1]) + 2 * BitValue(s[2]) + BitValue(s[3])
  {
    var one, two, three := s[..1], s[..2], s[..3];
    assert s[..3] == three && three[..2] == two && two[..1] == one && one[..0] == [];
    assert BitsValue(one) == BitValue(s[0]);
    assert BitsValue(two) == 2 * BitValue(s[0]) + BitValue(s[1]);
    assert BitsValue(three) == 4 * BitValue(s[0]) + 2 * BitValue(s[1]) + BitValue(s[2]);
  }

  /** Reading four bits and writing the value back as bits gives the same four bits. */
  lemma NibbleOfBits(s: string)
    requires |s| == 4 && IsBits(s)
    ensures BitsValue(s) < 16 && Nibble(BitsValue(s)) == s
  {
    BitsValueOfFour(s);
  }

  /** Writing a value as four bits and reading them gives the value. */
  lemma BitsOfNibble(v: nat)
    requires v < 16
    ensures BitsValue(Nibble(v)) == v
  {
    BitsValueOfFour(Nibble(v));
  }

  /** The hash: every group of four bits becomes one digit, in order. */
  function EncodeHex(bits: string): (hex: string)
    requires |bits| % 4 == 0
    ensures |hex| * 4 == |bits| && IsHex(hex)
  {
    if |bits| == 0 then []
    else
      var n := |bits| - 4;
      EncodeHex(bits[..n]) + [HexDigit(BitsValue(bits[n..]))]
  }

  /** Appending four bits appends their digit. */
  lemma EncodeHexAppend(p: string, g: string)
    requires |p| % 4 == 0 && |g| == 4
    ensures EncodeHex(p + g) == EncodeHex(p) + [HexDigit(BitsValue(g))]
  {
    assert (p + g)[..|p|] == p && (p + g)[|p|..] == g;
  }

  /** The bits a hexadecimal string stands for, four per digit. */
  function DecodeHex(hex: string): (bits: string)
    ensures |bits| == 4 * |hex| && IsBits(bits)
  {
    if |hex| == 0 then [] else DecodeHex(hex[..|hex| - 1]) + Nibble(HexValue(hex[|hex| - 1]))
  }

  /** Appending a digit appends its four bits. */
  lemma DecodeHexAppend(hex: string, c: char)
    ensures DecodeHex(hex + [c]) == DecodeHex(hex) + Nibble(HexValue(c))
  {
    assert (hex + [c])[..|hex|] == hex;
  }

  lemma FourDivides(n: int, k: int)
    requires n == 4 * k
    ensures n % 4 == 0
  {
  }

  /** The prefix and the last character of a non-empty hexadecimal string are hexadecimal. */
  lemma HexLast(h: string)
    requires |h| > 0 && IsHex(h)
    ensures IsHex(h[..|h| - 1]) && IsDigit(h[|h| - 1])
    ensures h == h[..|h| - 1] + [h[|h| - 1]]
  {
  }

  /** A string of bits cut in two gives two strings of bits. */
  lemma BitsSplit(bits: string, n: int)
    requires 0 <= n <= |bits| && IsBits(bits)
    ensures IsBits(bits[..n]) && IsBits(bits[n..]) && bits == bits[..n] + bits[n..]
  {
  }

  /** Decoding the hash gives back the bits it was built from. */
  lemma {:induction false} DecodeEncode(bits: string)
    requires |bits| % 4 == 0 && IsBits(bits)
    ensures DecodeHex(EncodeHex(bits)) == bits
  {
    if |bits| > 0 {
      var n := |bits| - 4;
      var p, g := bits[..n], bits[n..];
      BitsSplit(bits, n);
      DecodeEncode(p);
      DecodeHexAppend(EncodeHex(p), HexDigit(BitsValue(g)));
      NibbleOfBits(g);
      HexValueOfDigit(BitsValue(g));
    }
  }

  /** Encoding the bits of a lower-case hexadecimal string gives back the string. */
  lemma {:induction false} EncodeDecode(hex: string)
    requires IsHex(hex)
    ensures EncodeHex(DecodeHex(hex)) == hex
  {
    if |hex| > 0 {
      var p, c := hex[..|hex| - 1], hex[|hex| - 1];
      HexLast(hex);
      EncodeDecode(p);
      var bits := DecodeHex(p);
      FourDivides(|bits|, |p|);
      EncodeHexAppend(bits, Nibble(HexValue(c)));
      BitsOfNibble(HexValue(c));
      DigitOfHexValue(c);
    }
  }

  /** Digit `k` of the hash encodes bits `4k .. 4k+3`, most significant first. */
  lemma {:induction false} EncodeHexDigit(bits: string, k: int)
    requires |bits| % 4 == 0 && 0 <= k && 4 * k + 4 <= |bits|
    ensures EncodeHex(bits)[k] == HexDigit(BitsValue(bits[4 * k..4 * k + 4]))
  {
    var n := |bits| - 4;
    FourDividesPrefix(|bits|);
    var prefix := EncodeHex(bits[..n]);
    assert EncodeHex(bits) == prefix + [HexDigit(BitsValue(bits[n..]))];
    if 4 * k + 4 <= n {
      EncodeHexDigit(bits[..n], k);
      assert bits[..n][4 * k..4 * k + 4] == bits[4 * k..4 * k + 4];
    } else {
      assert 4 * k == n && k == |prefix|;
      assert bits[n..] == bits[4 * k..4 * k + 4];
    }
  }

  lemma FourDividesPrefix(n: int)
    requires n >= 4 && n % 4 == 0
    ensures (n - 4) % 4 == 0
  {
  }

  /** One more group of four bits read by the hash loop appends one digit. */
  lemma EncodeHexStep(bits: string, i: int)
    requires 0 <= i && i + 4 <= |bits| && i % 4 == 0
    ensures (i + 4) % 4 == 0
    ensures EncodeHex(bits[..i + 4]) == EncodeHex(bits[..i]) + [HexDigit(BitsValue(bits[i..i + 4]))]
  {
    assert bits[..i + 4] == bits[..i] + bits[i..i + 4];
    EncodeHexAppend(bits[..i], bits[i..i + 4]);
  }

  /** The hash loop: `binaryHash += parseInt(bits.substring(i, i + 4), 2).toString(16)` for `i` stepping by 4. */
  method PackHex(bits: string) returns (hex: string)
    requires |bits| % 4 == 0
    ensures hex == EncodeHex(bits)
  {
    hex := "";
    var i := 0;
    while i < |bits|
      invariant 0 <= i <= |bits| && i % 4 == 0
      invariant hex == EncodeHex(bits[..i])
    {
      EncodeHexStep(bits, i);
      hex := hex + [HexDigit(BitsValue(bits[i..i + 4]))];
      i := i + 4;
    }
    assert bits[..i] == bits;
  }
}
