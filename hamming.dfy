// `hammingDistance` (src/App.js:121): the fraction of differing bits between
// two hexadecimal hashes, digit by digit, as XOR followed by a bit count.

module Hamming {
  import opened Common
  import opened Hex

  /** Bitwise exclusive or of two non-negative integers, one binary digit at a time. */
  function Xor(a: nat, b: nat): nat
    decreases a + b
  {
    if a == 0 && b == 0 then 0 else 2 * Xor(a / 2, b / 2) + (if a % 2 != b % 2 then 1 else 0)
  }

  /** The number of 1 bits of `n`. */
  function PopCount(n: nat): nat
  {
    if n == 0 then 0 else n % 2 + PopCount(n / 2)
  }

  /** Number of positions at which two strings of equal length differ. */
  function Mismatches(s: string, t: string): (m: nat)
    requires |s| == |t|
    ensures m <= |s|
  {
    if |s| == 0 then 0
    else Mismatches(s[..|s| - 1], t[..|t| - 1]) + (if s[|s| - 1] != t[|t| - 1] then 1 else 0)
  }

  /** The differing bits of two digits: `parseInt(c, 16) ^ parseInt(d, 16)`, counted. */
  function DigitDistance(c: char, d: char): nat
  {
    PopCount(Xor(HexValue(c), HexValue(d)))
  }

  /** `diff`: the differing bits of two hashes of equal length. */
  function DiffBits(h1: string, h2: string): nat
    requires |h1| == |h2|
  {
    if |h1| == 0 then 0
    else DiffBits(h1[..|h1| - 1], h2[..|h2| - 1]) + DigitDistance(h1[|h1| - 1], h2[|h2| - 1])
  }

  /**
   * What `hammingDistance` returns: 1 for hashes of different lengths, else
   * `diff / total` with `total = 4 * length`, which is `0 / 0`, NaN, for two
   * empty strings.
   */
  function Distance(h1: string, h2: string): Number
  {
    if |h1| != |h2| then Num(1.0)
    else if |h1| == 0 then NaN
    else Num(DiffBits(h1, h2) as real / (4 * |h1|) as real)
  }

  // ---------------------------------------------------------------------------
  // Exclusive or and bit counts

  lemma {:induction false} XorSymmetric(a: nat, b: nat)
    ensures Xor(a, b) == Xor(b, a)
    decreases a + b
  {
    if a != 0 || b != 0 {
      XorSymmetric(a / 2, b / 2);
    }
  }

  /** `a ^ b` is 0 exactly when `a == b`. */
  lemma {:induction false} XorZero(a: nat, b: nat)
    ensures Xor(a, b) == 0 <==> a == b
    decreases a + b
  {
    if a != 0 || b != 0 {
      XorZero(a / 2, b / 2);
    }
  }

  lemma {:induction false} XorBelow(a: nat, b: nat, k: nat)
    requires a < Pow2(k) && b < Pow2(k)
    ensures Xor(a, b) < Pow2(k)
    decreases k
  {
    if (a != 0 || b != 0) && k > 0 {
      XorBelow(a / 2, b / 2, k - 1);
    }
  }

  lemma {:induction false} PopCountBelow(n: nat, k: nat)
    requires n < Pow2(k)
    ensures PopCount(n) <= k
    decreases k
  {
    if n != 0 && k > 0 {
      PopCountBelow(n / 2, k - 1);
    }
  }

  /** Two digits differ in at most four bits. */
  lemma DigitDistanceAtMostFour(c: char, d: char)
    ensures DigitDistance(c, d) <= 4
  {
    assert Pow2(4) == 16;
    XorBelow(HexValue(c), HexValue(d), 4);
    PopCountBelow(Xor(HexValue(c), HexValue(d)), 4);
  }

  /** The XOR of two bit strings read as numbers has one 1 bit per differing position. */
  lemma {:induction false} XorCountsMismatches(s: string, t: string)
    requires |s| == |t| && IsBits(s) && IsBits(t)
    ensures PopCount(Xor(BitsValue(s), BitsValue(t))) == Mismatches(s, t)
  {
    if |s| > 0 {
      var s', t' := s[..|s| - 1], t[..|t| - 1];
      XorCountsMismatches(s', t');
      var a, b := BitsValue(s), BitsValue(t);
      assert a / 2 == BitsValue(s') && b / 2 == BitsValue(t');
      var x := Xor(a, b);
      if x != 0 {
        assert x / 2 == Xor(BitsValue(s'), BitsValue(t'));
      } else {
        XorZero(a, b);
        XorZero(BitsValue(s'), BitsValue(t'));
      }
    }
  }

  lemma {:induction false} MismatchesAppend(s: string, t: string, u: string, v: string)
    requires |s| == |t| && |u| == |v|
    ensures Mismatches(s + u, t + v) == Mismatches(s, t) + Mismatches(u, v)
    decreases |u|
  {
    if |u| > 0 {
      var n := |u| - 1;
      assert (s + u)[..|s| + n] == s + u[..n] && (t + v)[..|t| + n] == t + v[..n];
      assert (s + u)[|s| + n] == u[n] && (t + v)[|t| + n] == v[n];
      MismatchesAppend(s, t, u[..n], v[..n]);
    } else {
      assert s + u == s && t + v == t;
    }
  }

  // ---------------------------------------------------------------------------
  // Properties of the distance

  lemma {:induction false} DiffBitsSymmetric(h1: string, h2: string)
    requires |h1| == |h2|
    ensures DiffBits(h1, h2) == DiffBits(h2, h1)
  {
    if |h1| > 0 {
      DiffBitsSymmetric(h1[..|h1| - 1], h2[..|h2| - 1]);
      XorSymmetric(HexValue(h1[|h1| - 1]), HexValue(h2[|h2| - 1]));
    }
  }

  /** The distance does not depend on the order of its arguments. */
  lemma DistanceSymmetric(h1: string, h2: string)
    ensures Distance(h1, h2) == Distance(h2, h1)
  {
    if |h1| == |h2| {
      DiffBitsSymmetric(h1, h2);
    }
  }

  lemma {:induction false} DiffBitsAtMost(h1: string, h2: string)
    requires |h1| == |h2|
    ensures DiffBits(h1, h2) <= 4 * |h1|
  {
    if |h1| > 0 {
      DiffBitsAtMost(h1[..|h1| - 1], h2[..|h2| - 1]);
      DigitDistanceAtMostFour(h1[|h1| - 1], h2[|h2| - 1]);
    }
  }

  /** Between hashes of different lengths the distance is 1; otherwise it lies in `[0, 1]`, NaN only for two empty strings. */
  lemma DistanceInUnit(h1: string, h2: string)
    ensures |h1| != |h2| ==> Distance(h1, h2) == Num(1.0)
    ensures Distance(h1, h2) == NaN <==> |h1| == |h2| == 0
    ensures Distance(h1, h2).Num? ==> 0.0 <= Distance(h1, h2).value <= 1.0
  {
    if |h1| == |h2| && |h1| > 0 {
      DiffBitsAtMost(h1, h2);
      RatioCompare(DiffBits(h1, h2) as real, (4 * |h1|) as real, 1.0);
    }
  }

  lemma {:induction false} PopCountZero(n: nat)
    ensures PopCount(n) == 0 <==> n == 0
  {
    if n != 0 && n % 2 == 0 {
      PopCountZero(n / 2);
    }
  }

  /** Two lower-case digits differ in no bit exactly when they are the same digit. */
  lemma DigitDistanceZero(c: char, d: char)
    requires IsDigit(c) && IsDigit(d)
    ensures DigitDistance(c, d) == 0 <==> c == d
  {
    PopCountZero(Xor(HexValue(c), HexValue(d)));
    XorZero(HexValue(c), HexValue(d));
    DigitOfHexValue(c);
    DigitOfHexValue(d);
  }

  /** A hash differs from itself in no bit. */
  lemma {:induction false} DiffBitsSelf(h: string)
    ensures DiffBits(h, h) == 0
  {
    if |h| > 0 {
      DiffBitsSelf(h[..|h| - 1]);
      XorZero(HexValue(h[|h| - 1]), HexValue(h[|h| - 1]));
    }
  }

  /** Lower-case hashes that differ in no bit are the same string. */
  lemma {:induction false} DiffBitsZeroEqual(h1: string, h2: string)
    requires |h1| == |h2| && IsHex(h1) && IsHex(h2) && DiffBits(h1, h2) == 0
    ensures h1 == h2
  {
    if |h1| > 0 {
      var n := |h1| - 1;
      HexLast(h1);
      HexLast(h2);
      DiffBitsZeroEqual(h1[..n], h2[..n]);
      DigitDistanceZero(h1[n], h2[n]);
      SameLast(h1, h2);
    }
  }

  lemma DiffBitsZero(h1: string, h2: string)
    requires |h1| == |h2| && IsHex(h1) && IsHex(h2)
    ensures DiffBits(h1, h2) == 0 <==> h1 == h2
  {
    if DiffBits(h1, h2) == 0 {
      DiffBitsZeroEqual(h1, h2);
    }
    if h1 == h2 {
      DiffBitsSelf(h1);
    }
  }

  /** Two strings of equal positive length are equal exactly when their prefixes and last characters are. */
  lemma SameLast(s: string, t: string)
    requires |s| == |t| > 0
    ensures s == t <==> s[..|s| - 1] == t[..|t| - 1] && s[|s| - 1] == t[|t| - 1]
  {
    var n := |s| - 1;
    assert s == s[..n] + [s[n]] && t == t[..n] + [t[n]];
  }

  /** Two non-empty lower-case hashes of equal length are at distance 0 exactly when they are equal. */
  lemma DistanceZeroIffEqual(h1: string, h2: string)
    requires |h1| == |h2| > 0 && IsHex(h1) && IsHex(h2)
    ensures Distance(h1, h2) == Num(0.0) <==> h1 == h2
  {
    DiffBitsZero(h1, h2);
    ZeroRatio(DiffBits(h1, h2), 4 * |h1|);
  }

  /** A count over a positive total is zero exactly when the count is. */
  lemma ZeroRatio(n: nat, d: nat)
    requires d > 0
    ensures n as real / d as real == 0.0 <==> n == 0
  {
    RatioCompare(n as real, d as real, 0.0);
  }

  lemma DiffBitsAppend(h1: string, h2: string, c: char, d: char)
    requires |h1| == |h2|
    ensures DiffBits(h1 + [c], h2 + [d]) == DiffBits(h1, h2) + DigitDistance(c, d)
  {
    assert (h1 + [c])[..|h1|] == h1 && (h2 + [d])[..|h2|] == h2;
  }

  /** The digits of two groups of four bits differ in as many bits as the groups do. */
  lemma GroupDistance(g1: string, g2: string)
    requires |g1| == |g2| == 4 && IsBits(g1) && IsBits(g2)
    ensures BitsValue(g1) < 16 && BitsValue(g2) < 16
    ensures DigitDistance(HexDigit(BitsValue(g1)), HexDigit(BitsValue(g2))) == Mismatches(g1, g2)
  {
    NibbleOfBits(g1);
    NibbleOfBits(g2);
    HexValueOfDigit(BitsValue(g1));
    HexValueOfDigit(BitsValue(g2));
    XorCountsMismatches(g1, g2);
  }

  /** Appending one group of four bits to both grids adds the same count to both sides. */
  lemma EncodingStep(p1: string, p2: string, g1: string, g2: string)
    requires |p1| == |p2| && |p1| % 4 == 0 && |g1| == |g2| == 4 && IsBits(g1) && IsBits(g2)
    ensures DiffBits(EncodeHex(p1 + g1), EncodeHex(p2 + g2)) == DiffBits(EncodeHex(p1), EncodeHex(p2)) + Mismatches(g1, g2)
    ensures Mismatches(p1 + g1, p2 + g2) == Mismatches(p1, p2) + Mismatches(g1, g2)
  {
    EncodeHexAppend(p1, g1);
    EncodeHexAppend(p2, g2);
    GroupDistance(g1, g2);
    DiffBitsAppend(EncodeHex(p1), EncodeHex(p2), HexDigit(BitsValue(g1)), HexDigit(BitsValue(g2)));
    MismatchesAppend(p1, p2, g1, g2);
  }

  /** The differing bits of two hashes are the differing bits of the grids they encode. */
  lemma {:induction false} DiffBitsOfEncoding(b1: string, b2: string)
    requires |b1| == |b2| && |b1| % 4 == 0 && IsBits(b1) && IsBits(b2)
    ensures DiffBits(EncodeHex(b1), EncodeHex(b2)) == Mismatches(b1, b2)
  {
    if |b1| > 0 {
      var n := |b1| - 4;
      var p1, p2, g1, g2 := b1[..n], b2[..n], b1[n..], b2[n..];
      assert b1 == p1 + g1 && b2 == p2 + g2;
      DiffBitsOfEncoding(p1, p2);
      EncodingStep(p1, p2, g1, g2);
    }
  }

  /** The distance between two hashes is the fraction of grid bits on which they differ. */
  lemma DistanceOfHashes(b1: string, b2: string)
    requires |b1| == |b2| > 0 && |b1| % 4 == 0 && IsBits(b1) && IsBits(b2)
    ensures Distance(EncodeHex(b1), EncodeHex(b2)) == Num(Mismatches(b1, b2) as real / |b1| as real)
  {
    DiffBitsOfEncoding(b1, b2);
  }

  // ---------------------------------------------------------------------------
  // The loop

  /** `while (xor) { diff += xor & 1; xor >>= 1; }` */
  method CountBits(xor0: nat, diff0: nat) returns (diff: nat)
    ensures diff == diff0 + PopCount(xor0)
  {
    var xor := xor0;
    diff := diff0;
    while xor != 0
      invariant diff + PopCount(xor) == diff0 + PopCount(xor0)
    {
      diff := diff + xor % 2;
      xor := xor / 2;
    }
  }

  /** `hammingDistance(h1, h2)`. */
  method HammingDistance(h1: string, h2: string) returns (d: Number)
    ensures d == Distance(h1, h2)
  {
    if |h1| != |h2| {
      return Num(1.0);
    }
    var diff, total := 0, 0;
    for i := 0 to |h1|
      invariant diff == DiffBits(h1[..i], h2[..i]) && total == 4 * i
    {
      assert h1[..i + 1][..i] == h1[..i] && h2[..i + 1][..i] == h2[..i];
      var xor := Xor(HexValue(h1[i]), HexValue(h2[i]));
      diff := CountBits(xor, diff);
      total := total + 4;
    }
    assert h1[..|h1|] == h1 && h2[..|h2|] == h2;
    d := if total == 0 then NaN else Num(diff as real / total as real);
  }
}
