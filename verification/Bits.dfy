/** Powers, bit lengths and big-endian byte strings. */
module Bits {
  import opened Primitives

  function Pow(b: nat, e: nat): nat {
    if e == 0 then 1 else Product(b, Pow(b, e - 1))
  }

  lemma {:induction false} PowAdd(b: nat, e: nat, f: nat)
    ensures Pow(b, e + f) == Product(Pow(b, e), Pow(b, f))
  {
    if e != 0 {
      PowAdd(b, e - 1, f);
      MulAssociative(b, Pow(b, e - 1), Pow(b, f));
    }
  }

  /** The number of binary digits of `x`; none for zero. */
  function BitLength(x: nat): nat {
    if x == 0 then 0 else 1 + BitLength(x / 2)
  }

  lemma {:induction false} BitLengthBounds(x: nat)
    ensures x < Pow(2, BitLength(x))
    ensures 0 < x ==> 0 < BitLength(x) && Pow(2, BitLength(x) - 1) <= x
  {
    if x != 0 {
      BitLengthBounds(x / 2);
    }
  }

  /** Below `2^n` means at most `n` binary digits. */
  lemma {:induction false} BitLengthAtMost(x: nat, n: nat)
    requires x < Pow(2, n)
    ensures BitLength(x) <= n
  {
    if x != 0 {
      BitLengthAtMost(x / 2, n - 1);
    }
  }

  lemma SquarePow(e: nat, v: nat)
    requires Pow(2, e) == v
    ensures Pow(2, 2 * e) == Product(v, v)
  {
    PowAdd(2, e, e);
  }

  /** The exponent is a variable so that the power is reached by squaring and not by unfolding. */
  lemma Pow2Nibbles(nibble: nat)
    requires nibble == 4
    ensures Pow(2, 8 * nibble) == 0x1_0000_0000
    ensures Pow(2, 64 * nibble) == U256_MAX + 1
  {
    assert Pow(2, nibble) == 16;
    SquarePow(nibble, 16);
    SquarePow(2 * nibble, 0x100);
    SquarePow(4 * nibble, 0x1_0000);
    SquarePow(8 * nibble, 0x1_0000_0000);
    SquarePow(16 * nibble, 0x1_0000_0000_0000_0000);
    SquarePow(32 * nibble, 0x1_0000_0000_0000_0000_0000_0000_0000_0000);
  }

  lemma U256BitLength(x: u256)
    ensures BitLength(x) <= 256
  {
    var nibble: nat :| nibble == 4;
    Pow2Nibbles(nibble);
    BitLengthAtMost(x, 64 * nibble);
  }

  // ----- big-endian integers

  function FromBigEndian(s: seq<byte>): nat {
    if s == [] then 0 else 256 * FromBigEndian(s[..|s| - 1]) + s[|s| - 1]
  }

  function ToBigEndian(x: nat, width: nat): (s: seq<byte>)
    ensures |s| == width
  {
    if width == 0 then [] else ToBigEndian(x / 256, width - 1) + [x % 256]
  }

  /** The most significant byte comes first. */
  lemma {:induction false} BigEndianDigits(x: nat, width: nat, i: nat)
    requires i < width
    ensures 0 < Pow(256, width - 1 - i)
    ensures ToBigEndian(x, width)[i] == x / Pow(256, width - 1 - i) % 256
  {
    if i == width - 1 {
      assert Pow(256, 0) == 1;
    } else {
      BigEndianDigits(x / 256, width - 1, i);
      DivDiv(x, 256, Pow(256, width - 2 - i));
    }
  }

  lemma {:induction false} FromBigEndianBound(s: seq<byte>)
    ensures FromBigEndian(s) < Pow(256, |s|)
  {
    if s != [] {
      FromBigEndianBound(s[..|s| - 1]);
    }
  }

  lemma {:induction false} BigEndianRoundTrip(x: nat, width: nat)
    requires x < Pow(256, width)
    ensures FromBigEndian(ToBigEndian(x, width)) == x
  {
    if width != 0 {
      BigEndianRoundTrip(x / 256, width - 1);
      var s := ToBigEndian(x, width);
      assert s[..|s| - 1] == ToBigEndian(x / 256, width - 1);
    }
  }

  /** Left padding with zero bytes does not change the number. */
  lemma {:induction false} LeadingZeros(zeros: seq<byte>, s: seq<byte>)
    requires forall i :: 0 <= i < |zeros| ==> zeros[i] == 0
    ensures FromBigEndian(zeros + s) == FromBigEndian(s)
    decreases |zeros| + |s|
  {
    var t := zeros + s;
    if s != [] {
      assert t[..|t| - 1] == zeros + s[..|s| - 1];
      LeadingZeros(zeros, s[..|s| - 1]);
    } else if zeros != [] {
      assert t[..|t| - 1] == zeros[..|zeros| - 1] + [];
      LeadingZeros(zeros[..|zeros| - 1], []);
    }
  }
}
