/** Machine words, saturating arithmetic and the facts about floor division the fee engine rests on. */
module Primitives {

  const U64_MAX: int := 0xffff_ffff_ffff_ffff
  const U128_MAX: int := 0xffff_ffff_ffff_ffff_ffff_ffff_ffff_ffff
  const U256_MAX: int := 0xffff_ffff_ffff_ffff_ffff_ffff_ffff_ffff_ffff_ffff_ffff_ffff_ffff_ffff_ffff_ffff
  const I64_MIN: int := -0x8000_0000_0000_0000
  const I64_MAX: int := 0x7fff_ffff_ffff_ffff
  /** The longest slice or vector a 64-bit target can hold. */
  const ISIZE_MAX: int := 0x7fff_ffff_ffff_ffff

  type byte = x: int | 0 <= x < 256
  type u64 = x: int | 0 <= x <= U64_MAX
  type u128 = x: int | 0 <= x <= U128_MAX
  type u256 = x: int | 0 <= x <= U256_MAX
  type i64 = x: int | I64_MIN <= x <= I64_MAX
  type Address = x: int | 0 <= x < 0x1_0000_0000_0000_0000_0000_0000_0000_0000_0000_0000
  type Bytes = s: seq<byte> | |s| <= ISIZE_MAX

  function Min(x: int, y: int): int {
    if x <= y then x else y
  }

  function Max(x: int, y: int): int {
    if x <= y then y else x
  }

  // ----- saturating arithmetic

  /** The 256-bit word nearest to an unbounded natural number. */
  function Clamp(x: nat): u256 {
    Min(x, U256_MAX)
  }

  function SaturatingAdd(x: u256, y: u256): u256 {
    if x + y <= U256_MAX then x + y else U256_MAX
  }

  function SaturatingSub(x: u256, y: u256): u256 {
    if y <= x then x - y else 0
  }

  function SaturatingMul(x: u256, y: u256): u256 {
    if x * y <= U256_MAX then Product(x, y) else U256_MAX
  }

  function Product(x: nat, y: nat): nat {
    ProductNonNegative(x, y);
    x * y
  }

  lemma ProductNonNegative(x: nat, y: nat)
    ensures 0 <= x * y
  {
  }

  lemma ProductMonotone(a: nat, b: nat, c: nat, d: nat)
    requires a <= c && b <= d
    ensures a * b <= c * d
  {
    assert a * b <= c * b;
    assert c * b <= c * d;
  }

  lemma ProductsMonotone(a: nat, b: nat, c: nat, x: nat, y: nat, z: nat)
    requires a <= x && b <= y && c <= z
    ensures Product(Product(a, b), c) <= Product(Product(x, y), z)
  {
    ProductMonotone(a, b, x, y);
    ProductMonotone(Product(a, b), c, Product(x, y), z);
  }

  /** Saturating addition is exact addition seen through `Clamp`. */
  lemma ClampAdd(x: nat, y: nat)
    ensures SaturatingAdd(Clamp(x), Clamp(y)) == Clamp(x + y)
  {
  }

  /** Saturating multiplication is exact multiplication seen through `Clamp`, zero factors included. */
  lemma ClampMul(x: nat, y: nat)
    ensures 0 <= x * y
    ensures SaturatingMul(Clamp(x), Clamp(y)) == Clamp(x * y)
  {
    if x == 0 || y == 0 {
    } else {
      ProductMonotone(Clamp(x), 1, Clamp(x), Clamp(y));
      ProductMonotone(1, Clamp(y), Clamp(x), Clamp(y));
      ProductMonotone(x, 1, x, y);
      ProductMonotone(1, y, x, y);
    }
  }

  // ----- floor division

  lemma MulOrder(a: int, b: int, d: int)
    requires a <= b && 0 <= d
    ensures a * d <= b * d
  {
  }

  lemma MulDistributes(a: int, b: int, d: int)
    ensures (a + b) * d == a * d + b * d
  {
  }

  lemma MulAssociative(a: int, b: int, c: int)
    ensures a * (b * c) == a * b * c == a * c * b
  {
  }

  lemma CancelLess(a: int, b: int, d: int)
    requires 0 < d && a * d < b * d
    ensures a < b
  {
  }

  lemma DivBounds(x: int, d: int)
    requires 0 < d
    ensures x / d * d <= x < x / d * d + d
    ensures 0 <= x ==> 0 <= x / d <= x
  {
    assert x == x / d * d + x % d;
    if 0 <= x {
      CancelLess(-1, x / d, d);
      ProductMonotone(x / d, 1, x / d, d);
    }
  }

  lemma DivAtLeast(x: int, d: int, q: int)
    requires 0 < d && q * d <= x
    ensures q <= x / d
  {
    DivBounds(x, d);
    assert (x / d + 1) * d == x / d * d + d;
    CancelLess(q, x / d + 1, d);
  }

  lemma DivIs(x: int, d: int, q: int)
    requires 0 < d && q * d <= x < q * d + d
    ensures x / d == q
  {
    DivAtLeast(x, d, q);
    DivBounds(x, d);
    assert (q + 1) * d == q * d + d;
    CancelLess(x / d, q + 1, d);
  }

  lemma DivMonotone(x: int, y: int, d: int)
    requires x <= y && 0 < d
    ensures x / d <= y / d
  {
    DivBounds(x, d);
    DivAtLeast(y, d, x / d);
  }

  lemma DivAntitone(x: nat, d: int, e: int)
    requires 0 < d <= e
    ensures x / e <= x / d
  {
    DivBounds(x, e);
    ProductMonotone(x / e, d, x / e, e);
    DivAtLeast(x, d, x / e);
  }

  lemma DivDiv(x: nat, d: int, e: int)
    requires 0 < d && 0 < e
    ensures 0 < d * e && x / d / e == x / (d * e)
  {
    ProductMonotone(1, 1, d, e);
    var q := x / d / e;
    DivBounds(x, d);
    DivBounds(x / d, e);
    MulAssociative(q, d, e);
    MulOrder(q * e, x / d, d);
    MulOrder(x / d + 1, q * e + e, d);
    MulDistributes(x / d, 1, d);
    MulDistributes(q * e, e, d);
    DivIs(x, d * e, q);
  }

  lemma DivSuperadditive(x: nat, y: nat, d: int)
    requires 0 < d
    ensures x / d + y / d <= (x + y) / d
  {
    DivBounds(x, d);
    DivBounds(y, d);
    assert (x / d + y / d) * d == x / d * d + y / d * d;
    DivAtLeast(x + y, d, x / d + y / d);
  }

  /** Adding a whole number commutes with a later floor. */
  lemma DivAddMultiple(x: nat, y: nat, d: int)
    requires 0 < d
    ensures 0 <= x * d && (x * d + y) / d == x + y / d
  {
    DivBounds(y, d);
    ProductNonNegative(x, d);
    assert (x + y / d) * d == x * d + y / d * d;
    DivIs(x * d + y, d, x + y / d);
  }

  lemma QuotientAtLeast(q: int, x: int, d: int)
    requires 0 < d && q * d <= x
    ensures q as real <= x as real / d as real
  {
    var r, u, v := x as real / d as real, q as real, d as real;
    assert u * v <= r * v;
    RealCancel(u, r, v);
  }

  lemma QuotientBelow(q: int, x: int, d: int)
    requires 0 < d && x < q * d
    ensures x as real / d as real < q as real
  {
    var r, u, v := x as real / d as real, q as real, d as real;
    assert r * v < u * v;
    if u <= r {
      RealOrder(u, r, v);
      assert false;
    }
  }

  lemma RealOrder(x: real, y: real, d: real)
    requires x <= y && 0.0 < d
    ensures x * d <= y * d
  {
  }

  lemma RealCancel(x: real, y: real, d: real)
    requires 0.0 < d && x * d <= y * d
    ensures x <= y
  {
  }

  /** Integer division is the floor of the rational quotient. */
  lemma FloorOfQuotient(x: nat, d: int)
    requires 0 < d
    ensures (x as real / d as real).Floor == x / d
  {
    DivBounds(x, d);
    QuotientAtLeast(x / d, x, d);
    MulDistributes(x / d, 1, d);
    QuotientBelow(x / d + 1, x, d);
  }
}
