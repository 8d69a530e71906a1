/**
 * The handful of JavaScript number operations the TM1640 driver relies on,
 * stated over Dafny's unbounded integers and reals: truncation by `| 0`
 * (with its 32-bit wrap-around), `Math.idiv`, the truncating `%`,
 * `(b >> i) & 1`, `r & 0xff` and `|` on byte values.
 */
module JsNumber {

  /** A value that fits in one byte on the wire. */
  type Byte = x: int | 0 <= x < 256

  const TwoTo31: int := 0x8000_0000
  const TwoTo32: int := 0x1_0000_0000

  /** Truncation toward zero of a real, the first step of JavaScript's `x | 0`. */
  function Trunc(x: real): (r: int)
    ensures 0.0 <= x ==> r as real <= x < r as real + 1.0
    ensures x < 0.0 ==> r as real - 1.0 < x <= r as real
  {
    if 0.0 <= x then x.Floor else -((-x).Floor)
  }

  /** The signed 32-bit integer JavaScript's ToInt32 gives for the integer t. */
  function Int32(t: int): (r: int)
    ensures -TwoTo31 <= r < TwoTo31
    ensures (r - t) % TwoTo32 == 0
    ensures -TwoTo31 <= t < TwoTo31 ==> r == t
  {
    var m := t % TwoTo32;
    if m < TwoTo31 then m else m - TwoTo32
  }

  /** `x | 0` on a finite number: truncate toward zero, then wrap to 32 bits. */
  function OrZero(x: real): (r: int)
    ensures -TwoTo31 <= r < TwoTo31
    ensures -TwoTo31 as real < x < TwoTo31 as real ==> r == Trunc(x)
  {
    Int32(Trunc(x))
  }

  /** `Math.round(x)`: the nearest integer, halves rounded up (toward +infinity). */
  function Round(x: real): (r: int)
    ensures r as real - 0.5 <= x < r as real + 0.5
  {
    (x + 0.5).Floor
  }

  /** Integer division truncating toward zero, as JavaScript's `(a / d) | 0`. */
  function TruncDiv(a: int, d: nat): (q: int)
    requires d > 0
    ensures 0 <= a ==> 0 <= q && q * d <= a < q * d + d
    ensures a < 0 ==> q <= 0 && q * d - d < a <= q * d
  {
    if 0 <= a then
      DivBounds(a, d);
      a / d
    else
      DivBounds(-a, d);
      NegMul((-a) / d, d);
      -((-a) / d)
  }

  lemma DivBounds(a: nat, d: nat)
    requires d > 0
    ensures 0 <= a / d && (a / d) * d <= a < (a / d) * d + d
  {
    assert a == (a / d) * d + a % d;
  }

  lemma NegMul(x: int, d: int)
    ensures (-x) * d == -(x * d)
  {
  }

  /** `Math.idiv(a, d)`: both operands go through `| 0` before dividing. */
  function IDiv(a: int, d: nat): (q: int)
    requires 0 < d < TwoTo31
    ensures -TwoTo31 <= a < TwoTo31 ==> q == TruncDiv(a, d)
  {
    TruncDiv(Int32(a), d)
  }

  function Abs(x: int): (r: nat)
    ensures r == x || r == -x
  {
    if x < 0 then -x else x
  }

  /**
   * `Math.abs(n % d)`: JavaScript's `%` keeps the sign of the dividend, so
   * its magnitude is the remainder of the magnitude.
   */
  function AbsRem(n: int, d: nat): (r: nat)
    requires d > 0
    ensures r < d
    ensures 0 <= n ==> n == TruncDiv(n, d) * d + r
    ensures n < 0 ==> n == TruncDiv(n, d) * d - r
  {
    Abs(n) % d
  }

  function Pow2(i: nat): (r: nat)
    ensures r >= 1
  {
    if i == 0 then 1 else 2 * Pow2(i - 1)
  }

  /**
   * `((b >> i) & 1) == 1`. The arithmetic shift of a 32-bit value is floor
   * division by 2^i, and ToInt32 keeps bits 0..31, so for i < 32 this holds
   * for every integer b.
   */
  function Bit(b: int, i: nat): bool
  {
    (b / Pow2(i)) % 2 == 1
  }

  /**
   * The bit `(b >> i) & 1` is the 2^i place of b: it is set exactly when
   * b's remainder modulo 2^(i+1) is at least 2^i.
   */
  lemma BitRemainder(b: int, i: nat)
    ensures Bit(b, i) <==> b % Pow2(i + 1) >= Pow2(i)
  {
    var d := Pow2(i);
    var q, rr := b / d, b % d;
    var h, s := q / 2, q % 2;
    assert b == q * d + rr;
    assert q * d == h * (2 * d) + s * d by {
      assert q == 2 * h + s;
    }
    DivModUnique(b, 2 * d, h, s * d + rr);
  }

  /** `r & 0xff`: the low byte of the two's complement representation. */
  function Low8(r: int): (b: Byte)
    ensures (r - b) % 256 == 0
    ensures 0 <= r < 256 ==> b == r
  {
    r % 256
  }

  /** Bitwise OR of the low k bits of two non-negative integers. */
  function OrBits(a: nat, b: nat, k: nat): (r: nat)
    ensures r < Pow2(k)
  {
    if k == 0 then 0
    else (if a % 2 == 1 || b % 2 == 1 then 1 else 0) + 2 * OrBits(a / 2, b / 2, k - 1)
  }

  /** Bitwise OR of two byte values. */
  function OrByte(a: Byte, b: Byte): Byte
  {
    assert Pow2(8) == 256;
    OrBits(a, b, 8)
  }

  /** The integer whose bits, least significant first, are `bits`. */
  function FromBits(bits: seq<bool>): (r: nat)
    ensures r < Pow2(|bits|)
  {
    if bits == [] then 0 else (if bits[0] then 1 else 0) + 2 * FromBits(bits[1..])
  }

  /** The first k bits of b, least significant first: what `(b >> i) & 1` yields for i = 0, 1, ... */
  function Bits(b: int, k: nat): (bits: seq<bool>)
    ensures |bits| == k
    ensures forall i :: 0 <= i < k ==> bits[i] == Bit(b, i)
  {
    seq(k, i requires 0 <= i => Bit(b, i))
  }

  lemma {:induction false} BitHalf(b: int, i: nat)
    ensures Bit(b, i + 1) == Bit(b / 2, i)
  {
    HalfDivMod(b, Pow2(i));
  }

  /** Euclidean division is determined by its quotient-remainder equation. */
  lemma DivModUnique(b: int, d: int, q: int, r: int)
    requires d > 0 && 0 <= r < d && b == q * d + r
    ensures b / d == q && b % d == r
  {
    var q', r' := b / d, b % d;
    assert b == q' * d + r';
    MulSub(q', q, d);
    NoMultipleBetween(q' - q, d, r - r');
  }

  lemma MulSub(x: int, y: int, d: int)
    ensures (x - y) * d == x * d - y * d
  {
  }

  lemma NoMultipleBetween(k: int, d: int, e: int)
    requires d > 0 && -d < e < d && k * d == e
    ensures k == 0 && e == 0
  {
    if k >= 1 {
      MulMono(1, k, d);
    } else if k <= -1 {
      MulMono(1, -k, d);
      NegMul(k, d);
    }
  }

  lemma MulMono(x: int, y: int, d: int)
    requires x <= y && d >= 0
    ensures x * d <= y * d
  {
  }

  /** Dividing by 2m is halving, then dividing by m; the remainder splits the same way. */
  lemma HalfDivMod(b: int, m: nat)
    requires m >= 1
    ensures b / (2 * m) == (b / 2) / m
    ensures b % (2 * m) == b % 2 + 2 * ((b / 2) % m)
  {
    var q := b / 2;
    var r := b % 2;
    var q2 := q / m;
    var r2 := q % m;
    assert b == 2 * q + r;
    assert q == q2 * m + r2;
    assert q2 * (2 * m) == 2 * (q2 * m);
    assert b == q2 * (2 * m) + (r + 2 * r2);
    DivModUnique(b, 2 * m, q2, r + 2 * r2);
  }

  /** Reading 8 LSB-first bits back gives the low byte: the shift-out loses nothing but the high bits. */
  lemma {:induction false} BitsRoundTrip(b: int, k: nat)
    ensures FromBits(Bits(b, k)) == b % Pow2(k)
    decreases k
  {
    if k > 0 {
      BitsRoundTrip(b / 2, k - 1);
      var t := Bits(b, k);
      assert t[1..] == Bits(b / 2, k - 1) by {
        forall i | 0 <= i < k - 1 ensures t[1..][i] == Bits(b / 2, k - 1)[i] {
          BitHalf(b, i);
        }
      }
      assert Bit(b, 0) == (b % 2 == 1);
      HalfDivMod(b, Pow2(k - 1));
    }
  }

  lemma ByteBitsRoundTrip(b: int)
    ensures FromBits(Bits(b, 8)) == Low8(b)
  {
    BitsRoundTrip(b, 8);
    assert Pow2(8) == 256;
  }

  lemma {:induction false} OrBitsCommutes(a: nat, b: nat, k: nat)
    ensures OrBits(a, b, k) == OrBits(b, a, k)
  {
    if k > 0 {
      OrBitsCommutes(a / 2, b / 2, k - 1);
    }
  }

  /** Bit i of an OR is set exactly when bit i of either operand is. */
  lemma {:induction false} OrBitsBit(a: nat, b: nat, k: nat, i: nat)
    requires i < k
    ensures Bit(OrBits(a, b, k), i) == (Bit(a, i) || Bit(b, i))
  {
    var r := OrBits(a, b, k);
    var rest := OrBits(a / 2, b / 2, k - 1);
    var low := if a % 2 == 1 || b % 2 == 1 then 1 else 0;
    assert r == low + 2 * rest;
    DivModUnique(r, 2, rest, low);
    assert Bit(r, 0) == (r % 2 == 1) && Bit(a, 0) == (a % 2 == 1) && Bit(b, 0) == (b % 2 == 1);
    if i > 0 {
      OrBitsBit(a / 2, b / 2, k - 1, i - 1);
      BitHalf(r, i - 1);
      BitHalf(a, i - 1);
      BitHalf(b, i - 1);
    }
  }

  /** `a | b` on two bytes sets exactly the bits set in either operand. */
  lemma OrByteBits(a: Byte, b: Byte)
    ensures forall i :: 0 <= i < 8 ==> (Bit(OrByte(a, b), i) <==> Bit(a, i) || Bit(b, i))
  {
    forall i | 0 <= i < 8
      ensures Bit(OrByte(a, b), i) <==> Bit(a, i) || Bit(b, i)
    {
      OrBitsBit(a, b, 8, i);
    }
  }

  lemma {:induction false} OrBitsZero(b: nat, k: nat)
    ensures OrBits(0, b, k) == b % Pow2(k)
  {
    if k > 0 {
      OrBitsZero(b / 2, k - 1);
      HalfDivMod(b, Pow2(k - 1));
    }
  }

  /** OR of values with no set bit in common is their sum: a below 2^j, b a multiple of 2^j. */
  lemma {:induction false} OrBitsDisjoint(a: nat, b: nat, j: nat, k: nat)
    requires a < Pow2(j) && b % Pow2(j) == 0 && a + b < Pow2(k)
    ensures OrBits(a, b, k) == a + b
    decreases j
  {
    if j == 0 {
      assert a == 0;
      OrBitsZero(b, k);
      DivModUnique(b, Pow2(k), 0, b);
    } else if k > 0 {
      var m := Pow2(j - 1);
      assert Pow2(j) == 2 * m && Pow2(k) == 2 * Pow2(k - 1);
      HalfDivMod(b, m);
      assert b % 2 == 0 && (b / 2) % m == 0;
      assert a == 2 * (a / 2) + a % 2 && b == 2 * (b / 2);
      OrBitsDisjoint(a / 2, b / 2, j - 1, k - 1);
      assert OrBits(a, b, k) == a % 2 + 2 * OrBits(a / 2, b / 2, k - 1);
    }
  }

  /** Setting the decimal-point bit of a segment byte without one adds 0x80. */
  lemma OrDotAdds(x: Byte)
    requires x < 0x80
    ensures OrByte(x, 0x80) == x + 0x80
  {
    assert Pow2(7) == 0x80 && Pow2(8) == 0x100;
    OrBitsDisjoint(x, 0x80, 7, 8);
  }

  /** OR-ing a value without the base's bits into 0x80, 0xC0 or 0x88 adds it. */
  lemma OrHighAdds(base: Byte, x: Byte)
    requires base == 0x80 || base == 0xC0 || base == 0x88
    requires base == 0x80 ==> x < 0x80
    requires base == 0xC0 ==> x < 0x40
    requires base == 0x88 ==> x < 0x08
    ensures OrByte(base, x) == base + x
  {
    assert Pow2(3) == 8 && Pow2(6) == 0x40 && Pow2(7) == 0x80 && Pow2(8) == 0x100;
    OrBitsCommutes(base, x, 8);
    if base == 0x80 {
      OrBitsDisjoint(x, base, 7, 8);
    } else if base == 0xC0 {
      OrBitsDisjoint(x, base, 6, 8);
    } else {
      OrBitsDisjoint(x, base, 3, 8);
    }
  }
}
