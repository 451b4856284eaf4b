/**
 * Java's 32-bit int operations on unbounded integers: the arithmetic right
 * shift is floor division by a power of two, the left shift and addition
 * wrap to 32 bits, `& 0xff` keeps the value mod 256, and `|` works on the
 * 32-bit two's complement patterns.
 */
module JavaInt {
  import opened Decimal

  const TWO_8: int := 0x100
  const TWO_16: int := 0x1_0000
  const TWO_24: int := 0x100_0000
  const TWO_31: int := 0x8000_0000
  const TWO_32: int := 0x1_0000_0000

  predicate IsInt(x: int) { INT_MIN <= x <= INT_MAX }

  function Pow2(n: nat): (p: int)
    ensures p >= 1
  {
    if n == 0 then 1 else 2 * Pow2(n - 1)
  }

  /** The 32-bit pattern of an int, read as an unsigned number. */
  function Unsigned(x: int): (u: int)
    ensures 0 <= u < TWO_32
  {
    x % TWO_32
  }

  /** The int whose pattern, read unsigned, is u. */
  function Signed(u: int): (x: int)
    requires 0 <= u < TWO_32
    ensures IsInt(x) && Unsigned(x) == u
  {
    if u < TWO_31 then u else u - TWO_32
  }

  /** The int a 32-bit operation leaves of the mathematical value x. */
  function Wrap(x: int): (r: int)
    ensures IsInt(r) && Unsigned(r) == Unsigned(x)
    ensures IsInt(x) ==> r == x
  {
    Signed(Unsigned(x))
  }

  /** Java's shift count: the low five bits of the right operand. */
  function ShiftCount(n: int): (c: nat)
    requires n >= 0
    ensures c < 32 && (n < 32 ==> c == n) && (n == 32 ==> c == 0)
  {
    n % 32
  }

  /** x >> n: the arithmetic shift, floor division by 2^n. */
  function ShiftRight(x: int, n: nat): int
    requires n < 32
  {
    x / Pow2(n)
  }

  /** x << n: multiplication by 2^n, wrapped to 32 bits. */
  function ShiftLeft(x: int, n: nat): (r: int)
    requires n < 32
    ensures IsInt(r)
  {
    Wrap(x * Pow2(n))
  }

  /** x & 0xff: the low eight bits, that is the value mod 256. */
  function LowByte(x: int): (r: int)
    ensures 0 <= r < TWO_8
  {
    x % TWO_8
  }

  /** The bitwise or of the low w bits of a and b, bit by bit from the least significant. */
  function OrBits(a: nat, b: nat, w: nat): nat
    decreases w
  {
    if w == 0 then 0
    else 2 * OrBits(a / 2, b / 2, w - 1) + (if a % 2 == 1 || b % 2 == 1 then 1 else 0)
  }

  /** The number of bits of an int. */
  function Width(): (w: nat)
    ensures w == 32
  {
    32
  }

  /** x | y on ints: the or of the two 32-bit patterns. */
  function BitOr(x: int, y: int): (r: int)
    ensures IsInt(r)
  {
    Signed(OrBitsBounded(Unsigned(x), Unsigned(y)))
  }

  function OrBitsBounded(a: nat, b: nat): (r: nat)
    ensures r < TWO_32
  {
    OrBitsBelow(a, b, Width());
    Pow2Facts(0);
    OrBits(a, b, Width())
  }

  lemma {:induction false} Pow2Facts(n: nat)
    ensures n >= 1 ==> Pow2(n) == 2 * Pow2(n - 1)
    ensures Pow2(8) == TWO_8 && Pow2(16) == TWO_16 && Pow2(24) == TWO_24 && Pow2(32) == TWO_32
  {
  }

  /** The or of the low w bits stays below 2^w. */
  lemma {:induction false} OrBitsBelow(a: nat, b: nat, w: nat)
    ensures OrBits(a, b, w) < Pow2(w)
    decreases w
  {
    if w > 0 {
      OrBitsBelow(a / 2, b / 2, w - 1);
    }
  }

  /** Or with nothing set leaves a value below 2^w unchanged. */
  lemma {:induction false} OrBitsZero(a: nat, w: nat)
    requires a < Pow2(w)
    ensures OrBits(a, 0, w) == a && OrBits(0, a, w) == a
    decreases w
  {
    if w > 0 {
      OrBitsZero(a / 2, w - 1);
    }
  }

  /**
   * Or of a multiple of 2^k and a number below 2^k is their sum: the two
   * patterns share no set bit.
   */
  lemma {:induction false} OrDisjoint(a: nat, q: nat, k: nat, b: nat, w: nat)
    requires a == q * Pow2(k)
    requires k <= w && a < Pow2(w) && b < Pow2(k)
    ensures OrBits(a, b, w) == a + b
    decreases k
  {
    if k == 0 {
      OrBitsZero(a, w);
    } else {
      Pow2Facts(k);
      Pow2Facts(w);
      var h := q * Pow2(k - 1);
      assert a == 2 * h;
      assert a / 2 == h && a % 2 == 0;
      OrDisjoint(h, q, k - 1, b / 2, w - 1);
    }
  }

  /**
   * x | y where the pattern of x is a multiple of 2^k and that of y is
   * below 2^k: the patterns add up.
   */
  lemma OrOfDisjoint(x: int, y: int, q: nat, k: nat)
    requires k <= 32 && Unsigned(x) == q * Pow2(k) && Unsigned(y) < Pow2(k)
    ensures Unsigned(BitOr(x, y)) == Unsigned(x) + Unsigned(y)
  {
    Pow2Facts(0);
    OrDisjoint(Unsigned(x), q, k, Unsigned(y), Width());
  }

  /** Multiplying by a positive d keeps a strict order at least d apart. */
  lemma MulMono(a: int, b: int, d: int)
    requires a < b && d > 0
    ensures a * d + d <= b * d
  {
    var k := b - a;
    assert k >= 1;
    assert b * d == a * d + k * d;
    assert k * d >= d;
  }

  /** Euclidean division by a positive d: the quotient is q exactly when x lies in [q*d, q*d + d). */
  lemma DivIff(x: int, d: int, q: int)
    requires d > 0
    ensures x / d == q <==> q * d <= x < q * d + d
  {
    var r := x / d;
    assert x == r * d + x % d && 0 <= x % d < d;
    if q * d <= x < q * d + d {
      if q > r {
        MulMono(r, q, d);
      } else if q < r {
        MulMono(q, r, d);
      }
    }
  }

  /** A number below 2^32 in base 256. */
  lemma UnsignedBytes(u: int)
    requires 0 <= u < TWO_32
    ensures u == ((u / TWO_24) % TWO_8) * TWO_24 + ((u / TWO_16) % TWO_8) * TWO_16
      + ((u / TWO_8) % TWO_8) * TWO_8 + u % TWO_8
  {
    var d1, d2, d3 := u / TWO_8, u / TWO_16, u / TWO_24;
    assert u == d1 * TWO_8 + u % TWO_8;
    assert d1 / TWO_8 == d2;
    assert d2 / TWO_8 == d3;
    assert d1 == d2 * TWO_8 + d1 % TWO_8;
    assert d2 == d3 * TWO_8 + d2 % TWO_8;
  }

  /**
   * Shifting right by a power of two d and keeping the low byte gives the
   * same value for an int and for its unsigned pattern, which differ by a
   * multiple of 2^32 = d * m.
   */
  lemma SameByte(ip: int, d: int, m: int)
    requires IsInt(ip) && d > 0 && d * m == TWO_32 && m % TWO_8 == 0
    ensures (ip / d) % TWO_8 == (Unsigned(ip) / d) % TWO_8
  {
    if ip < 0 {
      assert Unsigned(ip) == ip + m * d;
      DivShift(ip, d, m);
      assert Unsigned(ip) / d == ip / d + m;
    } else {
      assert Unsigned(ip) == ip;
    }
  }

  /** Adding a multiple k of d adds k to the quotient. */
  lemma DivShift(x: int, d: int, k: int)
    requires d > 0
    ensures (x + k * d) / d == x / d + k
  {
    DivIff(x + k * d, d, x / d + k);
    assert x == (x / d) * d + x % d;
    assert (x / d + k) * d == (x / d) * d + k * d;
  }
}
