/** JavaScript's integer bit operators, on the integer values the driver
    passes them. Every operand is first reduced to a 32-bit two's-complement
    word (ToInt32), the operation is done on the 32 bits, and the result is
    read back as a signed 32-bit integer. Bit-wise `|` and `&` are defined
    bit by bit on naturals, so that they can be reasoned about by induction. */
module JsBits {

  const TWO31: int := 0x8000_0000
  const TWO32: int := 0x1_0000_0000

  /** A value the bus carries. */
  type byte = x: int | 0 <= x < 256

  /** A function argument as JavaScript sees it: left out, or a number. */
  datatype Arg = Undefined | Num(n: int)

  /** `(a) ? … : …` takes the first branch exactly for these arguments. */
  predicate Truthy(a: Arg) {
    a.Num? && a.n != 0
  }

  /** The integer ToInt32 makes of an argument (undefined becomes NaN, then 0). */
  function IntOf(a: Arg): int {
    if a.Num? then a.n else 0
  }

  function Pow2(k: nat): (r: nat)
    ensures r >= 1
  {
    if k == 0 then 1 else 2 * Pow2(k - 1)
  }

  /** The low 32 bits of x, as an unsigned value. */
  function ToUint32(x: int): (r: nat)
    ensures r < TWO32
  {
    x % TWO32
  }

  /** ECMAScript ToInt32 on an integer. */
  function ToInt32(x: int): (r: int)
    ensures -TWO31 <= r < TWO31
    ensures 0 <= x < TWO31 ==> r == x
  {
    var u := ToUint32(x);
    if u >= TWO31 then u - TWO32 else u
  }

  /** Bit-wise or of two naturals. */
  function BitOr(a: nat, b: nat): (r: nat)
    decreases a + b
  {
    if a == 0 && b == 0 then 0
    else 2 * BitOr(a / 2, b / 2) + (if a % 2 == 1 || b % 2 == 1 then 1 else 0)
  }

  /** Bit-wise and of two naturals. */
  function BitAnd(a: nat, b: nat): (r: nat)
    decreases a + b
  {
    if a == 0 || b == 0 then 0
    else 2 * BitAnd(a / 2, b / 2) + (if a % 2 == 1 && b % 2 == 1 then 1 else 0)
  }

  /** JavaScript `x | y`: a signed 32-bit result. */
  function Or(x: int, y: int): (r: int)
    ensures -TWO31 <= r < TWO31
  {
    ToInt32(BitOr(ToUint32(x), ToUint32(y)))
  }

  /** JavaScript `x & y`: a signed 32-bit result, and with a non-negative
      mask a value between 0 and the mask. */
  function And(x: int, y: int): (r: int)
    ensures -TWO31 <= r < TWO31
    ensures 0 <= y < TWO31 ==> 0 <= r <= y
  {
    BitAndAtMost(ToUint32(x), ToUint32(y));
    ToInt32(BitAnd(ToUint32(x), ToUint32(y)))
  }

  /** JavaScript `x << n`: the shift count is taken modulo 32, and the
      result is a signed 32-bit value. */
  function Shl(x: int, n: int): (r: int)
    ensures -TWO31 <= r < TWO31
  {
    ToInt32(ToUint32(x) * Pow2(n % 32))
  }

  /** JavaScript `x >> n`: sign-propagating, so a floor division of the
      signed 32-bit value; the result keeps the operand's sign. */
  function Shr(x: int, n: int): (r: int)
    ensures -TWO31 <= r < TWO31
    ensures r < 0 <==> ToInt32(x) < 0
  {
    FloorDivBounds(ToInt32(x), Pow2(n % 32));
    ToInt32(x) / Pow2(n % 32)
  }

  /** Undefined is falsy and converts to 0, so `undefined & m` is 0. */
  lemma UndefinedOperand(m: int)
    ensures !Truthy(Undefined) && !Truthy(Num(0))
    ensures And(IntOf(Undefined), m) == 0
  {
  }

  lemma {:induction false} BitAndAtMost(a: nat, b: nat)
    ensures BitAnd(a, b) <= b
  {
    if a != 0 && b != 0 {
      BitAndAtMost(a / 2, b / 2);
    }
  }

  /** Multiplying by a positive d moves a value away from zero. */
  lemma {:induction false} MulBounds(d: int, t: int)
    requires d >= 1
    ensures t >= 0 ==> d * t >= t
    ensures t <= 0 ==> d * t <= t
    ensures t < 0 ==> d * t <= -d
    decreases if t >= 0 then t else -t
  {
    if t > 0 {
      MulBounds(d, t - 1);
      assert d * t == d * (t - 1) + d;
    } else if t < 0 {
      MulBounds(d, t + 1);
      assert d * t == d * (t + 1) - d;
    }
  }

  /** Floor division by a positive divisor keeps the sign and does not
      move away from zero. */
  lemma FloorDivBounds(n: int, d: int)
    requires d >= 1
    ensures n >= 0 ==> 0 <= n / d <= n
    ensures n < 0 ==> n <= n / d < 0
  {
    var q := n / d;
    assert n == d * q + n % d && 0 <= n % d < d;
    MulBounds(d, q);
    MulBounds(d, q + 1);
    assert d * (q + 1) == d * q + d;
  }

  lemma {:induction false} BitOrZero(a: nat)
    ensures BitOr(a, 0) == a
  {
    if a != 0 {
      BitOrZero(a / 2);
    }
  }

  lemma {:induction false} BitOrCommutes(a: nat, b: nat)
    ensures BitOr(a, b) == BitOr(b, a)
    decreases a + b
  {
    if a != 0 || b != 0 {
      BitOrCommutes(a / 2, b / 2);
    }
  }

  /** Or-ing a value into the zero low bits of a shifted value is addition. */
  lemma {:induction false} BitOrDisjoint(a: nat, k: nat, b: nat)
    requires b < Pow2(k)
    ensures BitOr(a * Pow2(k), b) == a * Pow2(k) + b
  {
    if k == 0 {
      BitOrZero(a);
    } else {
      var p := Pow2(k - 1);
      var hi := a * Pow2(k);
      assert hi == 2 * (a * p);
      assert hi / 2 == a * p && hi % 2 == 0;
      if hi != 0 || b != 0 {
        BitOrDisjoint(a, k - 1, b / 2);
      }
    }
  }

  /** Euclidean division has one quotient and one remainder. */
  lemma ModUnique(a: int, d: int, t: int, s: int)
    requires d > 0 && a == d * t + s && 0 <= s < d
    ensures a % d == s
  {
    var q := a / d;
    assert d * (t - q) == a % d - s;
    ProductBelow(d, t - q);
  }

  lemma ProductBelow(d: int, m: int)
    requires d > 0 && -d < d * m < d
    ensures m == 0
  {
    if m > 0 {
      MulAtLeast(d, m);
    }
  }

  lemma {:induction false} MulAtLeast(d: nat, m: nat)
    requires m >= 1
    ensures d * m >= d
  {
    if m > 1 {
      MulAtLeast(d, m - 1);
      assert d * m == d * (m - 1) + d;
    }
  }

  /** One step of `&` with a mask whose lowest bit is set. */
  lemma BitAndOddMask(a: nat, m: nat)
    ensures BitAnd(a, 2 * m + 1) == 2 * BitAnd(a / 2, m) + a % 2
  {
    assert (2 * m + 1) / 2 == m && (2 * m + 1) % 2 == 1;
    if a == 0 {
      assert BitAnd(0, m) == 0;
    }
  }

  lemma BitAndOne(a: nat)
    ensures BitAnd(a, 1) == a % 2
  {
    BitAndOddMask(a, 0);
    assert BitAnd(a / 2, 0) == 0;
  }

  /** The low bits of a value are its lowest bit and the low bits of its half. */
  lemma ModOfHalves(a: nat, d: nat)
    requires d >= 1
    ensures a % (2 * d) == 2 * ((a / 2) % d) + a % 2
  {
    var q, r := a / 2, a % 2;
    var t, s := q / d, q % d;
    assert q == d * t + s;
    assert a == (2 * d) * t + (2 * s + r);
    ModUnique(a, 2 * d, t, 2 * s + r);
  }

  lemma BitAndThree(a: nat)
    ensures BitAnd(a, 3) == a % 4
  {
    BitAndOddMask(a, 1);
    BitAndOne(a / 2);
    ModOfHalves(a, 2);
  }

  lemma BitAndSeven(a: nat)
    ensures BitAnd(a, 7) == a % 8
  {
    BitAndOddMask(a, 3);
    BitAndThree(a / 2);
    ModOfHalves(a, 4);
  }

  /** Reducing to 32 bits keeps the value modulo every divisor of 2^32. */
  lemma Uint32Mod(x: int, d: int, e: int)
    requires d > 0 && d * e == TWO32
    ensures ToUint32(x) % d == x % d
  {
    var u, q := ToUint32(x), x / TWO32;
    assert x == TWO32 * q + u;
    assert TWO32 * q == d * (e * q);
    assert u == d * (u / d) + u % d;
    ModUnique(x, d, e * q + u / d, u % d);
  }

  /** `x & 3` is x modulo 4, for every integer x. */
  lemma AndThree(x: int)
    ensures And(x, 3) == x % 4
  {
    var u := ToUint32(x);
    BitAndThree(u);
    Uint32Mod(x, 4, TWO32 / 4);
    assert ToUint32(3) == 3;
    assert And(x, 3) == ToInt32(u % 4);
  }

  /** `x & 7` is x modulo 8, for every integer x. */
  lemma AndSeven(x: int)
    ensures And(x, 7) == x % 8
  {
    var u := ToUint32(x);
    BitAndSeven(u);
    Uint32Mod(x, 8, TWO32 / 8);
    assert ToUint32(7) == 7;
    assert And(x, 7) == ToInt32(u % 8);
  }

  /** A left shift that stays below 2^31 is a multiplication. */
  lemma ShlSmall(x: int, n: nat)
    requires n < 32 && 0 <= x && x * Pow2(n) < TWO31
    ensures Shl(x, n) == x * Pow2(n)
  {
    MulAtLeast(x, Pow2(n));
    Uint32OfWord(x);
    assert n % 32 == n;
    Int32OfSmall(x * Pow2(n));
  }

  /** A right shift of a non-negative 31-bit value is a division. */
  lemma ShrSmall(x: int, n: nat)
    requires n < 32 && 0 <= x < TWO31
    ensures Shr(x, n) == x / Pow2(n)
  {
    Int32OfSmall(x);
    assert n % 32 == n;
  }

  lemma Uint32OfWord(a: int)
    requires 0 <= a < TWO32
    ensures ToUint32(a) == a
  {
  }

  lemma Int32OfSmall(c: int)
    requires 0 <= c < TWO31
    ensures ToInt32(c) == c
  {
  }

  /** `|` on two operands that are already 32-bit words with a result below
      2^31 is the bit-wise or of the naturals. */
  lemma OrOfWords(a: nat, b: nat)
    requires a < TWO32 && b < TWO32 && BitOr(a, b) < TWO31
    ensures Or(a, b) == BitOr(a, b)
  {
    Uint32OfWord(a);
    Uint32OfWord(b);
    Int32OfSmall(BitOr(a, b));
  }

  /** `(hi << k) | lo` with lo below p = 2^k and the result below 2^31 is
      hi * p + lo, whichever side of `|` the shifted value stands on. */
  lemma OrShifted(hi: nat, k: nat, p: nat, lo: nat)
    requires k < 32 && p == Pow2(k) && lo < p && hi * p + lo < TWO31
    ensures Or(Shl(hi, k), lo) == hi * p + lo
    ensures Or(lo, Shl(hi, k)) == hi * p + lo
  {
    ShlSmall(hi, k);
    OrAfterShift(Shl(hi, k), hi * p, hi, k, lo);
  }

  lemma OrAfterShift(sh: int, h: nat, hi: nat, k: nat, lo: nat)
    requires sh == h && lo < Pow2(k) && h == hi * Pow2(k) && h + lo < TWO31
    ensures Or(sh, lo) == h + lo && Or(lo, sh) == h + lo
  {
    BitOrDisjoint(hi, k, lo);
    BitOrCommutes(h, lo);
    OrOfWords(h, lo);
    OrOfWords(lo, h);
  }
}
