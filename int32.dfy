/** The 32-bit integer operators of JavaScript on integral numbers: the
    operands of `|`, `&`, `<<` and `>>` are converted with ToInt32 (ToUint32
    for a shift count, of which only the low five bits are used), and the
    result is a signed 32-bit value. Bit patterns are non-negative integers
    below 2^32; bitwise operations are defined one bit at a time. */
module Int32 {

  const TWO31: int := 0x8000_0000
  const TWO32: int := 0x1_0000_0000

  function Pow2(n: nat): (r: nat)
    ensures r > 0
  {
    if n == 0 then 1 else 2 * Pow2(n - 1)
  }

  /** ECMAScript ToUint32 of an integral number. */
  function ToUint32(x: int): (r: int)
    ensures 0 <= r < TWO32
  {
    x % TWO32
  }

  /** ECMAScript ToInt32 of an integral number: the value in
      [-2^31, 2^31) that is congruent to `x` modulo 2^32. */
  function ToInt32(x: int): (r: int)
    ensures -TWO31 <= r < TWO31
  {
    var u := x % TWO32;
    if u < TWO31 then u else u - TWO32
  }

  /** The count used by a shift, `ToUint32(n) & 0x1F`, which is `n` modulo 32
      because 32 divides 2^32. */
  function ShiftCount(n: int): (r: nat)
    ensures r < 32
  {
    n % 32
  }

  /** Bit `i` of a bit pattern. */
  predicate Bit(x: int, i: nat)
  {
    (x / Pow2(i)) % 2 == 1
  }

  /** Bitwise OR of two bit patterns. */
  function OrNat(a: nat, b: nat): nat
    decreases a + b
  {
    if a == 0 then b
    else if b == 0 then a
    else 2 * OrNat(a / 2, b / 2) + (if a % 2 == 1 || b % 2 == 1 then 1 else 0)
  }

  /** Bitwise AND of two bit patterns. */
  function AndNat(a: nat, b: nat): nat
    decreases a + b
  {
    if a == 0 || b == 0 then 0
    else 2 * AndNat(a / 2, b / 2) + (if a % 2 == 1 && b % 2 == 1 then 1 else 0)
  }

  /** `x | y`. */
  function BitOr(x: int, y: int): int
  {
    ToInt32(OrNat(ToUint32(x), ToUint32(y)))
  }

  /** `x & y`. */
  function BitAnd(x: int, y: int): int
  {
    ToInt32(AndNat(ToUint32(x), ToUint32(y)))
  }

  /** `x << n`: bits shifted past bit 31 are lost. */
  function ShiftLeft(x: int, n: int): int
  {
    ToInt32(ToUint32(x) * Pow2(ShiftCount(n)))
  }

  /** `x >> n`, the sign-propagating shift: floor division of the signed
      value (Dafny's division by a positive divisor rounds down). */
  function ShiftRight(x: int, n: int): int
  {
    ToInt32(x) / Pow2(ShiftCount(n))
  }

  lemma MulAtLeast(d: int, k: int)
    requires d > 0 && k >= 1
    ensures d * k >= d
  {
  }

  lemma MulBelow(v: int, n: int, p: int)
    requires 0 <= v < n && p > 0
    ensures 0 <= v * p <= (n - 1) * p
  {
    if v > 0 {
      MulAtLeast(p, v);
    }
    if n - 1 - v > 0 {
      MulAtLeast(p, n - 1 - v);
    }
    assert (n - 1) * p - v * p == p * (n - 1 - v);
  }

  /** Quotient and remainder are the only ones with `x == d * q + r` and
      `0 <= r < d`. */
  lemma DivModUnique(x: int, d: int, q: int, r: int)
    requires d > 0 && 0 <= r < d && x == d * q + r
    ensures x / d == q && x % d == r
  {
    var q', r' := x / d, x % d;
    assert d * (q - q') == r' - r;
    if q > q' {
      MulAtLeast(d, q - q');
    } else if q < q' {
      MulAtLeast(d, q' - q);
    }
  }

  lemma DivDouble(x: nat, p: nat)
    requires p > 0
    ensures x / (2 * p) == (x / 2) / p
    ensures x % (2 * p) == 2 * ((x / 2) % p) + x % 2
  {
    var q, r := x / 2, x % 2;
    var t, s := q / p, q % p;
    assert q == p * t + s;
    assert x == (2 * p) * t + (2 * s + r);
    DivModUnique(x, 2 * p, t, 2 * s + r);
  }

  /** Bit `i + 1` of `x` is bit `i` of `x / 2`. */
  lemma BitSucc(x: nat, i: nat)
    ensures Bit(x, i + 1) == Bit(x / 2, i)
  {
    DivDouble(x, Pow2(i));
  }

  /** OrNat is bitwise OR: each bit of the result is set exactly when that bit
      is set in either operand. */
  lemma {:induction false} OrNatBit(a: nat, b: nat, i: nat)
    ensures Bit(OrNat(a, b), i) <==> Bit(a, i) || Bit(b, i)
    decreases i
  {
    if a != 0 && b != 0 {
      var bit := if a % 2 == 1 || b % 2 == 1 then 1 else 0;
      var o := OrNat(a / 2, b / 2);
      assert OrNat(a, b) == 2 * o + bit;
      DivModUnique(OrNat(a, b), 2, o, bit);
      if i > 0 {
        BitSucc(OrNat(a, b), i - 1);
        BitSucc(a, i - 1);
        BitSucc(b, i - 1);
        OrNatBit(a / 2, b / 2, i - 1);
      }
    } else {
      assert 0 / Pow2(i) == 0;
    }
  }

  /** AndNat is bitwise AND: each bit of the result is set exactly when that
      bit is set in both operands. */
  lemma {:induction false} AndNatBit(a: nat, b: nat, i: nat)
    ensures Bit(AndNat(a, b), i) <==> Bit(a, i) && Bit(b, i)
    decreases i
  {
    if a != 0 && b != 0 {
      var bit := if a % 2 == 1 && b % 2 == 1 then 1 else 0;
      var o := AndNat(a / 2, b / 2);
      assert AndNat(a, b) == 2 * o + bit;
      DivModUnique(AndNat(a, b), 2, o, bit);
      if i > 0 {
        BitSucc(AndNat(a, b), i - 1);
        BitSucc(a, i - 1);
        BitSucc(b, i - 1);
        AndNatBit(a / 2, b / 2, i - 1);
      }
    } else {
      assert 0 / Pow2(i) == 0;
    }
  }

  /** When `b` shifted by `m` does not meet the bits of `a` (all of which lie
      below bit `m`), OR is addition. */
  lemma {:induction false} OrDisjoint(a: nat, b: nat, m: nat)
    requires a < Pow2(m)
    ensures OrNat(a, b * Pow2(m)) == a + b * Pow2(m)
  {
    var c := b * Pow2(m);
    if m > 0 && a != 0 && c != 0 {
      var p := Pow2(m - 1);
      var h := b * p;
      assert Pow2(m) == 2 * p;
      assert c == 2 * h;
      DivModUnique(c, 2, h, 0);
      DivModUnique(a, 2, a / 2, a % 2);
      assert a / 2 < p;
      OrDisjoint(a / 2, b, m - 1);
      assert OrNat(a, c) == 2 * OrNat(a / 2, h) + a % 2;
    } else if m == 0 {
      assert a == 0;
    }
  }

  lemma LowMaskHalf(k: nat)
    requires k > 0
    ensures (Pow2(k) - 1) / 2 == Pow2(k - 1) - 1
    ensures (Pow2(k) - 1) % 2 == 1
  {
    DivModUnique(Pow2(k) - 1, 2, Pow2(k - 1) - 1, 1);
  }

  /** One step of AndNat against an odd mask: the low bit of `x` is kept. */
  lemma AndOddStep(x: nat, m: nat)
    requires x != 0 && m % 2 == 1
    ensures AndNat(x, m) == 2 * AndNat(x / 2, m / 2) + x % 2
  {
    var bit := if x % 2 == 1 && m % 2 == 1 then 1 else 0;
    assert bit == x % 2;
  }

  /** AND with a mask of the low `k` bits keeps the value modulo 2^k. */
  lemma {:induction false} AndLowMask(x: nat, k: nat)
    ensures AndNat(x, Pow2(k) - 1) == x % Pow2(k)
  {
    if k > 0 && x != 0 {
      var p := Pow2(k - 1);
      var mask := Pow2(k) - 1;
      LowMaskHalf(k);
      AndOddStep(x, mask);
      AndLowMask(x / 2, k - 1);
      DivDouble(x, p);
      assert Pow2(k) == 2 * p;
      assert AndNat(x, mask) == 2 * ((x / 2) % p) + x % 2;
    } else if k == 0 {
      assert Pow2(k) == 1;
    } else {
      DivModUnique(0, Pow2(k), 0, 0);
    }
  }

  /** A 32-bit pattern survives the round trip through its signed value. */
  lemma Uint32OfInt32(x: int)
    requires 0 <= x < TWO32
    ensures ToUint32(ToInt32(x)) == x
  {
  }

  /** Shifting a 32-bit pattern left by less than 32 multiplies it by a
      power of two, before ToInt32 drops the bits past bit 31. */
  lemma ShiftLeftIsProduct(v: int, m: nat)
    requires m < 32 && 0 <= v < TWO32
    ensures ShiftLeft(v, m) == ToInt32(v * Pow2(m))
  {
    assert ToUint32(v) == v;
    assert ShiftCount(m) == m;
  }

  /** A left shift that loses no bits multiplies by a power of two. */
  lemma ShiftLeftInRange(v: int, m: nat)
    requires m < 32 && 0 <= v && v * Pow2(m) < TWO32
    ensures ToUint32(ShiftLeft(v, m)) == v * Pow2(m)
  {
    if v > 0 {
      MulAtLeast(v, Pow2(m));
    }
    ShiftLeftIsProduct(v, m);
    Uint32OfInt32(v * Pow2(m));
  }

  /** OR-ing into `w` a value shifted left past all of `w`'s bits adds it,
      as long as the sum fits in 32 bits. */
  lemma OrShifted(w: int, v: int, m: nat, sum: int)
    requires m < 32 && 0 <= w < Pow2(m) && 0 <= v
    requires sum == w + v * Pow2(m) && sum < TWO32
    ensures BitOr(ToInt32(w), ShiftLeft(v, m)) == ToInt32(sum)
  {
    var prod := v * Pow2(m);
    assert prod == sum - w;
    if v > 0 {
      MulAtLeast(Pow2(m), v);
    }
    assert 0 <= prod < TWO32;
    ShiftLeftInRange(v, m);
    Uint32OfInt32(w);
    OrDisjoint(w, v, m);
    assert OrNat(ToUint32(ToInt32(w)), ToUint32(ShiftLeft(v, m))) == sum;
  }

  /** `x >> m` of a 32-bit value, for a count below 32, is floor division
      by 2^m. */
  lemma ShiftRightIsDivision(x: int, m: nat)
    requires -TWO31 <= x < TWO31 && m < 32
    ensures ShiftRight(x, m) == x / Pow2(m)
  {
    assert ToInt32(x) == x;
    assert ShiftCount(m) == m;
  }

  lemma Pow2Wide()
    ensures Pow2(31) == TWO31 && Pow2(32) == TWO32
  {
    assert Pow2(8) == 256;
    assert Pow2(16) == 65536;
    assert Pow2(24) == 16777216;
  }

  /** Powers of two grow with the exponent. */
  lemma {:induction false} Pow2Monotonic(a: nat, b: nat)
    requires a <= b
    ensures Pow2(a) <= Pow2(b)
    decreases b
  {
    if a < b {
      Pow2Monotonic(a, b - 1);
    }
  }

  /** A number below 2^j has no bit `j`. */
  lemma BitAbove(y: nat, j: nat)
    requires y < Pow2(j)
    ensures !Bit(y, j)
  {
    DivModUnique(y, Pow2(j), 0, y);
  }

  /** Doubling moves every bit up by one and clears bit 0. */
  lemma BitDouble(y: nat, i: nat)
    ensures Bit(2 * y, i) <==> i > 0 && Bit(y, i - 1)
  {
    if i == 0 {
      assert Pow2(0) == 1;
    } else {
      BitSucc(2 * y, i - 1);
      assert 2 * y / 2 == y;
    }
  }

  /** Multiplying by 2^s moves every bit up by `s`. */
  lemma {:induction false} BitOfProduct(u: nat, s: nat, i: nat)
    ensures Bit(u * Pow2(s), i) <==> i >= s && Bit(u, i - s)
    decreases s
  {
    if s == 0 {
      assert u * Pow2(s) == u;
    } else {
      var y := u * Pow2(s - 1);
      assert u * Pow2(s) == 2 * y;
      BitDouble(y, i);
      if i > 0 {
        BitOfProduct(u, s - 1, i - 1);
      }
    }
  }

  /** Dividing by 2^s moves every bit down by `s`. */
  lemma {:induction false} BitOfQuotient(y: nat, s: nat, i: nat)
    ensures Bit(y / Pow2(s), i) == Bit(y, i + s)
    decreases s
  {
    if s == 0 {
      assert y / Pow2(s) == y;
    } else {
      DivDouble(y, Pow2(s - 1));
      BitOfQuotient(y / 2, s - 1, i);
      BitSucc(y, i + s - 1);
    }
  }

  /** Reducing modulo 2^k keeps the bits below `k`. */
  lemma {:induction false} BitOfRemainder(y: nat, k: nat, i: nat)
    requires i < k
    ensures Bit(y % Pow2(k), i) == Bit(y, i)
    decreases i
  {
    var p := Pow2(k - 1);
    assert Pow2(k) == 2 * p;
    DivDouble(y, p);
    var r, m := y % Pow2(k), (y / 2) % p;
    DivModUnique(r, 2, m, y % 2);
    if i == 0 {
      assert Pow2(0) == 1;
    } else {
      BitSucc(r, i - 1);
      BitOfRemainder(y / 2, k - 1, i - 1);
      BitSucc(y, i - 1);
    }
  }

  /** Below bit `k`, `2^k - 1 - z` has exactly the bits `z` lacks. */
  lemma {:induction false} BitOfComplement(z: nat, k: nat, i: nat)
    requires z < Pow2(k) && i < k
    ensures Bit(Pow2(k) - 1 - z, i) <==> !Bit(z, i)
    decreases k
  {
    var p := Pow2(k - 1);
    assert Pow2(k) == 2 * p;
    var c := Pow2(k) - 1 - z;
    DivModUnique(z, 2, z / 2, z % 2);
    assert z / 2 < p;
    assert c == 2 * (p - 1 - z / 2) + (1 - z % 2);
    DivModUnique(c, 2, p - 1 - z / 2, 1 - z % 2);
    if i == 0 {
      assert Pow2(0) == 1;
    } else {
      BitSucc(c, i - 1);
      BitSucc(z, i - 1);
      BitOfComplement(z / 2, k - 1, i - 1);
    }
  }

  /** Both conversions only see a number modulo 2^32. */
  lemma Uint32OfSigned(y: int)
    ensures ToUint32(ToInt32(y)) == ToUint32(y)
  {
  }

  /** `x << n`, bit by bit, as ECMAScript defines it on the 32-bit pattern
      of `x`: bit `i` of the result is bit `i - count` of `x`, and the low
      `count` bits are 0. */
  lemma ShiftLeftBit(x: int, n: int, i: nat)
    requires i < 32
    ensures Bit(ToUint32(ShiftLeft(x, n)), i) <==>
              i >= ShiftCount(n) && Bit(ToUint32(x), i - ShiftCount(n))
  {
    var u, s := ToUint32(x), ShiftCount(n);
    var y := u * Pow2(s);
    Uint32OfSigned(y);
    Pow2Wide();
    BitOfRemainder(y, 32, i);
    BitOfProduct(u, s, i);
  }

  /** Division of a non-negative number by a positive one does not
      increase it. */
  lemma DivBelow(u: int, p: int, q: int)
    requires u >= 0 && p >= 1 && q == u / p
    ensures 0 <= q <= u
  {
    DivModUnique(u, p, q, u % p);
    if q > 0 {
      MulAtLeast(q, p);
    }
  }

  /** Floor division of a negative number, through its complement. */
  lemma DivNegative(v: int, p: int)
    requires v < 0 && p > 0
    ensures v / p == -((-v - 1) / p) - 1
  {
    var w := -v - 1;
    var a, b := w / p, w % p;
    assert v == p * (-a - 1) + (p - 1 - b);
    DivModUnique(v, p, -a - 1, p - 1 - b);
  }

  /** `x >> n`, bit by bit, as ECMAScript defines it on the 32-bit pattern
      of `x`: bit `i` of the result is bit `i + count` of `x`, and the top
      `count` bits are copies of the sign bit 31. */
  lemma ShiftRightBit(x: int, n: int, i: nat)
    requires i < 32
    ensures Bit(ToUint32(ShiftRight(x, n)), i) <==>
              Bit(ToUint32(x), if i + ShiftCount(n) < 32 then i + ShiftCount(n) else 31)
  {
    var u, s := ToUint32(x), ShiftCount(n);
    var v := ToInt32(x);
    assert ShiftRight(x, n) == v / Pow2(s);
    Pow2Wide();
    if i + s >= 32 {
      Pow2Monotonic(32, i + s);
    }
    if u < TWO31 {
      assert v == u;
      ShiftRightNonNegative(u, s, i, v / Pow2(s));
    } else {
      assert v == u - TWO32;
      ShiftRightNegative(u, s, i, v, v / Pow2(s));
    }
  }

  /** `>>` of a value whose sign bit is clear. */
  lemma ShiftRightNonNegative(u: nat, s: nat, i: nat, q: int)
    requires u < TWO31 && i < 32 && q == u / Pow2(s)
    requires Pow2(31) == TWO31 && (i + s >= 32 ==> TWO32 <= Pow2(i + s))
    ensures Bit(ToUint32(q), i) <==> Bit(u, if i + s < 32 then i + s else 31)
  {
    DivBelow(u, Pow2(s), q);
    assert ToUint32(q) == q;
    BitOfQuotient(u, s, i);
    if i + s >= 32 {
      BitAbove(u, i + s);
      BitAbove(u, 31);
    }
  }

  /** `>>` of a value whose sign bit is set, through the complement
      `2^32 - 1 - u`, whose sign bit is clear. */
  lemma ShiftRightNegative(u: nat, s: nat, i: nat, v: int, q: int)
    requires TWO31 <= u < TWO32 && i < 32 && v == u - TWO32 && q == v / Pow2(s)
    requires Pow2(31) == TWO31 && Pow2(32) == TWO32 && (i + s >= 32 ==> TWO32 <= Pow2(i + s))
    ensures Bit(ToUint32(q), i) <==> Bit(u, if i + s < 32 then i + s else 31)
  {
    var p := Pow2(s);
    var w := TWO32 - 1 - u;
    assert -v - 1 == w;
    var a := w / p;
    DivNegative(v, p);
    assert q == -a - 1;
    DivBelow(w, p, a);
    DivModUnique(q, TWO32, -1, TWO32 - 1 - a);
    assert ToUint32(q) == Pow2(32) - 1 - a;
    BitOfComplement(a, 32, i);
    BitOfQuotient(w, s, i);
    if i + s < 32 {
      BitOfComplement(w, 32, i + s);
      assert u == Pow2(32) - 1 - w;
    } else {
      BitAbove(w, i + s);
      BitAbove(w, 31);
      BitOfComplement(w, 32, 31);
      assert u == Pow2(32) - 1 - w;
    }
  }

  /** `q & 255` is the low byte of `q`, whatever its sign. */
  lemma LowByte(q: int)
    ensures BitAnd(q, 255) == q % 256
  {
    var u := ToUint32(q);
    assert ToUint32(255) == 255 == Pow2(8) - 1;
    AndLowMask(u, 8);
    assert Pow2(8) == 256;
    var a := q / TWO32;
    var b := u / 256;
    assert q == TWO32 * a + u;
    assert u == 256 * b + u % 256;
    DivModUnique(q, 256, 16777216 * a + b, u % 256);
  }

  /** OR with 0 only converts. */
  lemma OrZero(x: int)
    ensures BitOr(x, 0) == ToInt32(x) && BitOr(0, x) == ToInt32(x)
  {
    Uint32OfInt32(ToUint32(x));
  }
}
