/** C's bitwise operators on unsigned integers, as functions on `nat`, and the facts
    that turn shifts, masks and disjoint `|` into arithmetic. */
module Bits {

  type Byte = x: int | 0 <= x < 256

  function Pow2(n: nat): (r: nat)
    ensures r >= 1
  {
    if n == 0 then 1 else 2 * Pow2(n - 1)
  }

  function BitOf(v: nat, i: nat): (b: nat)
    ensures b < 2
  {
    if i == 0 then v % 2 else BitOf(v / 2, i - 1)
  }

  function Shr(v: nat, n: nat): nat {
    if n == 0 then v else Shr(v / 2, n - 1)
  }

  function Shl(v: nat, n: nat): nat {
    if n == 0 then v else 2 * Shl(v, n - 1)
  }

  /** The low n bits. */
  function Mask(v: nat, n: nat): (r: nat)
    ensures r < Pow2(n)
  {
    if n == 0 then 0 else v % 2 + 2 * Mask(v / 2, n - 1)
  }

  function And(a: nat, b: nat): nat {
    if a == 0 || b == 0 then 0 else 2 * And(a / 2, b / 2) + (if a % 2 == 1 && b % 2 == 1 then 1 else 0)
  }

  function Or(a: nat, b: nat): nat {
    if a == 0 then b else if b == 0 then a else
    2 * Or(a / 2, b / 2) + (if a % 2 == 1 || b % 2 == 1 then 1 else 0)
  }

  function Xor(a: nat, b: nat): nat {
    if a == 0 then b else if b == 0 then a else
    2 * Xor(a / 2, b / 2) + (if a % 2 != b % 2 then 1 else 0)
  }

  // ----- products

  /** a times b by repeated addition: a product that the solver takes apart step by step, for
      offsets of rows, pixels and bit fields. */
  function Times(a: nat, b: nat): nat
    decreases a
  {
    if a == 0 then 0 else Times(a - 1, b) + b
  }

  lemma {:induction false} TimesMono(a: nat, b: nat, m: nat)
    requires a <= b
    ensures Times(a, m) <= Times(b, m)
    decreases b
  {
    if a < b {
      TimesMono(a, b - 1, m);
    }
  }

  lemma {:induction false} TimesAdd(a: nat, b: nat, m: nat)
    ensures Times(a + b, m) == Times(a, m) + Times(b, m)
  {
    if b > 0 {
      TimesAdd(a, b - 1, m);
      assert Times(a + b, m) == Times(a + b - 1, m) + m;
    }
  }

  lemma TimesStep(j: nat, stride: nat)
    ensures Times(0, stride) == 0 && Times(j + 1, stride) == Times(j, stride) + stride
  {
  }

  lemma {:induction false} TimesIs(j: nat, stride: nat)
    ensures Times(j, stride) == j * stride
  {
    if j > 0 {
      TimesIs(j - 1, stride);
      assert j * stride == (j - 1) * stride + stride;
    }
  }

  lemma MulMono(a: nat, b: nat, c: nat)
    requires a <= b
    ensures a * c <= b * c
  {
  }

  lemma DivBracket(v: nat, w: nat)
    requires w > 0
    ensures v / w * w <= v < (v / w + 1) * w
  {
  }

  lemma DivMod(v: nat, w: nat)
    requires w > 0
    ensures v == v % w + v / w * w
  {
  }

  /** Quotient and remainder of a number put together from them. */
  lemma Quotient(q: nat, r: nat, d: nat)
    requires r < d
    ensures (q * d + r) / d == q && (q * d + r) % d == r
  {
    var n := q * d + r;
    DivMod(n, d);
    if n / d < q {
      MulMono(n / d + 1, q, d);
    } else if n / d > q {
      MulMono(q + 1, n / d, d);
    }
  }

  // ----- powers of two

  lemma {:induction false} Pow2Mono(a: nat, b: nat)
    requires a <= b
    ensures Pow2(a) <= Pow2(b)
  {
    if a < b {
      Pow2Mono(a, b - 1);
    }
  }

  lemma Pow2Values()
    ensures Pow2(1) == 2 && Pow2(2) == 4 && Pow2(3) == 8 && Pow2(4) == 16
    ensures Pow2(5) == 32 && Pow2(6) == 64 && Pow2(7) == 128 && Pow2(8) == 256
    ensures Pow2(9) == 512 && Pow2(10) == 1024 && Pow2(11) == 2048 && Pow2(12) == 4096
    ensures Pow2(13) == 8192 && Pow2(14) == 16384 && Pow2(15) == 32768 && Pow2(16) == 65536
  {
    assert Pow2(4) == 16;
    assert Pow2(8) == 256;
    assert Pow2(12) == 4096;
    assert Pow2(16) == 65536;
  }

  // ----- shifting and masking

  lemma {:induction false} ShlZero(n: nat)
    ensures Shl(0, n) == 0
  {
    if n > 0 {
      ShlZero(n - 1);
    }
  }

  lemma {:induction false} ShlOne(n: nat)
    ensures Shl(1, n) == Pow2(n)
  {
    if n > 0 {
      ShlOne(n - 1);
    }
  }

  lemma {:induction false} ShlAdd(a: nat, b: nat, n: nat)
    ensures Shl(a + b, n) == Shl(a, n) + Shl(b, n)
  {
    if n > 0 {
      ShlAdd(a, b, n - 1);
    }
  }

  lemma {:induction false} ShlDouble(a: nat, n: nat)
    ensures Shl(2 * a, n) == 2 * Shl(a, n)
  {
    if n > 0 {
      ShlDouble(a, n - 1);
    }
  }

  lemma {:induction false} ShlMono(a: nat, b: nat, n: nat)
    ensures a <= b <==> Shl(a, n) <= Shl(b, n)
  {
    if n > 0 {
      ShlMono(a, b, n - 1);
    }
  }

  lemma {:induction false} ShlPow2(a: nat, b: nat)
    ensures Shl(Pow2(a), b) == Pow2(a + b)
  {
    if b > 0 {
      ShlPow2(a, b - 1);
    }
  }

  lemma {:induction false} ShlShl(v: nat, a: nat, b: nat)
    ensures Shl(Shl(v, a), b) == Shl(v, a + b)
    decreases b
  {
    if b > 0 {
      ShlShl(v, a, b - 1);
    }
  }

  /** The values whose bits from n upwards are c form one interval. */
  lemma {:induction false} ShrInterval(w: nat, n: nat, c: nat)
    ensures Shr(w, n) == c <==> Shl(c, n) <= w < Shl(c + 1, n)
  {
    if n > 0 {
      ShrInterval(w / 2, n - 1, c);
    }
  }

  lemma {:induction false} ShrShr(v: nat, a: nat, b: nat)
    ensures Shr(Shr(v, a), b) == Shr(v, a + b)
    decreases a
  {
    if a > 0 {
      ShrShr(v / 2, a - 1, b);
    }
  }

  lemma {:induction false} ShlMul(v: nat, n: nat)
    ensures Shl(v, n) == v * Pow2(n)
  {
    if n > 0 {
      ShlMul(v, n - 1);
      var w := Pow2(n - 1);
      assert v * (2 * w) == 2 * (v * w);
    }
  }

  lemma ShrDiv(v: nat, n: nat)
    ensures Shr(v, n) == v / Pow2(n)
  {
    hide Shl, Shr, Pow2;
    var c := v / Pow2(n);
    DivBracket(v, Pow2(n));
    ShlMul(c, n);
    ShlMul(c + 1, n);
    ShrInterval(v, n, c);
  }

  /** Low and high parts of a value put together from them. */
  lemma {:induction false} Unpack(low: nat, high: nat, n: nat)
    requires low < Pow2(n)
    ensures Mask(low + Shl(high, n), n) == low
    ensures Shr(low + Shl(high, n), n) == high
  {
    if n > 0 {
      Unpack(low / 2, high, n - 1);
      var v := low + Shl(high, n);
      assert v % 2 == low % 2 && v / 2 == low / 2 + Shl(high, n - 1);
    }
  }

  lemma SmallMod(x: nat)
    requires x < 0x10000
    ensures x % 0x10000 == x
  {
  }

  lemma MaskMod(v: nat, n: nat)
    ensures Mask(v, n) == v % Pow2(n)
  {
    hide Mask, Shl, Pow2;
    DivMod(v, Pow2(n));
    ShlMul(v / Pow2(n), n);
    Unpack(v % Pow2(n), v / Pow2(n), n);
  }

  lemma {:induction false} MaskSmall(v: nat, n: nat)
    requires v < Pow2(n)
    ensures Mask(v, n) == v
  {
    if n > 0 {
      MaskSmall(v / 2, n - 1);
    }
  }

  lemma AndOdd(v: nat, m: nat)
    ensures And(v, 2 * m + 1) == 2 * And(v / 2, m) + v % 2
  {
  }

  /** `v & ((1 << n) - 1)` keeps the low n bits. */
  lemma {:induction false} AndMask(v: nat, n: nat)
    ensures And(v, Pow2(n) - 1) == Mask(v, n)
  {
    if n > 0 {
      AndMask(v / 2, n - 1);
      assert Pow2(n) - 1 == 2 * (Pow2(n - 1) - 1) + 1;
      AndOdd(v, Pow2(n - 1) - 1);
    }
  }

  lemma OrEven(a: nat, x: nat)
    ensures Or(a, 2 * x) == 2 * Or(a / 2, x) + a % 2
  {
  }

  /** Or-ing in a value above the occupied bits adds it. */
  lemma {:induction false} OrDisjoint(a: nat, b: nat, n: nat)
    requires a < Pow2(n)
    ensures Or(a, Shl(b, n)) == a + Shl(b, n)
  {
    if n > 0 {
      OrDisjoint(a / 2, b, n - 1);
      OrEven(a, Shl(b, n - 1));
    }
  }

  lemma XorOdd(v: nat, m: nat)
    ensures Xor(v, 2 * m + 1) == 2 * Xor(v / 2, m) + 1 - v % 2
  {
  }

  lemma XorNothing()
    ensures Xor(0, 0) == 0
  {
  }

  /** Complementing n bits is subtracting from all ones. */
  lemma {:induction false} XorOnes(v: nat, n: nat)
    requires v < Pow2(n)
    ensures Xor(v, Pow2(n) - 1) == Pow2(n) - 1 - v
  {
    hide Xor;
    if n == 0 {
      XorNothing();
    } else {
      XorOnes(v / 2, n - 1);
      assert Pow2(n) - 1 == 2 * (Pow2(n - 1) - 1) + 1;
      XorOdd(v, Pow2(n - 1) - 1);
    }
  }

  lemma XorStep(a: nat, b: nat)
    ensures Xor(a, b) % 2 == (if a % 2 != b % 2 then 1 else 0) && Xor(a, b) / 2 == Xor(a / 2, b / 2)
    ensures Xor(a, 0) == a && Xor(0, b) == b
  {
    if a == 0 {
    } else if b == 0 {
    } else {
      var x, d := Xor(a / 2, b / 2), if a % 2 != b % 2 then 1 else 0;
      assert Xor(a, b) == 2 * x + d;
    }
  }

  lemma {:induction false} XorComm(a: nat, b: nat)
    ensures Xor(a, b) == Xor(b, a)
  {
    if a != 0 && b != 0 {
      XorComm(a / 2, b / 2);
    }
  }

  lemma {:induction false} XorAssoc(a: nat, b: nat, c: nat)
    ensures Xor(Xor(a, b), c) == Xor(a, Xor(b, c))
  {
    hide Xor;
    XorStep(a, b);
    XorStep(b, c);
    XorStep(Xor(a, b), c);
    XorStep(a, Xor(b, c));
    if a != 0 && b != 0 && c != 0 {
      XorAssoc(a / 2, b / 2, c / 2);
    }
  }

  lemma {:induction false} XorSelf(a: nat)
    ensures Xor(a, a) == 0
  {
    if a != 0 {
      XorSelf(a / 2);
    }
  }

  lemma {:induction false} XorBound(a: nat, b: nat, n: nat)
    requires a < Pow2(n) && b < Pow2(n)
    ensures Xor(a, b) < Pow2(n)
  {
    if a != 0 && b != 0 {
      XorBound(a / 2, b / 2, n - 1);
    }
  }

  /** Adding 2^n keeps the low n bits; no smaller step does. */
  lemma {:induction false} MaskStep(j: nat, n: nat)
    ensures Mask(j + Pow2(n), n) == Mask(j, n)
  {
    if n > 0 {
      MaskStep(j / 2, n - 1);
      assert (j + Pow2(n)) / 2 == j / 2 + Pow2(n - 1);
    }
  }

  lemma {:induction false} MaskGap(j: nat, k: nat, n: nat)
    requires Mask(j, n) == Mask(k, n) && j < k
    ensures j + Pow2(n) <= k
  {
    if n > 0 {
      MaskGap(j / 2, k / 2, n - 1);
    }
  }

  lemma {:induction false} MaskLeast(k: nat, n: nat)
    ensures Mask(k, n) <= k
  {
    if n > 0 {
      MaskLeast(k / 2, n - 1);
    }
  }

  // ----- single bits

  lemma {:induction false} BitOfShr(v: nat, n: nat, i: nat)
    ensures BitOf(Shr(v, n), i) == BitOf(v, n + i)
  {
    if n > 0 {
      BitOfShr(v / 2, n - 1, i);
    }
  }

  lemma {:induction false} BitOfShl(v: nat, n: nat, i: nat)
    ensures BitOf(Shl(v, n), i) == if i < n then 0 else BitOf(v, i - n)
  {
    if n > 0 && i > 0 {
      BitOfShl(v, n - 1, i - 1);
    }
  }

  lemma {:induction false} BitOfZero(i: nat)
    ensures BitOf(0, i) == 0
  {
    if i > 0 {
      BitOfZero(i - 1);
    }
  }

  lemma {:induction false} BitOfAnd(a: nat, b: nat, i: nat)
    ensures BitOf(And(a, b), i) == if BitOf(a, i) == 1 && BitOf(b, i) == 1 then 1 else 0
  {
    if a == 0 || b == 0 {
      BitOfZero(i);
    } else if i > 0 {
      BitOfAnd(a / 2, b / 2, i - 1);
    }
  }

  lemma {:induction false} BitOfOr(a: nat, b: nat, i: nat)
    ensures BitOf(Or(a, b), i) == if BitOf(a, i) == 1 || BitOf(b, i) == 1 then 1 else 0
  {
    if a == 0 || b == 0 {
      BitOfZero(i);
    } else if i > 0 {
      BitOfOr(a / 2, b / 2, i - 1);
    }
  }

  lemma {:induction false} BitOfHigh(v: nat, n: nat, i: nat)
    requires v < Pow2(n) && n <= i
    ensures BitOf(v, i) == 0
  {
    if n == 0 {
      BitOfZero(i);
    } else {
      BitOfHigh(v / 2, n - 1, i - 1);
    }
  }

  lemma {:induction false} BitOfMask(v: nat, n: nat, i: nat)
    requires i < n
    ensures BitOf(Mask(v, n), i) == BitOf(v, i)
  {
    if i > 0 {
      BitOfMask(v / 2, n - 1, i - 1);
    }
  }

  /** Numbers below 2^n with the same n bits are equal. */
  lemma {:induction false} SameBits(a: nat, b: nat, n: nat)
    requires a < Pow2(n) && b < Pow2(n)
    requires forall i: nat :: i < n ==> BitOf(a, i) == BitOf(b, i)
    ensures a == b
  {
    if n > 0 {
      assert BitOf(a, 0) == BitOf(b, 0);
      forall i: nat | i < n - 1
        ensures BitOf(a / 2, i) == BitOf(b / 2, i)
      {
        assert BitOf(a, i + 1) == BitOf(b, i + 1);
      }
      SameBits(a / 2, b / 2, n - 1);
    }
  }

  // ----- reversing the low n bits

  /** The low n bits of v read from bit 0 upwards as a most-significant-first number. */
  function Rev(v: nat, n: nat): (r: nat)
    ensures r < Pow2(n)
  {
    if n == 0 then 0 else 2 * Rev(v, n - 1) + BitOf(v, n - 1)
  }

  lemma {:induction false} BitOfRev(v: nat, n: nat, i: nat)
    requires i < n
    ensures BitOf(Rev(v, n), i) == BitOf(v, n - 1 - i)
  {
    if i > 0 {
      assert Rev(v, n) / 2 == Rev(v, n - 1);
      BitOfRev(v, n - 1, i - 1);
    }
  }

  lemma {:induction false} RevPrefix(v: nat, l: nat, n: nat)
    requires l <= n
    ensures Shr(Rev(v, n), n - l) == Rev(v, l)
  {
    if l < n {
      RevPrefix(v, l, n - 1);
      assert Rev(v, n) / 2 == Rev(v, n - 1);
    }
  }

  lemma {:induction false} RevSameBits(a: nat, b: nat, n: nat)
    requires forall i: nat :: i < n ==> BitOf(a, i) == BitOf(b, i)
    ensures Rev(a, n) == Rev(b, n)
  {
    if n > 0 {
      RevSameBits(a, b, n - 1);
    }
  }

  lemma {:induction false} RevMask(v: nat, l: nat, n: nat)
    requires l <= n
    ensures Rev(Mask(v, n), l) == Rev(v, l)
  {
    forall i: nat | i < l
      ensures BitOf(Mask(v, n), i) == BitOf(v, i)
    {
      BitOfMask(v, n, i);
    }
    RevSameBits(Mask(v, n), v, l);
  }

  lemma {:induction false} RevInvolution(v: nat, n: nat)
    ensures Rev(Rev(v, n), n) == Mask(v, n)
  {
    forall i: nat | i < n
      ensures BitOf(Rev(Rev(v, n), n), i) == BitOf(Mask(v, n), i)
    {
      BitOfRev(Rev(v, n), n, i);
      BitOfRev(v, n, n - 1 - i);
      BitOfMask(v, n, i);
    }
    SameBits(Rev(Rev(v, n), n), Mask(v, n), n);
  }

  /** A value v starts with the n-bit code c exactly when its low bits are c reversed. */
  lemma {:induction false} RevMatches(v: nat, c: nat, n: nat)
    requires c < Pow2(n)
    ensures Rev(v, n) == c <==> Mask(v, n) == Rev(c, n)
  {
    RevInvolution(v, n);
    RevInvolution(c, n);
    RevMask(v, n, n);
    MaskSmall(c, n);
  }
}
