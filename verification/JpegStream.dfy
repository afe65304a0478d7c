/** The entropy-coded data of a JPEG scan as an unbounded bit sequence: stuffed bytes are
    undone, the bits of each byte come from the most significant downwards, and zeros follow
    once a marker or the end of the input is met (sections B.1.1.5 and F.2.2.5 of ITU-T T.81). */
module JpegStream {
  import opened Bits

  /** Drops leading fill bytes. */
  function SkipFill(d: seq<Byte>): (r: seq<Byte>)
    ensures |r| <= |d|
  {
    if |d| > 0 && d[0] == 0xFF then SkipFill(d[1..]) else d
  }

  /** The coded bytes at the start of d, up to the first marker. An 0xFF that ends the input
      counts as a coded byte. */
  function Entropy(d: seq<Byte>): seq<Byte>
    decreases |d|
  {
    if |d| == 0 then []
    else if d[0] != 0xFF then [d[0]] + Entropy(d[1..])
    else
      var r := SkipFill(d[1..]);
      if |r| == 0 then [0xFF]
      else if r[0] == 0 then [0xFF] + Entropy(r[1..])
      else []
  }

  /** The marker that ends the coded bytes, 0 if there is none. */
  function MarkerAfter(d: seq<Byte>): Byte
    decreases |d|
  {
    if |d| == 0 then 0
    else if d[0] != 0xFF then MarkerAfter(d[1..])
    else
      var r := SkipFill(d[1..]);
      if |r| == 0 then 0
      else if r[0] == 0 then MarkerAfter(r[1..])
      else r[0]
  }

  /** What follows that marker. */
  function AfterMarker(d: seq<Byte>): seq<Byte>
    decreases |d|
  {
    if |d| == 0 then []
    else if d[0] != 0xFF then AfterMarker(d[1..])
    else
      var r := SkipFill(d[1..]);
      if |r| == 0 then []
      else if r[0] == 0 then AfterMarker(r[1..])
      else r[1..]
  }

  function CodedByte(s: seq<Byte>, k: nat): Byte {
    if k < |s| then s[k] else 0
  }

  function CodedBit(s: seq<Byte>, i: nat): (b: nat)
    ensures b < 2
  {
    BitOf(CodedByte(s, i / 8), 7 - i % 8)
  }

  /** The n bits at position p as a number, first bit most significant. */
  function Top(s: seq<Byte>, p: nat, n: nat): (v: nat)
    ensures v < Pow2(n)
  {
    if n == 0 then 0 else 2 * Top(s, p, n - 1) + CodedBit(s, p + n - 1)
  }

  lemma {:induction false} TopSplit(s: seq<Byte>, p: nat, a: nat, b: nat)
    ensures Top(s, p, a + b) == Shl(Top(s, p, a), b) + Top(s, p + a, b)
    decreases b
  {
    hide CodedBit;
    if b > 0 {
      TopSplit(s, p, a, b - 1);
    }
  }

  lemma CodedBitOf(s: seq<Byte>, k: nat, i: nat)
    requires i < 8
    ensures CodedBit(s, 8 * k + i) == BitOf(CodedByte(s, k), 7 - i)
  {
    assert (8 * k + i) / 8 == k && (8 * k + i) % 8 == i;
  }

  // A parameter such as `eight`, required to be 8, keeps the verifier from unrolling a recursive
  // function on a literal.

  lemma {:induction false} ByteBits(s: seq<Byte>, k: nat, n: nat, eight: nat)
    requires n <= 8 == eight
    ensures Top(s, 8 * k, n) == Shr(CodedByte(s, k), eight - n)
    decreases n
  {
    hide CodedBit;
    var v := CodedByte(s, k);
    if n == 0 {
      Pow2Values();
      ShrInterval(v, eight, 0);
      ShlOne(eight);
      ShlZero(eight);
    } else {
      ByteBits(s, k, n - 1, eight);
      CodedBitOf(s, k, n - 1);
      ShrStep(v, eight - n);
    }
  }

  lemma {:induction false} ShrStep(v: nat, n: nat)
    ensures Shr(v, n) == 2 * Shr(v, n + 1) + BitOf(v, n)
  {
    if n > 0 {
      ShrStep(v / 2, n - 1);
    }
  }

  lemma TopByte(s: seq<Byte>, k: nat, eight: nat)
    requires eight == 8
    ensures Top(s, 8 * k, eight) == CodedByte(s, k)
  {
    ByteBits(s, k, eight, eight);
  }

  lemma {:induction false} TopPastEnd(s: seq<Byte>, p: nat, n: nat)
    requires p >= 8 * |s|
    ensures Top(s, p, n) == 0
    decreases n
  {
    if n > 0 {
      TopPastEnd(s, p, n - 1);
      BitOfZero(7 - (p + n - 1) % 8);
    }
  }

  // ----- the 32-bit reservoir: m valid bits at the top, zeros below

  ghost predicate Holds(cb: nat, s: seq<Byte>, p: nat, m: nat) {
    m <= 32 && cb == Shl(Top(s, p, m), 32 - m)
  }

  /** The reservoir in two parts: its first n bits and what is left after them. */
  lemma HoldsSplit(cb: nat, s: seq<Byte>, p: nat, m: nat, n: nat)
    requires Holds(cb, s, p, m) && n <= m
    ensures cb == Shl(Top(s, p, n), 32 - n) + Shl(Top(s, p + n, m - n), 32 - m)
    ensures Shl(Top(s, p + n, m - n), 32 - m) < Pow2(32 - n)
  {
    hide Top, Shl, Pow2;
    var hi, lo := Top(s, p, n), Top(s, p + n, m - n);
    TopSplit(s, p, n, m - n);
    ShlAdd(Shl(hi, m - n), lo, 32 - m);
    ShlShl(hi, m - n, 32 - m);
    ShlMono(Pow2(m - n), lo, 32 - m);
    ShlPow2(m - n, 32 - m);
  }

  /** The first n bits are the reservoir shifted down. */
  lemma HoldsTop(cb: nat, s: seq<Byte>, p: nat, m: nat, n: nat)
    requires Holds(cb, s, p, m) && n <= m
    ensures Shr(cb, 32 - n) == Top(s, p, n)
  {
    hide Top, Shl, Pow2, Shr, Mask;
    HoldsSplit(cb, s, p, m, n);
    Unpack(Shl(Top(s, p + n, m - n), 32 - m), Top(s, p, n), 32 - n);
  }

  /** Shifting the reservoir up by n within its 32 bits consumes n bits. */
  lemma HoldsShift(cb: nat, s: seq<Byte>, p: nat, m: nat, n: nat)
    requires Holds(cb, s, p, m) && n <= m
    ensures Holds(Shl(Mask(cb, 32 - n), n), s, p + n, m - n)
  {
    hide Top, Shl, Pow2, Shr, Mask;
    var lo := Top(s, p + n, m - n);
    HoldsSplit(cb, s, p, m, n);
    Unpack(Shl(lo, 32 - m), Top(s, p, n), 32 - n);
    ShlShl(lo, 32 - m, n);
  }

  /** Once no coded byte is left, the zeros below the valid bits are themselves valid. */
  lemma HoldsPad(cb: nat, s: seq<Byte>, p: nat, m: nat)
    requires Holds(cb, s, p, m) && p + m >= 8 * |s|
    ensures Holds(cb, s, p, 32)
  {
    hide Top, Shl;
    TopSplit(s, p, m, 32 - m);
    TopPastEnd(s, p + m, 32 - m);
    assert Shl(Top(s, p, 32), 0) == Top(s, p, 32) by {
      ShlBy0(Top(s, p, 32));
    }
  }

  lemma ShlBy0(v: nat)
    ensures Shl(v, 0) == v
  {
  }

  /** Or-ing a fetched byte in below the m valid bits makes them m + 8. */
  lemma HoldsByte(cb: nat, s: seq<Byte>, p: nat, m: nat, k: nat, eight: nat)
    requires eight == 8 && m <= 24 && p + m == eight * k && Holds(cb, s, p, m)
    ensures Holds(Or(cb, Shl(CodedByte(s, k), 24 - m)), s, p, m + eight)
  {
    hide Top, Shl, Or, Pow2, CodedByte;
    var v, b := Top(s, p, m), CodedByte(s, k);
    TopSplit(s, p, m, eight);
    TopByte(s, k, eight);
    ShlShl(v, eight, 24 - m);
    ShlAdd(Shl(v, eight), b, 24 - m);
    OrLow(Shl(b, 24 - m), v, 32 - m) by {
      Pow2Values();
      ShlMono(Pow2(eight), b, 24 - m);
      ShlPow2(eight, 24 - m);
    }
  }

  lemma OrLow(a: nat, b: nat, n: nat)
    requires a < Pow2(n)
    ensures Or(Shl(b, n), a) == a + Shl(b, n)
  {
    hide Pow2, Shl;
    OrDisjoint(a, b, n);
    OrSym(a, Shl(b, n));
  }

  lemma {:induction false} OrSym(a: nat, b: nat)
    ensures Or(a, b) == Or(b, a)
  {
    if a != 0 && b != 0 {
      OrSym(a / 2, b / 2);
    }
  }
}
