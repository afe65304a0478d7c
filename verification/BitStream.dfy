/** The input of a DEFLATE decoder as an unbounded bit sequence: the bits of each byte
    from the least significant upwards, byte after byte, and zeros after the last byte. */
module BitStream {
  import opened Bits

  function ByteAt(data: seq<Byte>, k: nat): Byte {
    if k < |data| then data[k] else 0
  }

  function StreamBit(data: seq<Byte>, i: nat): (b: nat)
    ensures b < 2
  {
    BitOf(ByteAt(data, i / 8), i % 8)
  }

  /** A data element of n bits at position p: least significant bit first. */
  function Peek(data: seq<Byte>, p: nat, n: nat): (v: nat)
    ensures v < Pow2(n)
    decreases n
  {
    if n == 0 then 0 else StreamBit(data, p) + 2 * Peek(data, p + 1, n - 1)
  }

  /** A Huffman code of n bits at position p: most significant bit first. */
  function CodeAt(data: seq<Byte>, p: nat, n: nat): (c: nat)
    ensures c < Pow2(n)
  {
    if n == 0 then 0 else 2 * CodeAt(data, p, n - 1) + StreamBit(data, p + n - 1)
  }

  lemma {:induction false} PeekSplit(data: seq<Byte>, p: nat, a: nat, b: nat)
    ensures Peek(data, p, a + b) == Peek(data, p, a) + Shl(Peek(data, p + a, b), a)
    decreases a
  {
    hide StreamBit;
    if a > 0 {
      PeekSplit(data, p + 1, a - 1, b);
      assert p + 1 + (a - 1) == p + a;
    }
  }

  lemma {:induction false} PeekBit(data: seq<Byte>, p: nat, n: nat, i: nat)
    requires i < n
    ensures BitOf(Peek(data, p, n), i) == StreamBit(data, p + i)
    decreases n
  {
    hide StreamBit;
    if i > 0 {
      PeekBit(data, p + 1, n - 1, i - 1);
    }
  }

  lemma BitOfByte(data: seq<Byte>, k: nat, i: nat)
    requires i < 8
    ensures StreamBit(data, 8 * k + i) == BitOf(ByteAt(data, k), i)
  {
    assert (8 * k + i) / 8 == k && (8 * k + i) % 8 == i;
  }

  // A parameter such as `eight`, required to be 8, keeps the verifier from unrolling a recursive
  // function on a literal.

  lemma PeekByte(data: seq<Byte>, k: nat, n: nat)
    requires n == 8
    ensures Peek(data, 8 * k, n) == ByteAt(data, k)
  {
    var v := ByteAt(data, k);
    forall i: nat | i < n
      ensures BitOf(Peek(data, 8 * k, n), i) == BitOf(v, i)
    {
      PeekBit(data, 8 * k, n, i);
      BitOfByte(data, k, i);
    }
    Pow2Values();
    SameBits(Peek(data, 8 * k, n), v, n);
  }

  /** Masking and shifting a buffered window takes its first s bits off. */
  lemma PeekTake(data: seq<Byte>, p: nat, n: nat, s: nat)
    requires s <= n
    ensures And(Peek(data, p, n), Pow2(s) - 1) == Peek(data, p, s)
    ensures Shr(Peek(data, p, n), s) == Peek(data, p + s, n - s)
  {
    hide And, Shl, Shr, Mask, Peek, Pow2;
    var low, high := Peek(data, p, s), Peek(data, p + s, n - s);
    PeekSplit(data, p, s, n - s);
    AndMask(low + Shl(high, s), s);
    Unpack(low, high, s);
  }

  /** Reading l bits as a Huffman code is reversing them in the buffered window. */
  lemma {:induction false} CodeAtIsRev(data: seq<Byte>, p: nat, n: nat, l: nat)
    requires l <= n
    ensures CodeAt(data, p, l) == Rev(Peek(data, p, n), l)
  {
    hide StreamBit, Peek;
    if l > 0 {
      CodeAtIsRev(data, p, n, l - 1);
      PeekBit(data, p, n, l - 1);
    }
  }

  lemma {:induction false} PeekPastEnd(data: seq<Byte>, p: nat, n: nat)
    requires p >= 8 * |data|
    ensures Peek(data, p, n) == 0
    decreases n
  {
    if n > 0 {
      PeekPastEnd(data, p + 1, n - 1);
      BitOfZero(p % 8);
    }
  }

  /** A byte fetched at the end of an n-bit window extends the window by its 8 bits. */
  lemma WindowExtend(data: seq<Byte>, p: nat, n: nat, k: nat, eight: nat)
    requires p + n == 8 * k && eight == 8
    ensures Or(Peek(data, p, n), Shl(ByteAt(data, k), n)) == Peek(data, p, n + eight)
  {
    hide Peek, Shl, Or;
    PeekSplit(data, p, n, eight);
    PeekByte(data, k, eight);
    OrDisjoint(Peek(data, p, n), ByteAt(data, k), n);
  }

  /** Two aligned bytes are a 16-bit element with the low byte first. */
  lemma PeekTwoBytes(data: seq<Byte>, k: nat, eight: nat)
    requires eight == 8
    ensures Peek(data, 8 * k, eight + eight) == ByteAt(data, k) + 256 * ByteAt(data, k + 1)
  {
    hide Peek, Shl;
    Pow2Values();
    PeekSplit(data, 8 * k, eight, eight);
    PeekByte(data, k, eight);
    PeekByte(data, k + 1, eight);
    ShlMul(ByteAt(data, k + 1), eight);
  }
}
