/** Bits put into bytes, the inverse of BitStream: least significant bit of each byte first. */
module BitWriter {
  import opened Bits
  import opened BitStream

  type Bit = b: nat | b < 2

  /** The n low bits of v, least significant first, as a data element is written. */
  function Element(v: nat, n: nat): (bits: seq<Bit>)
    ensures |bits| == n
  {
    if n == 0 then [] else [v % 2] + Element(v / 2, n - 1)
  }

  /** The n low bits of v, most significant first, as a Huffman code is written. */
  function CodeBits(v: nat, n: nat): (bits: seq<Bit>)
    ensures |bits| == n
  {
    if n == 0 then [] else CodeBits(v / 2, n - 1) + [v % 2]
  }

  /** data has these bits from position p on. */
  ghost predicate Written(data: seq<Byte>, p: nat, bits: seq<Bit>) {
    forall i: nat :: i < |bits| ==> StreamBit(data, p + i) == bits[i]
  }

  lemma WrittenSplit(data: seq<Byte>, p: nat, a: seq<Bit>, b: seq<Bit>)
    requires Written(data, p, a + b)
    ensures Written(data, p, a) && Written(data, p + |a|, b)
  {
    hide StreamBit;
    forall i: nat | i < |a|
      ensures StreamBit(data, p + i) == a[i]
    {
      assert (a + b)[i] == a[i];
    }
    forall i: nat | i < |b|
      ensures StreamBit(data, p + |a| + i) == b[i]
    {
      assert StreamBit(data, p + (|a| + i)) == (a + b)[|a| + i];
    }
  }

  lemma {:induction false} ReadElement(data: seq<Byte>, p: nat, v: nat, n: nat)
    requires v < Pow2(n) && Written(data, p, Element(v, n))
    ensures Peek(data, p, n) == v
    decreases n
  {
    hide StreamBit;
    if n > 0 {
      WrittenSplit(data, p, [v % 2], Element(v / 2, n - 1));
      ReadElement(data, p + 1, v / 2, n - 1);
      assert StreamBit(data, p + 0) == Element(v, n)[0];
    }
  }

  lemma {:induction false} ReadCode(data: seq<Byte>, p: nat, v: nat, n: nat)
    requires v < Pow2(n) && Written(data, p, CodeBits(v, n))
    ensures CodeAt(data, p, n) == v
    decreases n
  {
    hide StreamBit;
    if n > 0 {
      WrittenSplit(data, p, CodeBits(v / 2, n - 1), [v % 2]);
      ReadCode(data, p, v / 2, n - 1);
      assert StreamBit(data, p + (n - 1)) == CodeBits(v, n)[n - 1];
    }
  }

  // ----- bytes

  /** The number with these bits, least significant first. */
  function Value(bits: seq<Bit>): nat {
    if bits == [] then 0 else bits[0] + 2 * Value(bits[1..])
  }

  lemma {:induction false} ValueBits(bits: seq<Bit>, i: nat)
    ensures Value(bits) < Pow2(|bits|)
    ensures BitOf(Value(bits), i) == if i < |bits| then bits[i] else 0
    decreases |bits|
  {
    hide BitOf;
    if bits == [] {
      BitOfZero(i);
    } else {
      ValueBits(bits[1..], if i > 0 then i - 1 else 0);
      LowestBit(bits[0], Value(bits[1..]), i);
    }
  }

  lemma LowestBit(b: Bit, v: nat, i: nat)
    ensures BitOf(b + 2 * v, i) == if i == 0 then b else BitOf(v, i - 1)
  {
    var w := b + 2 * v;
    assert w % 2 == b && w / 2 == v;
  }

  /** The bits in bytes, the last one filled up with zeros. */
  function Bytes(bits: seq<Bit>): (r: seq<Byte>)
    ensures 8 * |r| >= |bits|
    decreases |bits|
  {
    if bits == [] then []
    else if |bits| <= 8 then [Value(bits) % 256]
    else [Value(bits[..8]) % 256] + Bytes(bits[8..])
  }

  lemma FirstByteBits(bits: seq<Bit>, i: nat)
    requires 0 < |bits| && i < 8 && i < |bits|
    ensures BitOf(Bytes(bits)[0], i) == bits[i]
  {
    hide BitOf, Value, Pow2;
    Pow2Values();
    var first := if |bits| <= 8 then bits else bits[..8];
    ValueBits(first, i);
    Pow2Mono(|first|, 8);
  }

  /** Every bit is found again, wherever the bytes stand. */
  lemma {:induction false} BitOfBytes(data: seq<Byte>, k: nat, bits: seq<Bit>, i: nat)
    requires i < |bits|
    requires k + |Bytes(bits)| <= |data| && data[k..k + |Bytes(bits)|] == Bytes(bits)
    ensures StreamBit(data, 8 * k + i) == bits[i]
    decreases |bits|
  {
    hide BitOf, Value, StreamBit;
    var r := Bytes(bits);
    if i < 8 {
      FirstByteBits(bits, i);
      BitOfByte(data, k, i);
      assert data[k] == data[k..k + |r|][0];
    } else {
      assert r[1..] == Bytes(bits[8..]);
      assert data[k + 1..k + |r|] == data[k..k + |r|][1..];
      BitOfBytes(data, k + 1, bits[8..], i - 8);
      assert 8 * (k + 1) + (i - 8) == 8 * k + i;
    }
  }

  lemma BytesWritten(data: seq<Byte>, k: nat, bits: seq<Bit>)
    requires k + |Bytes(bits)| <= |data| && data[k..k + |Bytes(bits)|] == Bytes(bits)
    ensures Written(data, 8 * k, bits)
  {
    hide StreamBit, Bytes;
    forall i: nat | i < |bits|
      ensures StreamBit(data, 8 * k + i) == bits[i]
    {
      BitOfBytes(data, k, bits, i);
    }
  }

  lemma {:induction false} BytesSize(bits: seq<Bit>)
    ensures |bits| <= 8 * |Bytes(bits)| < |bits| + 8
    decreases |bits|
  {
    if |bits| > 8 {
      BytesSize(bits[8..]);
    }
  }
}
