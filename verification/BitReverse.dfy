/** The mask-and-shift bit reversal used by the Huffman builder and the slow decoding path. */
module BitReverse {
  import opened Bits

  /** Exchanges neighbouring groups of k bits: `((n & hi) >> k) | ((n & lo) << k)`. */
  function Swap(n: nat, hi: nat, lo: nat, k: nat): nat {
    Or(Shr(And(n, hi), k), Shl(And(n, lo), k))
  }

  function BitReverse16(n: nat): nat {
    var n1 := Swap(n, 0xAAAA, 0x5555, 1);
    var n2 := Swap(n1, 0xCCCC, 0x3333, 2);
    var n3 := Swap(n2, 0xF0F0, 0x0F0F, 4);
    Swap(n3, 0xFF00, 0x00FF, 8)
  }

  function ReverseBits(v: nat, bits: nat): nat
    requires bits <= 16
  {
    Shr(BitReverse16(v), 16 - bits)
  }

  /** The lower (0) or upper (1) one of a pair of k-bit groups, for bit i < 16. */
  function Side(i: nat, k: nat): (side: nat)
    ensures side < 2
  {
    if k == 1 then i % 2
    else if k == 2 then (if i < 2 || 4 <= i < 6 || 8 <= i < 10 || 12 <= i < 14 then 0 else 1)
    else if k == 4 then (if i < 4 || 8 <= i < 12 then 0 else 1)
    else (if i < 8 then 0 else 1)
  }

  function Nibble(m: nat, i: nat): nat {
    if i == 0 then m % 2 else if i == 1 then m / 2 % 2 else if i == 2 then m / 4 % 2 else m / 8 % 2
  }

  lemma NibbleBit(m: nat, i: nat)
    requires i < 4
    ensures BitOf(m, i) == Nibble(m, i)
  {
    assert i > 0 ==> BitOf(m, i) == BitOf(m / 2, i - 1);
    assert i > 1 ==> BitOf(m / 2, i - 1) == BitOf(m / 4, i - 2);
    assert i > 2 ==> BitOf(m / 4, i - 2) == BitOf(m / 8, i - 3);
  }

  lemma ShrBytes(m: nat)
    ensures Shr(m, 4) == m / 16 && Shr(m, 8) == m / 256 && Shr(m, 12) == m / 4096
  {
    Pow2Values();
    ShrDiv(m, 4);
    ShrDiv(m, 8);
    ShrDiv(m, 12);
  }

  lemma BitOf16(m: nat, i: nat)
    requires i < 16
    ensures BitOf(m, i) == if i < 4 then Nibble(m, i) else if i < 8 then Nibble(m / 16, i - 4)
                           else if i < 12 then Nibble(m / 256, i - 8) else Nibble(m / 4096, i - 12)
  {
    if i < 4 {
      NibbleBit(m, i);
    } else if i < 8 {
      ShrBytes(m);
      BitOfShr(m, 4, i - 4);
      NibbleBit(m / 16, i - 4);
    } else if i < 12 {
      ShrBytes(m);
      BitOfShr(m, 8, i - 8);
      NibbleBit(m / 256, i - 8);
    } else {
      ShrBytes(m);
      BitOfShr(m, 12, i - 12);
      NibbleBit(m / 4096, i - 12);
    }
  }

  /** A 16-bit mask that is set exactly on one side of each pair of k-bit groups. */
  ghost predicate SideMask(m: nat, k: nat, side: nat) {
    m < 65536 && forall i: nat :: i < 16 ==> BitOf(m, i) == if Side(i, k) == side then 1 else 0
  }

  lemma MaskBit(m: nat, k: nat, side: nat, i: nat)
    requires SideMask(m, k, side)
    ensures BitOf(m, i) == if i < 16 && Side(i, k) == side then 1 else 0
  {
    if i >= 16 {
      Pow2Values();
      BitOfHigh(m, 16, i);
    }
  }

  lemma Masks1()
    ensures SideMask(0xAAAA, 1, 1) && SideMask(0x5555, 1, 0)
  {
    forall i: nat | i < 16
      ensures BitOf(0xAAAA, i) == Side(i, 1) && BitOf(0x5555, i) == 1 - Side(i, 1)
    {
      BitOf16(0xAAAA, i);
      assert 0xAAAA / 16 == 0xAAA && 0xAAAA / 256 == 0xAA && 0xAAAA / 4096 == 0xA;
      BitOf16(0x5555, i);
      assert 0x5555 / 16 == 0x555 && 0x5555 / 256 == 0x55 && 0x5555 / 4096 == 0x5;
    }
  }

  lemma Masks2()
    ensures SideMask(0xCCCC, 2, 1) && SideMask(0x3333, 2, 0)
  {
    forall i: nat | i < 16
      ensures BitOf(0xCCCC, i) == Side(i, 2) && BitOf(0x3333, i) == 1 - Side(i, 2)
    {
      BitOf16(0xCCCC, i);
      assert 0xCCCC / 16 == 0xCCC && 0xCCCC / 256 == 0xCC && 0xCCCC / 4096 == 0xC;
      BitOf16(0x3333, i);
      assert 0x3333 / 16 == 0x333 && 0x3333 / 256 == 0x33 && 0x3333 / 4096 == 0x3;
    }
  }

  lemma Masks4()
    ensures SideMask(0xF0F0, 4, 1) && SideMask(0x0F0F, 4, 0)
  {
    forall i: nat | i < 16
      ensures BitOf(0xF0F0, i) == Side(i, 4) && BitOf(0x0F0F, i) == 1 - Side(i, 4)
    {
      BitOf16(0xF0F0, i);
      assert 0xF0F0 / 16 == 0xF0F && 0xF0F0 / 256 == 0xF0 && 0xF0F0 / 4096 == 0xF;
      BitOf16(0x0F0F, i);
      assert 0x0F0F / 16 == 0x0F0 && 0x0F0F / 256 == 0x0F && 0x0F0F / 4096 == 0x0;
    }
  }

  lemma Masks8()
    ensures SideMask(0xFF00, 8, 1) && SideMask(0x00FF, 8, 0)
  {
    forall i: nat | i < 16
      ensures BitOf(0xFF00, i) == Side(i, 8) && BitOf(0x00FF, i) == 1 - Side(i, 8)
    {
      BitOf16(0xFF00, i);
      assert 0xFF00 / 16 == 0xFF0 && 0xFF00 / 256 == 0xFF && 0xFF00 / 4096 == 0xF;
      BitOf16(0x00FF, i);
      assert 0x00FF / 16 == 0x00F && 0x00FF / 256 == 0x00 && 0x00FF / 4096 == 0x0;
    }
  }

  /** Where Swap takes bit i from. */
  function Partner(i: nat, k: nat): nat {
    if Side(i, k) == 0 then i + k else if i >= k then i - k else 0
  }

  lemma PartnerFacts(i: nat, k: nat)
    requires (k == 1 || k == 2 || k == 4 || k == 8) && i < 16
    ensures Partner(i, k) < 16
    ensures i + k < 16 && Side(i + k, k) == 1 <==> Side(i, k) == 0
    ensures i >= k && Side(i - k, k) == 0 <==> Side(i, k) == 1
  {
    if k == 1 {
    } else if k == 2 {
    } else if k == 4 {
    } else {
    }
  }

  lemma SwapBit(n: nat, hi: nat, lo: nat, k: nat, i: nat)
    requires (k == 1 || k == 2 || k == 4 || k == 8) && i < 16
    requires SideMask(hi, k, 1) && SideMask(lo, k, 0)
    ensures BitOf(Swap(n, hi, lo, k), i) == BitOf(n, Partner(i, k))
  {
    BitOfOr(Shr(And(n, hi), k), Shl(And(n, lo), k), i);
    BitOfShr(And(n, hi), k, i);
    BitOfAnd(n, hi, k + i);
    MaskBit(hi, k, 1, k + i);
    BitOfShl(And(n, lo), k, i);
    PartnerFacts(i, k);
    if i >= k {
      BitOfAnd(n, lo, i - k);
      MaskBit(lo, k, 0, i - k);
    }
  }

  lemma SwapHighBit(n: nat, i: nat)
    requires i >= 16
    ensures BitOf(Swap(n, 0xFF00, 0x00FF, 8), i) == 0
  {
    Masks8();
    BitOfOr(Shr(And(n, 0xFF00), 8), Shl(And(n, 0x00FF), 8), i);
    BitOfShr(And(n, 0xFF00), 8, i);
    BitOfAnd(n, 0xFF00, 8 + i);
    MaskBit(0xFF00, 8, 1, 8 + i);
    BitOfShl(And(n, 0x00FF), 8, i);
    BitOfAnd(n, 0x00FF, i - 8);
    MaskBit(0x00FF, 8, 0, i - 8);
  }

  lemma PartnersReverse(i: nat)
    requires i < 16
    ensures Partner(Partner(Partner(Partner(i, 8), 4), 2), 1) == 15 - i
  {
  }

  /** Bit i of the trick's result, followed through the four exchanges. */
  lemma BitReverse16Bit(n: nat, i: nat)
    ensures BitOf(BitReverse16(n), i) == if i < 16 then BitOf(n, 15 - i) else 0
  {
    Masks1();
    Masks2();
    Masks4();
    Masks8();
    var n1 := Swap(n, 0xAAAA, 0x5555, 1);
    var n2 := Swap(n1, 0xCCCC, 0x3333, 2);
    var n3 := Swap(n2, 0xF0F0, 0x0F0F, 4);
    if i < 16 {
      var i1 := Partner(i, 8);
      PartnerFacts(i, 8);
      var i2 := Partner(i1, 4);
      PartnerFacts(i1, 4);
      var i3 := Partner(i2, 2);
      PartnerFacts(i2, 2);
      PartnersReverse(i);
      SwapBit(n3, 0xFF00, 0x00FF, 8, i);
      SwapBit(n2, 0xF0F0, 0x0F0F, 4, i1);
      SwapBit(n1, 0xCCCC, 0x3333, 2, i2);
      SwapBit(n, 0xAAAA, 0x5555, 1, i3);
    } else {
      SwapHighBit(n3, i);
    }
  }

  /** The trick reverses the low 16 bits and ignores the others. */
  lemma BitReverse16IsRev(n: nat)
    ensures BitReverse16(n) == Rev(n, 16)
  {
    forall i: nat
      ensures BitOf(BitReverse16(n), i) == if i < 16 then BitOf(Rev(n, 16), i) else 0
    {
      BitReverse16Bit(n, i);
      if i < 16 {
        BitOfRev(n, 16, i);
      }
    }
    BelowPow2(BitReverse16(n), 16);
    SameBits(BitReverse16(n), Rev(n, 16), 16);
  }

  lemma {:induction false} BelowPow2(v: nat, n: nat)
    requires forall i: nat :: i >= n ==> BitOf(v, i) == 0
    ensures v < Pow2(n)
    decreases n, v
  {
    if n > 0 {
      forall i: nat | i >= n - 1
        ensures BitOf(v / 2, i) == 0
      {
        assert BitOf(v, i + 1) == 0;
      }
      BelowPow2(v / 2, n - 1);
    } else if v > 0 {
      assert BitOf(v, 0) == 0;
      forall i: nat
        ensures BitOf(v / 2, i) == 0
      {
        assert BitOf(v, i + 1) == 0;
      }
      BelowPow2(v / 2, 0);
    }
  }

  lemma ReverseBitsIsRev(v: nat, bits: nat)
    requires bits <= 16 && v < Pow2(bits)
    ensures ReverseBits(v, bits) == Rev(v, bits)
  {
    hide Rev, BitOf, Shr, BitReverse16;
    BitReverse16IsRev(v);
    forall i: nat
      ensures BitOf(ReverseBits(v, bits), i) == if i < bits then BitOf(Rev(v, bits), i) else 0
    {
      BitOfShr(Rev(v, 16), 16 - bits, i);
      if i < bits {
        BitOfRev(v, 16, 16 - bits + i);
        BitOfRev(v, bits, i);
      } else {
        BitOfHigh(Rev(v, 16), 16, 16 - bits + i);
      }
    }
    BelowPow2(ReverseBits(v, bits), bits);
    SameBits(ReverseBits(v, bits), Rev(v, bits), bits);
  }
}
