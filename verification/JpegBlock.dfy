/** Decoding one 8x8 block of a sequential scan, as sections F.2.2.1 and F.2.2.2 of ITU-T T.81
    describe it: the coefficients are a function of the coded bits, code by code. */
module JpegBlock {
  import opened Bits
  import opened JpegStream
  import opened JpegCode
  import opened JpegHuffman

  /** Where zigzag position k lies in the row-major block; positions past the end of the block,
      which a corrupt run can reach, all mean the last coefficient. */
  const DEZIGZAG: seq<nat> := ZIG0 + ZIG1 + ZIG2 + ZIG3 + PAST_END

  const ZIG0: seq<nat> := [0, 1, 8, 16, 9, 2, 3, 10, 17, 24, 32, 25, 18, 11, 4, 5]
  const ZIG1: seq<nat> := [12, 19, 26, 33, 40, 48, 41, 34, 27, 20, 13, 6, 7, 14, 21, 28]
  const ZIG2: seq<nat> := [35, 42, 49, 56, 57, 50, 43, 36, 29, 22, 15, 23, 30, 37, 44, 51]
  const ZIG3: seq<nat> := [58, 59, 52, 45, 38, 31, 39, 46, 53, 60, 61, 54, 47, 55, 62, 63]
  const PAST_END: seq<nat> := [63, 63, 63, 63, 63, 63, 63, 63, 63, 63, 63, 63, 63, 63, 63]

  /** Row-major index of zigzag position k. */
  function Dezigzag(k: nat): (z: nat)
    requires k < 79
    ensures z < 64
  {
    Parts(k);
    DEZIGZAG[k]
  }

  function Part(k: nat): nat
    requires k < 79
  {
    if k < 16 then ZIG0[k] else if k < 32 then ZIG1[k - 16] else if k < 48 then ZIG2[k - 32]
    else if k < 64 then ZIG3[k - 48] else PAST_END[k - 64]
  }

  lemma Parts(k: nat)
    requires k < 79
    ensures |DEZIGZAG| == 79 && DEZIGZAG[k] == Part(k) < 64
  {
    Joined(ZIG0, ZIG1, ZIG2, ZIG3, PAST_END, k);
    PartBound(k);
  }

  lemma Joined(a: seq<nat>, b: seq<nat>, c: seq<nat>, d: seq<nat>, e: seq<nat>, k: nat)
    requires |a| == 16 == |b| && |c| == 16 == |d| && |e| == 15 && k < 79
    ensures |a + b + c + d + e| == 79
    ensures (a + b + c + d + e)[k] == if k < 16 then a[k] else if k < 32 then b[k - 16] else if k < 48 then c[k - 32]
                                      else if k < 64 then d[k - 48] else e[k - 64]
  {
  }

  lemma PartBound(k: nat)
    requires k < 79
    ensures Part(k) < 64
  {
  }

  /** One coefficient further along the diagonals of the block (figure A.6). */
  function Onward(z: nat): nat
    requires z < 64
  {
    var row, col := z / 8, z % 8;
    if (row + col) % 2 == 0 then
      if col == 7 then z + 8 else if row == 0 then z + 1 else z - 7
    else
      if row == 7 then z + 1 else if col == 0 then z + 8 else z + 7
  }

  lemma Walk0(k: nat)
    requires k < 15
    ensures ZIG0[k] < 63 && ZIG0[k + 1] == Onward(ZIG0[k])
  {
  }

  lemma Walk1(k: nat)
    requires k < 15
    ensures ZIG1[k] < 63 && ZIG1[k + 1] == Onward(ZIG1[k])
  {
  }

  lemma Walk2(k: nat)
    requires k < 15
    ensures ZIG2[k] < 63 && ZIG2[k + 1] == Onward(ZIG2[k])
  {
  }

  lemma Walk3(k: nat)
    requires k < 15
    ensures ZIG3[k] < 63 && ZIG3[k + 1] == Onward(ZIG3[k])
  {
  }

  lemma Corners()
    ensures Onward(5) == 12 && Onward(28) == 35 && Onward(51) == 58
  {
  }

  const ZAG0: seq<nat> := [0, 1, 5, 6, 14, 15, 27, 28, 2, 4, 7, 13, 16, 26, 29, 42]
  const ZAG1: seq<nat> := [3, 8, 12, 17, 25, 30, 41, 43, 9, 11, 18, 24, 31, 40, 44, 53]
  const ZAG2: seq<nat> := [10, 19, 23, 32, 39, 45, 52, 54, 20, 22, 33, 38, 46, 51, 55, 60]
  const ZAG3: seq<nat> := [21, 34, 37, 47, 50, 56, 59, 61, 35, 36, 48, 49, 57, 58, 62, 63]

  /** The zigzag position of row-major index z. */
  function Zigzag(z: nat): (k: nat)
    requires z < 64
  {
    if z < 16 then ZAG0[z] else if z < 32 then ZAG1[z - 16] else if z < 48 then ZAG2[z - 32] else ZAG3[z - 48]
  }

  lemma There0(k: nat)
    requires k < 16
    ensures ZIG0[k] < 64 && Zigzag(ZIG0[k]) == k
  {
  }

  lemma There1(k: nat)
    requires k < 16
    ensures ZIG1[k] < 64 && Zigzag(ZIG1[k]) == 16 + k
  {
  }

  lemma There2(k: nat)
    requires k < 16
    ensures ZIG2[k] < 64 && Zigzag(ZIG2[k]) == 32 + k
  {
  }

  lemma There3(k: nat)
    requires k < 16
    ensures ZIG3[k] < 64 && Zigzag(ZIG3[k]) == 48 + k
  {
  }

  /** Every zigzag position has its own place in the block. */
  lemma ZigzagThere(k: nat)
    requires k < 64
    ensures Zigzag(Dezigzag(k)) == k
  {
    hide Zigzag;
    Parts(k);
    if k < 16 {
      There0(k);
    } else if k < 32 {
      There1(k - 16);
    } else if k < 48 {
      There2(k - 32);
    } else {
      There3(k - 48);
    }
  }

  lemma Back0(z: nat)
    requires z < 16
    ensures ZAG0[z] < 64 && Part(ZAG0[z]) == z
  {
  }

  lemma Back1(z: nat)
    requires z < 16
    ensures ZAG1[z] < 64 && Part(ZAG1[z]) == 16 + z
  {
  }

  lemma Back2(z: nat)
    requires z < 16
    ensures ZAG2[z] < 64 && Part(ZAG2[z]) == 32 + z
  {
  }

  lemma Back3(z: nat)
    requires z < 16
    ensures ZAG3[z] < 64 && Part(ZAG3[z]) == 48 + z
  {
  }

  /** And every place in the block has a zigzag position. */
  lemma ZigzagBack(z: nat)
    requires z < 64
    ensures Zigzag(z) < 64 && Dezigzag(Zigzag(z)) == z
  {
    hide Part;
    if z < 16 {
      Back0(z);
    } else if z < 32 {
      Back1(z - 16);
    } else if z < 48 {
      Back2(z - 32);
    } else {
      Back3(z - 48);
    }
    Parts(Zigzag(z));
  }

  /** The table is the diagonal walk from the DC coefficient. */
  lemma ZigzagWalk(k: nat)
    requires k < 63
    ensures Dezigzag(0) == 0 && Dezigzag(k + 1) == Onward(Dezigzag(k))
  {
    Parts(0);
    Parts(k);
    Parts(k + 1);
    Corners();
    hide Onward;
    if k < 15 {
      Walk0(k);
    } else if 16 <= k < 31 {
      Walk1(k - 16);
    } else if 32 <= k < 47 {
      Walk2(k - 32);
    } else if 48 <= k {
      Walk3(k - 48);
    }
  }

  /** A cast to a 16-bit signed integer. */
  function ToShort(x: int): (r: int)
    ensures -32768 <= r < 32768 && (-32768 <= x < 32768 ==> r == x)
  {
    (x + 32768) % 65536 - 32768
  }

  /** It is the number in range that differs by a multiple of 2^16. */
  lemma ShortIs(x: int, r: int)
    ensures r == ToShort(x) <==> -32768 <= r < 32768 && (r - x) % 65536 == 0
  {
  }

  /** The number of the code at position p, -1 if the bits there start with none. */
  ghost function NextCode(s: Sizes, bytes: seq<Byte>, p: nat): (r: int)
    ensures r >= 0 ==> CodeHere(s, bytes, p, r)
    ensures r < 0 ==> r == -1 && forall i: nat :: !CodeHere(s, bytes, p, i)
  {
    if exists i: nat :: CodeHere(s, bytes, p, i) then
      var i: nat :| CodeHere(s, bytes, p, i);
      i
    else -1
  }

  lemma NextCodeIs(s: Sizes, bytes: seq<Byte>, p: nat, i: nat)
    requires CodeHere(s, bytes, p, i)
    ensures NextCode(s, bytes, p) == i
  {
    HereIsUnique(s, bytes, p, i, NextCode(s, bytes, p));
  }

  /** RECEIVE and EXTEND. */
  function Magnitude(bytes: seq<Byte>, p: nat, n: nat): int {
    Extend(Top(bytes, p, n), n)
  }

  datatype Step = BadCode | EndOfBlock(p: nat) | Next(k: nat, p: nat, data: seq<int>)

  /** One AC code at zigzag position k: a run of zeros and a value, sixteen zeros, or the end of
      the block. */
  ghost function AcStep(s: Sizes, values: seq<Byte>, dequant: seq<nat>, bytes: seq<Byte>,
                        p: nat, k: nat, data: seq<int>): (r: Step)
    requires |values| == 256 >= |s| && |dequant| == 64 == |data| && k < 64
    ensures r.Next? ==> r.k > k && |r.data| == 64
  {
    var i := NextCode(s, bytes, p);
    if i < 0 then BadCode
    else
      var run, size := values[i] / 16, values[i] % 16;
      if size == 0 then
        if run == 15 then Next(k + 16, p + s[i], data) else EndOfBlock(p + s[i])
      else
        var zig := Dezigzag(k + run);
        Next(k + run + 1, p + s[i] + size,
             data[zig := ToShort(Magnitude(bytes, p + s[i], size) * dequant[zig])])
  }

  datatype Result = Bad | Block(data: seq<int>, p: nat)

  ghost function AcCoefficients(s: Sizes, values: seq<Byte>, dequant: seq<nat>, bytes: seq<Byte>,
                                p: nat, k: nat, data: seq<int>): (r: Result)
    requires |values| == 256 >= |s| && |dequant| == 64 == |data|
    ensures r.Block? ==> |r.data| == 64
    decreases 64 - k
  {
    if k >= 64 then Block(data, p)
    else
      match AcStep(s, values, dequant, bytes, p, k, data)
      case BadCode => Bad
      case EndOfBlock(p') => Block(data, p')
      case Next(k', p', data') => AcCoefficients(s, values, dequant, bytes, p', k', data')
  }

  datatype Difference = NoCode | Diff(value: int, p: nat)

  /** The DC difference. Categories above 16 are taken for 0 without reading any bits. */
  ghost function DcDifference(s: Sizes, values: seq<Byte>, bytes: seq<Byte>, p: nat): Difference
    requires |values| == 256 >= |s|
  {
    var i := NextCode(s, bytes, p);
    if i < 0 then NoCode
    else if values[i] <= 16 then
      Diff(Magnitude(bytes, p + s[i], values[i]), p + s[i] + values[i])
    else Diff(0, p + s[i])
  }

  /** A whole block: the prediction plus the difference, and then the AC coefficients. */
  ghost function BlockAt(sdc: Sizes, vdc: seq<Byte>, sac: Sizes, vac: seq<Byte>,
                         dequant: seq<nat>, bytes: seq<Byte>, p: nat, pred: int): Result
    requires |vdc| == 256 >= |sdc| && |vac| == 256 >= |sac| && |dequant| == 64
  {
    match DcDifference(sdc, vdc, bytes, p)
    case NoCode => Bad
    case Diff(diff, p') =>
      var data := seq(64, _ => 0)[0 := ToShort((pred + diff) * dequant[0])];
      AcCoefficients(sac, vac, dequant, bytes, p', 1, data)
  }

  /** AC coefficients leave the DC coefficient alone. */
  lemma {:induction false} DcStays(s: Sizes, values: seq<Byte>, dequant: seq<nat>, bytes: seq<Byte>, p: nat, k: nat, data: seq<int>)
    requires |values| == 256 >= |s| && |dequant| == 64 == |data| && k >= 1
    ensures var r := AcCoefficients(s, values, dequant, bytes, p, k, data); r.Block? ==> r.data[0] == data[0]
    decreases 64 - k
  {
    hide NextCode, ToShort, Magnitude, Dezigzag;
    if k < 64 {
      var i := NextCode(s, bytes, p);
      if i >= 0 {
        NotFirst(k + values[i] / 16);
        var step := AcStep(s, values, dequant, bytes, p, k, data);
        if step.Next? {
          DcStays(s, values, dequant, bytes, step.p, step.k, step.data);
        }
      }
    }
  }

  lemma NotFirst(k: nat)
    requires 1 <= k < 79
    ensures Dezigzag(k) != 0
  {
    hide ZIG1, ZIG2, ZIG3;
    Parts(k);
    if k < 64 {
      ZigzagThere(k);
      ZigzagWalk(0);
      ZigzagThere(0);
    }
  }

  // ----- the combined table

  /** The magnitude bits seen in a 9-bit window are those of the stream. */
  lemma FieldIsTop(bytes: seq<Byte>, p: nat, len: nat, mag: nat)
    requires len + mag <= FAST_BITS
    ensures Field(Top(bytes, p, FAST_BITS), len, mag) == Top(bytes, p + len, mag)
  {
    hide Top, Shr, Shl, Mask, Pow2;
    TopPrefix(bytes, p, len + mag, FAST_BITS);
    TopSplit(bytes, p, len, mag);
    Unpack(Top(bytes, p + len, mag), Top(bytes, p, len), mag);
  }

  /** An entry of the combined table says what decoding the code and then its magnitude bits
      would: run, value and bits used. */
  lemma FastAgrees(h: Huffman, s: Sizes, e: int, dequant: seq<nat>, bytes: seq<Byte>,
                   p: nat, k: nat, data: seq<int>)
    requires TablesFor(h, s) && |dequant| == 64 == |data| && k < 64
    requires Top(bytes, p, FAST_BITS) < 512 && AcMeans(h, s, Top(bytes, p, FAST_BITS), e)
    ensures 0 < e % 16 <= FAST_BITS && k + e / 16 % 16 < 79
    ensures var zig := Dezigzag(k + e / 16 % 16);
            AcStep(s, h.values, dequant, bytes, p, k, data) ==
            Next(k + e / 16 % 16 + 1, p + e % 16, data[zig := ToShort(e / 256 * dequant[zig])])
  {
    hide Top, Shr, Shl, Mask, Pow2, Code, Low, LengthRow, Extend, Field, Dezigzag;
    var c := Top(bytes, p, FAST_BITS);
    var i := h.fast[c];
    assert FastEntry(s, |s|, c, i);
    MatchIsHere(s, bytes, p, i, FAST_BITS);
    NextCodeIs(s, bytes, p, i);
    var run, mag := h.values[i] / 16, h.values[i] % 16;
    FieldIsTop(bytes, p, s[i], mag);
    Unfold(Extend(Field(c, s[i], mag), mag), run, s[i] + mag);
  }

  lemma Unfold(v: int, run: nat, len: nat)
    requires run < 16 && len < 16
    ensures var e := 256 * v + 16 * run + len;
            e % 16 == len && e / 16 % 16 == run && e / 256 == v
  {
  }
}
