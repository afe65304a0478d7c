/** A writer of entropy-coded JPEG data, as the partner of the decoder: coefficients to codes and
    magnitude bits (sections F.1.2.1 and F.1.2.2 of ITU-T T.81), bits to stuffed bytes, runs of MCUs
    to a scan with restart markers. What it writes comes back. */
module JpegWriter {
  import opened Bits
  import opened JpegStream
  import opened JpegCode
  import opened JpegHuffman
  import opened JpegBlock
  import opened JpegFetch
  import opened JpegReader
  import opened JpegScan
  import JpegGeometry
  import BitWriter

  type Bit = BitWriter.Bit

  /** The coded bytes have these bits from position p on. */
  ghost predicate Written(bytes: seq<Byte>, p: nat, bits: seq<Bit>) {
    forall i: nat :: i < |bits| ==> CodedBit(bytes, p + i) == bits[i]
  }

  lemma WrittenSplit(bytes: seq<Byte>, p: nat, a: seq<Bit>, b: seq<Bit>)
    requires Written(bytes, p, a + b)
    ensures Written(bytes, p, a) && Written(bytes, p + |a|, b)
  {
    hide CodedBit;
    forall i: nat | i < |a|
      ensures CodedBit(bytes, p + i) == a[i]
    {
      assert (a + b)[i] == a[i];
    }
    forall i: nat | i < |b|
      ensures CodedBit(bytes, p + |a| + i) == b[i]
    {
      assert CodedBit(bytes, p + (|a| + i)) == (a + b)[|a| + i];
    }
  }

  /** A number in n bits, most significant first. */
  lemma {:induction false} ReadTop(bytes: seq<Byte>, p: nat, v: nat, n: nat)
    requires v < Pow2(n) && Written(bytes, p, BitWriter.CodeBits(v, n))
    ensures Top(bytes, p, n) == v
    decreases n
  {
    hide CodedBit;
    if n > 0 {
      WrittenSplit(bytes, p, BitWriter.CodeBits(v / 2, n - 1), [v % 2]);
      ReadTop(bytes, p, v / 2, n - 1);
      assert CodedBit(bytes, p + (n - 1)) == BitWriter.CodeBits(v, n)[n - 1];
    }
  }

  // ----- values

  /** The category of a value: the number of bits of its magnitude (tables F.1 and F.2). */
  function Category(v: int): nat
    decreases if v < 0 then -v else v
  {
    if v == 0 then 0 else 1 + Category(if v > 0 then v / 2 else -(-v / 2))
  }

  /** What is written for a value of its category: the value, or one less in two's complement. */
  function LowBits(v: int): int {
    if v >= 0 then v else v + Pow2(Category(v)) - 1
  }

  lemma CategoryIs(v: int)
    ensures v != 0 ==> Category(v) > 0
    ensures v > 0 ==> Pow2(Category(v)) <= 2 * v < 2 * Pow2(Category(v))
    ensures v < 0 ==> Category(v) == Category(-v)
  {
    if v > 0 {
      hide Category;
      CategoryAbove(v);
    } else if v < 0 {
      hide Pow2;
      CategoryMirror(-v);
    }
  }

  lemma {:induction false} CategoryAbove(v: nat)
    requires v > 0
    ensures Category(v) > 0 && Pow2(Category(v)) <= 2 * v < 2 * Pow2(Category(v))
  {
    if v > 1 {
      CategoryAbove(v / 2);
      assert Category(v) == 1 + Category(v / 2);
    }
  }

  lemma {:induction false} CategoryMirror(v: int)
    requires v >= 0
    ensures Category(-v) == Category(v)
  {
    if v > 0 {
      CategoryMirror(v / 2);
    }
  }

  /** EXTEND gives the value back. */
  lemma ExtendBack(v: int)
    ensures 0 <= LowBits(v) < Pow2(Category(v)) && Extend(LowBits(v), Category(v)) == v
  {
    hide Category;
    if v > 0 {
      CategoryIs(v);
    } else if v < 0 {
      CategoryIs(v);
      CategoryIs(-v);
    } else {
      ZeroCategory();
    }
  }

  lemma ZeroCategory()
    ensures Category(0) == 0
  {
  }

  function ValueBits(v: int): (bits: seq<Bit>)
    ensures |bits| == Category(v)
  {
    ExtendBack(v);
    BitWriter.CodeBits(LowBits(v), Category(v))
  }

  lemma ReadValue(bytes: seq<Byte>, p: nat, v: int)
    requires Written(bytes, p, ValueBits(v))
    ensures Magnitude(bytes, p, Category(v)) == v
  {
    hide Written, Top, Category, LowBits, BitWriter.CodeBits, Extend;
    ExtendBack(v);
    ReadTop(bytes, p, LowBits(v), Category(v));
  }

  // ----- symbols

  /** The first code for symbol x, |s| if there is none. */
  function CodeFor(s: Sizes, values: seq<Byte>, x: nat, i: nat): (k: nat)
    requires i <= |s| <= |values|
    ensures i <= k <= |s| && (k < |s| ==> values[k] == x)
    decreases |s| - i
  {
    if i == |s| || values[i] == x then i else CodeFor(s, values, x, i + 1)
  }

  predicate HasCode(s: Sizes, values: seq<Byte>, x: nat)
    requires |s| <= |values|
  {
    CodeFor(s, values, x, 0) < |s|
  }

  function SymbolBits(s: Sizes, values: seq<Byte>, x: nat): (bits: seq<Bit>)
    requires |s| <= |values| && HasCode(s, values, x)
    ensures |bits| == s[CodeFor(s, values, x, 0)]
  {
    var i := CodeFor(s, values, x, 0);
    BitWriter.CodeBits(Code(s, i), s[i])
  }

  lemma ReadSymbol(s: Sizes, values: seq<Byte>, bytes: seq<Byte>, p: nat, x: nat)
    requires Fits(s) && |s| <= |values| && HasCode(s, values, x) && Written(bytes, p, SymbolBits(s, values, x))
    ensures var i := NextCode(s, bytes, p); 0 <= i < |s| && values[i] == x && s[i] == |SymbolBits(s, values, x)|
  {
    hide Written, Top, Code, BitWriter.CodeBits, NextCode;
    var i := CodeFor(s, values, x, 0);
    CodeBound(s, i);
    ReadTop(bytes, p, Code(s, i), s[i]);
    NextCodeIs(s, bytes, p, i);
  }

  /** Under Kraft's inequality a code fits its size. */
  lemma CodeBound(s: Sizes, i: nat)
    requires Fits(s) && i < |s|
    ensures Code(s, i) < Pow2(s[i])
  {
    hide Code, Shl, Low, Pow2;
    LowIsCode(s, i);
    LowRises(s, i + 1, |s|);
    LowNext(s, i);
    ShlPow2(s[i], 16 - s[i]);
    Pow2Values();
    Pow2Positive(16 - s[i]);
    ShlMono(Pow2(s[i]), Code(s, i), 16 - s[i]);
  }

  lemma LowNext(s: Sizes, i: nat)
    requires i < |s|
    ensures Low(s, i + 1) == Low(s, i) + Pow2(16 - s[i])
  {
  }

  lemma Pow2Positive(n: nat)
    ensures Pow2(n) >= 1
  {
  }

  lemma {:induction false} LowRises(s: Sizes, i: nat, j: nat)
    requires i <= j <= |s|
    ensures Low(s, i) <= Low(s, j)
  {
    if i < j {
      LowRises(s, i, j - 1);
    }
  }

  // ----- blocks

  /** The quantized coefficients of a block, in zigzag order. */
  type Zigzagged = zz: seq<int> | |zz| == 64 witness seq(64, _ => 0)

  /** What the first k coefficients are worth, in row-major order and cut to 16 bits. */
  function Placed(zz: Zigzagged, dequant: seq<nat>, k: nat): (data: seq<int>)
    requires |dequant| == 64
    ensures |data| == 64
  {
    seq(64, z requires 0 <= z < 64 =>
      if Zigzag(z) < k && Zigzag(z) < 64 then ToShort(zz[Zigzag(z)] * dequant[z]) else 0)
  }

  /** The block that the coefficients stand for. */
  function BlockOf(zz: Zigzagged, dequant: seq<nat>): (data: seq<int>)
    requires |dequant| == 64
    ensures |data| == 64
  {
    Placed(zz, dequant, 64)
  }

  /** Each coefficient is found at its zigzag place, times its quantizer, if that fits 16 bits. */
  lemma BlockHolds(zz: Zigzagged, dequant: seq<nat>, k: nat)
    requires |dequant| == 64 && k < 64
    ensures var z := Dezigzag(k); BlockOf(zz, dequant)[z] == ToShort(zz[k] * dequant[z])
    ensures var v := zz[k] * dequant[Dezigzag(k)]; -32768 <= v < 32768 ==> BlockOf(zz, dequant)[Dezigzag(k)] == v
  {
    hide Zigzag, Dezigzag;
    ZigzagThere(k);
  }

  lemma PlaceOne(zz: Zigzagged, dequant: seq<nat>, k: nat)
    requires |dequant| == 64 && k < 64
    ensures var z := Dezigzag(k); Placed(zz, dequant, k)[z := ToShort(zz[k] * dequant[z])] == Placed(zz, dequant, k + 1)
  {
    hide Zigzag, Dezigzag, ToShort;
    var z := Dezigzag(k);
    var a, b := Placed(zz, dequant, k)[z := ToShort(zz[k] * dequant[z])], Placed(zz, dequant, k + 1);
    ZigzagThere(k);
    forall y: nat | y < 64
      ensures a[y] == b[y]
    {
      ZigzagBack(y);
    }
  }

  lemma PlaceZero(zz: Zigzagged, dequant: seq<nat>, k: nat)
    requires |dequant| == 64 && k < 64 && zz[k] == 0
    ensures Placed(zz, dequant, k) == Placed(zz, dequant, k + 1)
  {
    hide Zigzag;
  }

  const ZRL: nat := 0xF0
  const EOB: nat := 0

  /** A code for every AC symbol that coefficients from k on need, after a run of zeros. */
  predicate AcCovered(s: Sizes, values: seq<Byte>, zz: Zigzagged, k: nat, run: nat)
    requires |s| <= |values| && k <= 64
    decreases 64 - k, run
  {
    if k == 64 then run > 0 ==> HasCode(s, values, EOB)
    else if zz[k] == 0 then AcCovered(s, values, zz, k + 1, run + 1)
    else if run > 15 then HasCode(s, values, ZRL) && AcCovered(s, values, zz, k, run - 16)
    else Category(zz[k]) <= 15 && HasCode(s, values, 16 * run + Category(zz[k])) && AcCovered(s, values, zz, k + 1, 0)
  }

  /** The AC coefficients from k on (figure F.2): each as a code for the run of zeros before it and
      its category, then its bits; ZRL for sixteen zeros, EOB if zeros end the block. */
  function AcBits(s: Sizes, values: seq<Byte>, zz: Zigzagged, k: nat, run: nat): seq<Bit>
    requires |s| <= |values| && k <= 64 && AcCovered(s, values, zz, k, run)
    decreases 64 - k, run
  {
    if k == 64 then if run > 0 then SymbolBits(s, values, EOB) else []
    else if zz[k] == 0 then AcBits(s, values, zz, k + 1, run + 1)
    else if run > 15 then SymbolBits(s, values, ZRL) + AcBits(s, values, zz, k, run - 16)
    else SymbolBits(s, values, 16 * run + Category(zz[k])) + (ValueBits(zz[k]) + AcBits(s, values, zz, k + 1, 0))
  }

  /** What the decoder makes of a symbol with no value: sixteen zeros, or the end of the block. */
  lemma ReadZeros(s: Sizes, values: seq<Byte>, dequant: seq<nat>, bytes: seq<Byte>, p: nat, k: nat, data: seq<int>, x: nat)
    requires Fits(s) && |values| == 256 >= |s| && |dequant| == 64 == |data| && k < 64 && (x == ZRL || x == EOB)
    requires HasCode(s, values, x) && Written(bytes, p, SymbolBits(s, values, x))
    ensures var q := p + |SymbolBits(s, values, x)|;
            AcStep(s, values, dequant, bytes, p, k, data) == if x == ZRL then Next(k + 16, q, data) else EndOfBlock(q)
  {
    hide Written, NextCode, SymbolBits, HasCode, Fits, AcStep;
    ReadSymbol(s, values, bytes, p, x);
    StepWithout(s, values, dequant, bytes, p, k, data, NextCode(s, bytes, p), x);
  }

  lemma StepWithout(s: Sizes, values: seq<Byte>, dequant: seq<nat>, bytes: seq<Byte>, p: nat, k: nat, data: seq<int>, i: nat, x: nat)
    requires |values| == 256 >= |s| && |dequant| == 64 == |data| && k < 64 && i < |s| && i == NextCode(s, bytes, p)
    requires values[i] == x && (x == ZRL || x == EOB)
    ensures AcStep(s, values, dequant, bytes, p, k, data)
            == if x == ZRL then Next(k + 16, p + s[i], data) else EndOfBlock(p + s[i])
  {
    hide NextCode, Magnitude, Dezigzag, ToShort;
  }

  /** And of a symbol with one. */
  lemma ReadCoefficient(s: Sizes, values: seq<Byte>, dequant: seq<nat>, bytes: seq<Byte>, p: nat, k: nat, data: seq<int>, run: nat, v: int)
    requires Fits(s) && |values| == 256 >= |s| && |dequant| == 64 == |data| && k < 64 && run <= 15 && v != 0 && Category(v) <= 15
    requires HasCode(s, values, 16 * run + Category(v))
    requires Written(bytes, p, SymbolBits(s, values, 16 * run + Category(v)) + ValueBits(v))
    ensures var q := p + |SymbolBits(s, values, 16 * run + Category(v))| + Category(v);
            var z := Dezigzag(k + run);
            AcStep(s, values, dequant, bytes, p, k, data) == Next(k + run + 1, q, data[z := ToShort(v * dequant[z])])
  {
    hide Written, NextCode, SymbolBits, HasCode, Fits, Category, Magnitude, ValueBits, Dezigzag, ToShort, AcStep;
    var n := Category(v);
    var bits := SymbolBits(s, values, 16 * run + n);
    WrittenSplit(bytes, p, bits, ValueBits(v));
    CategoryIs(v);
    ReadSymbol(s, values, bytes, p, 16 * run + n);
    ReadValue(bytes, p + |bits|, v);
    var i := NextCode(s, bytes, p);
    Nibbles(run, n, values[i]);
    StepWith(s, values, dequant, bytes, p, k, data, i, run, n);
  }

  lemma StepWith(s: Sizes, values: seq<Byte>, dequant: seq<nat>, bytes: seq<Byte>, p: nat, k: nat, data: seq<int>, i: nat, run: nat, n: nat)
    requires |values| == 256 >= |s| && |dequant| == 64 == |data| && k < 64 && i < |s| && i == NextCode(s, bytes, p)
    requires run <= 15 && 1 <= n <= 15 && values[i] / 16 == run && values[i] % 16 == n
    ensures var z := Dezigzag(k + run);
            AcStep(s, values, dequant, bytes, p, k, data)
            == Next(k + run + 1, p + s[i] + n, data[z := ToShort(Magnitude(bytes, p + s[i], n) * dequant[z])])
  {
    hide NextCode, Magnitude, Dezigzag, ToShort;
  }

  lemma Nibbles(run: nat, n: nat, x: Byte)
    requires run <= 15 && n <= 15 && x == 16 * run + n
    ensures x / 16 == run && x % 16 == n
  {
  }

  /** The decoder is at position k - run; the coefficients from there to k are zero. */
  lemma {:induction false} ReadAc(s: Sizes, values: seq<Byte>, dequant: seq<nat>, zz: Zigzagged, bytes: seq<Byte>, p: nat, k: nat, run: nat)
    requires Fits(s) && |values| == 256 >= |s| && |dequant| == 64 && 1 <= k - run <= k <= 64
    requires AcCovered(s, values, zz, k, run) && Written(bytes, p, AcBits(s, values, zz, k, run))
    requires Placed(zz, dequant, k - run) == Placed(zz, dequant, k)
    ensures AcCoefficients(s, values, dequant, bytes, p, k - run, Placed(zz, dequant, k))
            == Block(BlockOf(zz, dequant), p + |AcBits(s, values, zz, k, run)|)
    decreases 64 - k, run
  {
    hide Written, NextCode, Placed, SymbolBits, ValueBits, HasCode, Category, Magnitude, Dezigzag, ToShort, Fits, AcStep, AcCoefficients;
    var data := Placed(zz, dequant, k);
    if k == 64 {
      if run > 0 {
        ReadZeros(s, values, dequant, bytes, p, k - run, data, EOB);
      }
      AcOnward(s, values, dequant, bytes, p, k - run, data);
    } else if zz[k] == 0 {
      PlaceZero(zz, dequant, k);
      ReadAc(s, values, dequant, zz, bytes, p, k + 1, run + 1);
    } else if run > 15 {
      var bits := SymbolBits(s, values, ZRL);
      WrittenSplit(bytes, p, bits, AcBits(s, values, zz, k, run - 16));
      ReadZeros(s, values, dequant, bytes, p, k - run, data, ZRL);
      AcOnward(s, values, dequant, bytes, p, k - run, data);
      PlacedBetween(zz, dequant, k - run, k - run + 16, k);
      ReadAc(s, values, dequant, zz, bytes, p + |bits|, k, run - 16);
    } else {
      var v, rest := zz[k], AcBits(s, values, zz, k + 1, 0);
      var bits := SymbolBits(s, values, 16 * run + Category(v)) + ValueBits(v);
      assert AcBits(s, values, zz, k, run) == bits + rest;
      WrittenSplit(bytes, p, bits, rest);
      ReadNonzero(s, values, dequant, zz, bytes, p, k, run, bits);
      ReadAc(s, values, dequant, zz, bytes, p + |bits|, k + 1, 0);
    }
  }

  lemma AcOnward(s: Sizes, values: seq<Byte>, dequant: seq<nat>, bytes: seq<Byte>, p: nat, k: nat, data: seq<int>)
    requires |values| == 256 >= |s| && |dequant| == 64 == |data|
    ensures AcCoefficients(s, values, dequant, bytes, p, k, data) ==
            if k >= 64 then Block(data, p)
            else
              match AcStep(s, values, dequant, bytes, p, k, data)
              case BadCode => Bad
              case EndOfBlock(q) => Block(data, q)
              case Next(k', q, data') => AcCoefficients(s, values, dequant, bytes, q, k', data')
  {
    hide AcStep;
  }

  /** One nonzero coefficient. */
  lemma ReadNonzero(s: Sizes, values: seq<Byte>, dequant: seq<nat>, zz: Zigzagged, bytes: seq<Byte>, p: nat, k: nat, run: nat, bits: seq<Bit>)
    requires Fits(s) && |values| == 256 >= |s| && |dequant| == 64 && 1 <= k - run <= k < 64 && run <= 15
    requires zz[k] != 0 && Category(zz[k]) <= 15 && HasCode(s, values, 16 * run + Category(zz[k]))
    requires bits == SymbolBits(s, values, 16 * run + Category(zz[k])) + ValueBits(zz[k]) && Written(bytes, p, bits)
    ensures AcCoefficients(s, values, dequant, bytes, p, k - run, Placed(zz, dequant, k))
            == AcCoefficients(s, values, dequant, bytes, p + |bits|, k + 1, Placed(zz, dequant, k + 1))
  {
    hide Written, NextCode, Placed, SymbolBits, ValueBits, HasCode, Category, Magnitude, Dezigzag, ToShort, Fits, AcStep, AcCoefficients;
    var data := Placed(zz, dequant, k);
    ReadCoefficient(s, values, dequant, bytes, p, k - run, data, run, zz[k]);
    AcOnward(s, values, dequant, bytes, p, k - run, data);
    PlaceOne(zz, dequant, k);
  }

  /** Nothing was placed in between. */
  lemma PlacedBetween(zz: Zigzagged, dequant: seq<nat>, i: nat, j: nat, k: nat)
    requires |dequant| == 64 && i <= j <= k && Placed(zz, dequant, i) == Placed(zz, dequant, k)
    ensures Placed(zz, dequant, j) == Placed(zz, dequant, k)
  {
    hide Zigzag, ToShort;
    var a, b, c := Placed(zz, dequant, i), Placed(zz, dequant, j), Placed(zz, dequant, k);
    forall z: nat | z < 64
      ensures b[z] == c[z]
    {
      assert a[z] == c[z];
    }
  }

  /** A block can be written: codes for its DC difference and its AC symbols. */
  predicate Writable(c: Coding, zz: Zigzagged, pred: int)
    requires Usable(c)
  {
    && Category(zz[0] - pred) <= 15 && HasCode(c.sdc, c.vdc, Category(zz[0] - pred))
    && AcCovered(c.sac, c.vac, zz, 1, 0)
  }

  function BlockBits(c: Coding, zz: Zigzagged, pred: int): seq<Bit>
    requires Usable(c) && Writable(c, zz, pred)
  {
    SymbolBits(c.sdc, c.vdc, Category(zz[0] - pred)) + (ValueBits(zz[0] - pred) + AcBits(c.sac, c.vac, zz, 1, 0))
  }

  /** A block written is the block read, and leaves its DC coefficient as the prediction. */
  lemma ReadBlock(c: Coding, zz: Zigzagged, pred: int, bytes: seq<Byte>, p: nat)
    requires Usable(c) && Fits(c.sdc) && Fits(c.sac) && Writable(c, zz, pred) && Written(bytes, p, BlockBits(c, zz, pred))
    ensures BlockAt(c.sdc, c.vdc, c.sac, c.vac, c.dequant, bytes, p, pred) == Block(BlockOf(zz, c.dequant), p + |BlockBits(c, zz, pred)|)
    ensures JpegScan.Difference(c, bytes, p) == zz[0] - pred
  {
    hide Written, NextCode, Placed, SymbolBits, ValueBits, HasCode, Category, Magnitude, Faithful, Fits, AcCovered, AcBits,
      AcCoefficients, ToShort;
    var d := zz[0] - pred;
    var n := Category(d);
    var bits, rest := SymbolBits(c.sdc, c.vdc, n), AcBits(c.sac, c.vac, zz, 1, 0);
    WrittenSplit(bytes, p, bits, ValueBits(d) + rest);
    WrittenSplit(bytes, p + |bits|, ValueBits(d), rest);
    ReadSymbol(c.sdc, c.vdc, bytes, p, n);
    ReadValue(bytes, p + |bits|, d);
    FirstPlaced(zz, c.dequant);
    ReadAc(c.sac, c.vac, c.dequant, zz, bytes, p + |bits| + n, 1, 0);
  }

  lemma FirstPlaced(zz: Zigzagged, dequant: seq<nat>)
    requires |dequant| == 64
    ensures Placed(zz, dequant, 1) == seq(64, _ => 0)[0 := ToShort(zz[0] * dequant[0])]
  {
    hide ToShort, Zigzag;
    var a := Placed(zz, dequant, 0);
    assert a == seq(64, _ => 0);
    PlaceOne(zz, dequant, 0);
    ZigzagWalk(0);
  }

  // ----- MCUs and runs

  predicate FitCodes(cs: seq<Coding>, unit: seq<nat>)
    requires IsUnit(cs, unit)
  {
    forall i :: 0 <= i < |unit| ==> Fits(cs[unit[i]].sdc) && Fits(cs[unit[i]].sac)
  }

  /** The blocks of one MCU, each predicted from the last of its component. */
  predicate WritableMcu(cs: seq<Coding>, unit: seq<nat>, mcu: seq<Zigzagged>, preds: seq<int>)
    requires IsUnit(cs, unit) && |preds| == 4
    decreases |unit|
  {
    |mcu| == |unit| &&
    (unit == [] || (Writable(cs[unit[0]], mcu[0], preds[unit[0]])
                    && WritableMcu(cs, unit[1..], mcu[1..], preds[unit[0] := mcu[0][0]])))
  }

  function McuBits(cs: seq<Coding>, unit: seq<nat>, mcu: seq<Zigzagged>, preds: seq<int>): seq<Bit>
    requires IsUnit(cs, unit) && |preds| == 4 && WritableMcu(cs, unit, mcu, preds)
    decreases |unit|
  {
    if unit == [] then []
    else BlockBits(cs[unit[0]], mcu[0], preds[unit[0]]) + McuBits(cs, unit[1..], mcu[1..], preds[unit[0] := mcu[0][0]])
  }

  /** The predictions that an MCU leaves: the last DC coefficient of each component. */
  function PredsAfter(unit: seq<nat>, mcu: seq<Zigzagged>, preds: seq<int>): (r: seq<int>)
    requires |mcu| == |unit| && |preds| == 4 && forall i :: 0 <= i < |unit| ==> unit[i] < 4
    ensures |r| == 4
    decreases |unit|
  {
    if unit == [] then preds else PredsAfter(unit[1..], mcu[1..], preds[unit[0] := mcu[0][0]])
  }

  function McuBlocks(cs: seq<Coding>, unit: seq<nat>, mcu: seq<Zigzagged>): (r: seq<seq<int>>)
    requires IsUnit(cs, unit) && |mcu| == |unit|
    ensures |r| == |mcu|
  {
    seq(|mcu|, i requires 0 <= i < |mcu| => BlockOf(mcu[i], cs[unit[i]].dequant))
  }

  lemma {:induction false} ReadMcu(cs: seq<Coding>, unit: seq<nat>, mcu: seq<Zigzagged>, preds: seq<int>, bytes: seq<Byte>, p: nat)
    requires IsUnit(cs, unit) && FitCodes(cs, unit) && |preds| == 4 && WritableMcu(cs, unit, mcu, preds)
    requires Written(bytes, p, McuBits(cs, unit, mcu, preds))
    ensures McuAt(cs, unit, bytes, p, preds)
            == Mcu(McuBlocks(cs, unit, mcu), p + |McuBits(cs, unit, mcu, preds)|, PredsAfter(unit, mcu, preds))
    decreases |unit|
  {
    hide Written, BlockAt, Faithful, Writable, BlockBits, BlockOf, JpegScan.Difference, Fits;
    if unit != [] {
      var n, c := unit[0], cs[unit[0]];
      var bits := BlockBits(c, mcu[0], preds[n]);
      var rest := preds[n := mcu[0][0]];
      WrittenSplit(bytes, p, bits, McuBits(cs, unit[1..], mcu[1..], rest));
      ReadBlock(c, mcu[0], preds[n], bytes, p);
      assert forall i :: 0 <= i < |unit[1..]| ==> unit[1..][i] == unit[i + 1];
      ReadMcu(cs, unit[1..], mcu[1..], rest, bytes, p + |bits|);
      assert McuBlocks(cs, unit, mcu) == [BlockOf(mcu[0], c.dequant)] + McuBlocks(cs, unit[1..], mcu[1..]);
    }
  }

  predicate WritableRun(cs: seq<Coding>, unit: seq<nat>, mcus: seq<seq<Zigzagged>>, preds: seq<int>)
    requires IsUnit(cs, unit) && |preds| == 4
    decreases |mcus|
  {
    mcus == [] || (WritableMcu(cs, unit, mcus[0], preds) && WritableRun(cs, unit, mcus[1..], PredsAfter(unit, mcus[0], preds)))
  }

  function RunBits(cs: seq<Coding>, unit: seq<nat>, mcus: seq<seq<Zigzagged>>, preds: seq<int>): seq<Bit>
    requires IsUnit(cs, unit) && |preds| == 4 && WritableRun(cs, unit, mcus, preds)
    decreases |mcus|
  {
    if mcus == [] then []
    else McuBits(cs, unit, mcus[0], preds) + RunBits(cs, unit, mcus[1..], PredsAfter(unit, mcus[0], preds))
  }

  /** All blocks of the MCUs, in order. */
  function AllBlocks(cs: seq<Coding>, unit: seq<nat>, mcus: seq<seq<Zigzagged>>): seq<seq<int>>
    requires IsUnit(cs, unit) && forall i :: 0 <= i < |mcus| ==> |mcus[i]| == |unit|
  {
    if mcus == [] then [] else McuBlocks(cs, unit, mcus[0]) + AllBlocks(cs, unit, mcus[1..])
  }

  /** What follows a run of MCUs that fills the restart interval, or the scan. */
  ghost function AfterRun(cs: seq<Coding>, unit: seq<nat>, d: seq<Byte>, left: nat, interval: nat): Outcome
    requires IsUnit(cs, unit) && interval >= 1
  {
    if left == 0 then Blocks([]) else ScanFrom(cs, unit, AfterMarker(d), 0, RESET, left, interval, interval)
  }

  /** A run written is the run read; then comes the next one, if a restart marker ends it and only
      padding is left before that. */
  lemma {:induction false} ReadRun(cs: seq<Coding>, unit: seq<nat>, mcus: seq<seq<Zigzagged>>, preds: seq<int>, d: seq<Byte>, p: nat,
                                   left: nat, todo: nat, interval: nat)
    requires IsUnit(cs, unit) && FitCodes(cs, unit) && |preds| == 4 && WritableRun(cs, unit, mcus, preds) && interval >= 1
    requires mcus != [] && |mcus| <= left && |mcus| <= todo && (|mcus| == left || |mcus| == todo)
    requires forall i :: 0 <= i < |mcus| ==> |mcus[i]| == |unit|
    requires Written(Entropy(d), p, RunBits(cs, unit, mcus, preds))
    requires |mcus| < left ==> IsRestart(MarkerAfter(d)) && 8 * |Entropy(d)| - (p + |RunBits(cs, unit, mcus, preds)|) < 24
    ensures ScanFrom(cs, unit, d, p, preds, left, todo, interval)
            == Prepend(AllBlocks(cs, unit, mcus), AfterRun(cs, unit, d, left - |mcus|, interval))
    decreases |mcus|
  {
    hide Written, Entropy, MarkerAfter, AfterMarker, McuAt, McuBits, WritableMcu, McuBlocks, Usable, FitCodes, ScanFrom, AfterMcu;
    var bits, next := McuBits(cs, unit, mcus[0], preds), PredsAfter(unit, mcus[0], preds);
    WrittenSplit(Entropy(d), p, bits, RunBits(cs, unit, mcus[1..], next));
    ReadMcu(cs, unit, mcus[0], preds, Entropy(d), p);
    var blocks := McuBlocks(cs, unit, mcus[0]);
    ScanStep(cs, unit, d, p, preds, left, todo, interval, blocks, p + |bits|, next);
    if |mcus| > 1 {
      hide AfterRun;
      ReadRun(cs, unit, mcus[1..], next, d, p + |bits|, left - 1, todo - 1, interval);
      PrependAll(blocks, AllBlocks(cs, unit, mcus[1..]), AfterRun(cs, unit, d, left - |mcus|, interval));
    } else {
      assert AllBlocks(cs, unit, mcus) == blocks by {
        assert blocks + [] == blocks;
      }
    }
  }

  /** One MCU of a scan: what comes after it, in the run or behind its marker. */
  lemma ScanStep(cs: seq<Coding>, unit: seq<nat>, d: seq<Byte>, p: nat, preds: seq<int>, left: nat, todo: nat, interval: nat,
                 blocks: seq<seq<int>>, q: nat, next: seq<int>)
    requires IsUnit(cs, unit) && |preds| == 4 == |next| && todo >= 1 && interval >= 1 && left >= 1
    requires McuAt(cs, unit, Entropy(d), p, preds) == Mcu(blocks, q, next)
    ensures left > 1 && todo > 1 ==>
      ScanFrom(cs, unit, d, p, preds, left, todo, interval)
      == Prepend(blocks, ScanFrom(cs, unit, d, q, next, left - 1, todo - 1, interval))
    ensures left == 1 || (todo == 1 && IsRestart(MarkerAfter(d)) && 8 * |Entropy(d)| - q < 24) ==>
      ScanFrom(cs, unit, d, p, preds, left, todo, interval) == Prepend(blocks, AfterRun(cs, unit, d, left - 1, interval))
  {
    hide Entropy, MarkerAfter, AfterMarker, McuAt, Usable;
  }

  // ----- bytes

  /** The number with these bits, most significant first. */
  function TopValue(bits: seq<Bit>): nat {
    if bits == [] then 0 else 2 * TopValue(bits[..|bits| - 1]) + bits[|bits| - 1]
  }

  lemma {:induction false} TopValueBits(bits: seq<Bit>, i: nat)
    requires i < |bits|
    ensures TopValue(bits) < Pow2(|bits|) && BitOf(TopValue(bits), |bits| - 1 - i) == bits[i]
    decreases |bits|
  {
    var n := |bits| - 1;
    var v := TopValue(bits[..n]);
    assert (2 * v + bits[n]) % 2 == bits[n] && (2 * v + bits[n]) / 2 == v;
    if n > 0 {
      TopValueBits(bits[..n], if i < n then i else 0);
    }
  }

  /** Filled up with ones to whole bytes. */
  function Padded(bits: seq<Bit>): (r: seq<Bit>)
    ensures |r| % 8 == 0 && |bits| <= |r| < |bits| + 8 && r[..|bits|] == bits
  {
    bits + seq((8 - |bits| % 8) % 8, _ => 1)
  }

  function Bytes(bits: seq<Bit>): (r: seq<Byte>)
    requires |bits| % 8 == 0
    ensures 8 * |r| == |bits|
    decreases |bits|
  {
    if bits == [] then [] else [TopValue(bits[..8]) % 256] + Bytes(bits[8..])
  }

  lemma {:induction false} BitOfBytes(bits: seq<Bit>, i: nat)
    requires |bits| % 8 == 0 && i < |bits|
    ensures CodedBit(Bytes(bits), i) == bits[i]
    decreases |bits|
  {
    hide BitOf, TopValue;
    var r := Bytes(bits);
    if i < 8 {
      Pow2Values();
      TopValueBits(bits[..8], i);
    } else {
      BitOfBytes(bits[8..], i - 8);
      assert r[1..] == Bytes(bits[8..]);
      assert CodedByte(r, i / 8) == CodedByte(r[1..], (i - 8) / 8);
    }
  }

  lemma BytesWritten(bits: seq<Bit>)
    ensures Written(Bytes(Padded(bits)), 0, bits)
  {
    hide CodedBit, Bytes;
    forall i: nat | i < |bits|
      ensures CodedBit(Bytes(Padded(bits)), 0 + i) == bits[i]
    {
      BitOfBytes(Padded(bits), i);
      assert Padded(bits)[i] == Padded(bits)[..|bits|][i];
    }
  }

  /** A zero after every byte of all ones. */
  function Stuffed(bytes: seq<Byte>): seq<Byte> {
    if bytes == [] then []
    else (if bytes[0] == 0xFF then [0xFF, 0] else [bytes[0]]) + Stuffed(bytes[1..])
  }

  /** Unstuffing gives the bytes back, the marker behind them, and what follows it. */
  lemma {:induction false} ReadStuffed(bytes: seq<Byte>, m: Byte, tail: seq<Byte>)
    requires m != 0 && m != 0xFF
    ensures var d := Stuffed(bytes) + ([0xFF, m] + tail);
            Entropy(d) == bytes && MarkerAfter(d) == m && AfterMarker(d) == tail
    decreases |bytes|
  {
    var end := [0xFF, m] + tail;
    if bytes == [] {
      assert Stuffed(bytes) + end == end;
      ReadMarker(m, tail);
    } else {
      var rest := Stuffed(bytes[1..]) + end;
      ReadStuffed(bytes[1..], m, tail);
      hide Entropy, MarkerAfter, AfterMarker;
      if bytes[0] == 0xFF {
        assert Stuffed(bytes) + end == [0xFF, 0] + rest;
      } else {
        assert Stuffed(bytes) + end == [bytes[0]] + rest;
      }
      ReadOneByte(bytes[0], rest);
    }
  }

  lemma ReadMarker(m: Byte, tail: seq<Byte>)
    requires m != 0 && m != 0xFF
    ensures var d := [0xFF, m] + tail; Entropy(d) == [] && MarkerAfter(d) == m && AfterMarker(d) == tail
  {
    var d := [0xFF, m] + tail;
    assert d[1..] == [m] + tail;
    assert SkipFill(d[1..]) == d[1..];
    assert d[1..][1..] == tail;
  }

  lemma ReadOneByte(b: Byte, rest: seq<Byte>)
    ensures var d := (if b == 0xFF then [0xFF, 0] else [b]) + rest;
            Entropy(d) == [b] + Entropy(rest) && MarkerAfter(d) == MarkerAfter(rest) && AfterMarker(d) == AfterMarker(rest)
  {
    var d := (if b == 0xFF then [0xFF, 0] else [b]) + rest;
    if b == 0xFF {
      assert d[1..] == [0] + rest;
      assert SkipFill(d[1..]) == d[1..];
      assert d[1..][1..] == rest;
    } else {
      assert d[1..] == rest;
    }
  }

  // ----- whole scans

  const EOI: Byte := 0xD9

  /** Every run can be written with its predictions reset. */
  predicate WritableScan(cs: seq<Coding>, unit: seq<nat>, mcus: seq<seq<Zigzagged>>, interval: nat)
    requires IsUnit(cs, unit) && interval >= 1
    decreases |mcus|
  {
    if |mcus| <= interval then WritableRun(cs, unit, mcus, RESET)
    else WritableRun(cs, unit, mcus[..interval], RESET) && WritableScan(cs, unit, mcus[interval..], interval)
  }

  function RunBytes(cs: seq<Coding>, unit: seq<nat>, mcus: seq<seq<Zigzagged>>): seq<Byte>
    requires IsUnit(cs, unit) && WritableRun(cs, unit, mcus, RESET)
  {
    Stuffed(Bytes(Padded(RunBits(cs, unit, mcus, RESET))))
  }

  /** A scan: runs of `interval` MCUs with the markers RST0 to RST7 in turn between them, r being the
      next, and the end of the image. */
  function ScanBytes(cs: seq<Coding>, unit: seq<nat>, mcus: seq<seq<Zigzagged>>, interval: nat, r: nat, tail: seq<Byte>): seq<Byte>
    requires IsUnit(cs, unit) && interval >= 1 && WritableScan(cs, unit, mcus, interval) && r < 8
    decreases |mcus|
  {
    ScanSplits(cs, unit, mcus, interval);
    if |mcus| <= interval then RunBytes(cs, unit, mcus) + ([0xFF, EOI] + tail)
    else
      var rest := ScanBytes(cs, unit, mcus[interval..], interval, if r == 7 then 0 else r + 1, tail);
      RunBytes(cs, unit, mcus[..interval]) + ([0xFF, RST[r]] + rest)
  }

  lemma ScanSplits(cs: seq<Coding>, unit: seq<nat>, mcus: seq<seq<Zigzagged>>, interval: nat)
    requires IsUnit(cs, unit) && interval >= 1 && WritableScan(cs, unit, mcus, interval)
    ensures |mcus| <= interval ==> WritableRun(cs, unit, mcus, RESET)
    ensures |mcus| > interval ==>
      WritableRun(cs, unit, mcus[..interval], RESET) && WritableScan(cs, unit, mcus[interval..], interval)
  {
    hide IsUnit, WritableRun;
  }

  lemma {:induction false} BlocksSplit(cs: seq<Coding>, unit: seq<nat>, mcus: seq<seq<Zigzagged>>, n: nat)
    requires IsUnit(cs, unit) && n <= |mcus| && forall i :: 0 <= i < |mcus| ==> |mcus[i]| == |unit|
    ensures AllBlocks(cs, unit, mcus) == AllBlocks(cs, unit, mcus[..n]) + AllBlocks(cs, unit, mcus[n..])
    decreases n
  {
    hide McuBlocks, IsUnit;
    if n > 0 {
      BlocksSplit(cs, unit, mcus[1..], n - 1);
      assert mcus[..n][1..] == mcus[1..][..n - 1] && mcus[1..][n - 1..] == mcus[n..];
    } else {
      assert mcus[..0] == [] && mcus[0..] == mcus;
    }
  }

  /** Whatever coefficients are written, with whatever restart interval, come back. */
  lemma {:induction false} ScanRoundTrip(cs: seq<Coding>, unit: seq<nat>, mcus: seq<seq<Zigzagged>>, interval: nat, r: nat, tail: seq<Byte>)
    requires IsUnit(cs, unit) && FitCodes(cs, unit) && interval >= 1 && WritableScan(cs, unit, mcus, interval) && r < 8
    requires forall i :: 0 <= i < |mcus| ==> |mcus[i]| == |unit|
    ensures ScanFrom(cs, unit, ScanBytes(cs, unit, mcus, interval, r, tail), 0, RESET, |mcus|, interval, interval)
            == Blocks(AllBlocks(cs, unit, mcus))
    decreases |mcus|
  {
    hide Written, Entropy, MarkerAfter, AfterMarker, Stuffed, Bytes, WritableRun, RunBits, Usable, FitCodes, AfterMcu, McuAt, AllBlocks;
    var d := ScanBytes(cs, unit, mcus, interval, r, tail);
    if mcus == [] {
      NoBlocks(cs, unit);
    } else if |mcus| <= interval {
      var bits := RunBits(cs, unit, mcus, RESET);
      ReadStuffed(Bytes(Padded(bits)), EOI, tail);
      BytesWritten(bits);
      ReadRun(cs, unit, mcus, RESET, d, 0, |mcus|, interval, interval);
      PrependToNothing(AllBlocks(cs, unit, mcus));
    } else {
      var run, rest := mcus[..interval], mcus[interval..];
      var bits, next := RunBits(cs, unit, run, RESET), ScanBytes(cs, unit, rest, interval, if r == 7 then 0 else r + 1, tail);
      RestartMarkers(RST[r]);
      ReadStuffed(Bytes(Padded(bits)), RST[r], next);
      BytesWritten(bits);
      ReadRun(cs, unit, run, RESET, d, 0, |mcus|, interval, interval);
      ScanRoundTrip(cs, unit, rest, interval, if r == 7 then 0 else r + 1, tail);
      BlocksSplit(cs, unit, mcus, interval);
    }
  }

  lemma NoBlocks(cs: seq<Coding>, unit: seq<nat>)
    requires IsUnit(cs, unit)
    ensures AllBlocks(cs, unit, []) == []
  {
  }

  lemma LoadedCodesFit(cs: seq<Coding>, tabs: seq<Tables>, order: seq<nat>, unit: seq<nat>)
    requires AllLoaded(cs, tabs, order) && IsUnit(cs, unit) && forall i :: 0 <= i < |unit| ==> unit[i] in order
    ensures FitCodes(cs, unit)
  {
    hide AcSound, Usable, Fits;
    forall i | 0 <= i < |unit|
      ensures Fits(cs[unit[i]].sdc) && Fits(cs[unit[i]].sac)
    {
      var k :| 0 <= k < |order| && order[k] == unit[i];
      assert Loaded(cs[order[k]], tabs[order[k]]);
    }
  }

  /** The reader itself returns the blocks of a scan of one component n, h rows of w, that was
      written. */
  method DecodeScan(n: nat, cs: seq<Coding>, tabs: seq<Tables>, mcus: seq<seq<Zigzagged>>, w: nat, h: nat, restart: nat, tail: seq<Byte>)
    returns (blocks: seq<seq<int>>)
    requires AllLoaded(cs, tabs, [n]) && IsUnit(cs, [n]) && |mcus| == Times(h, w)
    requires WritableScan(cs, [n], mcus, Interval(restart)) && forall i :: 0 <= i < |mcus| ==> |mcus[i]| == 1
    ensures blocks == AllBlocks(cs, [n], mcus)
  {
    hide IsUnit, FitCodes, WritableScan, ScanBytes, ScanFrom, ReadFrom, AllBlocks, AllLoaded, Times, Entropy;
    LoadedCodesFit(cs, tabs, [n], [n]);
    ScanRoundTrip(cs, [n], mcus, Interval(restart), 0, tail);
    var d := ScanBytes(cs, [n], mcus, Interval(restart), 0, tail);
    var j := new Jpeg(d);
    assert j.data[j.at..] == d;
    var ok;
    ok, blocks := ParseScan(j, n, cs, tabs, w, h, restart);
  }

  /** And those of an interleaved scan of mx by my MCUs. */
  method DecodeInterleaved(comps: seq<JpegGeometry.Component>, order: seq<nat>, cs: seq<Coding>, tabs: seq<Tables>,
                           mcus: seq<seq<Zigzagged>>, mx: nat, my: nat, restart: nat, tail: seq<Byte>)
    returns (blocks: seq<seq<int>>)
    requires AllLoaded(cs, tabs, order) && (forall i :: 0 <= i < |order| ==> order[i] < |comps|) && |mcus| == Times(my, mx)
    requires var unit := UnitOf(comps, order, 0);
             && IsUnit(cs, unit) && WritableScan(cs, unit, mcus, Interval(restart))
             && forall i :: 0 <= i < |mcus| ==> |mcus[i]| == |unit|
    ensures blocks == AllBlocks(cs, UnitOf(comps, order, 0), mcus)
  {
    hide IsUnit, FitCodes, WritableScan, ScanBytes, ScanFrom, ReadFrom, AllBlocks, AllLoaded, Times, Entropy, UnitOf;
    ghost var unit := UnitOf(comps, order, 0);
    forall i | 0 <= i < |unit|
      ensures unit[i] in order
    {
      UnitMembers(comps, order, 0, i);
    }
    LoadedCodesFit(cs, tabs, order, unit);
    ScanRoundTrip(cs, unit, mcus, Interval(restart), 0, tail);
    var d := ScanBytes(cs, UnitOf(comps, order, 0), mcus, Interval(restart), 0, tail);
    var j := new Jpeg(d);
    assert j.data[j.at..] == d;
    var ok;
    ok, blocks := ParseInterleaved(j, comps, order, cs, tabs, mx, my, restart);
  }
}
