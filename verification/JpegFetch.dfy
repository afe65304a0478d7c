/** How far the JPEG reader has read ahead of the bits it has used, as a function of the coded
    stream and of the tables it uses. It decides whether a marker has been met when one is due. */
module JpegFetch {
  import opened Bits
  import opened JpegStream
  import opened JpegCode
  import opened JpegHuffman
  import opened JpegBlock

  /** A run of coded bytes, and whether a marker ends it. */
  datatype Run = Run(len: nat, marked: bool)

  function RunOf(d: seq<Byte>): Run {
    Run(|Entropy(d)|, MarkerAfter(d) != 0)
  }

  /** The bytes taken into the buffer, and whether the marker behind the run has been met. */
  datatype Ahead = Ahead(f: nat, met: bool)

  /** A refill at bit p takes bytes until more than 24 bits are buffered, unless it meets the
      marker; behind the marker it takes zeros. */
  function Refill(run: Run, p: nat, a: Ahead): Ahead {
    if !a.met && run.marked && p / 8 + 4 > run.len then Ahead(run.len, true) else Ahead(p / 8 + 4, a.met)
  }

  /** The buffer is refilled if it has fewer than n bits. */
  function Have(run: Run, p: nat, a: Ahead, n: nat): Ahead {
    if 8 * a.f - p < n then Refill(run, p, a) else a
  }

  // ----- a block

  ghost function AheadDc(s: Sizes, values: seq<Byte>, run: Run, bytes: seq<Byte>, p: nat, a: Ahead): Ahead
    requires |values| == 256 >= |s|
  {
    var b := Have(run, p, Have(run, p, a, 16), 16);
    var i := NextCode(s, bytes, p);
    if i >= 0 && values[i] != 0 then Have(run, p + s[i], b, values[i]) else b
  }

  /** One AC code. Where the combined table has an entry, no more is taken than for the lookup. */
  ghost function AheadAc(s: Sizes, values: seq<Byte>, fac: seq<int>, run: Run, bytes: seq<Byte>, p: nat, a: Ahead): Ahead
    requires |values| == 256 >= |s|
  {
    var b := Have(run, p, a, 16);
    var c := Top(bytes, p, FAST_BITS);
    if c < |fac| && fac[c] != 0 then b else AheadSlow(s, values, run, bytes, p, b)
  }

  ghost function AheadSlow(s: Sizes, values: seq<Byte>, run: Run, bytes: seq<Byte>, p: nat, a: Ahead): Ahead
    requires |values| == 256 >= |s|
  {
    var b, i := Have(run, p, a, 16), NextCode(s, bytes, p);
    if i >= 0 && values[i] % 16 != 0 then Have(run, p + s[i], b, values[i] % 16) else b
  }

  ghost function AheadAcs(s: Sizes, values: seq<Byte>, fac: seq<int>, dequant: seq<nat>, run: Run, bytes: seq<Byte>,
                          p: nat, k: nat, data: seq<int>, a: Ahead): Ahead
    requires |values| == 256 >= |s| && |dequant| == 64 == |data|
    decreases 64 - k
  {
    if k >= 64 then a
    else
      var b := AheadAc(s, values, fac, run, bytes, p, a);
      match AcStep(s, values, dequant, bytes, p, k, data)
      case Next(k', p', data') => AheadAcs(s, values, fac, dequant, run, bytes, p', k', data', b)
      case _ => b
  }

  ghost function AheadBlock(sdc: Sizes, vdc: seq<Byte>, sac: Sizes, vac: seq<Byte>, fac: seq<int>, dequant: seq<nat>,
                            run: Run, bytes: seq<Byte>, p: nat, pred: int, a: Ahead): Ahead
    requires |vdc| == 256 >= |sdc| && |vac| == 256 >= |sac| && |dequant| == 64
  {
    match DcDifference(sdc, vdc, bytes, p)
    case NoCode => a
    case Diff(diff, p') =>
      var data := seq(64, _ => 0)[0 := ToShort((pred + diff) * dequant[0])];
      AheadAcs(sac, vac, fac, dequant, run, bytes, p', 1, data, AheadDc(sdc, vdc, run, bytes, p, a))
  }

  // ----- how far ahead that can be

  /** Before the marker is met nothing is made up; it is met from at most 32 bits away. */
  predicate Sound(run: Run, p: nat, a: Ahead) {
    (a.met ==> p + 32 >= 8 * run.len) && (!a.met && run.marked ==> a.f <= run.len)
  }

  lemma HaveSound(run: Run, p: nat, a: Ahead, n: nat, q: nat)
    requires Sound(run, p, a) && p <= q
    ensures Sound(run, q, Have(run, p, a, n))
  {
  }

  lemma DcSound(s: Sizes, values: seq<Byte>, run: Run, bytes: seq<Byte>, p: nat, a: Ahead)
    requires |values| == 256 >= |s| && Sound(run, p, a)
    ensures var d := DcDifference(s, values, bytes, p); d.Diff? ==> Sound(run, d.p, AheadDc(s, values, run, bytes, p, a))
  {
    hide Sound, Have, NextCode;
    var i := NextCode(s, bytes, p);
    HaveSound(run, p, a, 16, p);
    var b := Have(run, p, a, 16);
    if i >= 0 {
      HaveSound(run, p, b, 16, p + s[i]);
      HaveSound(run, p + s[i], Have(run, p, b, 16), values[i], p + s[i] + values[i]);
      HaveSound(run, p + s[i], Have(run, p, b, 16), values[i], p + s[i]);
    }
  }

  lemma AcSoundAhead(s: Sizes, values: seq<Byte>, fac: seq<int>, run: Run, bytes: seq<Byte>, p: nat, a: Ahead, size: nat)
    requires |values| == 256 >= |s| && Sound(run, p, a)
    requires var i := NextCode(s, bytes, p); i >= 0 && size == values[i] % 16
    ensures Sound(run, p + s[NextCode(s, bytes, p)] + size, AheadAc(s, values, fac, run, bytes, p, a))
  {
    hide Sound, Have, NextCode, Top;
    var i := NextCode(s, bytes, p);
    var b := Have(run, p, a, 16);
    HaveSound(run, p, a, 16, p);
    HaveSound(run, p, a, 16, p + s[i] + size);
    HaveSound(run, p, b, 16, p + s[i]);
    HaveSound(run, p, b, 16, p + s[i] + size);
    HaveSound(run, p + s[i], Have(run, p, b, 16), size, p + s[i] + size);
  }

  lemma {:induction false} AcsSound(s: Sizes, values: seq<Byte>, fac: seq<int>, dequant: seq<nat>, run: Run, bytes: seq<Byte>,
                                    p: nat, k: nat, data: seq<int>, a: Ahead)
    requires |values| == 256 >= |s| && |dequant| == 64 == |data| && Sound(run, p, a)
    ensures var r := AcCoefficients(s, values, dequant, bytes, p, k, data);
            r.Block? ==> Sound(run, r.p, AheadAcs(s, values, fac, dequant, run, bytes, p, k, data, a))
    decreases 64 - k
  {
    hide Sound, NextCode, Magnitude, ToShort, AheadAc, Dezigzag;
    if k < 64 {
      var i := NextCode(s, bytes, p);
      if i >= 0 {
        AcSoundAhead(s, values, fac, run, bytes, p, a, values[i] % 16);
        var step := AcStep(s, values, dequant, bytes, p, k, data);
        if step.Next? {
          AcsSound(s, values, fac, dequant, run, bytes, step.p, step.k, step.data, AheadAc(s, values, fac, run, bytes, p, a));
        }
      }
    }
  }

  lemma BlockSound(sdc: Sizes, vdc: seq<Byte>, sac: Sizes, vac: seq<Byte>, fac: seq<int>, dequant: seq<nat>,
                   run: Run, bytes: seq<Byte>, p: nat, pred: int, a: Ahead)
    requires |vdc| == 256 >= |sdc| && |vac| == 256 >= |sac| && |dequant| == 64 && Sound(run, p, a)
    ensures var r := BlockAt(sdc, vdc, sac, vac, dequant, bytes, p, pred);
            r.Block? ==> Sound(run, r.p, AheadBlock(sdc, vdc, sac, vac, fac, dequant, run, bytes, p, pred, a))
  {
    hide Sound, ToShort, AcCoefficients, AheadAcs, AheadDc, DcDifference;
    var d := DcDifference(sdc, vdc, bytes, p);
    if d.Diff? {
      DcSound(sdc, vdc, run, bytes, p, a);
      var data := seq(64, _ => 0)[0 := ToShort((pred + d.value) * dequant[0])];
      AcsSound(sac, vac, fac, dequant, run, bytes, d.p, 1, data, AheadDc(sdc, vdc, run, bytes, p, a));
    }
  }
}
